/**
 A key's own name, as one entry of its large-blob array: the entry's format,
 and the round trip from a name to an entry and back.
 */
module DeviceLabel {
  import opened Prelude
  import opened Bytes
  import opened Ctap
  import opened Cbor
  import opened CborLaws
  import Utf8

  const LABEL_FORMAT_VERSION: nat := 1
  const MAX_LABEL_CHARS: nat := 64
  const MAX_BLOB_PLAINTEXT: nat := 1024 * 1024

  const WRITER_KEYROOST := "keyroost"

  const P_VERSION: nat := 1
  const P_LABEL: nat := 2
  const P_WRITER: nat := 3

  /** One large-blob entry; `original` is the CBOR it was read as, none for one built here. */
  datatype LargeBlobEntry = LargeBlobEntry(
    ciphertext: bytes, nonce: bytes, origSize: nat, original: Option<bytes>)

  datatype Label = Label(text: string, writer: Option<string>)

  datatype LabelError =
    | InvalidLabel
    | Unsupported
    | NoPin
    | TooLargeFor(size: nat, max: nat)
    | Changed
    | FromCtap(error: CtapError)

  predicate FitsLabel(s: string) {
    1 <= |s| <= MAX_LABEL_CHARS
  }

  predicate ValidLabel(l: Label) {
    FitsLabel(l.text) && (l.writer.Some? ==> FitsLabel(l.writer.value))
  }

  /** The map a name is stored as: version, label, and the writer if there is one. */
  function LabelMap(l: Label): seq<Pair> {
    [Pair(UInt(P_VERSION), UInt(LABEL_FORMAT_VERSION)), Pair(UInt(P_LABEL), Text(l.text))]
    + if l.writer.Some? then [Pair(UInt(P_WRITER), Text(l.writer.value))] else []
  }

  function Plaintext(l: Label): Result<bytes, LabelError> {
    if !ValidLabel(l) then Err(InvalidLabel) else Ok(Encode(Map(LabelMap(l))))
  }

  /** A little-endian u16; a longer number loses its high bits. */
  function LE16(n: nat): (b: bytes)
    ensures |b| == 2
  {
    [n % 256, n / 256 % 256]
  }

  function FromLE16(low: int, high: int): int {
    low + 256 * high
  }

  /** One final stored block (RFC 1951, section 3.2.4). */
  function StoredDeflate(data: bytes): bytes {
    StoredHeader(|data| % 0x1_0000) + data
  }

  function StoredHeader(len: nat): (h: bytes)
    requires len <= 0xFFFF
    ensures |h| == 5
  {
    [0x01] + LE16(len) + LE16(0xFFFF - len)
  }

  /** Raw DEFLATE of at most `limit` bytes; only a final stored block is opened here. */
  function Inflate(c: Crypto, data: bytes, limit: nat): Option<bytes> {
    if |data| >= 5 && data[0] % 8 == 1 then
      var len, check := FromLE16(data[1], data[2]), FromLE16(data[3], data[4]);
      if len + check != 0xFFFF || |data| < 5 + len || len > limit then None else Some(data[5..5 + len])
    else c.inflateOther(data, limit)
  }

  function InflateRaw(c: Crypto, data: bytes, origSize: nat): Option<bytes> {
    if origSize > MAX_BLOB_PLAINTEXT then None else
    var out :- Inflate(c, data, origSize);
    if |out| == origSize then Some(out) else None
  }

  function EncodeEntry(c: Crypto, l: Label, nonce: bytes): Result<LargeBlobEntry, LabelError> {
    var p :- Plaintext(l);
    Ok(LargeBlobEntry(c.seal(nonce, StoredDeflate(p), |p|), nonce, |p|, None))
  }

  /** The first value stored under the unsigned key. */
  function UintKey(entries: seq<Pair>, key: nat): Option<Value> {
    if entries == [] then None
    else if entries[0].key == UInt(key) then Some(entries[0].value)
    else UintKey(entries[1..], key)
  }

  function TextThatFits(v: Option<Value>): Option<string> {
    if v.Some? && v.value.Text? && FitsLabel(v.value.text) then Some(v.value.text) else None
  }

  /** The name a plaintext holds. */
  function ReadPlaintext(p: bytes): Option<Label> {
    match Decode(p)
    case Err(_) => None
    case Ok((v, rest)) => if rest != [] || !v.Map? then None else ReadMap(v.entries)
  }

  function ReadMap(m: seq<Pair>): Option<Label> {
    var version :- UintKey(m, P_VERSION);
    if version != UInt(LABEL_FORMAT_VERSION) then None else
    var text :- TextThatFits(UintKey(m, P_LABEL));
    Some(Label(text, TextThatFits(UintKey(m, P_WRITER))))
  }

  /** The name an entry holds, or none when it is not a name entry. */
  function DecodeEntry(c: Crypto, e: LargeBlobEntry): Option<Label> {
    var compressed :- c.Open(e.nonce, e.ciphertext, e.origSize);
    var p :- InflateRaw(c, compressed, e.origSize);
    ReadPlaintext(p)
  }

  // ----- The round trip

  /** The longest plaintext there can be: two texts of 64 four-byte characters. */
  const MAX_PLAINTEXT: nat := 523

  lemma TextSize(s: string)
    requires FitsLabel(s)
    ensures |Utf8.Encode(s)| <= 256 && WellFormed(Text(s)) && |Encode(Text(s))| <= 259
  {
    Utf8.EncodeBound(s);
  }

  lemma LabelMapShape(l: Label)
    requires ValidLabel(l)
    ensures var m := LabelMap(l);
            && WellFormed(Map(m)) && Nesting(Map(m)) == 1
            && |Encode(Map(m))| <= MAX_PLAINTEXT
  {
    hide EncodePairs, NestingOfPairs, WellFormedPair, NestingOfPair, EncodePair, Utf8.Encode;
    var m := LabelMap(l);
    VersionPair();
    TextPair(P_LABEL, l.text);
    if l.writer.Some? {
      TextPair(P_WRITER, l.writer.value);
    }
    EncodePairsOfUpToThree(m);
    assert |Header(MT_MAP, |m|)| == 1;
  }

  lemma VersionPair()
    ensures var p := Pair(UInt(P_VERSION), UInt(LABEL_FORMAT_VERSION));
            WellFormedPair(p) && NestingOfPair(p) == 0 && |EncodePair(p)| == 2
  {
  }

  lemma TextPair(key: nat, s: string)
    requires key < 24 && FitsLabel(s)
    ensures var p := Pair(UInt(key), Text(s));
            WellFormedPair(p) && NestingOfPair(p) == 0 && |EncodePair(p)| <= 260
  {
    TextSize(s);
  }

  /** A map of two or three plain pairs: what it nests and how long it encodes. */
  lemma EncodePairsOfUpToThree(m: seq<Pair>)
    requires 2 <= |m| <= 3 && forall i :: 0 <= i < |m| ==> NestingOfPair(m[i]) == 0
    ensures EncodePairs(m) == EncodePair(m[0]) + EncodePair(m[1]) + if |m| == 3 then EncodePair(m[2]) else []
    ensures NestingOfPairs(m) == 0
  {
    hide EncodePair, NestingOfPair, EncodePairs, NestingOfPairs;
    var second, third := m[1..], m[2..];
    assert second[0] == m[1] && second[1..] == third;
    NoPairs();
    FirstPair(m);
    FirstPair(second);
    if |m| == 3 {
      assert third[0] == m[2] && third[1..] == [];
      FirstPair(third);
      assert EncodePair(m[2]) + [] == EncodePair(m[2]);
      assert EncodePair(m[0]) + (EncodePair(m[1]) + EncodePair(m[2]))
          == EncodePair(m[0]) + EncodePair(m[1]) + EncodePair(m[2]);
    } else {
      assert third == [];
    }
  }

  lemma FirstPair(m: seq<Pair>)
    requires m != []
    ensures EncodePairs(m) == EncodePair(m[0]) + EncodePairs(m[1..])
    ensures NestingOfPairs(m) == Max(NestingOfPair(m[0]), NestingOfPairs(m[1..]))
  {
    hide EncodePair, NestingOfPair;
  }

  lemma NoPairs()
    ensures EncodePairs([]) == [] && NestingOfPairs([]) == 0
  {
  }

  lemma InflateOfStored(c: Crypto, data: bytes)
    requires |data| <= 0xFFFF
    ensures Inflate(c, StoredDeflate(data), |data|) == Some(data)
  {
    hide StoredHeader, FromLE16, LE16;
    StoredHeaderFields(|data|);
    var d, h := StoredDeflate(data), StoredHeader(|data|);
    assert d[0] == h[0] && d[1] == h[1] && d[2] == h[2] && d[3] == h[3] && d[4] == h[4];
    assert d[5..5 + |data|] == data;
  }

  lemma StoredHeaderFields(len: nat)
    requires len <= 0xFFFF
    ensures var h := StoredHeader(len);
            h[0] == 1 && FromLE16(h[1], h[2]) == len && FromLE16(h[3], h[4]) == 0xFFFF - len
  {
    LE16Value(len);
    LE16Value(0xFFFF - len);
    hide LE16, FromLE16;
    var low, high := LE16(len), LE16(0xFFFF - len);
    var h := StoredHeader(len);
    assert h[1] == low[0] && h[2] == low[1] && h[3] == high[0] && h[4] == high[1];
  }

  lemma LE16Value(n: nat)
    requires n <= 0xFFFF
    ensures FromLE16(LE16(n)[0], LE16(n)[1]) == n
  {
  }

  lemma ReadMapOfLabel(l: Label)
    requires ValidLabel(l)
    ensures ReadMap(LabelMap(l)) == Some(l)
  {
    var m := LabelMap(l);
    assert m[1..][0] == m[1];
    assert UintKey(m[1..], P_LABEL) == Some(Text(l.text));
    if l.writer.Some? {
      assert m[1..][1..] == [m[2]];
      assert UintKey([m[2]], P_WRITER) == Some(Text(l.writer.value));
    } else {
      assert m[1..][1..] == [];
      assert UintKey(m[1..][1..], P_WRITER) == None;
    }
    assert UintKey(m[1..], P_WRITER) == UintKey(m[1..][1..], P_WRITER);
    assert UintKey(m, P_WRITER) == UintKey(m[1..], P_WRITER);
  }

  lemma ReadPlaintextOfMap(l: Label)
    requires ValidLabel(l)
    ensures ReadPlaintext(Encode(Map(LabelMap(l)))) == Some(l)
  {
    hide Encode, Nesting, WellFormed, DecodeAt, LabelMap, ReadMap;
    var m := LabelMap(l);
    LabelMapShape(l);
    RoundTrip(Map(m), []);
    assert Encode(Map(m)) + [] == Encode(Map(m));
    ReadMapOfLabel(l);
  }

  /**
   A name of 1 to 64 characters, with or without a writer of 1 to 64, written
   as an entry under any nonce reads back as itself; its plaintext is far
   under what one stored block holds. Any other name is refused.
   */
  lemma NameRoundTrip(c: Crypto, l: Label, nonce: bytes)
    requires c.Lawful() && |nonce| == 12
    ensures EncodeEntry(c, l, nonce).Ok? <==> ValidLabel(l)
    ensures ValidLabel(l) ==>
              var e := EncodeEntry(c, l, nonce).value;
              && DecodeEntry(c, e) == Some(l)
              && e.nonce == nonce && e.original == None
              && e.origSize <= MAX_PLAINTEXT && |e.ciphertext| == e.origSize + 21
  {
    if ValidLabel(l) {
      LabelMapShape(l);
      ReadPlaintextOfMap(l);
      hide Encode, Nesting, WellFormed, ReadPlaintext, LabelMap;
      var p := Encode(Map(LabelMap(l)));
      InflateOfStored(c, p);
      hide Inflate;
    }
  }

  // ----- How long a name's plaintext is

  /** The bytes a text of `n` bytes takes: its length in one to three, and itself. */
  function TextBytes(n: nat): nat {
    n + if n < 24 then 1 else if n < 256 then 2 else 3
  }

  lemma EncodedText(s: string)
    requires FitsLabel(s)
    ensures |Encode(Text(s))| == TextBytes(|Utf8.Encode(s)|)
  {
    TextSize(s);
    hide Utf8.Encode;
  }

  lemma EncodedTextPair(key: nat, s: string)
    requires key < 24 && FitsLabel(s)
    ensures |EncodePair(Pair(UInt(key), Text(s)))| == 1 + TextBytes(|Utf8.Encode(s)|)
  {
    EncodedText(s);
    hide Utf8.Encode, TextBytes;
  }

  /** The exact size of a name's plaintext, from the UTF-8 lengths of its texts. */
  lemma PlaintextSize(l: Label)
    requires ValidLabel(l)
    ensures |Plaintext(l).value| == 4 + TextBytes(|Utf8.Encode(l.text)|)
              + if l.writer.Some? then 1 + TextBytes(|Utf8.Encode(l.writer.value)|) else 0
  {
    hide EncodePairs, NestingOfPairs, NestingOfPair, EncodePair, Utf8.Encode, TextBytes;
    var m := LabelMap(l);
    VersionPair();
    TextPair(P_LABEL, l.text);
    EncodedTextPair(P_LABEL, l.text);
    if l.writer.Some? {
      TextPair(P_WRITER, l.writer.value);
      EncodedTextPair(P_WRITER, l.writer.value);
    }
    EncodePairsOfUpToThree(m);
    assert |Header(MT_MAP, |m|)| == 1;
  }

  /**
   A name's plaintext is under 300 bytes exactly when it has no writer or its
   two texts, with their lengths, take under 295. A name this program writes
   always is.
   */
  lemma UnderThreeHundred(l: Label)
    requires ValidLabel(l)
    ensures |Plaintext(l).value| < 300 <==>
              (l.writer.Some? ==>
                 TextBytes(|Utf8.Encode(l.text)|) + TextBytes(|Utf8.Encode(l.writer.value)|) < 295)
    ensures l.writer == Some(WRITER_KEYROOST) ==> |Plaintext(l).value| < 300
  {
    hide Utf8.Encode;
    PlaintextSize(l);
    TextSize(l.text);
    if l.writer.Some? {
      TextSize(l.writer.value);
      Utf8.EncodeBound(l.writer.value);
    }
  }

  // ----- The longest

  /** A text of four-byte characters. */
  function Widest(n: nat): (s: string)
    ensures |s| == n
  {
    if n == 0 then [] else ['\U{10000}'] + Widest(n - 1)
  }

  lemma {:induction false} WidestBytes(n: nat)
    ensures |Utf8.Encode(Widest(n))| == 4 * n
  {
    hide Utf8.Encode;
    if n == 0 {
      Utf8.EncodeNothing();
    } else {
      WidestBytes(n - 1);
      Utf8.EncodeFirst(Widest(n));
      assert Widest(n)[1..] == Widest(n - 1);
    }
  }

  /** Two texts of 64 four-byte characters make a valid name, and it takes all of the 523 bytes. */
  lemma TheLongestName()
    ensures var l := Label(Widest(64), Some(Widest(64)));
            ValidLabel(l) && |Plaintext(l).value| == MAX_PLAINTEXT
  {
    hide Utf8.Encode;
    WidestBytes(64);
    PlaintextSize(Label(Widest(64), Some(Widest(64))));
  }
}
