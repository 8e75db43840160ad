/**
 The large-blob array (CTAP 2.1, sections 6.10.2 to 6.10.4): parsing that keeps
 every element's bytes, the edits, and serialising them again.
 */
module LargeBlobs {
  import opened Prelude
  import opened Bytes
  import opened Ctap
  import opened Cbor
  import opened CborLaws
  import opened DeviceLabel
  import Utf8

  const ENTRY_CIPHERTEXT: nat := 1
  const ENTRY_NONCE: nat := 2
  const ENTRY_ORIG_SIZE: nat := 3
  const CHECKSUM_LEN: nat := 16
  const SPEC_MIN_SERIALIZED_ARRAY: nat := 1024

  // "KR1" and a NUL: the mark of a note written here.
  const KR_NOTE_MAGIC: bytes := [0x4B, 0x52, 0x31, 0x00]

  datatype Item = Entry(entry: LargeBlobEntry) | Skipped(raw: bytes)

  datatype LargeBlobArray = LargeBlobArray(items: seq<Item>, rawArray: bytes, trailing: nat)

  // ----- Recognizing an entry

  /** The required values seen so far. */
  datatype Slots = Slots(ciphertext: Option<bytes>, nonce: Option<bytes>, origSize: Option<nat>)

  const NO_SLOTS: Slots := Slots(None, None, None)

  /** The key 1, 2 or 3 that `raw` is, if it is one of them. */
  function RequiredKey(raw: bytes): Option<nat> {
    match Decode(raw)
    case Ok((UInt(n), rest)) => if rest == [] && ENTRY_CIPHERTEXT <= n <= ENTRY_ORIG_SIZE then Some(n) else None
    case _ => None
  }

  /** Put a required value in its slot: none for a wrong type or a second value. */
  function PutSlot(s: Slots, key: nat, v: Value): Option<Slots> {
    if key == ENTRY_CIPHERTEXT && v.Bytes? && s.ciphertext.None? then Some(s.(ciphertext := Some(v.data)))
    else if key == ENTRY_NONCE && v.Bytes? && |v.data| == 12 && s.nonce.None? then Some(s.(nonce := Some(v.data)))
    else if key == ENTRY_ORIG_SIZE && v.UInt? && s.origSize.None? then Some(s.(origSize := Some(v.n)))
    else None
  }

  function FillSlot(s: Slots, p: RawPair): Option<Slots> {
    match RequiredKey(p.key)
    case None => Some(s)
    case Some(key) =>
      match Decode(p.value)
      case Ok((v, rest)) => if rest == [] then PutSlot(s, key, v) else None
      case Err(_) => None
  }

  function FillSlots(s: Slots, pairs: seq<RawPair>): Option<Slots>
    decreases |pairs|
  {
    if pairs == [] then Some(s) else
    var s' :- FillSlot(s, pairs[0]);
    FillSlots(s', pairs[1..])
  }

  /** `raw` as an entry, if it is a map with exactly one of each required value. */
  function ConformingEntry(raw: bytes): Option<LargeBlobEntry> {
    match SplitMap(raw)
    case Err(_) => None
    case Ok((pairs, rest)) =>
      if rest != [] then None else
      var s :- FillSlots(NO_SLOTS, pairs);
      if s.ciphertext.Some? && s.nonce.Some? && s.origSize.Some?
      then Some(LargeBlobEntry(s.ciphertext.value, s.nonce.value, s.origSize.value, Some(raw)))
      else None
  }

  // ----- Parsing and serialising

  function ItemOf(raw: bytes): Item {
    match ConformingEntry(raw)
    case Some(e) => Entry(e)
    case None => Skipped(raw)
  }

  function ItemsOf(raw: seq<bytes>): (items: seq<Item>)
    ensures |items| == |raw|
    ensures forall i :: 0 <= i < |raw| ==> items[i] == ItemOf(raw[i])
  {
    seq(|raw|, i requires 0 <= i < |raw| => ItemOf(raw[i]))
  }

  function Parse(data: bytes): Result<LargeBlobArray, CtapError> {
    if data == [] || data[0] / 32 != MT_ARRAY then Err(InvalidResponseShape(NotAnArray)) else
    match SplitArray(data)
    case Err(e) => Err(BadCbor(e))
    case Ok((elements, rest)) => Ok(LargeBlobArray(ItemsOf(elements), data, |rest|))
  }

  function EntryMap(e: LargeBlobEntry): (m: seq<Pair>)
    ensures |m| == 3
  {
    [Pair(UInt(ENTRY_CIPHERTEXT), Bytes(e.ciphertext)),
     Pair(UInt(ENTRY_NONCE), Bytes(e.nonce)),
     Pair(UInt(ENTRY_ORIG_SIZE), UInt(e.origSize))]
  }

  /** The bytes an item is written as: as it was read, or freshly encoded. */
  function ItemBytes(item: Item): bytes {
    match item
    case Skipped(raw) => raw
    case Entry(e) => if e.original.Some? then e.original.value else Encode(Map(EntryMap(e)))
  }

  /** Every element's bytes, in order. */
  function Elements(items: seq<Item>): (raw: seq<bytes>)
    ensures |raw| == |items|
    ensures forall i :: 0 <= i < |items| ==> raw[i] == ItemBytes(items[i])
  {
    seq(|items|, i requires 0 <= i < |items| => ItemBytes(items[i]))
  }

  function ArrayBytes(a: LargeBlobArray): bytes {
    Header(MT_ARRAY, |a.items|) + Concat(Elements(a.items))
  }

  function SerializeWithChecksum(c: Crypto, a: LargeBlobArray): Result<bytes, CtapError> {
    if a.trailing > 0 then Err(InvalidResponseShape(ExtraBytesAfterEnd))
    else Ok(ArrayBytes(a) + c.left16(ArrayBytes(a)))
  }

  // ----- The edits

  function FromText(text: string): LargeBlobEntry {
    LargeBlobEntry(KR_NOTE_MAGIC + Utf8.Encode(text), seq(12, _ => 0), |Utf8.Encode(text)|, None)
  }

  predicate IsKrNote(e: LargeBlobEntry) {
    KR_NOTE_MAGIC <= e.ciphertext
  }

  predicate IsLabelItem(c: Crypto, item: Item) {
    item.Entry? && DecodeEntry(c, item.entry).Some?
  }

  function Entries(items: seq<Item>): seq<LargeBlobEntry> {
    if items == [] then []
    else (if items[0].Entry? then [items[0].entry] else []) + Entries(items[1..])
  }

  /** Where the conforming entry numbered `idx` stands among all items. */
  function ItemIndex(items: seq<Item>, idx: nat): (pos: Option<nat>)
    ensures pos.Some? ==> pos.value < |items| && items[pos.value].Entry?
  {
    if items == [] then None
    else if items[0].Entry? && idx == 0 then Some(0)
    else
      var pos :- ItemIndex(items[1..], if items[0].Entry? then idx - 1 else idx);
      Some(pos + 1)
  }

  /** A changed copy: nothing read, and as much trailing as before. */
  function ChangedTo(a: LargeBlobArray, items: seq<Item>): LargeBlobArray {
    LargeBlobArray(items, [], a.trailing)
  }

  function WithTextNote(a: LargeBlobArray, text: string): LargeBlobArray {
    ChangedTo(a, a.items + [Entry(FromText(text))])
  }

  function WithReplacedNote(a: LargeBlobArray, idx: nat, text: string): Option<LargeBlobArray> {
    var pos :- ItemIndex(a.items, idx);
    if !IsKrNote(a.items[pos].entry) then None
    else Some(ChangedTo(a, a.items[pos := Entry(FromText(text))]))
  }

  function WithoutEntry(a: LargeBlobArray, idx: nat): Option<LargeBlobArray> {
    var pos :- ItemIndex(a.items, idx);
    Some(ChangedTo(a, a.items[..pos] + a.items[pos + 1..]))
  }

  /** The items that are name entries, or those that are not. */
  function LabelItems(c: Crypto, items: seq<Item>, wanted: bool): (kept: seq<Item>)
    ensures |kept| <= |items|
    ensures forall i :: 0 <= i < |kept| ==> kept[i] in items && IsLabelItem(c, kept[i]) == wanted
  {
    if items == [] then []
    else (if IsLabelItem(c, items[0]) == wanted then [items[0]] else []) + LabelItems(c, items[1..], wanted)
  }

  function WithLabel(c: Crypto, a: LargeBlobArray, name: Option<Label>, nonce: bytes)
    : Result<LargeBlobArray, LabelError>
  {
    var kept := LabelItems(c, a.items, false);
    match name
    case None => Ok(ChangedTo(a, kept))
    case Some(l) =>
      var e :- EncodeEntry(c, l, nonce);
      Ok(ChangedTo(a, kept + [Entry(e)]))
  }

  function OnlyLabel(c: Crypto, a: LargeBlobArray): LargeBlobArray {
    ChangedTo(a, LabelItems(c, a.items, true))
  }

  /** The last name entry's number and name. */
  function LabelOf(c: Crypto, a: LargeBlobArray): Option<(nat, Label)> {
    LastLabel(c, Entries(a.items))
  }

  function LastLabel(c: Crypto, entries: seq<LargeBlobEntry>): Option<(nat, Label)> {
    if entries == [] then None else
    var last := |entries| - 1;
    match DecodeEntry(c, entries[last])
    case Some(l) => Some((last, l))
    case None => LastLabel(c, entries[..last])
  }

  function MaxBytes(info: Info): nat {
    if info.maxSerializedLargeBlobArray.Some? then info.maxSerializedLargeBlobArray.value
    else SPEC_MIN_SERIALIZED_ARRAY
  }

  // ----- Validity: what parsing gives and every edit keeps

  /** A text or ciphertext no machine is too small for. */
  const MAX_PART: nat := U64 / 4

  /** What an item in a program's hands is: its bytes are one element, and they read as the item. */
  predicate ValidItem(item: Item) {
    match item
    case Skipped(raw) => OneElement(raw) && ConformingEntry(raw).None?
    case Entry(e) =>
      if e.original.Some? then OneElement(e.original.value) && ConformingEntry(e.original.value) == Some(e)
      else |e.nonce| == 12 && |e.ciphertext| <= MAX_PART && e.origSize < U64
  }

  predicate ValidItems(items: seq<Item>) {
    forall i :: 0 <= i < |items| ==> ValidItem(items[i])
  }

  /** The item as it would be read back from the bytes it is written as. */
  function AsRead(item: Item): Item {
    match item
    case Skipped(_) => item
    case Entry(e) => Entry(e.(original := Some(ItemBytes(item))))
  }

  function AllAsRead(items: seq<Item>): (read: seq<Item>)
    ensures |read| == |items|
    ensures forall i :: 0 <= i < |items| ==> read[i] == AsRead(items[i])
  {
    seq(|items|, i requires 0 <= i < |items| => AsRead(items[i]))
  }

  // ----- A built entry reads back

  lemma HeaderSize(major: int, n: nat)
    requires 0 <= major < 8
    ensures |Header(major, n)| <= 9
  {
  }

  lemma EntryParts(e: LargeBlobEntry)
    requires |e.nonce| == 12 && |e.ciphertext| <= MAX_PART && e.origSize < U64
    ensures var m := EntryMap(e);
            && WellFormed(Map(m)) && Nesting(Map(m)) == 1
            && |Encode(Map(m))| < U64
            && (forall i :: 0 <= i < 3 ==> |Encode(m[i].key)| < U64 && |Encode(m[i].value)| < U64)
  {
    hide Header;
    var m := EntryMap(e);
    HeaderSize(MT_UINT, 1);
    HeaderSize(MT_UINT, 2);
    HeaderSize(MT_UINT, 3);
    HeaderSize(MT_UINT, e.origSize);
    HeaderSize(MT_BYTES, |e.ciphertext|);
    HeaderSize(MT_BYTES, |e.nonce|);
    HeaderSize(MT_MAP, 3);
    EncodePairsOfUpToThree(m);
    assert WellFormedPair(m[0]);
    assert WellFormedPair(m[1]);
    assert WellFormedPair(m[2]);
  }

  /** A plain value is one element and decodes, with nothing left over. */
  lemma PlainPart(v: Value)
    requires WellFormed(v) && Nesting(v) == 0 && |Encode(v)| < U64
    ensures OneElement(Encode(v)) && Decode(Encode(v)) == Ok((v, []))
  {
    hide Encode, Nesting, WellFormed, DecodeAt, ItemLenAt;
    EncodedIsOneElement(v);
    RoundTrip(v, []);
    assert Encode(v) + [] == Encode(v);
  }

  /** Splitting the three pairs of an encoded entry. */
  lemma SplitBuiltEntry(e: LargeBlobEntry)
    requires |e.nonce| == 12 && |e.ciphertext| <= MAX_PART && e.origSize < U64
    ensures var m := EntryMap(e);
            SplitMap(Encode(Map(m))) == Ok((RawTriple(m), []))
  {
    hide Encode, Nesting, WellFormed, Decode, SplitMap, OneElement, Flat, Encodings, RawPairUp, EntryMap;
    var m := EntryMap(e);
    EntryPlain(e);
    FlatOfThree(m);
    var raw := Encodings(Flat(m));
    assert OneElement(raw[0]) && OneElement(raw[1]) && OneElement(raw[2]);
    assert OneElement(raw[3]) && OneElement(raw[4]) && OneElement(raw[5]);
    SplitMapOfEncoded(m);
    RawPairUpOfSix(raw);
  }

  function RawTriple(m: seq<Pair>): seq<RawPair>
    requires |m| == 3
  {
    [RawPair(Encode(m[0].key), Encode(m[0].value)),
     RawPair(Encode(m[1].key), Encode(m[1].value)),
     RawPair(Encode(m[2].key), Encode(m[2].value))]
  }

  lemma RawPairUpOfSix(raw: seq<bytes>)
    requires |raw| == 6
    ensures RawPairUp(raw) == [RawPair(raw[0], raw[1]), RawPair(raw[2], raw[3]), RawPair(raw[4], raw[5])]
  {
    var four := raw[2..];
    var two := four[2..];
    assert two[2..] == [];
    assert RawPairUp(two) == [RawPair(two[0], two[1])];
    assert RawPairUp(four) == [RawPair(four[0], four[1])] + RawPairUp(two);
  }

  lemma FlatOfThree(m: seq<Pair>)
    requires |m| == 3
    ensures Encodings(Flat(m)) == [Encode(m[0].key), Encode(m[0].value), Encode(m[1].key), Encode(m[1].value),
                                   Encode(m[2].key), Encode(m[2].value)]
  {
    hide Encode;
    var f := [m[0].key, m[0].value, m[1].key, m[1].value, m[2].key, m[2].value];
    assert Flat(m) == f by {
      assert Flat(m[1..]) == [m[1].key, m[1].value] + Flat(m[1..][1..]);
      assert Flat(m[1..][1..]) == [m[2].key, m[2].value] + Flat(m[1..][1..][1..]);
    }
    assert Encodings(f[5..]) == [Encode(f[5])] + Encodings(f[5..][1..]);
    assert Encodings(f[4..]) == [Encode(f[4])] + Encodings(f[5..]) by { assert f[4..][1..] == f[5..]; }
    assert Encodings(f[3..]) == [Encode(f[3])] + Encodings(f[4..]) by { assert f[3..][1..] == f[4..]; }
    assert Encodings(f[2..]) == [Encode(f[2])] + Encodings(f[3..]) by { assert f[2..][1..] == f[3..]; }
    assert Encodings(f[1..]) == [Encode(f[1])] + Encodings(f[2..]) by { assert f[1..][1..] == f[2..]; }
  }

  lemma EntryPlain(e: LargeBlobEntry)
    requires |e.nonce| == 12 && |e.ciphertext| <= MAX_PART && e.origSize < U64
    ensures var m := EntryMap(e);
            forall i :: 0 <= i < 3 ==>
              && OneElement(Encode(m[i].key)) && Decode(Encode(m[i].key)) == Ok((m[i].key, []))
              && OneElement(Encode(m[i].value)) && Decode(Encode(m[i].value)) == Ok((m[i].value, []))
  {
    var m := EntryMap(e);
    EntryParts(e);
    assert forall i :: 0 <= i < 3 ==>
        && WellFormed(m[i].key) && Nesting(m[i].key) == 0 && WellFormed(m[i].value) && Nesting(m[i].value) == 0;
    hide Encode, Nesting, WellFormed, DecodeAt, ItemLenAt, EntryMap;
    forall i | 0 <= i < 3
      ensures OneElement(Encode(m[i].key)) && Decode(Encode(m[i].key)) == Ok((m[i].key, []))
      ensures OneElement(Encode(m[i].value)) && Decode(Encode(m[i].value)) == Ok((m[i].value, []))
    {
      PlainPart(m[i].key);
      PlainPart(m[i].value);
    }
  }

  lemma FillSlotOf(s: Slots, k: nat, v: Value, rawKey: bytes, rawValue: bytes)
    requires 1 <= k <= 3
    requires Decode(rawKey) == Ok((UInt(k), [])) && Decode(rawValue) == Ok((v, []))
    ensures FillSlot(s, RawPair(rawKey, rawValue)) == PutSlot(s, k, v)
  {
    hide Decode;
  }

  /** A freshly encoded entry is one element that reads back as the entry. */
  lemma BuiltEntryConforms(e: LargeBlobEntry)
    requires |e.nonce| == 12 && |e.ciphertext| <= MAX_PART && e.origSize < U64
    ensures var raw := Encode(Map(EntryMap(e)));
            OneElement(raw) && ConformingEntry(raw) == Some(e.(original := Some(raw)))
  {
    hide Encode, Nesting, WellFormed, Decode, OneElement, SplitMap, EntryMap, FillSlots;
    var m := EntryMap(e);
    EntryParts(e);
    EncodedIsOneElement(Map(m));
    SplitBuiltEntry(e);
    FilledFromEntry(e);
  }

  /** An entry's own three pairs fill all three slots. */
  lemma FilledFromEntry(e: LargeBlobEntry)
    requires |e.nonce| == 12 && |e.ciphertext| <= MAX_PART && e.origSize < U64
    ensures FillSlots(NO_SLOTS, RawTriple(EntryMap(e)))
         == Some(Slots(Some(e.ciphertext), Some(e.nonce), Some(e.origSize)))
  {
    hide Encode, Decode, OneElement, FillSlot;
    var m := EntryMap(e);
    EntryPlain(e);
    var t := RawTriple(m);
    var s1 := Slots(Some(e.ciphertext), None, None);
    var s2 := Slots(Some(e.ciphertext), Some(e.nonce), None);
    FillSlotOf(NO_SLOTS, 1, m[0].value, t[0].key, t[0].value);
    FillSlotOf(s1, 2, m[1].value, t[1].key, t[1].value);
    FillSlotOf(s2, 3, m[2].value, t[2].key, t[2].value);
    FillThree(NO_SLOTS, s1, s2, Slots(Some(e.ciphertext), Some(e.nonce), Some(e.origSize)), t);
  }

  lemma FillThree(s0: Slots, s1: Slots, s2: Slots, s3: Slots, t: seq<RawPair>)
    requires |t| == 3
    requires FillSlot(s0, t[0]) == Some(s1) && FillSlot(s1, t[1]) == Some(s2) && FillSlot(s2, t[2]) == Some(s3)
    ensures FillSlots(s0, t) == Some(s3)
  {
    hide FillSlot;
    var two := t[1..];
    var one := two[1..];
    assert FillSlots(s3, one[1..]) == Some(s3);
    assert FillSlots(s2, one) == Some(s3);
    assert FillSlots(s1, two) == Some(s3);
  }
}
