/**
 A certificate as PROTOCOL.certkeys lays it out, and that reading it gives
 every field back.
 */
module SshCertWrites {
  import opened Prelude
  import opened Bytes
  import opened SshCert
  import opened SshCertLaws
  import Utf8

  /** Bytes with their length before them. */
  function WireBytes(data: bytes): bytes {
    BE(|data|, 4) + data
  }

  predicate FitsBytes(data: bytes) {
    |data| < U32
  }

  predicate AllFit(fields: seq<bytes>) {
    forall f :: f in fields ==> FitsBytes(f)
  }

  /** A name and a value, the value packed once more unless it is empty. */
  function WirePair(pair: (string, string)): bytes {
    WireString(pair.0) + WireBytes(if pair.1 == [] then [] else WireString(pair.1))
  }

  function PackPairs(pairs: seq<(string, string)>): bytes {
    if pairs == [] then [] else WirePair(pairs[0]) + PackPairs(pairs[1..])
  }

  predicate FitsPair(pair: (string, string)) {
    Fits(pair.0) && |Utf8.Encode(pair.1)| < U32 - 4
  }

  predicate FitPairs(pairs: seq<(string, string)>) {
    (forall pair :: pair in pairs ==> FitsPair(pair)) && FitsBytes(PackPairs(pairs))
  }

  /** What a certificate carries besides what is shown of it. */
  datatype Unshown = Unshown(
    nonce: bytes, key: seq<bytes>, extensions: seq<(string, string)>,
    reserved: bytes, signatureKey: bytes, signature: bytes)

  /** The fields in order, as bytes. */
  function CertParts(c: Cert, u: Unshown): seq<bytes> {
    [WireString(c.keyType), WireBytes(u.nonce), PackBytes(u.key),
     BE(c.serial, 8), BE(c.certType, 4), WireString(c.keyId), WireBytes(PackStrings(c.principals)),
     BE(c.validAfter, 8), BE(c.validBefore, 8), WireBytes(PackPairs(c.criticalOptions)),
     WireBytes(PackPairs(u.extensions)), PackBytes([u.reserved, u.signatureKey, u.signature])]
  }

  function PackBytes(fields: seq<bytes>): bytes {
    if fields == [] then [] else WireBytes(fields[0]) + PackBytes(fields[1..])
  }

  predicate Writable(c: Cert, u: Unshown) {
    && PubkeyFields(c.keyType) == Some(|u.key|)
    && (c.certType == CERT_TYPE_USER || c.certType == CERT_TYPE_HOST)
    && c.serial < U64 && c.validAfter < U64 && c.validBefore < U64
    && Fits(c.keyType) && Fits(c.keyId) && FitsBytes(u.nonce)
    && (forall s :: s in c.principals ==> Fits(s)) && FitsBytes(PackStrings(c.principals))
    && FitPairs(c.criticalOptions) && FitPairs(u.extensions)
    && c.extensions == Names(u.extensions)
    && AllFit(u.key)
    && FitsBytes(u.reserved) && FitsBytes(u.signatureKey) && FitsBytes(u.signature)
  }

  // ----- Reading one item

  lemma BytesRead(before: bytes, data: bytes, after: bytes)
    requires FitsBytes(data)
    ensures BytesAt(before + WireBytes(data) + after, |before|) == Some((data, |before| + |WireBytes(data)|))
  {
    hide BE, FromBE;
    var p, b := |before|, before + WireBytes(data) + after;
    Pow256Values();
    FromBEOfBE(|data|, 4);
    assert b[p..p + 4] == BE(|data|, 4);
    assert b[p + 4..p + 4 + |data|] == data;
  }

  lemma NumberRead(before: bytes, n: nat, width: nat, after: bytes)
    requires n < Pow256(width)
    ensures NumberAt(before + BE(n, width) + after, |before|, width) == Some((n, |before| + width))
  {
    hide BE, FromBE;
    FromBEOfBE(n, width);
    assert (before + BE(n, width) + after)[|before|..|before| + width] == BE(n, width);
  }

  lemma {:induction false} FieldsSkipped(before: bytes, fields: seq<bytes>, after: bytes)
    requires AllFit(fields)
    ensures SkipFields(before + PackBytes(fields) + after, |before|, |fields|) == Some(|before| + |PackBytes(fields)|)
    decreases |fields|
  {
    hide BytesAt, WireBytes, FitsBytes;
    if fields != [] {
      var first, rest := WireBytes(fields[0]), PackBytes(fields[1..]);
      BytesRead(before, fields[0], rest + after);
      FieldsSkipped(before + first, fields[1..], after);
      assert before + first + rest + after == before + first + (rest + after);
      assert before + PackBytes(fields) + after == before + first + rest + after;
    }
  }

  lemma ValueReads(value: string)
    requires |Utf8.Encode(value)| < U32 - 4
    ensures OptionValue(if value == [] then [] else WireString(value)) == Some(value)
    ensures FitsBytes(if value == [] then [] else WireString(value))
  {
    hide TextAt, Utf8.Encode;
    if value != [] {
      WireStringReads([], value, []);
      assert [] + WireString(value) + [] == WireString(value);
    }
  }

  /** Critical options and extensions: pairs are read exactly from the bytes that pack them. */
  lemma {:induction false} PackedPairsRead(before: bytes, pairs: seq<(string, string)>)
    requires forall pair :: pair in pairs ==> FitsPair(pair)
    ensures PackedPairs(before + PackPairs(pairs), |before|) == Some(pairs)
    decreases |pairs|
  {
    hide TextAt, BytesAt, WireString, WireBytes, OptionValue, Fits, FitsBytes, Utf8.Encode;
    var b := before + PackPairs(pairs);
    if pairs != [] {
      var (name, value) := pairs[0];
      assert FitsPair(pairs[0]);
      var first, second := WireString(name), WireBytes(if value == [] then [] else WireString(value));
      var rest := PackPairs(pairs[1..]);
      ValueReads(value);
      WireStringReads(before, name, second + rest);
      assert b == before + first + (second + rest);
      BytesRead(before + first, if value == [] then [] else WireString(value), rest);
      assert b == before + first + second + rest;
      PackedPairsRead(before + first + second, pairs[1..]);
      assert |before + first + second| == |before| + |first| + |second|;
      assert [(name, value)] + pairs[1..] == pairs;
    }
  }

  // ----- Reading all

  /** Where part `i` starts. */
  function Start(parts: seq<bytes>, i: nat): nat
    requires i <= |parts|
  {
    |Concat(parts[..i])|
  }

  lemma PartAt(parts: seq<bytes>, i: nat) returns (before: bytes, after: bytes)
    requires i < |parts|
    ensures Concat(parts) == before + parts[i] + after
    ensures Start(parts, i) == |before| && Start(parts, i + 1) == |before| + |parts[i]|
  {
    hide Concat;
    ConcatAt(parts, i);
    before, after := Concat(parts[..i]), Concat(parts[i + 1..]);
  }

  lemma TextPart(parts: seq<bytes>, i: nat, s: string)
    requires i < |parts| && parts[i] == WireString(s) && Fits(s)
    ensures TextAt(Concat(parts), Start(parts, i)) == Some((s, Start(parts, i + 1)))
  {
    hide TextAt, WireString, Concat, Start;
    var before, after := PartAt(parts, i);
    WireStringReads(before, s, after);
  }

  lemma BytesPart(parts: seq<bytes>, i: nat, data: bytes)
    requires i < |parts| && parts[i] == WireBytes(data) && FitsBytes(data)
    ensures BytesAt(Concat(parts), Start(parts, i)) == Some((data, Start(parts, i + 1)))
  {
    hide BytesAt, WireBytes, Concat, Start;
    var before, after := PartAt(parts, i);
    BytesRead(before, data, after);
  }

  lemma NumberPart(parts: seq<bytes>, i: nat, n: nat, width: nat)
    requires i < |parts| && parts[i] == BE(n, width) && n < Pow256(width)
    ensures NumberAt(Concat(parts), Start(parts, i), width) == Some((n, Start(parts, i + 1)))
  {
    hide NumberAt, BE, Concat, Start;
    var before, after := PartAt(parts, i);
    NumberRead(before, n, width, after);
  }

  /** Fields packed at a position are skipped to their end. */
  ghost predicate SkippedThere(b: bytes, p: nat, fields: seq<bytes>, end: nat) {
    SkipFields(b, p, |fields|) == Some(end)
  }

  lemma SkippedAt(before: bytes, packed: bytes, fields: seq<bytes>, after: bytes)
    requires AllFit(fields) && packed == PackBytes(fields)
    ensures SkippedThere(before + packed + after, |before|, fields, |before| + |packed|)
  {
    hide SkipFields, PackBytes, AllFit;
    FieldsSkipped(before, fields, after);
  }

  lemma FieldsPart(parts: seq<bytes>, i: nat, fields: seq<bytes>)
    requires i < |parts| && parts[i] == PackBytes(fields) && AllFit(fields)
    ensures SkippedThere(Concat(parts), Start(parts, i), fields, Start(parts, i + 1))
  {
    hide *;
    var before, after := PartAt(parts, i);
    SkippedAt(before, parts[i], fields, after);
  }

  lemma HeadReads(c: Cert, u: Unshown)
    requires Writable(c, u)
    ensures HeadAt(Concat(CertParts(c, u))) == Some((c.keyType, Start(CertParts(c, u), 3)))
  {
    hide TextAt, BytesAt, SkipFields, PubkeyFields, Concat, WireString, WireBytes, PackBytes, PackStrings, PackPairs,
         BE, Names;
    var parts := CertParts(c, u);
    assert Start(parts, 0) == 0 by { ConcatNothing(); assert parts[..0] == []; }
    TextPart(parts, 0, c.keyType);
    BytesPart(parts, 1, u.nonce);
    FieldsPart(parts, 2, u.key);
  }

  lemma BodyReads(c: Cert, u: Unshown)
    requires Writable(c, u)
    ensures var parts := CertParts(c, u);
            BodyAt(Concat(parts), c.keyType, Start(parts, 3)) == Some((c, Start(parts, 11)))
  {
    hide TextAt, BytesAt, NumberAt, PackedStrings, PackedPairs, Concat, WireString, WireBytes, PackBytes, PackStrings,
         PackPairs, BE, Names, Start, PubkeyFields;
    var parts := CertParts(c, u);
    Pow256Values();
    NumberPart(parts, 3, c.serial, 8);
    NumberPart(parts, 4, c.certType, 4);
    TextPart(parts, 5, c.keyId);
    BytesPart(parts, 6, PackStrings(c.principals));
    NumberPart(parts, 7, c.validAfter, 8);
    NumberPart(parts, 8, c.validBefore, 8);
    BytesPart(parts, 9, PackPairs(c.criticalOptions));
    BytesPart(parts, 10, PackPairs(u.extensions));
    PackedStringsRead([], c.principals);
    PackedPairsRead([], c.criticalOptions);
    PackedPairsRead([], u.extensions);
    assert [] + PackStrings(c.principals) == PackStrings(c.principals);
    assert [] + PackPairs(c.criticalOptions) == PackPairs(c.criticalOptions);
    assert [] + PackPairs(u.extensions) == PackPairs(u.extensions);
  }

  /** A certificate written in the order of the format is recognised, with every field as written. */
  lemma CertReadsBack(c: Cert, u: Unshown)
    requires Writable(c, u)
    ensures ParseWire(Concat(CertParts(c, u))) == Some(c)
  {
    hide HeadAt, BodyAt, SkipFields, Concat, PackBytes, WireString, WireBytes, PackStrings, PackPairs, BE, Names,
         PubkeyFields;
    var parts := CertParts(c, u);
    HeadReads(c, u);
    BodyReads(c, u);
    FieldsPart(parts, 11, [u.reserved, u.signatureKey, u.signature]);
    assert parts[..12] == parts;
  }
}
