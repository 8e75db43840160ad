/**
 What the encoder, the decoder and the measurer agree on: the exact round-trip
 boundary, the extent every accepted item has, and that splitting by measured
 extents never leaves the input.
 */
module CborLaws {
  import opened Prelude
  import opened Bytes
  import opened Cbor
  import Utf8

  // ----- Headers

  lemma HeadOfHeader(major: int, n: nat, rest: bytes)
    requires 0 <= major < 8 && n < U64
    ensures var d := Header(major, n) + rest;
            && d[0] / 32 == major
            && ReadHead(d).Ok? && ReadHead(d).value.major == major
            && ReadHead(d).value.arg == n && ReadHead(d).value.rest == rest
  {
    hide BE, FromBE;
    var h := Header(major, n);
    var d := h + rest;
    assert d[1..] == h[1..] + rest;
    if n >= 24 {
      var k := |h| - 1;
      ArgOfBE(n, k, rest);
      assert h[1..] == BE(n, k);
      assert d[1..] == BE(n, k) + rest;
    }
  }

  /** A number written in `k` bytes is read from them. */
  lemma ArgOfBE(n: nat, k: nat, rest: bytes)
    requires k in {1, 2, 4, 8} && n < U64 && (k == 1 ==> n < 0x100) && (k == 2 ==> n < 0x1_0000)
    requires k == 4 ==> n < 0x1_0000_0000
    ensures FromBE((BE(n, k) + rest)[..k]) == n && (BE(n, k) + rest)[k..] == rest
  {
    hide FromBE, BE;
    Pow256Values();
    FromBEOfBE(n, k);
    assert (BE(n, k) + rest)[..k] == BE(n, k);
  }

  /** The encoder's header is never longer than the one an argument was read from. */
  lemma HeaderIsShortest(data: bytes)
    requires ReadHead(data).Ok?
    ensures var h := ReadHead(data).value;
            && 0 <= h.major < 8 && h.arg < U64
            && |Header(h.major, h.arg)| <= |data| - |h.rest|
  {
    Pow256Values();
    var additional := data[0] % 32;
    if additional >= 24 {
      var k := if additional == 24 then 1 else if additional == 25 then 2 else if additional == 26 then 4 else 8;
      FromBEBound(data[1..][..k]);
    }
  }

  /** `h` when the item's last `-cut` bytes and all that follows give way to `after`. */
  function WithTail(h: Head, cut: int, after: bytes): Head
    requires 0 <= |h.rest| + cut <= |h.rest|
  {
    h.(rest := h.rest[..|h.rest| + cut] + after)
  }

  /** A header and the bytes it was read from stay readable when what follows changes. */
  lemma HeadOfPrefix(data: bytes, n: nat, after: bytes)
    requires ReadHead(data).Ok? && |data| - |ReadHead(data).value.rest| <= n <= |data|
    ensures ReadHead(data[..n] + after) == Ok(WithTail(ReadHead(data).value, n - |data|, after))
  {
    var h := ReadHead(data).value;
    var k := |data| - |h.rest|;
    var other := data[..n] + after;
    assert other[1..k] == data[1..k];
    assert other[1..][..k - 1] == other[1..k] && data[1..][..k - 1] == data[1..k];
    assert other[1..][k - 1..] == h.rest[..n - k] + after;
    assert other[0] == data[0] && other != [];
    hide FromBE;
  }

  // ----- The round trip and its boundary

  predicate Container(v: Value) {
    v.Array? || v.Map?
  }

  lemma DecodeAtLeaf(data: bytes, depth: nat)
    requires depth <= DECODE_DEPTH_LIMIT && ReadHead(data).Ok?
    requires ReadHead(data).value.major !in {MT_ARRAY, MT_MAP}
    ensures DecodeAt(data, depth) == DecodeLeaf(ReadHead(data).value)
  {
    hide DecodeItems, DecodeLeaf, ReadHead;
  }

  lemma LeafRoundTrip(v: Value, rest: bytes, depth: nat)
    requires WellFormed(v) && !Container(v) && depth <= DECODE_DEPTH_LIMIT
    ensures DecodeAt(Encode(v) + rest, depth) == Ok((v, rest))
  {
    hide DecodeAt, DecodeLeaf, EncodeItems, EncodePairs, Header, Utf8.Encode, Utf8.Decode;
    LeafHead(v, rest);
    DecodeAtLeaf(Encode(v) + rest, depth);
  }

  lemma LeafHead(v: Value, rest: bytes)
    requires WellFormed(v) && !Container(v)
    ensures var d := ReadHead(Encode(v) + rest);
            d.Ok? && d.value.major !in {MT_ARRAY, MT_MAP} && DecodeLeaf(d.value) == Ok((v, rest))
  {
    hide DecodeAt, EncodeItems, EncodePairs, Header, Utf8.Encode, Utf8.Decode;
    match v {
      case UInt(n) => HeadOfHeader(MT_UINT, n, rest);
      case NInt(n) => HeadOfHeader(MT_NINT, n, rest);
      case Bytes(b) => LeafWithBody(MT_BYTES, b, rest);
      case Text(s) =>
        Utf8.DecodeOfEncode(s);
        LeafWithBody(MT_TEXT, Utf8.Encode(s), rest);
      case Bool(_) => SimpleHead(v, rest);
      case Null => SimpleHead(v, rest);
    }
  }

  lemma SimpleHead(v: Value, rest: bytes)
    requires v.Bool? || v.Null?
    ensures var d := ReadHead(Encode(v) + rest);
            d.Ok? && d.value.major == MT_SIMPLE && DecodeLeaf(d.value) == Ok((v, rest))
  {
    hide DecodeAt, Utf8.Encode, Utf8.Decode;
    assert (Encode(v) + rest)[1..] == rest;
  }

  lemma LeafWithBody(major: int, b: bytes, rest: bytes)
    requires major in {MT_BYTES, MT_TEXT} && |b| < U64
    ensures var d := ReadHead(Header(major, |b|) + b + rest);
            && d.Ok? && d.value.major == major && d.value.arg == |b|
            && |b| <= |d.value.rest| && d.value.rest[..|b|] == b && d.value.rest[|b|..] == rest
  {
    HeadOfHeader(major, |b|, b + rest);
    assert Header(major, |b|) + b + rest == Header(major, |b|) + (b + rest);
    assert (b + rest)[..|b|] == b && (b + rest)[|b|..] == rest;
  }

  /** A map's keys and values in the order they are stored. */
  function Flat(entries: seq<Pair>): (items: seq<Value>)
    ensures |items| == 2 * |entries|
  {
    if entries == [] then [] else [entries[0].key, entries[0].value] + Flat(entries[1..])
  }

  lemma {:induction false} PairUpOfFlat(entries: seq<Pair>)
    ensures PairUp(Flat(entries)) == entries
  {
    if entries != [] {
      assert Flat(entries)[2..] == Flat(entries[1..]);
      PairUpOfFlat(entries[1..]);
    }
  }

  /** What decoding an encoding gives: the value back, or the depth refusal. */
  function Expected<T>(v: T, rest: bytes, deepest: nat): Decoded<T> {
    if deepest <= DECODE_DEPTH_LIMIT then Ok((v, rest)) else Err(DepthLimit)
  }

  function ExpectedItems(items: seq<Value>, rest: bytes, deepest: nat): Decoded<seq<Value>> {
    if items == [] then Ok((items, rest)) else Expected(items, rest, deepest)
  }

  /** A container's items, put together again. */
  function Assemble(major: int, r: Decoded<seq<Value>>): Decoded<Value> {
    if r.Err? then Err(r.error)
    else Ok((if major == MT_ARRAY then Array(r.value.0) else Map(PairUp(r.value.0)), r.value.1))
  }

  lemma DecodeContainer(major: int, n: nat, body: bytes, depth: nat)
    requires (major == MT_ARRAY || major == MT_MAP) && n < U64 && depth <= DECODE_DEPTH_LIMIT
    ensures DecodeAt(Header(major, n) + body, depth)
         == Assemble(major, DecodeItems(body, if major == MT_ARRAY then n else 2 * n, depth + 1))
  {
    hide DecodeItems;
    HeadOfHeader(major, n, body);
  }

  /** One item in front of more. */
  function Prepend(v: Value, r: Decoded<seq<Value>>): Decoded<seq<Value>> {
    if r.Err? then r else Ok(([v] + r.value.0, r.value.1))
  }

  lemma DecodeMore(data: bytes, v: Value, r: bytes, count: nat, depth: nat)
    requires DecodeAt(data, depth) == Ok((v, r))
    ensures DecodeItems(data, count + 1, depth) == Prepend(v, DecodeItems(r, count, depth))
  {
    hide DecodeAt;
  }

  lemma DecodeNoMore(data: bytes, count: nat, depth: nat)
    requires DecodeAt(data, depth) == Err(DepthLimit)
    ensures DecodeItems(data, count + 1, depth) == Err(DepthLimit)
  {
    hide DecodeAt;
  }

  lemma {:induction false} DecodeOfEncodeAt(v: Value, rest: bytes, depth: nat)
    requires WellFormed(v)
    ensures DecodeAt(Encode(v) + rest, depth) == Expected(v, rest, depth + Nesting(v))
    decreases v, 0
  {
    if depth <= DECODE_DEPTH_LIMIT {
      hide DecodeAt, Encode;
      match v {
        case Array(items) => DecodeOfEncodeArray(items, rest, depth);
        case Map(entries) => DecodeOfEncodeMap(entries, rest, depth);
        case _ => LeafRoundTrip(v, rest, depth);
      }
    }
  }

  lemma {:induction false} DecodeOfEncodeArray(items: seq<Value>, rest: bytes, depth: nat)
    requires WellFormed(Array(items)) && depth <= DECODE_DEPTH_LIMIT
    ensures DecodeAt(Encode(Array(items)) + rest, depth) == Expected(Array(items), rest, depth + Nesting(Array(items)))
    decreases items, 2
  {
    hide DecodeAt, DecodeItems, EncodeItems, Header, NestingOfItems;
    var body := EncodeItems(items) + rest;
    assert Encode(Array(items)) + rest == Header(MT_ARRAY, |items|) + body;
    DecodeContainer(MT_ARRAY, |items|, body, depth);
    DecodeOfEncodeItems(items, rest, depth + 1);
    NestingOfItemsOfNone();
  }

  lemma {:induction false} DecodeOfEncodeMap(entries: seq<Pair>, rest: bytes, depth: nat)
    requires WellFormed(Map(entries)) && depth <= DECODE_DEPTH_LIMIT
    ensures DecodeAt(Encode(Map(entries)) + rest, depth) == Expected(Map(entries), rest, depth + Nesting(Map(entries)))
    decreases entries, 2
  {
    hide DecodeAt, DecodeItems, EncodePairs, Header, NestingOfPairs, PairUp, Flat;
    var body := EncodePairs(entries) + rest;
    assert Encode(Map(entries)) + rest == Header(MT_MAP, |entries|) + body;
    DecodeContainer(MT_MAP, |entries|, body, depth);
    DecodeOfEncodePairs(entries, rest, depth + 1);
    PairUpOfFlat(entries);
    NestingOfItemsOfNone();
  }

  lemma NestingOfItemsOfNone()
    ensures NestingOfItems([]) == 0 && NestingOfPairs([]) == 0
  {
  }

  lemma {:induction false} DecodeOfEncodeItems(items: seq<Value>, rest: bytes, depth: nat)
    requires forall i :: 0 <= i < |items| ==> WellFormed(items[i])
    ensures DecodeItems(EncodeItems(items) + rest, |items|, depth)
         == ExpectedItems(items, rest, depth + NestingOfItems(items))
    decreases items, 1
  {
    hide DecodeAt, Encode, WellFormed, Nesting;
    if items == [] {
      assert EncodeItems(items) + rest == rest;
    } else {
      hide DecodeItems;
      var v, after := items[0], EncodeItems(items[1..]) + rest;
      var data := Encode(v) + after;
      assert EncodeItems(items) + rest == data;
      DecodeOfEncodeAt(v, after, depth);
      DecodeOfEncodeItems(items[1..], rest, depth);
      assert [v] + items[1..] == items;
      DecodeFirst(data, v, after, |items| - 1, depth, depth + Nesting(v));
    }
  }

  lemma DecodeFirst(data: bytes, v: Value, r: bytes, count: nat, depth: nat, deepest: nat)
    requires DecodeAt(data, depth) == Expected(v, r, deepest)
    ensures DecodeItems(data, count + 1, depth)
         == if deepest <= DECODE_DEPTH_LIMIT then Prepend(v, DecodeItems(r, count, depth)) else Err(DepthLimit)
  {
    hide DecodeAt;
    if deepest <= DECODE_DEPTH_LIMIT {
      DecodeMore(data, v, r, count, depth);
    } else {
      DecodeNoMore(data, count, depth);
    }
  }

  lemma {:induction false} DecodeOfEncodePairs(entries: seq<Pair>, rest: bytes, depth: nat)
    requires forall i :: 0 <= i < |entries| ==> WellFormedPair(entries[i])
    ensures DecodeItems(EncodePairs(entries) + rest, 2 * |entries|, depth)
         == ExpectedItems(Flat(entries), rest, depth + NestingOfPairs(entries))
    decreases entries, 1
  {
    hide DecodeAt, Encode, WellFormed, Nesting;
    if entries == [] {
      assert EncodePairs(entries) + rest == rest;
    } else {
      hide DecodeItems;
      var p, after := entries[0], EncodePairs(entries[1..]) + rest;
      var afterKey := Encode(p.value) + after;
      var data := Encode(p.key) + afterKey;
      assert EncodePairs(entries) + rest == data by {
        assert EncodePairs(entries) == EncodePair(p) + EncodePairs(entries[1..]);
      }
      DecodeOfEncodePair(p, after, depth);
      DecodeOfEncodePairs(entries[1..], rest, depth);
      assert Flat(entries) == [p.key] + ([p.value] + Flat(entries[1..]));
      DecodeFirst(data, p.key, afterKey, 2 * |entries| - 1, depth, depth + Nesting(p.key));
      DecodeFirst(afterKey, p.value, after, 2 * |entries| - 2, depth, depth + Nesting(p.value));
    }
  }

  lemma {:induction false} DecodeOfEncodePair(p: Pair, rest: bytes, depth: nat)
    requires WellFormedPair(p)
    ensures DecodeAt(Encode(p.key) + (Encode(p.value) + rest), depth)
         == Expected(p.key, Encode(p.value) + rest, depth + Nesting(p.key))
    ensures DecodeAt(Encode(p.value) + rest, depth) == Expected(p.value, rest, depth + Nesting(p.value))
    decreases p, 1
  {
    hide DecodeAt, Encode, Nesting;
    DecodeOfEncodeAt(p.key, Encode(p.value) + rest, depth);
    DecodeOfEncodeAt(p.value, rest, depth);
  }

  /**
   Decoding an encoding gives back the value and everything after it exactly
   when the value nests at most sixteen levels; otherwise it is refused, and
   with no other error.
   */
  lemma RoundTrip(v: Value, rest: bytes)
    requires WellFormed(v)
    ensures Decode(Encode(v) + rest) == Ok((v, rest)) <==> Nesting(v) <= DECODE_DEPTH_LIMIT
    ensures Nesting(v) > DECODE_DEPTH_LIMIT ==> Decode(Encode(v) + rest) == Err(DepthLimit)
  {
    hide DecodeAt, Encode, Nesting;
    DecodeOfEncodeAt(v, rest, 0);
  }

  // ----- What an accepted input holds

  /** `rest` is what is left of `data` after at least `used` bytes. */
  predicate Leaves(data: bytes, rest: bytes, used: nat) {
    |rest| + used <= |data| && rest == data[|data| - |rest|..]
  }

  lemma LeavesTwice(data: bytes, middle: bytes, rest: bytes, first: nat, second: nat)
    requires Leaves(data, middle, first) && Leaves(middle, rest, second)
    ensures Leaves(data, rest, first + second)
  {
  }

  lemma LeafDecoded(h: Head)
    requires DecodeLeaf(h).Ok? && 0 <= h.major < 8 && h.arg < U64
    requires |h.rest| < U64
    ensures var (v, rest) := DecodeLeaf(h).value;
            && WellFormed(v) && |Encode(v)| + |rest| <= |Header(h.major, h.arg)| + |h.rest|
            && rest == h.rest[|h.rest| - |rest|..]
            && |h.rest| - |rest| == (if h.major in {MT_BYTES, MT_TEXT} then h.arg else 0)
            && h.major !in {MT_ARRAY, MT_MAP, MT_TAG}
  {
    hide Header;
    if h.major == MT_TEXT {
      Utf8.EncodeOfDecode(h.rest[..h.arg]);
    }
  }

  lemma DecodeAtContainer(data: bytes, depth: nat)
    requires depth <= DECODE_DEPTH_LIMIT && ReadHead(data).Ok?
    requires ReadHead(data).value.major in {MT_ARRAY, MT_MAP}
    ensures var h := ReadHead(data).value;
            DecodeAt(data, depth) == Assemble(h.major, DecodeItems(h.rest, Children(h), depth + 1))
  {
    hide DecodeItems, ReadHead;
  }

  /** The measured length, given that of the items held. */
  function Measured(header: nat, h: Head, held: Result<nat, CborError>): Result<nat, CborError> {
    if h.major == MT_MAP && Children(h) >= U64 then Err(UnexpectedEnd)
    else if held.Err? then held
    else Ok(header + held.value)
  }

  /** Arrays, maps and tags measure as their header and the items they hold. */
  lemma ItemLenOfHolder(data: bytes, depth: nat)
    requires depth <= DECODE_DEPTH_LIMIT && ReadHead(data).Ok?
    requires ReadHead(data).value.major !in {MT_BYTES, MT_TEXT}
    ensures var h := ReadHead(data).value;
            ItemLenAt(data, depth) == Measured(|data| - |h.rest|, h, ItemsLen(h.rest, Children(h), depth + 1))
  {
    hide ItemsLen;
  }

  lemma {:induction false} DecodedItem(data: bytes, depth: nat)
    requires |data| < U64 && DecodeAt(data, depth).Ok?
    ensures var (v, rest) := DecodeAt(data, depth).value;
            && WellFormed(v) && Leaves(data, rest, |Encode(v)|)
            && ItemLenAt(data, depth) == Ok(|data| - |rest|)
    decreases DECODE_DEPTH_LIMIT + 1 - depth, 0, 0
  {
    assert depth <= DECODE_DEPTH_LIMIT && ReadHead(data).Ok?;
    var h := ReadHead(data).value;
    HeaderIsShortest(data);
    if h.major in {MT_ARRAY, MT_MAP} {
      DecodedContainer(data, depth);
    } else {
      DecodeAtLeaf(data, depth);
      LeafDecoded(h);
      hide DecodeAt, DecodeLeaf, Header, ItemsLen, ReadHead, Encode, WellFormed;
    }
  }

  lemma {:induction false} DecodedContainer(data: bytes, depth: nat)
    requires |data| < U64 && depth <= DECODE_DEPTH_LIMIT && DecodeAt(data, depth).Ok?
    requires ReadHead(data).Ok? && ReadHead(data).value.major in {MT_ARRAY, MT_MAP}
    ensures var (v, rest) := DecodeAt(data, depth).value;
            && WellFormed(v) && Leaves(data, rest, |Encode(v)|)
            && ItemLenAt(data, depth) == Ok(|data| - |rest|)
    decreases DECODE_DEPTH_LIMIT - depth, 2, 0
  {
    hide DecodeAt, DecodeItems, ItemLenAt, ItemsLen, ReadHead, Header;
    var h := ReadHead(data).value;
    HeaderIsShortest(data);
    DecodeAtContainer(data, depth);
    var n := Children(h);
    DecodedItems(h.rest, n, depth + 1);
    var (items, rest) := DecodeItems(h.rest, n, depth + 1).value;
    if h.major == MT_MAP {
      PairedUp(items);
    }
    ItemLenOfHolder(data, depth);
    hide EncodeItems, EncodePairs, PairUp;
    assert |h.rest| < |data| && h.rest == data[|data| - |h.rest|..] by {
      HeadLeaves(data);
    }
  }

  lemma HeadLeaves(data: bytes)
    requires ReadHead(data).Ok?
    ensures var h := ReadHead(data).value; |h.rest| < |data| && h.rest == data[|data| - |h.rest|..]
  {
  }

  lemma {:induction false} DecodedItems(data: bytes, count: nat, depth: nat)
    requires |data| < U64 && DecodeItems(data, count, depth).Ok?
    ensures var (vs, rest) := DecodeItems(data, count, depth).value;
            && (forall i :: 0 <= i < |vs| ==> WellFormed(vs[i]))
            && Leaves(data, rest, |EncodeItems(vs)|) && Leaves(data, rest, count)
            && ItemsLen(data, count, depth) == Ok(|data| - |rest|)
    decreases DECODE_DEPTH_LIMIT + 1 - depth, 1, count
  {
    hide DecodeAt, ItemLenAt, Encode, WellFormed;
    if count > 0 {
      var (v, r) := DecodeAt(data, depth).value;
      DecodedItem(data, depth);
      DecodedItems(r, count - 1, depth);
      var (vs, rest) := DecodeItems(r, count - 1, depth).value;
      assert ([v] + vs)[1..] == vs;
      LeavesTwice(data, r, rest, |Encode(v)|, |EncodeItems(vs)|);
      LeavesTwice(data, r, rest, 1, count - 1);
      assert r == data[|data| - |r|..];
    }
  }

  lemma {:induction false} PairedUp(items: seq<Value>)
    requires |items| % 2 == 0
    requires forall i :: 0 <= i < |items| ==> WellFormed(items[i])
    ensures forall i :: 0 <= i < |PairUp(items)| ==> WellFormedPair(PairUp(items)[i])
    ensures EncodePairs(PairUp(items)) == EncodeItems(items)
  {
    hide WellFormed, Encode;
    if items != [] {
      PairedUp(items[2..]);
      assert items[1..][1..] == items[2..];
      assert PairUp(items)[1..] == PairUp(items[2..]);
      assert EncodeItems(items) == Encode(items[0]) + (Encode(items[1]) + EncodeItems(items[2..]));
    }
  }

  /**
   Whatever the lenient decoder accepts, the measurer gives the same extent,
   and re-encoding the value takes no more bytes than were read.
   */
  lemma MeasureRefinesDecode(data: bytes)
    requires |data| < U64 && Decode(data).Ok?
    ensures var (v, rest) := Decode(data).value;
            && ItemLen(data) == Ok(|data| - |rest|) && rest == data[|data| - |rest|..]
            && |Encode(v)| <= |data| - |rest|
  {
    hide DecodeAt, ItemLenAt, Encode;
    DecodedItem(data, 0);
  }

  // ----- A measured item stands on its own

  lemma {:induction false} ItemLenOfPrefix(data: bytes, depth: nat, after: bytes)
    requires ItemLenAt(data, depth).Ok?
    ensures ItemLenAt(data[..ItemLenAt(data, depth).value] + after, depth) == ItemLenAt(data, depth)
    decreases DECODE_DEPTH_LIMIT + 1 - depth, 0, 0
  {
    assert depth <= DECODE_DEPTH_LIMIT && ReadHead(data).Ok?;
    if ReadHead(data).value.major in {MT_BYTES, MT_TEXT} {
      hide ReadHead, ItemsLen;
      HeadOfPrefix(data, ItemLenAt(data, depth).value, after);
    } else {
      ItemLenOfPrefixHolder(data, depth, after);
    }
  }

  lemma {:induction false} ItemLenOfPrefixHolder(data: bytes, depth: nat, after: bytes)
    requires ItemLenAt(data, depth).Ok? && depth <= DECODE_DEPTH_LIMIT
    requires ReadHead(data).Ok? && ReadHead(data).value.major !in {MT_BYTES, MT_TEXT}
    ensures ItemLenAt(data[..ItemLenAt(data, depth).value] + after, depth) == ItemLenAt(data, depth)
    decreases DECODE_DEPTH_LIMIT - depth, 2, 0
  {
    hide ReadHead, ItemsLen, ItemLenAt;
    var h := ReadHead(data).value;
    var n := ItemLenAt(data, depth).value;
    ItemLenOfHolder(data, depth);
    ItemsLenOfPrefix(h.rest, Children(h), depth + 1, after);
    HeadOfPrefix(data, n, after);
    ItemLenOfHolder(data[..n] + after, depth);
  }

  lemma {:induction false} ItemsLenOfPrefix(data: bytes, count: nat, depth: nat, after: bytes)
    requires ItemsLen(data, count, depth).Ok?
    ensures ItemsLen(data[..ItemsLen(data, count, depth).value] + after, count, depth) == ItemsLen(data, count, depth)
    decreases DECODE_DEPTH_LIMIT + 1 - depth, 1, count
  {
    hide ItemLenAt, ItemsLen;
    if count == 0 {
      assert ItemsLen(data, 0, depth) == Ok(0) && ItemsLen(data[..0] + after, 0, depth) == Ok(0) by {
        NoItems(data, depth);
        NoItems(data[..0] + after, depth);
      }
    } else {
      OneItemMore(data, count, depth);
      var n := ItemsLen(data, count, depth).value;
      var len := ItemLenAt(data, depth).value;
      var tail := data[len..n] + after;
      var other := data[..len] + tail;
      assert data[..n] + after == other;
      ItemLenOfPrefix(data, depth, tail);
      ItemsLenOfPrefix(data[len..], count - 1, depth, after);
      assert data[len..][..n - len] == data[len..n];
      assert other[len..] == tail;
      OneItemMore(other, count, depth);
    }
  }

  lemma NoItems(data: bytes, depth: nat)
    ensures ItemsLen(data, 0, depth) == Ok(0)
  {
  }

  /** The first of several items, and the others after it. */
  lemma OneItemMore(data: bytes, count: nat, depth: nat)
    requires count > 0
    ensures ItemLenAt(data, depth).Err? ==> ItemsLen(data, count, depth) == ItemLenAt(data, depth)
    ensures ItemLenAt(data, depth).Ok? ==>
              var len := ItemLenAt(data, depth).value;
              var more := ItemsLen(data[len..], count - 1, depth);
              ItemsLen(data, count, depth) == if more.Err? then more else Ok(len + more.value)
  {
    hide ItemLenAt;
  }

  /** Success at one depth is the same length at any smaller one. */
  lemma {:induction false} ItemLenAtSmallerDepth(data: bytes, depth: nat, smaller: nat)
    requires smaller <= depth && ItemLenAt(data, depth).Ok?
    ensures ItemLenAt(data, smaller) == ItemLenAt(data, depth)
    decreases DECODE_DEPTH_LIMIT + 1 - depth, 0, 0
  {
    hide ReadHead, ItemsLen, ItemLenAt;
    ItemLenHasHead(data, depth);
    if ReadHead(data).value.major in {MT_BYTES, MT_TEXT} {
      ItemLenOfString(data, depth);
      ItemLenOfString(data, smaller);
    } else {
      ItemLenOfHolder(data, depth);
      ItemLenOfHolder(data, smaller);
      var h := ReadHead(data).value;
      ItemsLenAtSmallerDepth(h.rest, Children(h), depth + 1, smaller + 1);
    }
  }

  lemma ItemLenHasHead(data: bytes, depth: nat)
    requires ItemLenAt(data, depth).Ok?
    ensures depth <= DECODE_DEPTH_LIMIT && ReadHead(data).Ok?
  {
    hide ReadHead, ItemsLen;
  }

  /** A string's length does not depend on the depth. */
  lemma ItemLenOfString(data: bytes, depth: nat)
    requires depth <= DECODE_DEPTH_LIMIT && ReadHead(data).Ok? && ReadHead(data).value.major in {MT_BYTES, MT_TEXT}
    ensures var h := ReadHead(data).value;
            var end := |data| - |h.rest| + h.arg;
            ItemLenAt(data, depth) == if end > |data| then Err(UnexpectedEnd) else Ok(end)
  {
    hide ReadHead, ItemsLen;
  }

  lemma {:induction false} ItemsLenAtSmallerDepth(data: bytes, count: nat, depth: nat, smaller: nat)
    requires smaller <= depth && ItemsLen(data, count, depth).Ok?
    ensures ItemsLen(data, count, smaller) == ItemsLen(data, count, depth)
    decreases DECODE_DEPTH_LIMIT + 1 - depth, 1, count
  {
    hide ItemLenAt;
    if count > 0 {
      ItemLenAtSmallerDepth(data, depth, smaller);
      ItemsLenAtSmallerDepth(data[ItemLenAt(data, depth).value..], count - 1, depth, smaller);
    }
  }

  /**
   A measured item is self-delimiting: between one byte and the input's
   length, unaffected by what follows it, and the same at any smaller depth.
   */
  lemma MeasuredItemStandsAlone(data: bytes, depth: nat, after: bytes, smaller: nat)
    requires ItemLenAt(data, depth).Ok? && smaller <= depth
    ensures 1 <= ItemLenAt(data, depth).value <= |data|
    ensures ItemLenAt(data[..ItemLenAt(data, depth).value] + after, smaller) == ItemLenAt(data, depth)
  {
    hide ItemLenAt;
    ItemLenOfPrefix(data, depth, after);
    ItemLenAtSmallerDepth(data[..ItemLenAt(data, depth).value] + after, depth, smaller);
  }

  // ----- Splitting

  /** `raw` is exactly one item, as an element of an array. */
  predicate OneElement(raw: bytes) {
    ItemLenAt(raw, 1) == Ok(|raw|)
  }

  /** The first element split off is one element. */
  lemma SplitFirst(data: bytes, count: nat)
    requires count > 0 && SplitItems(data, count).Ok?
    ensures ItemLenAt(data, 1).Ok?
    ensures var len := ItemLenAt(data, 1).value;
            && len <= |data| && OneElement(data[..len])
            && SplitItems(data[len..], count - 1).Ok?
            && SplitItems(data, count).value.0 == [data[..len]] + SplitItems(data[len..], count - 1).value.0
            && SplitItems(data, count).value.1 == SplitItems(data[len..], count - 1).value.1
  {
    hide ItemLenAt;
    var first := data[..ItemLenAt(data, 1).value];
    ItemLenOfPrefix(data, 1, []);
    assert first + [] == first;
  }

  lemma {:induction false} SplitItemsParts(data: bytes, count: nat)
    requires SplitItems(data, count).Ok?
    ensures var (items, rest) := SplitItems(data, count).value;
            && data == Concat(items) + rest
            && forall i :: 0 <= i < |items| ==> OneElement(items[i])
    decreases count
  {
    hide ItemLenAt, OneElement, Concat;
    if count == 0 {
      ConcatNothing();
      assert data == [] + data;
    } else {
      SplitFirst(data, count);
      hide SplitItems;
      var len := ItemLenAt(data, 1).value;
      var first, after := data[..len], data[len..];
      SplitItemsParts(after, count - 1);
      var (items, rest) := SplitItems(after, count - 1).value;
      ConcatFirst(first, items);
      assert data == first + after;
      assert first + (Concat(items) + rest) == first + Concat(items) + rest;
    }
  }

  lemma {:induction false} SplitOfConcat(items: seq<bytes>, rest: bytes)
    requires forall i :: 0 <= i < |items| ==> OneElement(items[i])
    ensures SplitItems(Concat(items) + rest, |items|) == Ok((items, rest))
  {
    hide ItemLenAt;
    if items == [] {
      assert Concat(items) + rest == rest;
    } else {
      var first, after := items[0], Concat(items[1..]) + rest;
      assert Concat(items) + rest == first + after;
      ItemLenOfPrefix(first, 1, after);
      assert first[..|first|] == first;
      SplitOfConcat(items[1..], rest);
      assert (first + after)[..|first|] == first && (first + after)[|first|..] == after;
      assert [first] + items[1..] == items;
    }
  }

  /** An array written from raw elements splits back into the same elements. */
  lemma SplitArrayOfParts(items: seq<bytes>, rest: bytes)
    requires |items| < U64 && forall i :: 0 <= i < |items| ==> OneElement(items[i])
    ensures SplitArray(Header(MT_ARRAY, |items|) + Concat(items) + rest) == Ok((items, rest))
  {
    hide ItemLenAt, SplitItems, Concat;
    assert Header(MT_ARRAY, |items|) + Concat(items) + rest == Header(MT_ARRAY, |items|) + (Concat(items) + rest);
    HeadOfHeader(MT_ARRAY, |items|, Concat(items) + rest);
    SplitOfConcat(items, rest);
    hide OneElement, Header, ReadHead;
  }

  /** Measured items can be cut apart, and the cuts end where the measure ends. */
  lemma {:induction false} SplitOfMeasured(data: bytes, count: nat)
    requires ItemsLen(data, count, 1).Ok?
    ensures SplitItems(data, count).Ok?
    ensures SplitItems(data, count).value.1 == data[ItemsLen(data, count, 1).value..]
    decreases count
  {
    hide ItemLenAt;
    if count > 0 {
      var len := ItemLenAt(data, 1).value;
      SplitOfMeasured(data[len..], count - 1);
    }
  }

  lemma SplitMapOfElement(raw: bytes)
    requires OneElement(raw) && raw[0] / 32 == MT_MAP
    ensures SplitMap(raw).Ok? && SplitMap(raw).value.1 == []
  {
    assert ReadHead(raw).Ok?;
    var h := ReadHead(raw).value;
    assert h.major == MT_MAP;
    ItemLenOfHolder(raw, 1);
    hide ItemLenAt, ItemsLen, SplitItems, ReadHead;
    ItemsLenAtSmallerDepth(h.rest, 2 * h.arg, 2, 1);
    SplitOfMeasured(h.rest, 2 * h.arg);
  }

  /**
   Every element an array was split into is one item, the elements are the
   array's bytes, and each one that is a map splits into pairs with nothing
   left over.
   */
  lemma SplitArrayElements(data: bytes)
    requires SplitArray(data).Ok?
    ensures var (items, rest) := SplitArray(data).value;
            && |Concat(items) + rest| <= |data| && data[|data| - |Concat(items) + rest|..] == Concat(items) + rest
            && forall i :: 0 <= i < |items| ==>
                 && OneElement(items[i])
                 && (items[i][0] / 32 == MT_MAP ==> SplitMap(items[i]).Ok? && SplitMap(items[i]).value.1 == [])
  {
    hide ItemLenAt, SplitItems, Concat, SplitMap;
    var h := ReadHead(data).value;
    SplitItemsParts(h.rest, h.arg);
    var (items, rest) := SplitArray(data).value;
    forall i | 0 <= i < |items| && items[i][0] / 32 == MT_MAP
      ensures SplitMap(items[i]).Ok? && SplitMap(items[i]).value.1 == []
    {
      SplitMapOfElement(items[i]);
    }
  }

  // ----- Splitting what the encoder wrote

  /** An encoded value that nests less than the limit is one element. */
  lemma EncodedIsOneElement(v: Value)
    requires WellFormed(v) && Nesting(v) < DECODE_DEPTH_LIMIT && |Encode(v)| < U64
    ensures OneElement(Encode(v))
  {
    hide DecodeAt, Encode, ItemLenAt, Nesting, WellFormed;
    DecodeOfEncodeAt(v, [], 1);
    assert Encode(v) + [] == Encode(v);
    DecodedItem(Encode(v), 1);
  }

  /** Each item encoded. */
  function Encodings(items: seq<Value>): (raw: seq<bytes>)
    ensures |raw| == |items|
  {
    if items == [] then [] else [Encode(items[0])] + Encodings(items[1..])
  }

  lemma {:induction false} ConcatOfEncodings(entries: seq<Pair>)
    ensures Concat(Encodings(Flat(entries))) == EncodePairs(entries)
  {
    hide Encode;
    if entries != [] {
      var p, flat := entries[0], Flat(entries);
      ConcatOfEncodings(entries[1..]);
      assert flat[1..] == [p.value] + Flat(entries[1..]);
      assert flat[1..][1..] == Flat(entries[1..]);
      var tail := Encodings(Flat(entries[1..]));
      assert Encodings(flat[1..]) == [Encode(p.value)] + tail;
      assert Encodings(flat) == [Encode(p.key)] + Encodings(flat[1..]);
      assert Encodings(flat)[1..] == Encodings(flat[1..]);
      assert Encodings(flat[1..])[1..] == tail;
    }
  }

  /** Splitting an encoded map gives each key and value as it was encoded. */
  lemma SplitMapOfEncoded(entries: seq<Pair>)
    requires |entries| < U64
    requires forall i :: 0 <= i < 2 * |entries| ==> OneElement(Encodings(Flat(entries))[i])
    ensures SplitMap(Encode(Map(entries))) == Ok((RawPairUp(Encodings(Flat(entries))), []))
  {
    hide OneElement, SplitItems, EncodePairs, Encodings, Flat, Concat, RawPairUp, Header, ReadHead;
    var raw := Encodings(Flat(entries));
    HeadOfHeader(MT_MAP, |entries|, EncodePairs(entries));
    ConcatOfEncodings(entries);
    SplitOfConcat(raw, []);
    assert Concat(raw) + [] == Concat(raw);
  }
}
