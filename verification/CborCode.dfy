/**
 The codec's own loops: an encoder that pushes onto one growing buffer, and
 decoders and splitters that walk what is left of the input. Each is proved to
 compute the function of the same name in Cbor.
 */
module CborCode {
  import opened Prelude
  import opened Bytes
  import opened Cbor
  import opened CborLaws
  import Utf8

  /** A growing byte vector. */
  class ByteVec {
    var data: bytes

    constructor ()
      ensures data == []
    {
      data := [];
    }

    method Push(b: byte)
      modifies this
      ensures data == old(data) + [b]
    {
      data := data + [b];
    }

    method Extend(more: bytes)
      modifies this
      ensures data == old(data) + more
    {
      data := data + more;
    }
  }

  // ----- Encoding

  method EncodeHeader(out: ByteVec, major: int, n: nat)
    requires 0 <= major < 8 && n < U64
    modifies out
    ensures out.data == old(out.data) + Header(major, n)
  {
    hide BE;
    if n < 24 {
      out.Push(32 * major + n);
    } else if n <= 0xFF {
      EncodeArgument(out, 32 * major + 24, n, 1);
    } else if n <= 0xFFFF {
      EncodeArgument(out, 32 * major + 25, n, 2);
    } else if n <= 0xFFFF_FFFF {
      EncodeArgument(out, 32 * major + 26, n, 4);
    } else {
      EncodeArgument(out, 32 * major + 27, n, 8);
    }
  }

  /** An initial byte, then the argument's bytes. */
  method EncodeArgument(out: ByteVec, initial: byte, n: nat, width: nat)
    modifies out
    ensures out.data == old(out.data) + ([initial] + BE(n, width))
  {
    hide BE;
    out.Push(initial);
    out.Extend(BE(n, width));
  }

  method EncodeInto(value: Value, out: ByteVec)
    requires WellFormed(value)
    modifies out
    ensures out.data == old(out.data) + Encode(value)
    decreases value
  {
    hide Header;
    match value {
      case UInt(n) => EncodeHeader(out, MT_UINT, n);
      case NInt(n) => EncodeHeader(out, MT_NINT, n);
      case Bytes(b) => EncodeString(out, MT_BYTES, b);
      case Text(s) => EncodeString(out, MT_TEXT, Utf8.Encode(s));
      case Array(items) =>
        hide EncodeItems;
        EncodeHeader(out, MT_ARRAY, |items|);
        EncodeEach(items, out);
      case Map(entries) =>
        hide EncodePairs;
        EncodeHeader(out, MT_MAP, |entries|);
        EncodeEachPair(entries, out);
      case Bool(b) => out.Push(32 * MT_SIMPLE + if b then SIMPLE_TRUE else SIMPLE_FALSE);
      case Null => out.Push(32 * MT_SIMPLE + SIMPLE_NULL);
    }
  }

  method EncodeString(out: ByteVec, major: int, b: bytes)
    requires 0 <= major < 8 && |b| < U64
    modifies out
    ensures out.data == old(out.data) + (Header(major, |b|) + b)
  {
    hide Header;
    EncodeHeader(out, major, |b|);
    out.Extend(b);
  }

  method EncodeEach(items: seq<Value>, out: ByteVec)
    requires forall i :: 0 <= i < |items| ==> WellFormed(items[i])
    modifies out
    ensures out.data == old(out.data) + EncodeItems(items)
    decreases items
  {
    hide Encode, WellFormed;
    ghost var before := out.data;
    for i := 0 to |items|
      invariant before + EncodeItems(items) == out.data + EncodeItems(items[i..])
    {
      EncodeInto(items[i], out);
      assert items[i..][1..] == items[i + 1..];
    }
    assert items[|items|..] == [];
  }

  method EncodeEachPair(entries: seq<Pair>, out: ByteVec)
    requires forall i :: 0 <= i < |entries| ==> WellFormedPair(entries[i])
    modifies out
    ensures out.data == old(out.data) + EncodePairs(entries)
    decreases entries
  {
    hide Encode, WellFormed;
    ghost var before := out.data;
    for i := 0 to |entries|
      invariant before + EncodePairs(entries) == out.data + EncodePairs(entries[i..])
    {
      EncodeOnePair(entries[i], out);
      assert entries[i..][1..] == entries[i + 1..];
    }
    assert entries[|entries|..] == [];
  }

  method EncodeOnePair(p: Pair, out: ByteVec)
    requires WellFormedPair(p)
    modifies out
    ensures out.data == old(out.data) + EncodePair(p)
    decreases p
  {
    hide Encode, WellFormed;
    EncodeInto(p.key, out);
    EncodeInto(p.value, out);
  }

  // ----- Decoding

  /** What was read already, in front of what is still to read. */
  function Joined<T>(read: seq<T>, r: Decoded<seq<T>>): Decoded<seq<T>> {
    if r.Err? then r else Ok((read + r.value.0, r.value.1))
  }

  lemma JoinedLaws<T>(read: seq<T>, next: T, r: Decoded<seq<T>>)
    ensures Joined([], r) == r
    ensures Joined(read, Joined([next], r)) == Joined(read + [next], r)
  {
    if r.Ok? {
      assert [] + r.value.0 == r.value.0;
      assert read + ([next] + r.value.0) == read + [next] + r.value.0;
    }
  }

  method DecodeValue(data: bytes, depth: nat) returns (r: Decoded<Value>)
    ensures r == DecodeAt(data, depth)
    decreases DECODE_DEPTH_LIMIT + 1 - depth, 0
  {
    if depth > DECODE_DEPTH_LIMIT {
      return Err(DepthLimit);
    }
    var head := ReadHead(data);
    if head.Err? {
      return Err(head.error);
    }
    var h := head.value;
    if h.major != MT_ARRAY && h.major != MT_MAP {
      DecodeAtLeaf(data, depth);
      return DecodeLeaf(h);
    }
    DecodeAtContainer(data, depth);
    hide DecodeAt, DecodeItems, ReadHead;
    var items := DecodeEach(h.rest, Children(h), depth + 1);
    r := Assemble(h.major, items);
  }

  /** Read `count` items in a row, stopping at the first that fails. */
  method DecodeEach(data: bytes, count: nat, depth: nat) returns (r: Decoded<seq<Value>>)
    ensures r == DecodeItems(data, count, depth)
    decreases DECODE_DEPTH_LIMIT + 1 - depth, 1
  {
    hide DecodeAt, DecodeItems;
    var items: seq<Value>, rest := [], data;
    JoinedLaws([], Null, DecodeItems(data, count, depth));
    for i := 0 to count
      invariant DecodeItems(data, count, depth) == Joined(items, DecodeItems(rest, count - i, depth))
    {
      var item := DecodeValue(rest, depth);
      DecodeStep(rest, count - i, depth);
      if item.Err? {
        return Err(item.error);
      }
      JoinedLaws(items, item.value.0, DecodeItems(item.value.1, count - i - 1, depth));
      items, rest := items + [item.value.0], item.value.1;
    }
    DecodeNone(rest, depth);
    assert items + [] == items;
    return Ok((items, rest));
  }

  lemma DecodeNone(data: bytes, depth: nat)
    ensures DecodeItems(data, 0, depth) == Ok(([], data))
  {
  }

  /** Reading one item more. */
  lemma DecodeStep(data: bytes, count: nat, depth: nat)
    requires count > 0
    ensures DecodeItems(data, count, depth)
         == var one := DecodeAt(data, depth);
            if one.Err? then Err(one.error) else Joined([one.value.0], DecodeItems(one.value.1, count - 1, depth))
  {
    hide DecodeAt;
  }

  // ----- Measuring and splitting

  method MeasureItem(data: bytes, depth: nat) returns (r: Result<nat, CborError>)
    ensures r == ItemLenAt(data, depth)
    decreases DECODE_DEPTH_LIMIT + 1 - depth, 0
  {
    if depth > DECODE_DEPTH_LIMIT {
      return Err(DepthLimit);
    }
    var head := ReadHead(data);
    if head.Err? {
      return Err(head.error);
    }
    var h := head.value;
    var header := |data| - |h.rest|;
    if h.major == MT_BYTES || h.major == MT_TEXT {
      return if header + h.arg > |data| then Err(UnexpectedEnd) else Ok(header + h.arg);
    }
    ItemLenOfHolder(data, depth);
    hide ItemLenAt, ItemsLen, ReadHead;
    var count := Children(h);
    if h.major == MT_MAP && count >= U64 {
      return Err(UnexpectedEnd);
    }
    r := MeasureEach(h.rest, count, depth + 1);
    r := if r.Err? then r else Ok(header + r.value);
  }

  /** Add up the lengths of `count` items in a row. */
  method MeasureEach(data: bytes, count: nat, depth: nat) returns (r: Result<nat, CborError>)
    ensures r == ItemsLen(data, count, depth)
    decreases DECODE_DEPTH_LIMIT + 1 - depth, 1
  {
    hide ItemLenAt, ItemsLen;
    var at := 0;
    assert data[0..] == data;
    ghost var all := ItemsLen(data, count, depth);
    for i := 0 to count
      invariant 0 <= at <= |data|
      invariant all == Further(at, ItemsLen(data[at..], count - i, depth))
    {
      var len := MeasureItem(data[at..], depth);
      MeasureStep(data[at..], count - i, depth);
      if len.Err? {
        return len;
      }
      assert data[at..][len.value..] == data[at + len.value..];
      at := at + len.value;
    }
    MeasureNone(data[at..], depth);
    return Ok(at);
  }

  function Further(at: nat, r: Result<nat, CborError>): Result<nat, CborError> {
    if r.Err? then r else Ok(at + r.value)
  }

  lemma MeasureNone(data: bytes, depth: nat)
    ensures ItemsLen(data, 0, depth) == Ok(0)
  {
  }

  lemma MeasureStep(data: bytes, count: nat, depth: nat)
    requires count > 0
    ensures var one := ItemLenAt(data, depth);
            && (one.Ok? ==> one.value <= |data|)
            && ItemsLen(data, count, depth)
               == if one.Err? then one else Further(one.value, ItemsLen(data[one.value..], count - 1, depth))
  {
    hide ItemLenAt;
  }

  method SplitArrayRaw(data: bytes) returns (r: Decoded<seq<bytes>>)
    ensures r == SplitArray(data)
  {
    if data == [] {
      return Err(UnexpectedEnd);
    }
    if data[0] / 32 != MT_ARRAY {
      return Err(UnsupportedType(data[0] / 32));
    }
    var head := ReadHead(data);
    if head.Err? {
      return Err(head.error);
    }
    r := SplitEach(head.value.rest, head.value.arg);
  }

  method SplitMapRaw(data: bytes) returns (r: Decoded<seq<RawPair>>)
    ensures r == SplitMap(data)
  {
    if data == [] {
      return Err(UnexpectedEnd);
    }
    if data[0] / 32 != MT_MAP {
      return Err(UnsupportedType(data[0] / 32));
    }
    var head := ReadHead(data);
    if head.Err? {
      return Err(head.error);
    }
    var items := SplitEach(head.value.rest, 2 * head.value.arg);
    if items.Err? {
      return Err(items.error);
    }
    r := Ok((RawPairUp(items.value.0), items.value.1));
  }

  /** Cut `count` items off, one measured length at a time. */
  method SplitEach(data: bytes, count: nat) returns (r: Decoded<seq<bytes>>)
    ensures r == SplitItems(data, count)
  {
    hide ItemLenAt;
    var items: seq<bytes>, rest := [], data;
    JoinedLaws([], [], SplitItems(data, count));
    for i := 0 to count
      invariant SplitItems(data, count) == Joined(items, SplitItems(rest, count - i))
    {
      var len := MeasureItem(rest, 1);
      if len.Err? {
        return Err(len.error);
      }
      var item, after := rest[..len.value], rest[len.value..];
      JoinedLaws(items, item, SplitItems(after, count - i - 1));
      items, rest := items + [item], after;
    }
    assert items + [] == items;
    r := Ok((items, rest));
  }
}
