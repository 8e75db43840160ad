/**
 The CBOR codec CTAP2 needs (RFC 8949, section 3): the canonical encoder, the
 lenient decoder, and the measurer that finds an item's extent without
 interpreting it. The functions say what each operation computes; the methods
 in CborCode are the loops that compute it; CborLaws relates the three.
 */
module Cbor {
  import opened Prelude
  import opened Bytes
  import Utf8

  const MT_UINT: int := 0
  const MT_NINT: int := 1
  const MT_BYTES: int := 2
  const MT_TEXT: int := 3
  const MT_ARRAY: int := 4
  const MT_MAP: int := 5
  const MT_TAG: int := 6
  const MT_SIMPLE: int := 7

  const SIMPLE_FALSE: int := 20
  const SIMPLE_TRUE: int := 21
  const SIMPLE_NULL: int := 22
  const SIMPLE_UNDEFINED: int := 23

  const DECODE_DEPTH_LIMIT: int := 16

  datatype Value =
    | UInt(n: nat)
    | NInt(n: nat)
    | Bytes(data: bytes)
    | Text(text: string)
    | Array(items: seq<Value>)
    | Map(entries: seq<Pair>)
    | Bool(flag: bool)
    | Null

  datatype Pair = Pair(key: Value, value: Value)

  datatype CborError =
    | UnexpectedEnd
    | InvalidUtf8
    | UnsupportedType(major: int)
    | UnsupportedAdditional(additional: int)
    | DepthLimit

  // ----- Encoding

  /** A header: major type and argument, in the shortest form. */
  function Header(major: int, n: nat): (h: bytes)
    requires 0 <= major < 8
    ensures |h| >= 1
  {
    if n < 24 then [32 * major + n]
    else if n <= 0xFF then [32 * major + 24] + BE(n, 1)
    else if n <= 0xFFFF then [32 * major + 25] + BE(n, 2)
    else if n <= 0xFFFF_FFFF then [32 * major + 26] + BE(n, 4)
    else [32 * major + 27] + BE(n, 8)
  }

  function Encode(v: Value): (e: bytes)
    ensures |e| >= 1
    decreases v, 0
  {
    match v
    case UInt(n) => Header(MT_UINT, n)
    case NInt(n) => Header(MT_NINT, n)
    case Bytes(b) => Header(MT_BYTES, |b|) + b
    case Text(s) => Header(MT_TEXT, |Utf8.Encode(s)|) + Utf8.Encode(s)
    case Array(items) => Header(MT_ARRAY, |items|) + EncodeItems(items)
    case Map(entries) => Header(MT_MAP, |entries|) + EncodePairs(entries)
    case Bool(b) => [32 * MT_SIMPLE + if b then SIMPLE_TRUE else SIMPLE_FALSE]
    case Null => [32 * MT_SIMPLE + SIMPLE_NULL]
  }

  function EncodeItems(items: seq<Value>): bytes
    decreases items, 1
  {
    if items == [] then [] else Encode(items[0]) + EncodeItems(items[1..])
  }

  function EncodePairs(entries: seq<Pair>): bytes
    decreases entries, 1
  {
    if entries == [] then [] else EncodePair(entries[0]) + EncodePairs(entries[1..])
  }

  function EncodePair(p: Pair): bytes
    decreases p, 1
  {
    Encode(p.key) + Encode(p.value)
  }

  // ----- Reading a header

  /** The argument a header's additional information announces. */
  function ReadArg(rest: bytes, additional: int): Result<(nat, bytes), CborError> {
    if 0 <= additional <= 23 then Ok((additional, rest))
    else if 24 <= additional <= 27 then
      var k := if additional == 24 then 1 else if additional == 25 then 2 else if additional == 26 then 4 else 8;
      if |rest| < k then Err(UnexpectedEnd) else Ok((FromBE(rest[..k]), rest[k..]))
    else Err(UnsupportedAdditional(additional))
  }

  /** An item's header, read: what it announces and the bytes after it. */
  datatype Head = Head(major: int, additional: int, arg: nat, rest: bytes)

  function ReadHead(data: bytes): (r: Result<Head, CborError>)
    ensures r.Ok? ==> |r.value.rest| < |data| && r.value.rest == data[|data| - |r.value.rest|..]
  {
    if data == [] then Err(UnexpectedEnd) else
    var (arg, rest) :- ReadArg(data[1..], data[0] % 32);
    Ok(Head(data[0] / 32, data[0] % 32, arg, rest))
  }

  /** How many items an item holds directly. */
  function Children(h: Head): nat {
    if h.major == MT_ARRAY then h.arg
    else if h.major == MT_MAP then 2 * h.arg
    else if h.major == MT_TAG then 1
    else 0
  }

  // ----- Decoding

  type Decoded<T> = Result<(T, bytes), CborError>

  function Decode(data: bytes): Decoded<Value> {
    DecodeAt(data, 0)
  }

  function DecodeAt(data: bytes, depth: nat): Decoded<Value>
    decreases DECODE_DEPTH_LIMIT + 1 - depth, 0, 0
  {
    if depth > DECODE_DEPTH_LIMIT then Err(DepthLimit) else
    var h :- ReadHead(data);
    if h.major == MT_ARRAY || h.major == MT_MAP then
      var (items, rest) :- DecodeItems(h.rest, Children(h), depth + 1);
      Ok((if h.major == MT_ARRAY then Array(items) else Map(PairUp(items)), rest))
    else
      DecodeLeaf(h)
  }

  /** `count` items in a row. */
  function DecodeItems(data: bytes, count: nat, depth: nat): (r: Decoded<seq<Value>>)
    ensures r.Ok? ==> |r.value.0| == count
    decreases DECODE_DEPTH_LIMIT + 1 - depth, 1, count
  {
    if count == 0 then Ok(([], data)) else
    var (v, r) :- DecodeAt(data, depth);
    var (vs, rest) :- DecodeItems(r, count - 1, depth);
    Ok(([v] + vs, rest))
  }

  /** Everything that is not an array or a map. */
  function DecodeLeaf(h: Head): Decoded<Value> {
    if h.major == MT_UINT then Ok((UInt(h.arg), h.rest))
    else if h.major == MT_NINT then Ok((NInt(h.arg), h.rest))
    else if h.major == MT_BYTES then
      if |h.rest| < h.arg then Err(UnexpectedEnd) else Ok((Bytes(h.rest[..h.arg]), h.rest[h.arg..]))
    else if h.major == MT_TEXT then
      if |h.rest| < h.arg then Err(UnexpectedEnd) else
      match Utf8.Decode(h.rest[..h.arg])
      case Some(s) => Ok((Text(s), h.rest[h.arg..]))
      case None => Err(InvalidUtf8)
    else if h.major == MT_SIMPLE then
      if h.additional == SIMPLE_FALSE then Ok((Bool(false), h.rest))
      else if h.additional == SIMPLE_TRUE then Ok((Bool(true), h.rest))
      else if h.additional == SIMPLE_NULL || h.additional == SIMPLE_UNDEFINED then Ok((Null, h.rest))
      else Err(UnsupportedAdditional(h.additional))
    else Err(UnsupportedType(h.major))
  }

  /** Keys and values as they alternate in a map's body. */
  function PairUp(items: seq<Value>): (entries: seq<Pair>)
    ensures |entries| == |items| / 2
  {
    if |items| < 2 then [] else [Pair(items[0], items[1])] + PairUp(items[2..])
  }

  // ----- Measuring

  function ItemLen(data: bytes): Result<nat, CborError> {
    ItemLenAt(data, 0)
  }

  /** Header, then its own bytes, then the items it holds; tags hold one item. */
  function ItemLenAt(data: bytes, depth: nat): (r: Result<nat, CborError>)
    ensures r.Ok? ==> 1 <= r.value <= |data|
    decreases DECODE_DEPTH_LIMIT + 1 - depth, 0, 0
  {
    if depth > DECODE_DEPTH_LIMIT then Err(DepthLimit) else
    var h :- ReadHead(data);
    var header := |data| - |h.rest|;
    if h.major == MT_BYTES || h.major == MT_TEXT then
      if header + h.arg > |data| then Err(UnexpectedEnd) else Ok(header + h.arg)
    else if h.major == MT_MAP && Children(h) >= U64 then Err(UnexpectedEnd)
    else
      var len :- ItemsLen(h.rest, Children(h), depth + 1);
      Ok(header + len)
  }

  /** The length of `count` items in a row. */
  function ItemsLen(data: bytes, count: nat, depth: nat): (r: Result<nat, CborError>)
    ensures r.Ok? ==> count <= r.value <= |data|
    decreases DECODE_DEPTH_LIMIT + 1 - depth, 1, count
  {
    if count == 0 then Ok(0) else
    var len :- ItemLenAt(data, depth);
    var more :- ItemsLen(data[len..], count - 1, depth);
    Ok(len + more)
  }

  // ----- Splitting without decoding

  /** The raw elements of the array at the start of `data`, and what follows it. */
  function SplitArray(data: bytes): Decoded<seq<bytes>> {
    if data == [] then Err(UnexpectedEnd) else
    if data[0] / 32 != MT_ARRAY then Err(UnsupportedType(data[0] / 32)) else
    var h :- ReadHead(data);
    SplitItems(h.rest, h.arg)
  }

  /** `count` items in a row, each cut out as its raw bytes. */
  function SplitItems(data: bytes, count: nat): (r: Decoded<seq<bytes>>)
    ensures r.Ok? ==> |r.value.0| == count
    decreases count
  {
    if count == 0 then Ok(([], data)) else
    var len :- ItemLenAt(data, 1);
    var (items, rest) :- SplitItems(data[len..], count - 1);
    Ok(([data[..len]] + items, rest))
  }

  datatype RawPair = RawPair(key: bytes, value: bytes)

  /** The raw keys and values of the map at the start of `data`, and what follows it. */
  function SplitMap(data: bytes): Decoded<seq<RawPair>> {
    if data == [] then Err(UnexpectedEnd) else
    if data[0] / 32 != MT_MAP then Err(UnsupportedType(data[0] / 32)) else
    var h :- ReadHead(data);
    var (items, rest) :- SplitItems(h.rest, 2 * h.arg);
    Ok((RawPairUp(items), rest))
  }

  function RawPairUp(items: seq<bytes>): (pairs: seq<RawPair>)
    ensures |pairs| == |items| / 2
  {
    if |items| < 2 then [] else [RawPair(items[0], items[1])] + RawPairUp(items[2..])
  }

  // ----- Vocabulary of the laws

  /** Every number is a u64 and every length fits one: what the Rust type holds. */
  predicate WellFormed(v: Value) {
    match v
    case UInt(n) => n < U64
    case NInt(n) => n < U64
    case Bytes(b) => |b| < U64
    case Text(s) => |Utf8.Encode(s)| < U64
    case Array(items) => |items| < U64 && forall i :: 0 <= i < |items| ==> WellFormed(items[i])
    case Map(entries) =>
      && 2 * |entries| < U64
      && forall i :: 0 <= i < |entries| ==> WellFormedPair(entries[i])
    case Bool(_) => true
    case Null => true
  }

  predicate WellFormedPair(p: Pair) {
    WellFormed(p.key) && WellFormed(p.value)
  }

  /** How many levels of array or map `v` nests: an empty container nests none. */
  function Nesting(v: Value): nat
    decreases v, 0
  {
    match v
    case Array(items) => if items == [] then 0 else 1 + NestingOfItems(items)
    case Map(entries) => if entries == [] then 0 else 1 + NestingOfPairs(entries)
    case _ => 0
  }

  function NestingOfItems(items: seq<Value>): nat
    decreases items, 1
  {
    if items == [] then 0 else Max(Nesting(items[0]), NestingOfItems(items[1..]))
  }

  function NestingOfPairs(entries: seq<Pair>): nat
    decreases entries, 1
  {
    if entries == [] then 0 else Max(NestingOfPair(entries[0]), NestingOfPairs(entries[1..]))
  }

  function NestingOfPair(p: Pair): nat
    decreases p, 1
  {
    Max(Nesting(p.key), Nesting(p.value))
  }
}
