/**
 Import files that start with a byte-order mark, as UTF-8. UTF-16 (section 2
 of RFC 2781) is converted in either byte order; everything else is left as
 it is.
 */
module Text {
  import opened Prelude
  import opened Bytes
  import Utf8

  type Unit = u: nat | u < 0x1_0000

  const UTF8_BOM: bytes := [0xEF, 0xBB, 0xBF]
  const UTF16_LE_BOM: bytes := [0xFF, 0xFE]
  const UTF16_BE_BOM: bytes := [0xFE, 0xFF]

  datatype Damaged = Damaged

  predicate High(u: nat) {
    0xD800 <= u < 0xDC00
  }

  predicate Low(u: nat) {
    0xDC00 <= u < 0xE000
  }

  // ----- Characters and units

  function JoinPair(high: int, low: int): int {
    0x1_0000 + (high - 0xD800) * 1024 + (low - 0xDC00)
  }

  /** The units of a character: one, or a surrogate pair. */
  function EncodeChar16(c: char): (u: seq<Unit>)
    ensures 1 <= |u| <= 2
  {
    var n := c as int;
    if n < 0x1_0000 then [n] else [0xD800 + (n - 0x1_0000) / 1024, 0xDC00 + (n - 0x1_0000) % 1024]
  }

  function Encode16(s: string): seq<Unit> {
    if s == [] then [] else EncodeChar16(s[0]) + Encode16(s[1..])
  }

  /** The next character, and how many units it takes. */
  function DecodeChar16(u: seq<Unit>): Option<(char, nat)>
    requires u != []
  {
    if Low(u[0]) then None
    else if !High(u[0]) then Some((u[0] as char, 1))
    else if |u| >= 2 && Low(u[1]) then Some((JoinPair(u[0], u[1]) as char, 2))
    else None
  }

  /** `char::decode_utf16`, to the end or the first error. */
  function Decode16(u: seq<Unit>): Option<string> {
    if u == [] then Some([]) else
    var (c, n) :- DecodeChar16(u);
    if n > |u| then None else
    var rest :- Decode16(u[n..]);
    Some([c] + rest)
  }

  /** Two bytes as a unit. */
  function UnitOf(a: int, b: int, le: bool): int {
    if le then b * 256 + a else a * 256 + b
  }

  function UnitsOf(b: bytes, le: bool): (u: seq<Unit>)
    requires |b| % 2 == 0
    ensures 2 * |u| == |b|
  {
    if b == [] then [] else [UnitOf(b[0], b[1], le)] + UnitsOf(b[2..], le)
  }

  function BytesOf(u: seq<Unit>, le: bool): (b: bytes)
    ensures |b| == 2 * |u|
  {
    if u == [] then []
    else (if le then [u[0] % 256, u[0] / 256] else [u[0] / 256, u[0] % 256]) + BytesOf(u[1..], le)
  }

  // ----- The conversion

  /** The text after a UTF-16 byte-order mark, and its byte order. */
  function Utf16Body(b: bytes): Option<(bytes, bool)> {
    if UTF8_BOM <= b then None
    else if UTF16_LE_BOM <= b then Some((b[2..], true))
    else if UTF16_BE_BOM <= b then Some((b[2..], false))
    else None
  }

  function ToUtf8(b: bytes): Result<bytes, Damaged> {
    if UTF8_BOM <= b then Ok(b[3..])
    else if Utf16Body(b).None? then Ok(b)
    else
      var (body, le) := Utf16Body(b).value;
      if |body| % 2 != 0 then Err(Damaged)
      else
        match Decode16(UnitsOf(body, le))
        case None => Err(Damaged)
        case Some(s) => Ok(Utf8.Encode(s))
  }

  /** The loop, into a buffer of three bytes a unit that is never grown. */
  method Convert(b: bytes) returns (r: Result<bytes, Damaged>)
    ensures r == ToUtf8(b)
  {
    hide Decode16, UnitsOf, Utf8.Encode, Utf8.EncodeChar, DecodeChar16;
    if UTF8_BOM <= b {
      return Ok(b[3..]);
    }
    var body, le;
    if UTF16_LE_BOM <= b {
      body, le := b[2..], true;
    } else if UTF16_BE_BOM <= b {
      body, le := b[2..], false;
    } else {
      return Ok(b);
    }
    if |body| % 2 != 0 {
      return Err(Damaged);
    }
    var units := UnitsOf(body, le);
    var out := new byte[|body| / 2 * 3];
    var len: nat, i: nat := 0, 0;
    ghost var read: string := "";
    Utf8.EncodeNothing();
    assert units[0..] == units;
    PrependNothing(Decode16(units));
    while i < |units|
      invariant i <= |units| && len <= 3 * i && out.Length == 3 * |units|
      invariant out[..len] == Utf8.Encode(read)
      invariant Decode16(units) == Prepend(read, Decode16(units[i..]))
    {
      var next := DecodeChar16(units[i..]);
      DecodeFirst(units[i..]);
      if next.None? {
        return Err(Damaged);
      }
      var (c, n) := next.value;
      CharSize(units[i..]);
      var utf8 := Utf8.EncodeChar(c);
      var before := out[..len];
      for k := 0 to |utf8|
        invariant out[..len + k] == before + utf8[..k]
      {
        out[len + k] := utf8[k];
        assert out[..len + k + 1] == out[..len + k] + [utf8[k]];
      }
      assert out[..len + |utf8|] == before + utf8;
      EncodeOneMore(read, c);
      PrependTwice(read, [c], Decode16(units[i..][n..]));
      assert units[i..][n..] == units[i + n..];
      len, i, read := len + |utf8|, i + n, read + [c];
    }
    assert units[i..] == [];
    DecodeEnd(read);
    r := Ok(out[..len]);
  }

  lemma DecodeEnd(read: string)
    ensures Prepend(read, Decode16([])) == Some(read)
  {
    assert read + [] == read;
  }

  lemma DecodeFirst(u: seq<Unit>)
    requires u != []
    ensures Decode16(u) == if DecodeChar16(u).None? then None
                           else Prepend([DecodeChar16(u).value.0], Decode16(u[DecodeChar16(u).value.1..]))
  {
  }

  lemma EncodeOneMore(s: string, c: char)
    ensures Utf8.Encode(s + [c]) == Utf8.Encode(s) + Utf8.EncodeChar(c)
  {
    hide Utf8.EncodeChar, Utf8.Encode;
    Utf8.EncodeConcat(s, [c]);
    Utf8.EncodeFirst([c]);
    Utf8.EncodeNothing();
    assert [c][1..] == [];
  }

  /** A character takes at most three bytes for each of its units. */
  lemma CharSize(u: seq<Unit>)
    requires u != [] && DecodeChar16(u).Some?
    ensures var (c, n) := DecodeChar16(u).value;
            1 <= n <= |u| && n <= 2 && |Utf8.EncodeChar(c)| <= 3 * n
  {
  }

  // ----- When it fails

  /** Every high surrogate is followed by a low one, and every low one follows a high one. */
  predicate Paired(u: seq<Unit>) {
    && (forall i :: 0 <= i < |u| && High(u[i]) ==> i + 1 < |u| && Low(u[i + 1]))
    && (forall i :: 0 <= i < |u| && Low(u[i]) ==> i > 0 && High(u[i - 1]))
  }

  lemma {:induction false} DecodesWhenPaired(u: seq<Unit>)
    ensures Decode16(u).Some? <==> Paired(u)
    decreases |u|
  {
    hide Decode16;
    if u == [] {
      DecodeEnd([]);
    } else {
      DecodeFirst(u);
      if DecodeChar16(u).Some? {
        var n := DecodeChar16(u).value.1;
        DecodesWhenPaired(u[n..]);
        PairedTail(u, n);
      }
    }
  }

  lemma PairedTail(u: seq<Unit>, n: nat)
    requires 1 <= n <= 2 && n <= |u|
    requires n == 1 ==> !High(u[0]) && !Low(u[0])
    requires n == 2 ==> High(u[0]) && Low(u[1])
    ensures Paired(u) <==> Paired(u[n..])
  {
    var t := u[n..];
    assert forall i :: 0 <= i < |t| ==> t[i] == u[i + n];
    if Paired(t) {
      forall i | 0 <= i < |u| && High(u[i]) ensures i + 1 < |u| && Low(u[i + 1]) {
        if i >= n {
          assert t[i - n] == u[i];
          assert Low(t[i - n + 1]);
        }
      }
      forall i | 0 <= i < |u| && Low(u[i]) ensures i > 0 && High(u[i - 1]) {
        if i >= n {
          assert t[i - n] == u[i];
          assert High(t[i - n - 1]);
        }
      }
    }
    if Paired(u) {
      forall i | 0 <= i < |t| && Low(t[i]) ensures i > 0 && High(t[i - 1]) {
        assert Low(u[i + n]) && High(u[i + n - 1]);
      }
      forall i | 0 <= i < |t| && High(t[i]) ensures i + 1 < |t| && Low(t[i + 1]) {
        assert High(u[i + n]) && Low(u[i + n + 1]);
      }
    }
  }

  /** It fails exactly on a UTF-16 mark before an odd number of bytes or an unpaired surrogate. */
  lemma FailsExactly(b: bytes)
    ensures ToUtf8(b).Err? <==>
              && Utf16Body(b).Some?
              && var (body, le) := Utf16Body(b).value;
                 |body| % 2 != 0 || !Paired(UnitsOf(body, le))
  {
    hide Decode16, UnitsOf, Utf8.Encode;
    if Utf16Body(b).Some? && |Utf16Body(b).value.0| % 2 == 0 {
      DecodesWhenPaired(UnitsOf(Utf16Body(b).value.0, Utf16Body(b).value.1));
    }
  }

  // ----- Any text comes through

  lemma PairOf(n: nat)
    requires 0x1_0000 <= n < 0x11_0000
    ensures JoinPair(0xD800 + (n - 0x1_0000) / 1024, 0xDC00 + (n - 0x1_0000) % 1024) == n
  {
  }

  lemma DecodeCharOfEncode16(c: char, rest: seq<Unit>)
    ensures DecodeChar16(EncodeChar16(c) + rest) == Some((c, |EncodeChar16(c)|))
  {
    if c as int >= 0x1_0000 {
      PairOf(c as int);
    }
  }

  lemma {:induction false} DecodeOfEncode16(s: string)
    ensures Decode16(Encode16(s)) == Some(s)
  {
    hide Decode16, EncodeChar16;
    if s == [] {
      DecodeEnd([]);
    } else {
      var first, rest := EncodeChar16(s[0]), Encode16(s[1..]);
      DecodeCharOfEncode16(s[0], rest);
      DecodeFirst(first + rest);
      assert (first + rest)[|first|..] == rest;
      DecodeOfEncode16(s[1..]);
      assert [s[0]] + s[1..] == s;
    }
  }

  lemma UnitSplit(u: Unit, le: bool)
    ensures if le then UnitOf(u % 256, u / 256, le) == u else UnitOf(u / 256, u % 256, le) == u
  {
  }

  lemma {:induction false} UnitsOfBytes(u: seq<Unit>, le: bool)
    ensures UnitsOf(BytesOf(u, le), le) == u
  {
    hide UnitOf;
    if u != [] {
      UnitSplit(u[0], le);
      assert BytesOf(u, le)[2..] == BytesOf(u[1..], le);
      UnitsOfBytes(u[1..], le);
    }
  }

  /** Any text, in UTF-16 of either byte order with its mark, becomes exactly its UTF-8. */
  lemma AnyTextComesThrough(s: string, le: bool)
    ensures ToUtf8((if le then UTF16_LE_BOM else UTF16_BE_BOM) + BytesOf(Encode16(s), le)) == Ok(Utf8.Encode(s))
  {
    hide Decode16, UnitsOf, Utf8.Encode, Encode16, BytesOf;
    var body := BytesOf(Encode16(s), le);
    var bom := if le then UTF16_LE_BOM else UTF16_BE_BOM;
    assert (bom + body)[2..] == body && (bom + body)[0] == bom[0] && (bom + body)[1] == bom[1];
    UnitsOfBytes(Encode16(s), le);
    DecodeOfEncode16(s);
  }

  /** Never more than three bytes out for every two bytes in. */
  lemma {:induction false} AtMostThreeBytesAUnit(u: seq<Unit>)
    ensures Decode16(u).Some? ==> |Utf8.Encode(Decode16(u).value)| <= 3 * |u|
    decreases |u|
  {
    hide Decode16, Utf8.EncodeChar, Utf8.Encode, DecodeChar16;
    if u == [] {
      DecodeEnd([]);
      Utf8.EncodeNothing();
    } else if Decode16(u).Some? {
      DecodeFirst(u);
      CharSize(u);
      var (c, n) := DecodeChar16(u).value;
      AtMostThreeBytesAUnit(u[n..]);
      var s := Decode16(u).value;
      Utf8.EncodeFirst(s);
      assert s[1..] == Decode16(u[n..]).value;
    }
  }
}
