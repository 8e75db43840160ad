/**
 UTF-8 (RFC 3629, section 3) between text and bytes. A Dafny `char` is a
 Unicode scalar value, so `string` is what a Rust `String` holds.
 */
module Utf8 {
  import opened Prelude
  import opened Bytes

  function EncodeChar(c: char): (b: bytes)
    ensures 1 <= |b| <= 4
  {
    var n := c as int;
    if n < 0x80 then [n]
    else if n < 0x800 then [0xC0 + n / 64, 0x80 + n % 64]
    else if n < 0x1_0000 then [0xE0 + n / 4096, 0x80 + n / 64 % 64, 0x80 + n % 64]
    else [0xF0 + n / 262144, 0x80 + n / 4096 % 64, 0x80 + n / 64 % 64, 0x80 + n % 64]
  }

  predicate Tail(b: int) {
    0x80 <= b < 0xC0
  }

  // The code points two, three and four bytes stand for.
  function Two(a: int, b: int): int {
    (a - 0xC0) * 64 + (b - 0x80)
  }

  function Three(a: int, b: int, c: int): int {
    (a - 0xE0) * 4096 + (b - 0x80) * 64 + (c - 0x80)
  }

  function Four(a: int, b: int, c: int, d: int): int {
    (a - 0xF0) * 262144 + (b - 0x80) * 4096 + (c - 0x80) * 64 + (d - 0x80)
  }

  /** The character whose well-formed encoding starts `b`, if there is one. */
  function DecodeChar(b: bytes): Option<char> {
    if b == [] then None
    else if b[0] < 0x80 then Some(b[0] as char)
    else if b[0] < 0xE0 then
      if 0xC2 <= b[0] && |b| >= 2 && Tail(b[1]) then Some(Two(b[0], b[1]) as char) else None
    else if b[0] < 0xF0 then
      if |b| >= 3 && Tail(b[1]) && Tail(b[2])
         && (b[0] == 0xE0 ==> b[1] >= 0xA0) && (b[0] == 0xED ==> b[1] < 0xA0)
      then Some(Three(b[0], b[1], b[2]) as char) else None
    else if b[0] < 0xF5 then
      if |b| >= 4 && Tail(b[1]) && Tail(b[2]) && Tail(b[3])
         && (b[0] == 0xF0 ==> b[1] >= 0x90) && (b[0] == 0xF4 ==> b[1] < 0x90)
      then Some(Four(b[0], b[1], b[2], b[3]) as char) else None
    else None
  }

  /** `str::as_bytes`. */
  function Encode(s: string): bytes {
    if s == [] then [] else EncodeChar(s[0]) + Encode(s[1..])
  }

  /** `str::from_utf8`. */
  function Decode(b: bytes): Option<string>
    decreases |b|
  {
    if b == [] then Some([]) else
    var c :- DecodeChar(b);
    if |EncodeChar(c)| > |b| then None else
    var rest :- Decode(b[|EncodeChar(c)|..]);
    Some([c] + rest)
  }

  // Splitting a code point into six-bit groups loses nothing.
  lemma TwoOf(n: int)
    requires 0x80 <= n < 0x800
    ensures Two(0xC0 + n / 64, 0x80 + n % 64) == n
  {
  }

  lemma ThreeOf(n: int)
    requires 0x800 <= n < 0x1_0000
    ensures Three(0xE0 + n / 4096, 0x80 + n / 64 % 64, 0x80 + n % 64) == n
  {
    assert n / 4096 == n / 64 / 64;
  }

  lemma FourOf(n: int)
    requires 0x1_0000 <= n < 0x11_0000
    ensures Four(0xF0 + n / 262144, 0x80 + n / 4096 % 64, 0x80 + n / 64 % 64, 0x80 + n % 64) == n
  {
    assert n / 4096 == n / 64 / 64;
    assert n / 262144 == n / 4096 / 64;
  }

  lemma GroupsOfTwo(a: int, b: int)
    requires 0xC2 <= a < 0xE0 && Tail(b)
    ensures var n := Two(a, b); 0x80 <= n < 0x800 && 0xC0 + n / 64 == a && 0x80 + n % 64 == b
  {
  }

  lemma GroupsOfThree(a: int, b: int, c: int)
    requires 0xE0 <= a < 0xF0 && Tail(b) && Tail(c) && (a == 0xE0 ==> b >= 0xA0)
    ensures var n := Three(a, b, c);
            && 0x800 <= n < 0x1_0000
            && 0xE0 + n / 4096 == a && 0x80 + n / 64 % 64 == b && 0x80 + n % 64 == c
  {
    var n := Three(a, b, c);
    assert n / 64 == (a - 0xE0) * 64 + (b - 0x80);
    assert n / 4096 == n / 64 / 64;
  }

  lemma GroupsOfFour(a: int, b: int, c: int, d: int)
    requires 0xF0 <= a < 0xF5 && Tail(b) && Tail(c) && Tail(d) && (a == 0xF0 ==> b >= 0x90) && (a == 0xF4 ==> b < 0x90)
    ensures var n := Four(a, b, c, d);
            && 0x1_0000 <= n < 0x11_0000
            && 0xF0 + n / 262144 == a && 0x80 + n / 4096 % 64 == b && 0x80 + n / 64 % 64 == c && 0x80 + n % 64 == d
  {
    var n := Four(a, b, c, d);
    assert n / 64 == (a - 0xF0) * 4096 + (b - 0x80) * 64 + (c - 0x80);
    assert n / 4096 == n / 64 / 64 == (a - 0xF0) * 64 + (b - 0x80);
    assert n / 262144 == n / 4096 / 64;
  }

  lemma DecodeCharOfEncode(c: char, rest: bytes)
    ensures DecodeChar(EncodeChar(c) + rest) == Some(c)
  {
    var n := c as int;
    var b := EncodeChar(c) + rest;
    if n < 0x80 {
      assert b[0] == n;
    } else if n < 0x800 {
      TwoOf(n);
      assert b[0] == 0xC0 + n / 64 && b[1] == 0x80 + n % 64;
    } else if n < 0x1_0000 {
      ThreeOf(n);
      assert b[0] == 0xE0 + n / 4096 && b[1] == 0x80 + n / 64 % 64 && b[2] == 0x80 + n % 64;
    } else {
      FourOf(n);
      assert b[0] == 0xF0 + n / 262144 && b[1] == 0x80 + n / 4096 % 64 && b[2] == 0x80 + n / 64 % 64
             && b[3] == 0x80 + n % 64;
    }
  }

  lemma EncodeCharOfDecode(b: bytes)
    requires DecodeChar(b).Some?
    ensures EncodeChar(DecodeChar(b).value) <= b
  {
    var n := DecodeChar(b).value as int;
    if b[0] < 0x80 {
    } else if b[0] < 0xE0 {
      GroupsOfTwo(b[0], b[1]);
    } else if b[0] < 0xF0 {
      GroupsOfThree(b[0], b[1], b[2]);
    } else {
      GroupsOfFour(b[0], b[1], b[2], b[3]);
    }
  }

  /** Text written as UTF-8 reads back as the same text. */
  lemma {:induction false} DecodeOfEncode(s: string)
    ensures Decode(Encode(s)) == Some(s)
  {
    if s != [] {
      DecodeCharOfEncode(s[0], Encode(s[1..]));
      assert Encode(s)[|EncodeChar(s[0])|..] == Encode(s[1..]);
      DecodeOfEncode(s[1..]);
      assert [s[0]] + s[1..] == s;
    }
  }

  /** Bytes accepted as UTF-8 are the encoding of what they were read as. */
  lemma {:induction false} EncodeOfDecode(b: bytes)
    requires Decode(b).Some?
    ensures Encode(Decode(b).value) == b
    decreases |b|
  {
    if b != [] {
      var c := DecodeChar(b).value;
      EncodeCharOfDecode(b);
      EncodeOfDecode(b[|EncodeChar(c)|..]);
    }
  }

  lemma EncodeFirst(s: string)
    requires s != []
    ensures Encode(s) == EncodeChar(s[0]) + Encode(s[1..])
  {
  }

  lemma {:induction false} EncodeConcat(s: string, t: string)
    ensures Encode(s + t) == Encode(s) + Encode(t)
  {
    hide EncodeChar, Encode;
    if s == [] {
      assert s + t == t;
      assert Encode(s) == [] by { EncodeNothing(); }
    } else {
      var rest, both := s[1..], s + t;
      assert both[0] == s[0] && both[1..] == rest + t;
      EncodeConcat(rest, t);
      EncodeFirst(s);
      EncodeFirst(both);
      var x, y, z := EncodeChar(s[0]), Encode(rest), Encode(t);
      assert x + (y + z) == (x + y) + z;
    }
  }

  lemma EncodeNothing()
    ensures Encode([]) == []
  {
  }

  /** At most four bytes a character. */
  lemma {:induction false} EncodeBound(s: string)
    ensures |s| <= |Encode(s)| <= 4 * |s|
  {
    if s != [] {
      EncodeBound(s[1..]);
    }
  }
}
