/** Base64 (section 4 of RFC 4648), written padded, read in either alphabet and strictly. */
module Base64 {
  import opened Prelude
  import opened Bytes
  import opened Division

  /** What a character of either alphabet stands for. */
  function Sextet(c: char): (v: Option<nat>)
    ensures v.Some? ==> v.value < 64
  {
    if 'A' <= c <= 'Z' then Some(c as int - 'A' as int)
    else if 'a' <= c <= 'z' then Some(c as int - 'a' as int + 26)
    else if '0' <= c <= '9' then Some(c as int - '0' as int + 52)
    else if c == '+' || c == '-' then Some(62)
    else if c == '/' || c == '_' then Some(63)
    else None
  }

  function Letter(v: nat): (c: char)
    requires v < 64
    ensures Sextet(c) == Some(v) && c != '=' && !Skipped(c) && '!' <= c <= '~'
  {
    if v < 26 then (v + 'A' as int) as char
    else if v < 52 then (v - 26 + 'a' as int) as char
    else if v < 62 then (v - 52 + '0' as int) as char
    else if v == 62 then '+' else '/'
  }

  predicate Skipped(c: char) {
    c == ' ' || c == '\t' || c == '\n' || c == '\r'
  }

  /** The weight of `bits` pending bits: 0, 2, 4 or 6 of them. */
  function Weight(bits: nat): (w: nat)
    ensures w > 0
  {
    if bits == 0 then 1 else if bits == 2 then 4 else if bits == 4 then 16 else 64
  }

  /** Reading, with `low` the value of the `bits` bits not yet part of a byte. */
  function DecodeFrom(s: string, low: nat, bits: nat, padded: bool): Option<bytes> {
    if s == [] then if low == 0 then Some([]) else None
    else if Skipped(s[0]) then DecodeFrom(s[1..], low, bits, padded)
    else if s[0] == '=' then DecodeFrom(s[1..], low, bits, true)
    else if padded || Sextet(s[0]).None? then None
    else
      var all := low * 64 + Sextet(s[0]).value;
      if bits < 2 then DecodeFrom(s[1..], all, bits + 6, false)
      else
        var rest :- DecodeFrom(s[1..], all % Weight(bits - 2), bits - 2, false);
        Some([all / Weight(bits - 2) % 256] + rest)
  }

  function Decode(s: string): Option<bytes> {
    DecodeFrom(s, 0, 0, false)
  }

  function ThreeBytes(x: nat, y: nat, z: nat): nat {
    x * 65536 + y * 256 + z
  }

  function At(b: bytes, i: nat): nat {
    if i < |b| then b[i] else 0
  }

  /** Three bytes as a number, missing ones as 0. */
  function Group(b: bytes): nat {
    ThreeBytes(At(b, 0), At(b, 1), At(b, 2))
  }

  function Encode(b: bytes): string {
    if b == [] then [] else
    var n := Group(b);
    [Letter(n / 262144 % 64), Letter(n / 4096 % 64),
     if |b| > 1 then Letter(n / 64 % 64) else '=',
     if |b| > 2 then Letter(n % 64) else '=']
    + Encode(b[Min(|b|, 3)..])
  }

  // ----- The loop

  /** The loop keeps the bits it has read in a 32-bit buffer that drops the high ones. */
  method DecodeLoop(s: string) returns (out: Option<bytes>)
    ensures out == Decode(s)
  {
    var buf: nat, bits: nat, read: bytes, padded := 0, 0, [], false;
    assert s[0..] == s;
    PrependNothing<byte>(Decode(s));
    for i := 0 to |s|
      invariant bits == 0 || bits == 2 || bits == 4 || bits == 6
      invariant Decode(s) == Prepend<byte>(read, DecodeFrom(s[i..], buf % Weight(bits), bits, padded))
    {
      hide Sextet, DecodeFrom, Prepend, Decode, Weight;
      ghost var left := s[i..];
      assert left[0] == s[i] && left[1..] == s[i + 1..];
      OneCharacter(left, buf % Weight(bits), bits, padded);
      if Skipped(s[i]) {
        continue;
      }
      if s[i] == '=' {
        padded := true;
        continue;
      }
      if padded || Sextet(s[i]).None? {
        PrependNone<byte>(read);
        return None;
      }
      var v := Sextet(s[i]).value;
      OneDigit(read, left, buf, bits);
      buf := (buf * 64 + v) % U32;
      if bits < 2 {
        bits := bits + 6;
      } else {
        bits := bits - 2;
        read := read + [buf / Weight(bits) % 256];
      }
    }
    assert s[|s|..] == [];
    assert bits == 0 ==> buf % Weight(bits) == 0;
    assert read + [] == read;
    out := if bits > 0 && buf % Weight(bits) != 0 then None else Some(read);
  }

  /** What one more character does. */
  lemma OneCharacter(s: string, low: nat, bits: nat, padded: bool)
    requires s != []
    ensures DecodeFrom(s, low, bits, padded) ==
              if Skipped(s[0]) then DecodeFrom(s[1..], low, bits, padded)
              else if s[0] == '=' then DecodeFrom(s[1..], low, bits, true)
              else if padded || Sextet(s[0]).None? then None
              else if bits < 2 then DecodeFrom(s[1..], low * 64 + Sextet(s[0]).value, bits + 6, false)
              else Prepend<byte>([(low * 64 + Sextet(s[0]).value) / Weight(bits - 2) % 256],
                           DecodeFrom(s[1..], (low * 64 + Sextet(s[0]).value) % Weight(bits - 2), bits - 2, false))
  {
    hide Sextet;
  }

  /** Dropping the high bits of the buffer changes neither the byte taken nor the bits left. */
  lemma Shifted(buf: nat, v: nat, bits: nat)
    requires v < 64 && (bits == 0 || bits == 2 || bits == 4 || bits == 6)
    ensures var next, all := (buf * 64 + v) % U32, buf % Weight(bits) * 64 + v;
            && (bits == 0 ==> next % Weight(6) == all)
            && (bits > 0 ==>
                  && next % Weight(bits - 2) == all % Weight(bits - 2)
                  && next / Weight(bits - 2) % 256 == all / Weight(bits - 2) % 256)
  {
    LowBits(buf, v, Weight(bits));
    if bits > 0 {
      ByteOf((buf * 64 + v) % U32, Weight(bits - 2));
    }
  }

  /** What a digit does to the buffer is what it does to the pending bits. */
  lemma OneDigit(read: bytes, s: string, buf: nat, bits: nat)
    requires s != [] && !Skipped(s[0]) && s[0] != '=' && Sextet(s[0]).Some?
    requires bits == 0 || bits == 2 || bits == 4 || bits == 6
    ensures var next := (buf * 64 + Sextet(s[0]).value) % U32;
            var out := Prepend<byte>(read, DecodeFrom(s, buf % Weight(bits), bits, false));
            && (bits == 0 ==> out == Prepend<byte>(read, DecodeFrom(s[1..], next % Weight(6), 6, false)))
            && (bits > 0 ==>
                  out == Prepend<byte>(read + [next / Weight(bits - 2) % 256],
                                 DecodeFrom(s[1..], next % Weight(bits - 2), bits - 2, false)))
  {
    hide Sextet, DecodeFrom, Prepend;
    var v, low := Sextet(s[0]).value, buf % Weight(bits);
    OneCharacter(s, low, bits, false);
    Shifted(buf, v, bits);
    if bits > 0 {
      PrependTwice<byte>(read, [(low * 64 + v) / Weight(bits - 2) % 256],
                   DecodeFrom(s[1..], (low * 64 + v) % Weight(bits - 2), bits - 2, false));
    }
  }

  lemma LowBits(buf: nat, v: nat, w: nat)
    requires v < 64 && (w == 1 || w == 4 || w == 16 || w == 64)
    ensures (buf * 64 + v) % U32 % (w * 64) == buf % w * 64 + v
  {
    var all, high := buf * 64 + v, (buf * 64 + v) / U32;
    var next := all - U32 * high;
    if w == 1 {
      Divided(next, 64, buf - 67108864 * high, v);
    } else if w == 4 {
      Divided(next, 256, buf / 4 - 16777216 * high, buf % 4 * 64 + v);
    } else if w == 16 {
      Divided(next, 1024, buf / 16 - 4194304 * high, buf % 16 * 64 + v);
    } else {
      Divided(next, 4096, buf / 64 - 1048576 * high, buf % 64 * 64 + v);
    }
  }

  lemma ByteOf(next: nat, w: nat)
    requires w == 1 || w == 4 || w == 16
    ensures next % w == next % (w * 256) % w
    ensures next / w % 256 == next % (w * 256) / w
  {
    var k, all := next / (w * 256), next % (w * 256);
    if w == 1 {
    } else if w == 4 {
      assert next == 1024 * k + all;
      Divided(next, 4, 256 * k + all / 4, all % 4);
      Divided(256 * k + all / 4, 256, k, all / 4);
    } else {
      assert next == 4096 * k + all;
      Divided(next, 16, 256 * k + all / 16, all % 16);
      Divided(256 * k + all / 16, 256, k, all / 16);
    }
  }

  // ----- The round trip

  lemma OneLetter(v: nat, rest: string, low: nat, bits: nat)
    requires v < 64
    ensures DecodeFrom([Letter(v)] + rest, low, bits, false)
         == if bits < 2 then DecodeFrom(rest, low * 64 + v, bits + 6, false)
            else Prepend<byte>([(low * 64 + v) / Weight(bits - 2) % 256],
                         DecodeFrom(rest, (low * 64 + v) % Weight(bits - 2), bits - 2, false))
  {
    hide Sextet, Letter, DecodeFrom, Prepend;
    assert ([Letter(v)] + rest)[1..] == rest;
    OneCharacter([Letter(v)] + rest, low, bits, false);
  }

  lemma PaddingEnds(s: string)
    requires s == "=" || s == "=="
    ensures DecodeFrom(s, 0, 0, false) == Some([])
    ensures DecodeFrom(s, 0, 2, false) == Some([]) && DecodeFrom(s, 0, 4, false) == Some([])
  {
    assert DecodeFrom([], 0, 2, true) == Some([]);
    assert DecodeFrom("=", 0, 2, true) == Some([]) by { assert "="[1..] == []; }
    assert DecodeFrom([], 0, 4, true) == Some([]);
    assert DecodeFrom("=", 0, 4, true) == Some([]) by { assert "="[1..] == []; }
    assert DecodeFrom([], 0, 0, true) == Some([]);
    assert DecodeFrom("=", 0, 0, true) == Some([]) by { assert "="[1..] == []; }
    assert "=="[1..] == "=";
    assert "="[1..] == [];
  }

  /** The four sextets of three bytes. */
  lemma Sextets(x: nat, y: nat, z: nat)
    requires x < 256 && y < 256 && z < 256
    ensures var n := ThreeBytes(x, y, z);
            && n / 262144 % 64 == x / 4 && n / 4096 % 64 == x % 4 * 16 + y / 16
            && n / 64 % 64 == y % 16 * 4 + z / 64 && n % 64 == z % 64
  {
    var n := ThreeBytes(x, y, z);
    Divided(n, 262144, x / 4, x % 4 * 65536 + y * 256 + z);
    Divided(n, 4096, x * 16 + y / 16, y % 16 * 256 + z);
    Divided(x * 16 + y / 16, 64, x / 4, x % 4 * 16 + y / 16);
    Divided(n, 64, x * 1024 + y * 4 + z / 64, z % 64);
    Divided(x * 1024 + y * 4 + z / 64, 64, x * 16 + y / 16, y % 16 * 4 + z / 64);
  }

  /** Joined again they give the bytes. */
  lemma Joined(x: nat, y: nat, z: nat)
    requires x < 256 && y < 256 && z < 256
    ensures var two, three := x / 4 * 64 + (x % 4 * 16 + y / 16), y / 16 * 64 + (y % 16 * 4 + z / 64);
            && two / 16 % 256 == x && two % 16 == y / 16
            && three / 4 % 256 == y && three % 4 == z / 64
            && z / 64 * 64 + z % 64 == z
  {
    Divided(x * 16 + y / 16, 16, x, y / 16);
    Divided(y * 4 + z / 64, 4, y, z / 64);
  }

  /** What is encoded decodes to the same bytes. */
  lemma {:induction false} DecodeOfEncode(b: bytes)
    ensures Decode(Encode(b)) == Some(b)
    decreases |b|
  {
    hide DecodeFrom, Decode, Letter, Sextet, Encode, ThreeBytes;
    if b == [] {
      EncodeNothing();
    } else {
      var x, y, z := At(b, 0), At(b, 1), At(b, 2);
      Sextets(x, y, z);
      Joined(x, y, z);
      EncodeGroup(b);
      var s0, s1, s2, s3 := x / 4, x % 4 * 16 + y / 16, y % 16 * 4 + z / 64, z % 64;
      var tail := Encode(b[Min(|b|, 3)..]);
      if |b| == 1 {
        assert b[1..] == [];
        EncodeNothing();
        TwoLetters(s0, s1, "==");
        assert ['=', '='] + [] == "==";
        PaddingEnds("==");
        assert [b[0]] + [] == b;
      } else if |b| == 2 {
        assert b[2..] == [];
        EncodeNothing();
        TwoLetters(s0, s1, [Letter(s2), '=']);
        assert [Letter(s2), '='] + [] == [Letter(s2), '='];
        assert [Letter(s2), '='] == [Letter(s2)] + "=";
        OneLetter(s2, "=", y / 16, 4);
        PaddingEnds("=");
        assert [b[0]] + ([b[1]] + []) == b;
      } else {
        TwoLetters(s0, s1, [Letter(s2), Letter(s3)] + tail);
        assert [Letter(s2), Letter(s3)] + tail == [Letter(s2)] + ([Letter(s3)] + tail);
        OneLetter(s2, [Letter(s3)] + tail, y / 16, 4);
        OneLetter(s3, tail, z / 64, 2);
        LastByte(z);
        DecodeOfEncode(b[3..]);
        DecodeIs(tail);
        assert b == [b[0]] + ([b[1]] + ([b[2]] + b[3..]));
      }
    }
  }

  lemma LastByte(z: nat)
    requires z < 256
    ensures (z / 64 * 64 + z % 64) / Weight(0) % 256 == z && (z / 64 * 64 + z % 64) % Weight(0) == 0
  {
  }

  lemma DecodeIs(s: string)
    ensures Decode(s) == DecodeFrom(s, 0, 0, false)
  {
  }

  lemma EncodeNothing()
    ensures Encode([]) == [] && Decode([]) == Some([])
  {
  }

  lemma EncodeGroup(b: bytes)
    requires b != []
    ensures var n := Group(b);
            Encode(b) == [Letter(n / 262144 % 64)] + ([Letter(n / 4096 % 64)] +
              ([if |b| > 1 then Letter(n / 64 % 64) else '=', if |b| > 2 then Letter(n % 64) else '=']
               + Encode(b[Min(|b|, 3)..])))
  {
    hide Letter, Group;
    var n := Group(b);
    FourFirst(Letter(n / 262144 % 64), Letter(n / 4096 % 64),
              if |b| > 1 then Letter(n / 64 % 64) else '=', if |b| > 2 then Letter(n % 64) else '=',
              Encode(b[Min(|b|, 3)..]));
  }

  lemma FourFirst(a: char, b: char, c: char, d: char, rest: string)
    ensures [a, b, c, d] + rest == [a] + ([b] + ([c, d] + rest))
  {
  }

  lemma TwoLetters(v: nat, w: nat, rest: string)
    requires v < 64 && w < 64
    ensures Decode([Letter(v)] + ([Letter(w)] + rest))
         == Prepend<byte>([(v * 64 + w) / 16 % 256], DecodeFrom(rest, (v * 64 + w) % 16, 4, false))
  {
    hide Letter, DecodeFrom;
    OneLetter(v, [Letter(w)] + rest, 0, 0);
    OneLetter(w, rest, v, 6);
  }

  /** Encoded text is one word: visible ASCII, and not empty when the bytes are not. */
  lemma {:induction false} EncodedIsOneWord(b: bytes)
    ensures forall i :: 0 <= i < |Encode(b)| ==> '!' <= Encode(b)[i] <= '~'
    ensures b != [] ==> Encode(b) != []
    decreases |b|
  {
    hide Sextet, Group;
    if b != [] {
      EncodedIsOneWord(b[Min(|b|, 3)..]);
    }
  }
}
