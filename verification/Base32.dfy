/** Base32 (section 6 of RFC 4648), read strictly: padding only at the end, no bits left over. */
module Base32 {
  import opened Prelude
  import opened Bytes
  import opened Division

  function Quintet(c: char): (v: Option<nat>)
    ensures v.Some? ==> v.value < 32
  {
    if 'A' <= c <= 'Z' then Some(c as int - 'A' as int)
    else if 'a' <= c <= 'z' then Some(c as int - 'a' as int)
    else if '2' <= c <= '7' then Some(c as int - '2' as int + 26)
    else None
  }

  predicate Skipped(c: char) {
    c == ' ' || c == '-' || c == '\t' || c == '\n' || c == '\r'
  }

  function Weight(bits: nat): (w: nat)
    ensures w > 0
  {
    if bits == 0 then 1 else 2 * Weight(bits - 1)
  }

  function Letter(v: nat): (c: char)
    requires v < 32
    ensures Quintet(c) == Some(v) && c != '=' && !Skipped(c)
  {
    if v < 26 then (v + 'A' as int) as char else (v - 26 + '2' as int) as char
  }

  /** Reading, with `low` the value of the `bits` bits not yet part of a byte. */
  function DecodeFrom(s: string, low: nat, bits: nat, padded: bool): Option<bytes> {
    if s == [] then if low == 0 then Some([]) else None
    else if Skipped(s[0]) then DecodeFrom(s[1..], low, bits, padded)
    else if s[0] == '=' then DecodeFrom(s[1..], low, bits, true)
    else if padded || Quintet(s[0]).None? then None
    else
      var all := low * 32 + Quintet(s[0]).value;
      if bits < 3 then DecodeFrom(s[1..], all, bits + 5, false)
      else
        var w := Weight(bits - 3);
        var rest :- DecodeFrom(s[1..], all % w, bits - 3, false);
        Some([all / w % 256] + rest)
  }

  function Decode(s: string): Option<bytes> {
    DecodeFrom(s, 0, 0, false)
  }

  // ----- The loop

  /** The loop keeps the bits it has read in a 64-bit buffer that drops the high ones. */
  method DecodeLoop(s: string) returns (out: Option<bytes>)
    ensures out == Decode(s)
  {
    var buf: nat, bits: nat, read: bytes, padded := 0, 0, [], false;
    assert s[0..] == s;
    assert Weight(0) == 1;
    PrependNothing<byte>(Decode(s));
    for i := 0 to |s|
      invariant bits < 8
      invariant Decode(s) == Prepend<byte>(read, DecodeFrom(s[i..], buf % Weight(bits), bits, padded))
    {
      hide Quintet, DecodeFrom, Prepend, Decode, Weight;
      ghost var left := s[i..];
      assert left[0] == s[i] && left[1..] == s[i + 1..];
      OneCharacter(left, buf % Weight(bits), bits, padded);
      if Skipped(s[i]) {
        continue;
      }
      if s[i] == '=' {
        padded := true;
        continue;
      }
      if padded || Quintet(s[i]).None? {
        PrependNone<byte>(read);
        return None;
      }
      var v := Quintet(s[i]).value;
      OneQuintet(read, left, buf, bits);
      buf := (buf * 32 + v) % U64;
      if bits < 3 {
        bits := bits + 5;
      } else {
        bits := bits - 3;
        read := read + [buf / Weight(bits) % 256];
      }
    }
    assert s[|s|..] == [];
    assert bits == 0 ==> buf % Weight(bits) == 0 by { assert Weight(0) == 1; }
    assert read + [] == read;
    out := if bits > 0 && buf % Weight(bits) != 0 then None else Some(read);
  }

  /** What one more character does. */
  lemma OneCharacter(s: string, low: nat, bits: nat, padded: bool)
    requires s != []
    ensures DecodeFrom(s, low, bits, padded) ==
              if Skipped(s[0]) then DecodeFrom(s[1..], low, bits, padded)
              else if s[0] == '=' then DecodeFrom(s[1..], low, bits, true)
              else if padded || Quintet(s[0]).None? then None
              else if bits < 3 then DecodeFrom(s[1..], low * 32 + Quintet(s[0]).value, bits + 5, false)
              else
                var all := low * 32 + Quintet(s[0]).value;
                Prepend<byte>([all / Weight(bits - 3) % 256],
                              DecodeFrom(s[1..], all % Weight(bits - 3), bits - 3, false))
  {
    hide Quintet, Weight;
  }

  /** What a quintet does to the buffer is what it does to the pending bits. */
  lemma OneQuintet(read: bytes, s: string, buf: nat, bits: nat)
    requires s != [] && !Skipped(s[0]) && s[0] != '=' && Quintet(s[0]).Some? && bits < 8
    ensures var next := (buf * 32 + Quintet(s[0]).value) % U64;
            var out := Prepend<byte>(read, DecodeFrom(s, buf % Weight(bits), bits, false));
            && (bits < 3 ==> out == Prepend<byte>(read, DecodeFrom(s[1..], next % Weight(bits + 5), bits + 5, false)))
            && (bits >= 3 ==>
                  out == Prepend<byte>(read + [next / Weight(bits - 3) % 256],
                                       DecodeFrom(s[1..], next % Weight(bits - 3), bits - 3, false)))
  {
    hide Quintet, DecodeFrom, Prepend, Weight;
    var v, low := Quintet(s[0]).value, buf % Weight(bits);
    OneCharacter(s, low, bits, false);
    var next, all := (buf * 32 + v) % U64, low * 32 + v;
    if bits < 3 {
      KeepsLowBits(buf, v, bits);
    } else {
      SameByte(buf, v, bits);
      PrependTwice<byte>(read, [all / Weight(bits - 3) % 256],
                         DecodeFrom(s[1..], all % Weight(bits - 3), bits - 3, false));
    }
  }

  /** The byte taken from the buffer, and the bits left, are those of the pending bits. */
  lemma SameByte(buf: nat, v: nat, bits: nat)
    requires v < 32 && 3 <= bits < 8
    ensures var next, all, w := (buf * 32 + v) % U64, buf % Weight(bits) * 32 + v, Weight(bits - 3);
            next % w == all % w && next / w % 256 == all / w % 256
  {
    hide Weight;
    KeepsLowBits(buf, v, bits);
    Weights();
    WeightSum(8, bits - 3);
    ByteAbove((buf * 32 + v) % U64, buf % Weight(bits) * 32 + v, Weight(bits - 3));
  }

  /** Dropping the high bits of the buffer keeps the pending ones. */
  lemma KeepsLowBits(buf: nat, v: nat, bits: nat)
    requires v < 32 && bits < 8
    ensures (buf * 32 + v) % U64 % Weight(bits + 5) == buf % Weight(bits) * 32 + v
  {
    hide Weight;
    Weights();
    WeightSum(bits, 5);
    Weight64();
    WeightSum(bits + 5, 59 - bits);
    var w := Weight(bits);
    var q, r := Parts(buf, w);
    FiveMore(q, w, r, v);
    Split(q, r * 32 + v, buf * 32 + v, w * 32);
    ModMod(buf * 32 + v, w * 32, Weight(59 - bits));
  }

  lemma FiveMore(q: nat, w: nat, r: nat, v: nat)
    requires r < w && v < 32
    ensures (q * w + r) * 32 + v == q * (w * 32) + (r * 32 + v) && r * 32 + v < w * 32
  {
    Associates(q, w, 32);
  }

  lemma Parts(x: nat, w: nat) returns (q: nat, r: nat)
    requires w > 0
    ensures x == q * w + r && r < w && x / w == q && x % w == r
  {
    q, r := x / w, x % w;
    Whole(x, w);
  }

  /** A remainder by a multiple has the same remainder. */
  lemma ModMod(x: nat, w: nat, k: nat)
    requires w > 0 && k > 0 && w * k > 0
    ensures x % (w * k) % w == x % w
  {
    var q, r := Parts(x, w * k);
    var q', r' := Parts(r, w);
    Reorder(q, w, k);
    Gathered(q * k, q', w, r');
    Split(q * k + q', r', x, w);
  }

  lemma Gathered(a: nat, b: nat, w: nat, r: nat)
    ensures a * w + (b * w + r) == (a + b) * w + r
  {
  }

  lemma Reorder(q: nat, w: nat, k: nat)
    ensures q * (w * k) == (q * k) * w
  {
  }

  lemma Weight64()
    ensures Weight(64) == U64
  {
    hide Weight;
    Weights();
    WeightSum(8, 8);
    WeightSum(16, 16);
    WeightSum(32, 32);
  }

  /** The byte above `w`, and what is below it, do not depend on what is above the byte. */
  lemma ByteAbove(next: nat, all: nat, w: nat)
    requires w > 0 && 256 * w > 0 && next % (256 * w) == all
    ensures next % w == all % w && next / w % 256 == all / w % 256
  {
    var k, r := Parts(next, 256 * w);
    var q', r' := Parts(all, w);
    Associates(k, 256, w);
    Gathered(k * 256, q', w, r');
    Split(k * 256 + q', r', next, w);
    QuotientBelow(all, 256, w);
    Divided(k * 256 + q', 256, k, q');
  }

  /** The top five of `bits` bits. */
  function Top(low: nat, bits: nat): (q: nat)
    requires bits >= 5 && low < Weight(bits)
    ensures q < 32
  {
    TopIsSmall(low, bits);
    low / Weight(bits - 5)
  }

  /** The bits below them. */
  function Below(low: nat, bits: nat): (r: nat)
    requires bits >= 5
    ensures r < Weight(bits - 5)
  {
    low % Weight(bits - 5)
  }

  /** The bits filled up to five with zeros. */
  function Filled(low: nat, bits: nat): (q: nat)
    requires bits <= 5 && low < Weight(bits)
    ensures q < 32
  {
    FilledIsSmall(low, bits);
    low * Weight(5 - bits)
  }

  /** Eight bits more. */
  function Load(low: nat, bits: nat, b: byte): (n: nat)
    requires low < Weight(bits)
    ensures n < Weight(bits + 8)
  {
    LoadIsSmall(low, bits, b);
    low * 256 + b
  }

  /** Writing, with `low` the value of the `bits` bits not yet written; zeros fill the last letter. */
  function EncodeFrom(b: bytes, low: nat, bits: nat): string
    requires low < Weight(bits)
    decreases |b|, bits
  {
    if bits >= 5 then [Letter(Top(low, bits))] + EncodeFrom(b, Below(low, bits), bits - 5)
    else if b != [] then EncodeFrom(b[1..], Load(low, bits, b[0]), bits + 8)
    else if bits == 0 then []
    else [Letter(Filled(low, bits))]
  }

  function Encode(b: bytes): string {
    EncodeFrom(b, 0, 0)
  }

  // ----- Weights

  lemma {:induction false} WeightSum(a: nat, b: nat)
    ensures Weight(a + b) == Weight(a) * Weight(b)
  {
    if a > 0 {
      WeightSum(a - 1, b);
      Associates(2, Weight(a - 1), Weight(b));
    }
  }

  lemma Associates(x: nat, y: nat, z: nat)
    ensures x * y * z == x * (y * z)
  {
  }

  lemma Weights()
    ensures Weight(0) == 1 && Weight(3) == 8 && Weight(5) == 32 && Weight(8) == 256
  {
    assert Weight(1) == 2 * Weight(0) && Weight(2) == 2 * Weight(1) && Weight(3) == 2 * Weight(2);
    assert Weight(4) == 2 * Weight(3) && Weight(5) == 2 * Weight(4) && Weight(6) == 2 * Weight(5);
    assert Weight(7) == 2 * Weight(6) && Weight(8) == 2 * Weight(7);
  }

  lemma Split(q: nat, r: nat, x: nat, w: nat)
    requires w > 0 && x == q * w + r && r < w
    ensures x / w == q && x % w == r
  {
    Divided(x, w, q, r);
  }

  /** The top five bits of `bits` are a quintet. */
  lemma TopIsSmall(low: nat, bits: nat)
    requires bits >= 5 && low < Weight(bits)
    ensures low / Weight(bits - 5) < 32 && low % Weight(bits - 5) < Weight(bits - 5)
  {
    Weights();
    WeightSum(5, bits - 5);
    QuotientBelow(low, 32, Weight(bits - 5));
  }

  lemma QuotientBelow(x: nat, k: nat, w: nat)
    requires w > 0 && x < k * w
    ensures x / w < k
  {
    if x / w >= k {
      Times(k, x / w, w);
    }
  }

  lemma Times(a: nat, b: nat, w: nat)
    requires a <= b
    ensures a * w <= b * w
  {
  }

  lemma LoadIsSmall(low: nat, bits: nat, b: byte)
    requires low < Weight(bits)
    ensures low * 256 + b < Weight(bits + 8)
  {
    Weights();
    WeightSum(bits, 8);
  }

  lemma FilledIsSmall(low: nat, bits: nat)
    requires low < Weight(bits) && bits <= 5
    ensures low * Weight(5 - bits) < 32
  {
    Weights();
    WeightSum(bits, 5 - bits);
    Times(low + 1, Weight(bits), Weight(5 - bits));
  }

  // ----- The round trip

  lemma OneLetter(v: nat, rest: string, low: nat, bits: nat)
    requires v < 32
    ensures DecodeFrom([Letter(v)] + rest, low, bits, false) ==
              if bits < 3 then DecodeFrom(rest, low * 32 + v, bits + 5, false)
              else Prepend<byte>([(low * 32 + v) / Weight(bits - 3) % 256],
                                 DecodeFrom(rest, (low * 32 + v) % Weight(bits - 3), bits - 3, false))
  {
    hide Letter, Quintet, Weight;
    assert ([Letter(v)] + rest)[1..] == rest;
  }

  /** The bits a reader holds and the bits a writer holds, as one number. */
  function Held(dl: nat, el: nat, eb: nat): nat {
    dl * Weight(eb) + el
  }

  lemma HeldIs(dl: nat, el: nat, eb: nat, w: nat)
    requires w == Weight(eb)
    ensures Held(dl, el, eb) == dl * w + el
  {
    hide Weight;
  }

  lemma Whole(x: nat, w: nat)
    requires w > 0
    ensures x == x / w * w + x % w
  {
  }

  /** A quintet moves from the writer to the reader, and the number is the same. */
  lemma Moved(dl: nat, el: nat, eb: nat, q: nat, r: nat)
    requires eb >= 5 && el == q * Weight(eb - 5) + r
    ensures Held(dl * 32 + q, r, eb - 5) == Held(dl, el, eb)
  {
    hide Weight, Held;
    Weights();
    WeightSum(5, eb - 5);
    var w := Weight(eb - 5);
    HeldIs(dl * 32 + q, r, eb - 5, w);
    HeldIs(dl, el, eb, 32 * w);
    Spread(dl, q, w, r);
  }

  lemma Spread(dl: nat, q: nat, w: nat, r: nat)
    ensures (dl * 32 + q) * w + r == dl * (32 * w) + (q * w + r)
  {
    Associates(dl, 32, w);
  }

  lemma HeldBelow(dl: nat, db: nat, el: nat, eb: nat)
    requires dl < Weight(db) && el < Weight(eb)
    ensures Held(dl, el, eb) < Weight(db + eb)
  {
    WeightSum(db, eb);
    Times(dl + 1, Weight(db), Weight(eb));
  }

  /** Taking a byte off the reader takes it off the top of the number. */
  lemma TakenOff(all: nat, db: nat, el: nat, eb: nat)
    requires el < Weight(eb)
    ensures var w := Weight(db);
            Held(all, el, eb) == all / w * Weight(db + eb) + Held(all % w, el, eb)
  {
    hide Weight, Held;
    WeightSum(db, eb);
    var w := Weight(db);
    Whole(all, w);
    TakenNumbers(all, el, eb, w, Weight(eb), all / w, all % w);
  }

  lemma TakenNumbers(all: nat, el: nat, eb: nat, w: nat, x: nat, q: nat, r: nat)
    requires x == Weight(eb) && all == q * w + r
    ensures Held(all, el, eb) == q * (w * x) + Held(r, el, eb)
  {
    hide Weight, Held;
    HeldIs(all, el, eb, x);
    HeldIs(r, el, eb, x);
    Associates(q, w, x);
    assert (q * w + r) * x == q * w * x + r * x;
  }

  lemma {:induction false} TopByte(v: nat, k: nat, top: byte, rest: nat)
    requires v == top * Pow256(k) + rest && rest < Pow256(k)
    ensures BE(v, k + 1) == [top] + BE(rest, k)
  {
    if k == 0 {
      assert BE(v, 1) == BE(v / 256, 0) + [v % 256];
      assert [] + [v % 256] == [top] + [];
    } else {
      var q, r := rest / 256, rest % 256;
      assert Pow256(k) == 256 * Pow256(k - 1);
      var p := Pow256(k - 1);
      assert v == 256 * (top * p + q) + r by {
        assert top * (256 * p) == 256 * (top * p);
      }
      Divided(v, 256, top * p + q, r);
      TopByte(v / 256, k - 1, top, q);
      assert BE(v, k + 1) == BE(v / 256, k) + [v % 256];
      assert BE(rest, k) == BE(q, k - 1) + [r];
      assert [top] + BE(q, k - 1) + [r] == [top] + (BE(q, k - 1) + [r]);
    }
  }

  lemma {:induction false} WeightOfBytes(k: nat)
    ensures Weight(8 * k) == Pow256(k)
  {
    Weights();
    if k > 0 {
      WeightOfBytes(k - 1);
      WeightSum(8, 8 * (k - 1));
    }
  }

  /** A reader and a writer in step: what they hold, and what is still to come, is what is read. */
  lemma {:induction false} InStep(b: bytes, dl: nat, db: nat, el: nat, eb: nat, k: nat)
    requires dl < Weight(db) && el < Weight(eb) && db < 8 && db + eb == 8 * k
    ensures DecodeFrom(EncodeFrom(b, el, eb), dl, db, false) == Some(BE(Held(dl, el, eb), k) + b)
    decreases |b|, eb
  {
    hide DecodeFrom, EncodeFrom, Letter, Weight, Held, BE;
    var v := Held(dl, el, eb);
    HeldBelow(dl, db, el, eb);
    WeightOfBytes(k);
    if eb >= 5 {
      WriteOne(b, el, eb);
      TopIsSmall(el, eb);
      var q, left := el / Weight(eb - 5), el % Weight(eb - 5);
      var all := dl * 32 + q;
      OneLetter(q, EncodeFrom(b, left, eb - 5), dl, db);
      Whole(el, Weight(eb - 5));
      Moved(dl, el, eb, q, left);
      ReadMore(dl, db, q);
      if db < 3 {
        InStep(b, all, db + 5, left, eb - 5, k);
      } else {
        ByteRead(b, all, db - 3, left, eb - 5, k, v);
        InStep(b, all % Weight(db - 3), db - 3, left, eb - 5, k - 1);
      }
    } else if b != [] {
      LoadOne(b, el, eb);
      LoadIsSmall(el, eb, b[0]);
      InStep(b[1..], dl, db, el * 256 + b[0], eb + 8, k + 1);
      HeldLoaded(dl, el, eb, b[0]);
      NextByte(v, k, b[0]);
      assert BE(v, k) + [b[0]] + b[1..] == BE(v, k) + b;
    } else {
      LastLetter(dl, db, el, eb, k);
    }
  }

  lemma WriteOne(b: bytes, low: nat, bits: nat)
    requires low < Weight(bits) && bits >= 5
    ensures low / Weight(bits - 5) < 32 && low % Weight(bits - 5) < Weight(bits - 5)
    ensures EncodeFrom(b, low, bits)
         == [Letter(low / Weight(bits - 5))] + EncodeFrom(b, low % Weight(bits - 5), bits - 5)
  {
    TopIsSmall(low, bits);
  }

  lemma LoadOne(b: bytes, low: nat, bits: nat)
    requires low < Weight(bits) && bits < 5 && b != []
    ensures low * 256 + b[0] < Weight(bits + 8)
    ensures EncodeFrom(b, low, bits) == EncodeFrom(b[1..], low * 256 + b[0], bits + 8)
  {
    LoadIsSmall(low, bits, b[0]);
  }

  lemma ReadMore(dl: nat, db: nat, q: nat)
    requires dl < Weight(db) && q < 32
    ensures dl * 32 + q < Weight(db + 5)
    ensures db >= 3 ==> (dl * 32 + q) / Weight(db - 3) < 256
    ensures db >= 3 ==> (dl * 32 + q) % Weight(db - 3) < Weight(db - 3)
  {
    Weights();
    WeightSum(db, 5);
    if db >= 3 {
      WeightSum(8, db - 3);
      QuotientBelow(dl * 32 + q, 256, Weight(db - 3));
    }
  }

  lemma ByteRead(b: bytes, all: nat, db: nat, el: nat, eb: nat, k: nat, v: nat)
    requires el < Weight(eb) && db + eb == 8 * (k - 1) && k >= 1 && all / Weight(db) < 256
    requires all % Weight(db) < Weight(db) && v == Held(all, el, eb)
    ensures BE(v, k) + b == [all / Weight(db) % 256] + (BE(Held(all % Weight(db), el, eb), k - 1) + b)
  {
    hide BE, Held, Weight;
    TakenOff(all, db, el, eb);
    WeightOfBytes(k - 1);
    HeldBelow(all % Weight(db), db, el, eb);
    TopByte(v, k - 1, all / Weight(db), Held(all % Weight(db), el, eb));
  }

  lemma HeldLoaded(dl: nat, el: nat, eb: nat, b: byte)
    ensures Held(dl, el * 256 + b, eb + 8) == Held(dl, el, eb) * 256 + b
  {
    Weights();
    WeightSum(eb, 8);
    var w := Weight(eb);
    assert dl * (w * 256) == dl * w * 256;
  }

  lemma NextByte(v: nat, k: nat, b: byte)
    ensures BE(v * 256 + b, k + 1) == BE(v, k) + [b]
  {
    Divided(v * 256 + b, 256, v, b);
  }

  /** At the end the writer's last bits, filled with zeros, end the reader's last byte. */
  lemma LastLetter(dl: nat, db: nat, el: nat, eb: nat, k: nat)
    requires dl < Weight(db) && el < Weight(eb) && db < 8 && eb < 5 && db + eb == 8 * k
    ensures DecodeFrom(EncodeFrom([], el, eb), dl, db, false) == Some(BE(Held(dl, el, eb), k) + [])
  {
    hide Letter, DecodeFrom, EncodeFrom, BE, Weight, Held;
    Weights();
    if eb == 0 {
      NothingLeft(0);
      HeldBelow(dl, db, el, eb);
      WroteNothing();
      assert k == 0 && db == 0 && dl == 0 && el == 0;
      NoBytes(Held(dl, el, eb));
    } else {
      assert k == 1 && 5 - eb == db - 3;
      var q := el * Weight(5 - eb);
      var v := Held(dl, el, eb);
      FilledIsSmall(el, eb);
      WroteLast(el, eb);
      assert [Letter(q)] == [Letter(q)] + [];
      OneLetter(q, [], dl, db);
      HeldFilled(dl, el, eb);
      Split(v, 0, dl * 32 + q, Weight(5 - eb));
      HeldBelow(dl, db, el, eb);
      NothingLeft(db - 3);
      OneByte(v);
    }
  }

  lemma HeldFilled(dl: nat, el: nat, eb: nat)
    requires eb <= 5
    ensures dl * 32 + el * Weight(5 - eb) == Held(dl, el, eb) * Weight(5 - eb)
  {
    hide Weight;
    Weights();
    WeightSum(eb, 5 - eb);
    var x, w := Weight(eb), Weight(5 - eb);
    assert dl * (x * w) == dl * x * w;
    assert (dl * x + el) * w == dl * x * w + el * w;
  }

  lemma WroteNothing()
    ensures Weight(0) == 1 && EncodeFrom([], 0, 0) == []
  {
  }

  lemma WroteLast(low: nat, bits: nat)
    requires low < Weight(bits) && 0 < bits < 5
    ensures low * Weight(5 - bits) < 32 && EncodeFrom([], low, bits) == [Letter(low * Weight(5 - bits))]
  {
    FilledIsSmall(low, bits);
  }

  lemma NothingLeft(bits: nat)
    ensures DecodeFrom([], 0, bits, false) == Some([])
  {
  }

  lemma OneByte(v: nat)
    requires v < 256
    ensures Prepend<byte>([v % 256], Some([])) == Some(BE(v, 1) + [])
  {
    var one: bytes, none: bytes := [v % 256], [];
    assert BE(v, 1) == BE(v / 256, 0) + one;
    assert BE(v / 256, 0) + one == one && one + none == one;
  }

  lemma NoBytes(v: nat)
    ensures BE(v, 0) + [] == []
  {
  }

  /** What is written is read back as the same bytes. */
  lemma DecodeOfEncode(b: bytes)
    ensures Decode(Encode(b)) == Some(b)
  {
    hide DecodeFrom, EncodeFrom;
    assert Weight(0) == 1;
    InStep(b, 0, 0, 0, 0, 0);
    assert BE(Held(0, 0, 0), 0) == [];
    assert [] + b == b;
  }
}
