/** The two readers of a Google Authenticator export agree, account by account. */
module MigrationLaws {
  import opened Prelude
  import opened Bytes
  import opened ImportModel
  import opened ImportPlan
  import opened Entries
  import opened Migration
  import OtpAuthLaws
  import Utf8

  // ----- Payloads

  /** The same account but for the counter, which only the wide reader keeps. */
  predicate SameButCounter(n: Account, w: Account) {
    n == w.(counter := n.counter)
  }

  predicate AllButCounters(n: seq<Account>, w: seq<Account>) {
    |n| == |w| && forall i :: 0 <= i < |n| ==> SameButCounter(n[i], w[i])
  }

  /**
   The two account loops take the same bytes, and the account the narrow one
   reads is the wide one's but for the counter.
   */
  lemma {:induction false} AccountsReadAlike(b: bytes, n: Account, w: Account, lossy: bytes -> string)
    requires SameButCounter(n, w)
    ensures NarrowAccountFrom(b, n, lossy).Some? <==> AccountFrom(b, w, lossy).Some?
    ensures NarrowAccountFrom(b, n, lossy).Some? ==>
              && SameButCounter(NarrowAccountFrom(b, n, lossy).value, AccountFrom(b, w, lossy).value)
              && NarrowAccountFrom(b, n, lossy).value.counter == n.counter
    decreases |b|
  {
    hide Varint, FieldAfter;
    if b != [] && Varint(b).Some? {
      var (k, rest) := Varint(b).value;
      if FieldAfter(KeyOf(k), rest).Some? {
        var (f, left) := FieldAfter(KeyOf(k), rest).value;
        AccountsReadAlike(left, PutNarrow(n, f, lossy), Put(w, f, lossy), lossy);
      }
    }
  }

  /** Up to the limit the two payload loops do the same but for counters; past it the wide one stops. */
  lemma {:induction false} LimitAgrees(b: bytes, m: Payload, v: Payload, limit: nat, lossy: bytes -> string)
    requires AllButCounters(m.accounts, v.accounts) && m.batch == v.batch && |m.accounts| <= limit
    ensures var n, w := PayloadFrom(b, m, None, lossy), PayloadFrom(b, v, Some(limit), lossy);
            && (n.Ok? ==> |n.value.accounts| >= |m.accounts|)
            && (n.Ok? && |n.value.accounts| <= limit ==>
                  w.Ok? && AllButCounters(n.value.accounts, w.value.accounts) && w.value.batch == n.value.batch)
            && (n.Ok? && |n.value.accounts| > limit ==> w == Err(TooManyEntries))
            && (n.Err? ==> w.Err?)
    decreases |b|
  {
    hide Varint, AccountFrom, NarrowAccountFrom, FieldAfter, SameButCounter;
    if b != [] && Varint(b).Some? {
      var (k, rest) := Varint(b).value;
      var key := KeyOf(k);
      var f := FieldAfter(key, rest);
      if f.Some? {
        var left := f.value.1;
        if IsAccount(key) {
          DataIsData(key, rest);
          var data := f.value.0.data;
          NothingAlike();
          AccountsReadAlike(data, NO_ACCOUNT, NO_ACCOUNT, lossy);
          var x, y := AccountOf(data, true, lossy), AccountOf(data, false, lossy);
          if x.Some? {
            var m', v' := m.(accounts := m.accounts + [x.value]), v.(accounts := v.accounts + [y.value]);
            LimitAgrees(left, m', v', if |m.accounts| < limit then limit else limit + 1, lossy);
          }
        } else {
          var batch := PutBatch(m.batch, f.value.0);
          LimitAgrees(left, m.(batch := batch), v.(batch := batch), limit, lossy);
        }
      }
    }
  }

  lemma NothingAlike()
    ensures SameButCounter(NO_ACCOUNT, NO_ACCOUNT)
  {
  }

  lemma DataIsData(key: FieldKey, b: bytes)
    requires IsAccount(key) && FieldAfter(key, b).Some?
    ensures FieldAfter(key, b).value.0.Data?
  {
    hide Varint, Chunk;
  }

  // ----- Accounts

  /** A Molto2 takes an account if and only if it makes an entry the Molto2 check passes; then the two are the same. */
  lemma AccountsAgree(a: Account)
    ensures ToMolto(a).Ok? <==> ToEntry(a).Ok? && CheckParams(ToEntry(a).value, Molto2).None?
    ensures ToMolto(a).Ok? ==> OtpAuthLaws.SameEntry(ToMolto(a).value, ToEntry(a).value)
  {
    hide SplitLabel, CheckParams;
    if ToEntry(a).Ok? {
      OtpAuthLaws.MoltoParams(ToEntry(a).value);
    }
  }

  /** Every account is either an entry or skipped. */
  lemma {:induction false} NoAccountIsLost(accounts: seq<Account>)
    ensures |EntriesOf(accounts)| + |SkippedOf(accounts)| == |accounts|
  {
    hide ToMolto;
    if accounts != [] {
      NoAccountIsLost(accounts[..|accounts| - 1]);
    }
  }

  /** A Molto2 does not look at the counter. */
  lemma CounterDoesNotMatter(n: Account, w: Account)
    requires SameButCounter(n, w)
    ensures ToMolto(n) == ToMolto(w)
  {
    hide SplitLabel;
  }

  /** The accounts of a payload as the narrow reader reads them, or none when it is malformed. */
  function AccountsIn(b: bytes, lossy: bytes -> string): seq<Account> {
    match PayloadFrom(b, Payload([], NO_BATCH), None, lossy)
    case Ok(p) => p.accounts
    case Err(_) => []
  }

  /**
   Both readers take the same payloads of at most 1000 accounts, and the wide
   one none with more. They agree on the batch; the wide one has one item for
   each account in order; and the accounts the narrow one keeps are exactly
   those whose item passes the Molto2 check, with the same fields.
   */
  lemma ReadersAgree(b: bytes, lossy: bytes -> string)
    ensures var n, w, accounts := ParsePayload(b, lossy), ParsePayloadWide(b, lossy), AccountsIn(b, lossy);
            && (w.Ok? <==> n.Ok? && |accounts| <= MAX_ENTRIES)
            && (n.Ok? && |accounts| > MAX_ENTRIES ==> w == Err(TooManyEntries))
            && (n.Ok? ==>
                  && n.value.entries == EntriesOf(accounts) && n.value.skipped == SkippedOf(accounts)
                  && |n.value.entries| + |n.value.skipped| == |accounts|)
            && (w.Ok? ==>
                  && w.value.batch == n.value.batch && |w.value.items| == |accounts|
                  && forall i :: 0 <= i < |accounts| ==>
                       var item, molto := w.value.items[i], ToMolto(accounts[i]);
                       && item.index == i
                       && (molto.Ok? <==> item.entry.Ok? && CheckParams(item.entry.value, Molto2).None?)
                       && (molto.Ok? ==> OtpAuthLaws.SameEntry(molto.value, item.entry.value)))
  {
    hide PayloadFrom, EntriesOf, SkippedOf, ToMolto, ToEntry, CheckParams, OtpAuthLaws.SameEntry, SameButCounter;
    var accounts, none := AccountsIn(b, lossy), Payload([], NO_BATCH);
    LimitAgrees(b, none, none, MAX_ENTRIES, lossy);
    NoAccountIsLost(accounts);
    var w := PayloadFrom(b, none, Some(MAX_ENTRIES), lossy);
    if w.Ok? {
      var wide := w.value.accounts;
      forall i | 0 <= i < |accounts|
        ensures ToMolto(accounts[i]).Ok? <==>
                  ToEntry(wide[i]).Ok? && CheckParams(ToEntry(wide[i]).value, Molto2).None?
        ensures ToMolto(accounts[i]).Ok? ==>
                  OtpAuthLaws.SameEntry(ToMolto(accounts[i]).value, ToEntry(wide[i]).value)
      {
        AccountsAgree(wide[i]);
        CounterDoesNotMatter(accounts[i], wide[i]);
      }
    }
  }

  // ----- Varints

  /** Seven bits a byte, the last with the high bit clear. */
  function WriteVarint(v: nat): bytes {
    if v < 128 then [v] else [128 + v % 128] + WriteVarint(v / 128)
  }

  /** The last byte of a varint, or one more before it. */
  lemma VarintStep(b: byte, rest: bytes, i: nat, sum: nat)
    requires i < 10
    ensures var next := sum + b % 128 * Shift(i) % U64;
            VarintFrom([b] + rest, i, sum) == if b < 128 then Some((next, rest)) else VarintFrom(rest, i + 1, next)
  {
    hide Shift;
    assert ([b] + rest)[1..] == rest;
  }

  lemma {:induction false} VarintFromReads(v: nat, i: nat, sum: nat, rest: bytes)
    requires i < 10 && v * Shift(i) < U64
    ensures VarintFrom(WriteVarint(v) + rest, i, sum) == Some((sum + v * Shift(i), rest))
    decreases v
  {
    hide VarintFrom, Shift;
    var w := Shift(i);
    var low, high := v % 128, v / 128;
    SplitLow(low, high, w);
    if v < 128 {
      VarintStep(v, rest, i, sum);
    } else {
      assert WriteVarint(v) + rest == [128 + low] + (WriteVarint(high) + rest);
      VarintStep(128 + low, WriteVarint(high) + rest, i, sum);
      NextShift(i);
      NotTheLast(v, i);
      VarintFromReads(high, i + 1, sum + low * w, rest);
    }
  }

  lemma NextShift(i: nat)
    ensures Shift(i + 1) == 128 * Shift(i)
  {
  }

  lemma SplitLow(low: nat, high: nat, w: nat)
    ensures (128 * high + low) * w == low * w + high * (128 * w)
    ensures low * w <= (128 * high + low) * w && high * (128 * w) <= (128 * high + low) * w
  {
  }

  /** The tenth byte of a 64-bit number is its last. */
  lemma NotTheLast(v: nat, i: nat)
    requires v >= 128 && i < 10 && v * Shift(i) < U64
    ensures i < 9
  {
    ShiftNine();
    AtLeast(v, 128, Shift(i));
  }

  lemma AtLeast(v: nat, k: nat, w: nat)
    requires v >= k
    ensures v * w >= k * w
  {
  }

  lemma ShiftNine()
    ensures 128 * Shift(9) > U64
  {
    assert Shift(1) == 128 * Shift(0) && Shift(2) == 128 * Shift(1) && Shift(3) == 128 * Shift(2);
    assert Shift(4) == 128 * Shift(3) && Shift(5) == 128 * Shift(4) && Shift(6) == 128 * Shift(5);
    assert Shift(7) == 128 * Shift(6) && Shift(8) == 128 * Shift(7) && Shift(9) == 128 * Shift(8);
  }

  /** Every 64-bit number written as a varint is read back, and what follows it is left. */
  lemma VarintReadsBack(v: nat, rest: bytes)
    requires v < U64
    ensures Varint(WriteVarint(v) + rest) == Some((v, rest))
  {
    VarintFromReads(v, 0, 0, rest);
  }

  // ----- A payload as an exporter writes it

  /** A field: its key, then a number, or a length and bytes. */
  function WriteField(f: Field): bytes {
    match f
    case Number(n, v) => WriteVarint(8 * n) + WriteVarint(v)
    case Data(n, data) => WriteVarint(8 * n + 2) + WriteVarint(|data|) + data
    case Fixed(n) => WriteVarint(8 * n + 5) + [0, 0, 0, 0]
  }

  predicate Writable(f: Field) {
    && 8 * f.number + 7 < U64
    && (f.Number? ==> f.value < U64)
    && (f.Data? ==> |f.data| < U64)
  }

  function WriteFields(fs: seq<Field>): bytes {
    if fs == [] then [] else WriteField(fs[0]) + WriteFields(fs[1..])
  }

  function PutAll(a: Account, fs: seq<Field>, lossy: bytes -> string): Account
    decreases |fs|
  {
    if fs == [] then a else PutAll(Put(a, fs[0], lossy), fs[1..], lossy)
  }

  /** The key of a written field, and the field after it. */
  lemma FieldReadsBack(f: Field, rest: bytes) returns (k: nat, after: bytes)
    requires Writable(f)
    ensures WriteField(f) + rest != []
    ensures Varint(WriteField(f) + rest) == Some((k, after))
    ensures FieldAfter(KeyOf(k), after) == Some((f, rest)) && (IsAccount(KeyOf(k)) <==> f.Data? && f.number == 1)
  {
    hide Varint, WriteVarint;
    match f {
      case Number(n, v) =>
        k, after := 8 * n, WriteVarint(v) + rest;
        assert WriteField(f) + rest == WriteVarint(k) + after;
        VarintReadsBack(k, after);
        VarintReadsBack(v, rest);
      case Data(n, data) =>
        k, after := 8 * n + 2, WriteVarint(|data|) + (data + rest);
        assert WriteField(f) + rest == WriteVarint(k) + after;
        VarintReadsBack(k, after);
        VarintReadsBack(|data|, data + rest);
        assert (data + rest)[..|data|] == data && (data + rest)[|data|..] == rest;
      case Fixed(n) =>
        k, after := 8 * n + 5, [0, 0, 0, 0] + rest;
        assert WriteField(f) + rest == WriteVarint(k) + after;
        VarintReadsBack(k, after);
        assert after[4..] == rest;
    }
  }

  /** Fields are read in the order they were written. */
  lemma {:induction false} FieldsReadBack(a: Account, fs: seq<Field>, lossy: bytes -> string)
    requires forall f :: f in fs ==> Writable(f)
    ensures AccountFrom(WriteFields(fs), a, lossy) == Some(PutAll(a, fs, lossy))
    decreases |fs|
  {
    hide Varint, FieldAfter, WriteField, Put, Writable;
    if fs != [] {
      var k, after := FieldReadsBack(fs[0], WriteFields(fs[1..]));
      FieldsReadBack(Put(a, fs[0], lossy), fs[1..], lossy);
    }
  }

  /** An account as the format describes it. */
  function FieldsOf(a: Account): seq<Field> {
    [Data(1, a.secret), Data(2, Utf8.Encode(a.name)), Data(3, Utf8.Encode(a.issuer)),
     Number(4, a.algorithm), Number(5, a.digits), Number(6, a.kind), Number(7, a.counter)]
  }

  predicate Exportable(a: Account) {
    && forall f :: f in FieldsOf(a) ==> Writable(f)
  }

  /** An account written field by field is read as that account, where valid UTF-8 is kept as it is. */
  lemma AccountReadsBack(a: Account, lossy: bytes -> string)
    requires Exportable(a) && forall s: string :: lossy(Utf8.Encode(s)) == s
    ensures AccountFrom(WriteFields(FieldsOf(a)), NO_ACCOUNT, lossy) == Some(a)
  {
    hide Utf8.Encode, AccountFrom, WriteFields, Writable;
    var fs := FieldsOf(a);
    FieldsReadBack(NO_ACCOUNT, fs, lossy);
    var name, issuer := Utf8.Encode(a.name), Utf8.Encode(a.issuer);
    assert lossy(name) == a.name && lossy(issuer) == a.issuer;
    PutSeven(NO_ACCOUNT, fs, lossy);
  }

  lemma PutSeven(a: Account, fs: seq<Field>, lossy: bytes -> string)
    requires |fs| == 7
    ensures PutAll(a, fs, lossy)
         == Put(Put(Put(Put(Put(Put(Put(a, fs[0], lossy), fs[1], lossy), fs[2], lossy), fs[3], lossy), fs[4], lossy),
                    fs[5], lossy), fs[6], lossy)
  {
    hide Put, PutAll;
    var a1 := Put(a, fs[0], lossy);
    var a2 := Put(a1, fs[1], lossy);
    var a3 := Put(a2, fs[2], lossy);
    var a4 := Put(a3, fs[3], lossy);
    var a5 := Put(a4, fs[4], lossy);
    var a6 := Put(a5, fs[5], lossy);
    PutFirst(a, fs, 0, lossy);
    PutFirst(a1, fs, 1, lossy);
    PutFirst(a2, fs, 2, lossy);
    PutFirst(a3, fs, 3, lossy);
    PutFirst(a4, fs, 4, lossy);
    PutFirst(a5, fs, 5, lossy);
    PutFirst(a6, fs, 6, lossy);
    assert fs[0..] == fs;
    PutNone(Put(a6, fs[6], lossy), fs[7..], lossy);
  }

  lemma PutFirst(a: Account, fs: seq<Field>, i: nat, lossy: bytes -> string)
    requires i < |fs|
    ensures PutAll(a, fs[i..], lossy) == PutAll(Put(a, fs[i], lossy), fs[i + 1..], lossy)
  {
    assert fs[i..][1..] == fs[i + 1..];
  }

  lemma PutNone(a: Account, fs: seq<Field>, lossy: bytes -> string)
    requires fs == []
    ensures PutAll(a, fs, lossy) == a
  {
  }

  /** A payload: the accounts, then the batch size and index. */
  function WritePayload(accounts: seq<Account>, size: nat, index: nat): bytes {
    if accounts == [] then WriteField(Number(3, size)) + WriteField(Number(4, index))
    else WriteField(Data(1, WriteFields(FieldsOf(accounts[0])))) + WritePayload(accounts[1..], size, index)
  }

  predicate ExportableAll(accounts: seq<Account>) {
    forall a :: a in accounts ==> Exportable(a) && |WriteFields(FieldsOf(a))| < U64
  }

  /** The accounts as a reader keeps them: the narrow one without their counters. */
  function KeptBy(accounts: seq<Account>, narrow: bool): (kept: seq<Account>)
    ensures |kept| == |accounts|
  {
    seq(|accounts|, i requires 0 <= i < |accounts| => if narrow then accounts[i].(counter := 0) else accounts[i])
  }

  lemma AccountReadsBackEither(a: Account, narrow: bool, lossy: bytes -> string)
    requires Exportable(a) && forall s: string :: lossy(Utf8.Encode(s)) == s
    ensures AccountOf(WriteFields(FieldsOf(a)), narrow, lossy) == Some(if narrow then a.(counter := 0) else a)
  {
    hide AccountFrom, NarrowAccountFrom, WriteFields, FieldsOf, Exportable, Utf8.Encode;
    AccountReadsBack(a, lossy);
    AccountsReadAlike(WriteFields(FieldsOf(a)), NO_ACCOUNT, NO_ACCOUNT, lossy);
  }

  lemma {:induction false} PayloadFromReads(
      so: Payload, accounts: seq<Account>, size: nat, index: nat, limit: Option<nat>, lossy: bytes -> string)
    requires ExportableAll(accounts) && size < U64 && index < U64 && forall s: string :: lossy(Utf8.Encode(s)) == s
    requires limit.Some? ==> |so.accounts| + |accounts| <= limit.value
    ensures PayloadFrom(WritePayload(accounts, size, index), so, limit, lossy)
         == Ok(Payload(so.accounts + KeptBy(accounts, limit.None?), Batch(Some(size % U32), Some(index % U32))))
    decreases |accounts|
  {
    hide Varint, FieldAfter, WriteField, FieldsOf, WriteFields, Exportable, AccountOf;
    if accounts == [] {
      var last := WriteField(Number(4, index)) + [];
      assert last == WriteField(Number(4, index));
      var k, after := FieldReadsBack(Number(3, size), last);
      var k2, after2 := FieldReadsBack(Number(4, index), []);
      assert so.accounts + KeptBy([], limit.None?) == so.accounts;
      PayloadEnds(so.(batch := Batch(Some(size % U32), Some(index % U32))), limit, lossy);
    } else {
      var a := accounts[0];
      var data := WriteFields(FieldsOf(a));
      var kept := if limit.None? then a.(counter := 0) else a;
      var k, after := FieldReadsBack(Data(1, data), WritePayload(accounts[1..], size, index));
      AccountReadsBackEither(a, limit.None?, lossy);
      PayloadFromReads(so.(accounts := so.accounts + [kept]), accounts[1..], size, index, limit, lossy);
      assert so.accounts + [kept] + KeptBy(accounts[1..], limit.None?) == so.accounts + KeptBy(accounts, limit.None?);
    }
  }

  lemma PayloadEnds(so: Payload, limit: Option<nat>, lossy: bytes -> string)
    ensures PayloadFrom([], so, limit, lossy) == Ok(so)
  {
  }

  /**
   An export is read as the accounts and the batch that were written, in order:
   by the narrow reader without their counters, and by the wide one, up to 1000,
   as an item for each.
   */
  lemma ExportReadsBack(accounts: seq<Account>, size: nat, index: nat, lossy: bytes -> string)
    requires accounts != [] && ExportableAll(accounts) && size < U32 && index < U32
    requires forall s: string :: lossy(Utf8.Encode(s)) == s
    ensures var b, batch := WritePayload(accounts, size, index), if size > 1 then Some((index, size)) else None;
            && AccountsIn(b, lossy) == KeptBy(accounts, true)
            && ParsePayload(b, lossy).Ok? && ParsePayload(b, lossy).value.batch == batch
            && (|accounts| <= MAX_ENTRIES ==>
                  ParsePayloadWide(b, lossy) == Ok(WideFile(ItemsOf(accounts), batch)))
  {
    hide PayloadFrom, EntriesOf, SkippedOf, WritePayload, ToEntry, ExportableAll, Utf8.Encode;
    var none := Payload([], NO_BATCH);
    PayloadFromReads(none, accounts, size, index, None, lossy);
    assert [] + KeptBy(accounts, true) == KeptBy(accounts, true);
    if |accounts| <= MAX_ENTRIES {
      PayloadFromReads(none, accounts, size, index, Some(MAX_ENTRIES), lossy);
      assert [] + KeptBy(accounts, false) == accounts;
    }
  }
}
