/**
 The import plan: for one destination, what each entry of a file becomes. The
 functions say what is planned; PlanImport is the two loops that plan it.
 */
module ImportPlan {
  import opened Prelude
  import opened Bytes
  import opened ImportModel
  import opened OathNames
  import Utf8

  const SOLO2_NAME_MAX: nat := 127
  const MOLTO_LAST_SLOT: nat := 99

  // ----- The rule table

  datatype PeriodRule = AnyPeriod | Only30 | MoltoPeriods | PeriodRange(lo: nat, hi: nat)

  datatype HotpRule = NoHotp | CounterU32 | CounterZeroOnly

  datatype Limits = Limits(
    nameMax: Option<nat>, hashes: set<HashAlg>, digitsMin: nat, digitsMax: nat,
    totp: PeriodRule, hotp: HotpRule, secretMax: Option<nat>, capacity: Option<nat>)

  function LimitsOf(store: Store): Limits {
    match store
    case Oath(YubiKey(version)) =>
      Limits(Some(64),
             if version.Some? && Before(version.value, Version(4, 3, 1)) then {Sha1, Sha256}
             else {Sha1, Sha256, Sha512},
             6, 8, AnyPeriod, CounterU32, None,
             if version.None? then None
             else if !Before(version.value, Version(5, 7, 0)) then Some(64)
             else if !Before(version.value, Version(4, 0, 0)) then Some(32)
             else None)
    case Oath(Solo2) => Limits(Some(SOLO2_NAME_MAX), {Sha1, Sha256}, 6, 8, AnyPeriod, CounterU32, Some(64), None)
    case Oath(Nitrokey3) => Limits(Some(128), {Sha1, Sha256}, 6, 8, Only30, CounterU32, Some(128), Some(50))
    case Oath(OtherFamily) => Limits(None, {Sha1, Sha256, Sha512}, 6, 8, AnyPeriod, CounterU32, None, None)
    case Token2Otp =>
      Limits(Some(64), {Sha1, Sha256}, 4, 10, PeriodRange(1, 65535), CounterZeroOnly, Some(64), Some(50))
    case Molto2 => Limits(Some(12), {Sha1, Sha256}, 4, 10, MoltoPeriods, NoHotp, Some(63), Some(100))
  }

  predicate MoltoDigits(d: nat) {
    d == 4 || d == 6 || d == 8 || d == 10
  }

  /** The first parameter the store does not take, if there is one. */
  function CheckParams(e: ImportEntry, store: Store): Option<Skip> {
    var lim := LimitsOf(store);
    if e.kind.Hotp? && lim.hotp == NoHotp then Some(HotpRefused)
    else if e.hash !in lim.hashes then Some(HashRefused(e.hash))
    else if !(lim.digitsMin <= e.digits <= lim.digitsMax && (store == Molto2 ==> MoltoDigits(e.digits))) then
      Some(DigitsRefused(e.digits))
    else if BadKind(e.kind, lim).Some? then BadKind(e.kind, lim)
    else if lim.secretMax.Some? && |e.secret| > lim.secretMax.value then
      Some(SecretLength(|e.secret|, lim.secretMax.value))
    else None
  }

  function BadKind(kind: OtpKind, lim: Limits): Option<Skip> {
    match kind
    case Totp(period) =>
      (match lim.totp
       case AnyPeriod => None
       case Only30 => if period != 30 then Some(PeriodNotStored(period)) else None
       case MoltoPeriods => if period != 30 && period != 60 then Some(PeriodRefused(period)) else None
       case PeriodRange(lo, hi) => if lo <= period <= hi then None else Some(PeriodRefused(period)))
    case Hotp(counter) =>
      if lim.hotp == CounterU32 && counter >= U32 then Some(CounterRefused(counter))
      else if lim.hotp == CounterZeroOnly && counter != 0 then Some(CounterRefused(counter))
      else None
  }

  /** Whether an OATH PUT of this name and secret fits one short command. */
  predicate OathPutFits(nameLen: nat, secretLen: nat, imf: bool) {
    2 + nameLen + 2 + 2 + Max(secretLen, 14) + (if imf then 6 else 0) <= 255
  }

  predicate IsAscii(s: string) {
    forall i :: 0 <= i < |s| ==> s[i] < 128 as char
  }

  /** The stored name, checked for length, ASCII and command fit. */
  function NameFor(e: ImportEntry, store: Store): Result<StoredName, Skip>
    requires store != Molto2
  {
    var nameMax := LimitsOf(store).nameMax;
    match store
    case Oath(family) =>
      var name :- OathNameOf(e, family);
      var len := |Utf8.Encode(name)|;
      if nameMax.Some? && len > nameMax.value then Err(NameTooLong(len, nameMax.value))
      else if !OathPutFits(len, |e.secret|, e.kind.Hotp? && e.kind.counter != 0) then Err(TooLongForCommand)
      else Ok(OathName(name))
    case Token2Otp =>
      var (app, account) :- Token2NameOf(e);
      if !IsAscii(app) || !IsAscii(account) then Err(NotAscii)
      else if nameMax.Some? && |app| > nameMax.value then Err(NameTooLong(|app|, nameMax.value))
      else if nameMax.Some? && |account| > nameMax.value then Err(NameTooLong(|account|, nameMax.value))
      else Ok(Token2Name(app, account))
  }

  /** As many leading characters as `room` bytes hold. */
  function LongestPrefix(s: string, room: nat): (p: string)
    ensures p <= s
  {
    if s == [] || |Utf8.EncodeChar(s[0])| > room then []
    else [s[0]] + LongestPrefix(s[1..], room - |Utf8.EncodeChar(s[0])|)
  }

  /** A Molto2 slot's title: the issuer, else the account, cut to 12 bytes. */
  function MoltoTitle(e: ImportEntry): string {
    var whole := if e.issuer.Some? then e.issuer.value else if e.account.Some? then e.account.value else [];
    LongestPrefix(whole, 12)
  }

  // ----- One item

  /** YubiKey 4 firmware after 4.0.0 and before 4.3.5. */
  predicate PrefixIssue(store: Store) {
    && store.Oath? && store.family.YubiKey? && store.family.version.Some?
    && Before(Version(4, 0, 0), store.family.version.value)
    && Before(store.family.version.value, Version(4, 3, 5))
  }

  /** `other` begins with `name` and is a different name. */
  predicate StartsOther(name: string, other: string) {
    other != name && name <= other
  }

  /** The name starts one of the others, where that matters. */
  predicate StartsAnother(store: Store, name: StoredName, others: set<StoredName>) {
    && PrefixIssue(store) && name.OathName?
    && exists o :: o in others && o.OathName? && StartsOther(name.name, o.name)
  }

  /** The name an item gets on an OATH or Token2 key, or why it gets none. */
  function Named(store: Store, item: ImportItem): Result<StoredName, Skip>
    requires store != Molto2
  {
    match item.entry
    case Err(why) => Err(NotUsable(why))
    case Ok(e) => if CheckParams(e, store).Some? then Err(CheckParams(e, store).value) else NameFor(e, store)
  }

  /** The title an item gets on a Molto2, or why it gets none. */
  function Titled(item: ImportItem): Result<string, Skip> {
    match item.entry
    case Err(why) => Err(NotUsable(why))
    case Ok(e) =>
      if CheckParams(e, Molto2).Some? then Err(CheckParams(e, Molto2).value)
      else if MoltoTitle(e) == [] then Err(NoName)
      else Ok(MoltoTitle(e))
  }

  /** What the loop over the items carries: names planned, each with its first item, and the next Molto2 slot. */
  datatype Pass = Pass(seen: map<StoredName, nat>, nextSlot: nat)

  /** What is on the key, as the plan asks about it. */
  datatype Ask = Ask(store: Store, replace: bool, names: set<StoredName>)

  predicate SlotInUse(names: set<StoredName>, slot: nat) {
    exists n :: n in names && n.MoltoName? && n.slot == slot
  }

  /** Add or replace, for a name or slot that is written. */
  function Written(inUse: bool): Verdict {
    if inUse then Replace else Add
  }

  /** The verdict on a named item of an OATH or Token2 import. */
  function Judge(ask: Ask, p: Pass, name: StoredName): Verdict {
    if name in p.seen then Skipped(SameNameInFile(p.seen[name]))
    else if name in ask.names && !ask.replace then Exists
    else if StartsAnother(ask.store, name, ask.names + p.seen.Keys) then Skipped(StartsAnotherName)
    else Written(name in ask.names)
  }

  /** A name is remembered unless it was refused. */
  function Remember(p: Pass, name: StoredName, index: nat, v: Verdict): Pass {
    if v.Skipped? then p else p.(seen := p.seen[name := index])
  }

  function PlanItem(ask: Ask, p: Pass, item: ImportItem): (PlanRow, Pass) {
    if ask.store == Molto2 then
      match Titled(item)
      case Err(why) => (PlanRow(item.index, None, Skipped(why), false), p)
      case Ok(title) =>
        if p.nextSlot > MOLTO_LAST_SLOT then (PlanRow(item.index, None, Skipped(PastLastSlot), false), p)
        else (PlanRow(item.index, Some(MoltoName(p.nextSlot, title)), Written(SlotInUse(ask.names, p.nextSlot)), false),
              p.(nextSlot := p.nextSlot + 1))
    else
      match Named(ask.store, item)
      case Err(why) => (PlanRow(item.index, None, Skipped(why), false), p)
      case Ok(name) =>
        var v := Judge(ask, p, name);
        (PlanRow(item.index, Some(name), v, false), Remember(p, name, item.index, v))
  }

  // ----- All items, then room

  function PlanRows(ask: Ask, items: ImportFile, p: Pass): (rows: seq<PlanRow>)
    ensures |rows| == |items|
    decreases |items|
  {
    if items == [] then [] else
    var (row, p') := PlanItem(ask, p, items[0]);
    [row] + PlanRows(ask, items[1..], p')
  }

  /** Adds past the capacity become skips; nothing else changes. */
  function Room(rows: seq<PlanRow>, used: nat, capacity: nat): (r: seq<PlanRow>)
    ensures |r| == |rows|
    decreases |rows|
  {
    if rows == [] then []
    else if rows[0].verdict != Add then [rows[0]] + Room(rows[1..], used, capacity)
    else if used >= capacity then
      [rows[0].(verdict := Skipped(NoRoom(capacity)))] + Room(rows[1..], used, capacity)
    else [rows[0]] + Room(rows[1..], used + 1, capacity)
  }

  function AskOf(t: Target): Ask {
    Ask(t.store, t.replace, set n | n in t.existing.names)
  }

  function CapacityOf(t: Target): Option<nat> {
    if t.store == Molto2 then Some(Max(MOLTO_LAST_SLOT + 1 - t.firstSlot, 0)) else LimitsOf(t.store).capacity
  }

  function OnKey(t: Target): nat {
    |t.existing.names| + t.existing.hidden
  }

  /** The rows before room is counted. */
  function Candidates(file: ImportFile, t: Target): seq<PlanRow> {
    PlanRows(AskOf(t), file, Pass(map[], t.firstSlot))
  }

  function PlanOf(file: ImportFile, t: Target): (plan: Plan)
    ensures |plan.rows| == |file|
  {
    var rows := Candidates(file, t);
    var capacity := CapacityOf(t);
    Plan(t.store,
         if t.store != Molto2 && capacity.Some? then Room(rows, OnKey(t), capacity.value) else rows,
         capacity, OnKey(t), t.replace)
  }

  /** Requiring a touch changes nothing else of a plan. */
  function SetTouch(plan: Plan, wants: PlanRow -> bool): Plan {
    plan.(rows := seq(|plan.rows|, i requires 0 <= i < |plan.rows| =>
      var row := plan.rows[i];
      row.(touch := plan.store != Molto2 && row.Writes() && wants(row))))
  }

  // ----- The loops

  /** The body of the loop over the items: one row, and the state after it. */
  method PlanOne(ask: Ask, seenBefore: map<StoredName, nat>, slotBefore: nat, item: ImportItem)
    returns (row: PlanRow, seen: map<StoredName, nat>, nextSlot: nat)
    ensures (row, Pass(seen, nextSlot)) == PlanItem(ask, Pass(seenBefore, slotBefore), item)
  {
    hide Titled, Named, StartsAnother, SlotInUse, LimitsOf;
    seen, nextSlot := seenBefore, slotBefore;
    var name: Option<StoredName>, verdict;
    if ask.store == Molto2 {
      var title := Titled(item);
      if title.Err? {
        name, verdict := None, Skipped(title.error);
      } else if nextSlot > MOLTO_LAST_SLOT {
        name, verdict := None, Skipped(PastLastSlot);
      } else {
        name, verdict := Some(MoltoName(nextSlot, title.value)), Written(SlotInUse(ask.names, nextSlot));
        nextSlot := nextSlot + 1;
      }
    } else {
      var named := Named(ask.store, item);
      if named.Err? {
        name, verdict := None, Skipped(named.error);
      } else {
        var n := named.value;
        name := Some(n);
        if n in seen {
          verdict := Skipped(SameNameInFile(seen[n]));
        } else if n in ask.names && !ask.replace {
          seen := seen[n := item.index];
          verdict := Exists;
        } else if StartsAnother(ask.store, n, ask.names + seen.Keys) {
          verdict := Skipped(StartsAnotherName);
        } else {
          seen := seen[n := item.index];
          verdict := Written(n in ask.names);
        }
      }
    }
    row := PlanRow(item.index, name, verdict, false);
  }

  method PlanImport(file: ImportFile, t: Target) returns (plan: Plan)
    ensures plan == PlanOf(file, t)
  {
    hide PlanItem, LimitsOf;
    var ask := AskOf(t);
    var capacity := CapacityOf(t);
    var rows: seq<PlanRow> := [];
    var seen: map<StoredName, nat> := map[];
    var nextSlot: nat := t.firstSlot;
    assert file[0..] == file;
    for i := 0 to |file|
      invariant |rows| == i
      invariant Candidates(file, t) == rows + PlanRows(ask, file[i..], Pass(seen, nextSlot))
    {
      ghost var before := Pass(seen, nextSlot);
      var row;
      row, seen, nextSlot := PlanOne(ask, seen, nextSlot, file[i]);
      PlanRowsFirst(ask, file[i..], before);
      assert file[i..][1..] == file[i + 1..];
      rows := rows + [row];
    }
    assert file[|file|..] == [];
    assert Candidates(file, t) == rows;
    if t.store != Molto2 && capacity.Some? {
      rows := FitToRoom(rows, OnKey(t), capacity.value);
    }
    plan := Plan(t.store, rows, capacity, OnKey(t), t.replace);
  }

  lemma PlanRowsFirst(ask: Ask, items: ImportFile, p: Pass)
    requires items != []
    ensures var (row, p') := PlanItem(ask, p, items[0]);
            PlanRows(ask, items, p) == [row] + PlanRows(ask, items[1..], p')
  {
    hide PlanItem;
  }

  /** Rewrite the adds that do not fit, in place. */
  method FitToRoom(planned: seq<PlanRow>, onKey: nat, capacity: nat) returns (rows: seq<PlanRow>)
    ensures rows == Room(planned, onKey, capacity)
  {
    rows := planned;
    var used: nat := onKey;
    for i := 0 to |planned|
      invariant |rows| == |planned| && rows[i..] == planned[i..]
      invariant Room(planned, onKey, capacity) == rows[..i] + Room(planned[i..], used, capacity)
    {
      assert planned[i..][0] == planned[i] && planned[i..][1..] == planned[i + 1..];
      ghost var was := rows;
      if rows[i].verdict == Add {
        if used >= capacity {
          rows := rows[i := rows[i].(verdict := Skipped(NoRoom(capacity)))];
        } else {
          used := used + 1;
        }
      }
      assert rows[..i + 1] == was[..i] + [rows[i]];
    }
    assert planned[|planned|..] == [];
    assert rows[..|planned|] == rows;
  }

  /** Step back from twelve bytes to where a character ends. */
  method CutTitle(candidate: string) returns (title: bytes)
    ensures title == Utf8.Encode(LongestPrefix(candidate, 12))
  {
    var b := Utf8.Encode(candidate);
    var end := Min(|b|, 12);
    while end > 0 && !CharBoundary(b, end)
      invariant 0 <= end <= Min(|b|, 12)
      invariant forall k :: end < k <= Min(|b|, 12) ==> !CharBoundary(b, k)
    {
      end := end - 1;
    }
    LongestPrefixEndsAtBoundary(candidate, 12);
    title := b[..end];
  }

  /** `str::is_char_boundary`: the end, or not before a continuation byte. */
  predicate CharBoundary(b: bytes, at: nat)
    requires at <= |b|
  {
    at == 0 || at == |b| || !Utf8.Tail(b[at])
  }

  /** The longest prefix that fits ends at the last boundary within the room. */
  lemma {:induction false} LongestPrefixEndsAtBoundary(s: string, room: nat)
    ensures var b, cut := Utf8.Encode(s), |Utf8.Encode(LongestPrefix(s, room))|;
            && cut <= |b| && cut <= room
            && Utf8.Encode(LongestPrefix(s, room)) == b[..cut]
            && CharBoundary(b, cut)
            && forall k :: cut < k <= |b| && k <= room ==> !CharBoundary(b, k)
  {
    hide Utf8.EncodeChar, Utf8.Encode;
    if s == [] {
      Utf8.EncodeNothing();
    } else {
      var first, rest := Utf8.EncodeChar(s[0]), Utf8.Encode(s[1..]);
      Utf8.EncodeFirst(s);
      CharBytes(s[0]);
      var b := Utf8.Encode(s);
      assert b == first + rest;
      if |first| > room {
        Utf8.EncodeNothing();
      } else {
        var more := LongestPrefix(s[1..], room - |first|);
        LongestPrefixEndsAtBoundary(s[1..], room - |first|);
        Utf8.EncodeFirst([s[0]] + more);
        assert ([s[0]] + more)[1..] == more;
        var cut := |first| + |Utf8.Encode(more)|;
        BoundaryAfterFirst(first, rest, s[1..]);
        forall k | cut < k <= |b| && k <= room ensures !CharBoundary(b, k) {
          assert !CharBoundary(rest, k - |first|);
        }
        assert CharBoundary(rest, cut - |first|);
      }
    }
  }

  /** A character's first byte is no continuation byte, and its others are. */
  lemma CharBytes(c: char)
    ensures var e := Utf8.EncodeChar(c);
            !Utf8.Tail(e[0]) && forall i :: 0 < i < |e| ==> Utf8.Tail(e[i])
  {
  }

  lemma BoundaryAfterFirst(first: bytes, rest: bytes, s: string)
    requires first != [] && rest == Utf8.Encode(s)
    ensures forall k :: |first| <= k <= |first| + |rest| ==>
              (CharBoundary(first + rest, k) <==> CharBoundary(rest, k - |first|))
  {
    hide Utf8.EncodeChar, Utf8.Encode;
    if s == [] {
      Utf8.EncodeNothing();
    } else {
      Utf8.EncodeFirst(s);
      CharBytes(s[0]);
      assert rest[0] == Utf8.EncodeChar(s[0])[0];
    }
  }
}
