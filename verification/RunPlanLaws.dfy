/**
 A plan and its run together: at every write the prefix rule holds and there
 is room, and what a run that stopped left undone is exactly what the next
 plan asks for.
 */
module RunPlanLaws {
  import opened Prelude
  import opened ImportModel
  import opened ImportPlan
  import opened PlanLaws
  import opened ImportRun
  import opened RunLaws

  /** The state of the key when the run reaches row `m` of those it writes. */
  function StateBefore<S(!new)>(file: ImportFile, plan: Plan, key: Key<S>, s: S, m: nat): S
    requires m <= |WritesOf(plan.rows)|
  {
    RunTo(file, plan, WritesOf(plan.rows), key, s, m).state
  }

  /** What is on the key by then was on it before, or is at a place written earlier. */
  lemma WhereItCameFrom<S(!new)>(
      file: ImportFile, t: Target, plan: Plan, key: Key<S>, s: S, m: nat, place: Place)
    requires key.Lawful() && SameButTouch(plan, PlanOf(file, t))
    requires m <= |WritesOf(plan.rows)|
    requires place in key.codes(StateBefore(file, plan, key, s, m)) && place !in key.codes(s)
    ensures exists l :: 0 <= l < m && PlaceOfRow(WritesOf(plan.rows)[l]) == Some(place)
  {
    hide PlanOf, WritesOf, WriteOne, SameButTouch, EntryFor, RunTo, Shows, WriteAt;
    PlansAreRunnable(file, t, plan);
    var writes := WritesOf(plan.rows);
    RunToEffect(file, plan, writes, false, key, s, m);
    if forall l :: 0 <= l < m ==> PlaceOfRow(writes[l]) != Some(place) {
      assert Same(key.codes(s), key.codes(RunTo(file, plan, writes, key, s, m).state), place);
    }
  }

  // ----- The prefix rule

  /**
   On firmware with the prefix issue, whenever a run writes a name, no
   different name on the key starts with it: neither a name the key listed nor
   one an earlier row of the run put there.
   */
  lemma NothingOnTheKeyStartsWithIt<S(!new)>(
      file: ImportFile, t: Target, plan: Plan, key: Key<S>, s: S, m: nat, other: StoredName)
    requires PrefixIssue(t.store)
    requires key.Lawful() && SameButTouch(plan, PlanOf(file, t))
    requires m < |WritesOf(plan.rows)|
    requires Place.Named(other) in key.codes(StateBefore(file, plan, key, s, m))
    requires other.OathName? && (other in t.existing.names || Place.Named(other) !in key.codes(s))
    ensures var name := WritesOf(plan.rows)[m].name;
            name.Some? && name.value.OathName? && !StartsOther(name.value.name, other.name)
  {
    hide PlanOf, WritesOf, SameButTouch, RunTo, WriteAt, PlanRows, PassAt;
    var ask, p := AskOf(t), Pass(map[], t.firstSlot);
    var j := WriteAt(plan.rows, m);
    WrittenAsPlanned(file, t, plan, m);
    WritingRow(ask, file, p, j);
    WrittenKind(file, t, j);
    if other !in t.existing.names {
      WhereItCameFrom(file, t, plan, key, s, m, Place.Named(other));
      var l :| 0 <= l < m && PlaceOfRow(WritesOf(plan.rows)[l]) == Some(Place.Named(other));
      WriteAtIncreases(plan.rows, l, m);
      WrittenAsPlanned(file, t, plan, l);
      WrittenNamesAreDistinctAndSafe(ask, file, p, WriteAt(plan.rows, l), j);
      NotStarted(t.store, WritesOf(plan.rows)[m].name.value, ask.names + {other}, other);
    } else {
      NotStarted(t.store, WritesOf(plan.rows)[m].name.value, ask.names + PassAt(ask, file, p, j).seen.Keys, other);
    }
  }

  lemma NotStarted(store: Store, name: StoredName, others: set<StoredName>, other: StoredName)
    requires PrefixIssue(store) && name.OathName? && other.OathName?
    requires !StartsAnother(store, name, others) && other in others
    ensures !StartsOther(name.name, other.name)
  {
  }

  /** A row of the run is the candidate at its place in the file. */
  lemma WrittenAsPlanned(file: ImportFile, t: Target, plan: Plan, m: nat)
    requires SameButTouch(plan, PlanOf(file, t)) && m < |WritesOf(plan.rows)|
    ensures var j, rows := WriteAt(plan.rows, m), PlanRows(AskOf(t), file, Pass(map[], t.firstSlot));
            && j < |file| && rows[j].Writes()
            && rows[j].name == WritesOf(plan.rows)[m].name && rows[j].verdict == WritesOf(plan.rows)[m].verdict
  {
    hide PlanOf, WritesOf, WriteAt, PlanRows;
    var j := WriteAt(plan.rows, m);
    WritesAreCandidates(file, t, j);
    CandidatesAre(file, t);
  }

  lemma WrittenKind(file: ImportFile, t: Target, j: nat)
    requires t.store.Oath? && j < |file|
    ensures var row := PlanRows(AskOf(t), file, Pass(map[], t.firstSlot))[j];
            row.name.Some? ==> row.name.value.OathName?
  {
    hide PlanRows, PassAt, CheckParams, LimitsOf, OathNames.OathNameOf;
    var ask, p := AskOf(t), Pass(map[], t.firstSlot);
    RowAt(ask, file, p, j);
    ItemOnKey(ask, PassAt(ask, file, p, j), file[j]);
  }

  // ----- Room at every step

  lemma KeysBound(before: Codes, after: Codes, place: Place)
    requires forall other :: other != place ==> Same(before, after, other)
    ensures |after| <= |before| + 1
    ensures place in before ==> |after| <= |before|
    ensures place !in before && place in after ==> |after| == |before| + 1
    ensures !(place in after && place !in before) ==> |after| <= |before|
  {
    forall other | other in after.Keys ensures other in before.Keys + {place} {
      assert other != place ==> Same(before, after, other);
    }
    forall other | other in before.Keys - {place} ensures other in after.Keys {
      assert Same(before, after, other);
    }
    assert after.Keys <= before.Keys + {place};
    assert before.Keys - {place} <= after.Keys;
    Fewer(after.Keys, before.Keys + {place});
    if place in before {
      assert before.Keys + {place} == before.Keys;
    } else if place in after {
      assert after.Keys == before.Keys + {place};
    } else {
      assert after.Keys <= before.Keys;
      Fewer(after.Keys, before.Keys);
    }
    assert |after.Keys| == |after| && |before.Keys| == |before|;
  }

  lemma {:induction false} Fewer(few: set<Place>, many: set<Place>)
    requires few <= many
    ensures |few| <= |many|
  {
    assert |many - few| + |few| == |many| by { assert many == (many - few) + few; }
  }

  /** Only adds take room, one code each. */
  lemma {:induction false} CodesGrowByAdds<S(!new)>(
      file: ImportFile, plan: Plan, rows: seq<PlanRow>, key: Key<S>, s: S, n: nat)
    requires key.Lawful() && Runnable(rows) && n <= |rows|
    requires forall i :: 0 <= i < |rows| && rows[i].verdict == Replace ==> PlaceOf(rows[i].name.value) in key.codes(s)
    ensures |key.codes(RunTo(file, plan, rows, key, s, n).state)| <= |key.codes(s)| + CountAdds(rows[..n])
    decreases n
  {
    hide EntryFor, WriteOne, CountAdds, Shows;
    if n == 0 {
      assert CountAdds([]) == 0 by { NoRowsNoAdds(); }
    } else {
      CodesGrowByAdds(file, plan, rows, key, s, n - 1);
      AddsOfOneMore(rows, n - 1);
      var was, row := RunTo(file, plan, rows, key, s, n - 1), rows[n - 1];
      if was.stop.None? {
        WriteOneEffect(file, plan, row, false, key, was.state);
        var place := PlaceOf(row.name.value);
        var w := WriteOne(file, plan, row, key, was.state);
        KeysBound(key.codes(was.state), key.codes(w.state), place);
        if row.verdict == Replace {
          RunToEffect(file, plan, rows, false, key, s, n - 1);
          assert Same(key.codes(s), key.codes(was.state), place);
        }
      }
    }
  }

  lemma NoRowsNoAdds()
    ensures CountAdds([]) == 0
  {
  }

  lemma {:induction false} AddsOfOneMore(rows: seq<PlanRow>, n: nat)
    requires n < |rows|
    ensures CountAdds(rows[..n + 1]) == CountAdds(rows[..n]) + (if rows[n].verdict == Add then 1 else 0)
  {
    if n > 0 {
      AddsOfOneMore(rows[1..], n - 1);
      assert rows[..n + 1][1..] == rows[1..][..n] && rows[..n][1..] == rows[1..][..n - 1];
    }
  }

  lemma {:induction false} AddsOfAPart(rows: seq<PlanRow>, n: nat)
    requires n <= |rows|
    ensures CountAdds(rows[..n]) <= CountAdds(rows)
    decreases |rows| - n
  {
    hide CountAdds;
    if n < |rows| {
      AddsOfOneMore(rows, n);
      AddsOfAPart(rows, n + 1);
    } else {
      assert rows[..n] == rows;
    }
  }

  /** The rows that write hold all the adds. */
  lemma {:induction false} WritesHoldTheAdds(rows: seq<PlanRow>)
    ensures CountAdds(WritesOf(rows)) == CountAdds(rows)
  {
    if rows != [] {
      WritesHoldTheAdds(rows[1..]);
      if rows[0].Writes() {
        assert WritesOf(rows) == [rows[0]] + WritesOf(rows[1..]);
        assert WritesOf(rows)[1..] == WritesOf(rows[1..]);
      } else {
        assert WritesOf(rows) == WritesOf(rows[1..]);
      }
    }
  }

  lemma {:induction false} AddsButTouch(rows: seq<PlanRow>, others: seq<PlanRow>)
    requires |rows| == |others| && forall i :: 0 <= i < |rows| ==> rows[i].verdict == others[i].verdict
    ensures CountAdds(rows) == CountAdds(others)
  {
    if rows != [] {
      AddsButTouch(rows[1..], others[1..]);
    }
  }

  /**
   No step of a run takes a key past its capacity, or past what it held if
   that was more already: a run against a key holding what was counted, with
   every name it listed on it, has room for every add it makes.
   */
  lemma NeverPastCapacity<S(!new)>(file: ImportFile, t: Target, plan: Plan, key: Key<S>, s: S, m: nat)
    requires key.Lawful() && SameButTouch(plan, PlanOf(file, t))
    requires t.store != Molto2 && CapacityOf(t).Some? && m <= |WritesOf(plan.rows)|
    requires |key.codes(s)| == OnKey(t) && forall n :: n in t.existing.names ==> PlaceOf(n) in key.codes(s)
    ensures |key.codes(StateBefore(file, plan, key, s, m))| <= Max(OnKey(t), CapacityOf(t).value)
  {
    hide PlanOf, WritesOf, RunTo, WriteAt, PlanRows, PassAt, CountAdds, EntryFor, StartsAnother;
    var writes := WritesOf(plan.rows);
    PlansAreRunnable(file, t, plan);
    forall i | 0 <= i < |writes| && writes[i].verdict == Replace
      ensures PlaceOf(writes[i].name.value) in key.codes(s)
    {
      WrittenAsPlanned(file, t, plan, i);
      WritingRow(AskOf(t), file, Pass(map[], t.firstSlot), WriteAt(plan.rows, i));
    }
    CodesGrowByAdds(file, plan, writes, key, s, m);
    AddsOfAPart(writes, m);
    WritesHoldTheAdds(plan.rows);
    AddsButTouch(plan.rows, PlanOf(file, t).rows);
    RoomIsUsedInFileOrder(file, t);
  }

  // ----- Carrying on after a run that stopped

  /** A listing of what a key holds: it names each code once, but for the hidden ones, which it counts. */
  predicate Lists(e: Existing, codes: Codes, hidden: set<Place>) {
    && e.hidden == |hidden|
    && |e.names| + e.hidden == |codes|
    && (forall n :: n in e.names ==> !n.MoltoName? && Place.Named(n) !in hidden)
    && codes.Keys == (set n | n in e.names :: Place.Named(n)) + hidden
  }

  function CountAdded(outcomes: seq<Outcome>): nat {
    if outcomes == [] then 0
    else CountAdded(outcomes[..|outcomes| - 1]) + if outcomes[|outcomes| - 1] == Added then 1 else 0
  }

  /** Writing a name the key does not hold adds it or stops the run; only a failure may have added it too. */
  lemma FreshWrite<S(!new)>(file: ImportFile, plan: Plan, row: PlanRow, key: Key<S>, s: S)
    requires key.Lawful() && row.name.Some? && row.verdict == Add
    requires PlaceOf(row.name.value) !in key.codes(s)
    ensures var w := WriteOne(file, plan, row, key, s);
            var before, after, own := key.codes(s).Keys, key.codes(w.state).Keys, {PlaceOf(row.name.value)};
            && (w.stop.None? <==> w.outcome == Added)
            && (w.outcome == Added ==> after == before + own)
            && (w.outcome != Added ==> after == before || (w.outcome.Failed? && after == before + own))
  {
    hide EntryFor;
    if CodeOf(file, row).Some? {
      var code := CodeOf(file, row).value;
      var (s1, r) := key.add(s, row.name.value, code);
      AddShows(key.codes(s), key.codes(s1), r, row.name.value, code);
      SameKeys(key.codes(s), key.codes(s1), PlaceOf(row.name.value));
      hide AddKeeps;
    }
  }

  lemma SameKeys(before: Codes, after: Codes, place: Place)
    requires place !in before && forall other :: other != place ==> Same(before, after, other)
    ensures after.Keys == if place in after then before.Keys + {place} else before.Keys
  {
    forall other | other != place ensures other in after.Keys <==> other in before.Keys {
      assert Same(before, after, other);
    }
  }

  /** The places of some rows. */
  function PlacesOf(rows: seq<PlanRow>): set<Place> {
    set row | row in rows && row.name.Some? :: PlaceOf(row.name.value)
  }

  lemma PlacesOfOneMore(rows: seq<PlanRow>, n: nat)
    requires n < |rows| && rows[n].name.Some?
    ensures PlacesOf(rows[..n + 1]) == PlacesOf(rows[..n]) + {PlaceOf(rows[n].name.value)}
  {
    assert rows[..n + 1] == rows[..n] + [rows[n]];
  }

  /**
   A run of adds the key does not hold adds the first few and then stops; the
   key holds what it held and those, and maybe the one that failed.
   */
  lemma {:induction false} FreshRun<S(!new)>(
      file: ImportFile, plan: Plan, rows: seq<PlanRow>, key: Key<S>, s: S, n: nat)
    returns (stored: nat)
    requires key.Lawful() && Runnable(rows) && n <= |rows|
    requires forall i :: 0 <= i < n ==> rows[i].verdict == Add && PlaceOf(rows[i].name.value) !in key.codes(s)
    ensures var rs := RunTo(file, plan, rows, key, s, n);
            var k := CountAdded(rs.outcomes);
            && k <= stored <= n
            && (forall i :: 0 <= i < n ==> (rs.outcomes[i] == Added <==> i < k))
            && (rs.stop.None? ==> k == n)
            && (stored == k || (stored == k + 1 && rs.outcomes[k].Failed?))
            && key.codes(rs.state).Keys == key.codes(s).Keys + PlacesOf(rows[..stored])
            && |key.codes(rs.state)| == |key.codes(s)| + stored
    decreases n
  {
    hide EntryFor, WriteOne, PlacesOf, CountAdded, RunTo;
    if n == 0 {
      NothingRun(file, plan, rows, key, s);
      NoPlaces();
      OneMoreOutcome([], NotTried);
      assert rows[..0] == [];
      stored := 0;
    } else {
      stored := FreshRun(file, plan, rows, key, s, n - 1);
      var was, row, rs := RunTo(file, plan, rows, key, s, n - 1), rows[n - 1], RunTo(file, plan, rows, key, s, n);
      RunToLast(file, plan, rows, key, s, n);
      OneMoreOutcome(was.outcomes, rs.outcomes[n - 1]);
      assert rs.outcomes == was.outcomes + [rs.outcomes[n - 1]];
      hide CodeOf, Runnable;
      if was.stop.None? {
        NotReachedYet(file, plan, rows, key, s, n);
        FreshWrite(file, plan, row, key, was.state);
        PlacesOfOneMore(rows, n - 1);
        KeysCount(key.codes(was.state), key.codes(rs.state), PlaceOf(row.name.value));
        if key.codes(rs.state).Keys != key.codes(was.state).Keys {
          stored := n;
        }
      } else {
        StopMeansUntouched(file, plan, rows, key, s, n - 1);
      }
    }
  }

  /** A row's place is free until the run reaches it, if it was at the start. */
  lemma NotReachedYet<S(!new)>(file: ImportFile, plan: Plan, rows: seq<PlanRow>, key: Key<S>, s: S, n: nat)
    requires key.Lawful() && Runnable(rows) && 0 < n <= |rows| && PlaceOf(rows[n - 1].name.value) !in key.codes(s)
    ensures PlaceOf(rows[n - 1].name.value) !in key.codes(RunTo(file, plan, rows, key, s, n - 1).state)
  {
    hide RunTo, Shows, CodeOf;
    RunToEffect(file, plan, rows, false, key, s, n - 1);
    assert Same(key.codes(s), key.codes(RunTo(file, plan, rows, key, s, n - 1).state), PlaceOf(rows[n - 1].name.value));
  }

  lemma KeysCount(before: Codes, after: Codes, place: Place)
    requires place !in before
    ensures after.Keys == before.Keys ==> |after| == |before|
    ensures after.Keys == before.Keys + {place} ==> |after| == |before| + 1 && after.Keys != before.Keys
  {
    assert |after.Keys| == |after| && |before.Keys| == |before|;
  }

  lemma OneMoreOutcome(outcomes: seq<Outcome>, last: Outcome)
    ensures CountAdded(outcomes + [last]) == CountAdded(outcomes) + if last == Added then 1 else 0
    ensures CountAdded([]) == 0
  {
    assert (outcomes + [last])[..|outcomes|] == outcomes;
  }

  lemma NoPlaces()
    ensures PlacesOf([]) == {}
  {
  }

  /** Where nothing is replaced, the first `k` rows that write are the first `k` adds. */
  lemma {:induction false} FirstWritesAreFirstAdds(rows: seq<PlanRow>, k: nat)
    requires k <= |WritesOf(rows)|
    requires forall i :: 0 <= i < |rows| ==> rows[i].verdict != Replace && (rows[i].Writes() ==> rows[i].name.Some?)
    ensures FirstAdds(rows, k) == set row | row in WritesOf(rows)[..k] && row.name.Some? :: row.name.value
    ensures |WritesOf(rows)| == CountAdds(rows)
    decreases |rows|
  {
    if rows != [] {
      var first, rest := rows[0], rows[1..];
      if first.verdict == Add && k > 0 {
        FirstWritesAreFirstAdds(rest, k - 1);
        assert WritesOf(rows)[..k] == [first] + WritesOf(rest)[..k - 1];
      } else if first.verdict == Add {
        FirstWritesAreFirstAdds(rest, 0);
      } else {
        FirstWritesAreFirstAdds(rest, k);
        assert WritesOf(rows) == WritesOf(rest);
      }
    }
  }

  lemma {:induction false} FirstAddsButTouch(rows: seq<PlanRow>, others: seq<PlanRow>, k: nat)
    requires |rows| == |others|
    requires forall i :: 0 <= i < |rows| ==> rows[i].verdict == others[i].verdict && rows[i].name == others[i].name
    ensures FirstAdds(rows, k) == FirstAdds(others, k)
    decreases |rows|
  {
    if rows != [] && k > 0 {
      FirstAddsButTouch(rows[1..], others[1..], if rows[0].verdict == Add then k - 1 else k);
    }
  }

  /** Every row of a plan that replaces nothing writes a name the key does not list. */
  lemma AddsAreNew(file: ImportFile, t: Target, plan: Plan, m: nat)
    requires t.store != Molto2 && !t.replace
    requires SameButTouch(plan, PlanOf(file, t)) && m < |WritesOf(plan.rows)|
    ensures var row := WritesOf(plan.rows)[m];
            && row.verdict == Add && row.name.Some? && !row.name.value.MoltoName?
            && row.name.value !in t.existing.names
  {
    hide PlanOf, WritesOf, PlanRows, WriteAt, PassAt, StartsAnother;
    var j := WriteAt(plan.rows, m);
    WrittenAsPlanned(file, t, plan, m);
    WritingRow(AskOf(t), file, Pass(map[], t.firstSlot), j);
    NamedKind(AskOf(t), file, Pass(map[], t.firstSlot), j);
    NothingToReplace(file, t);
  }

  /** How many rows of such a run are on the key: those added, and the next one if its place is taken. */
  function StoredCount(writes: seq<PlanRow>, added: nat, codes: Codes): (n: nat)
    ensures added <= |writes| ==> n <= |writes|
  {
    if added < |writes| && writes[added].name.Some? && PlaceOf(writes[added].name.value) in codes then added + 1
    else added
  }

  /** How many rows a run can reach: it stops at the first whose entry is not found. */
  function Reach(file: ImportFile, writes: seq<PlanRow>): (r: nat)
    ensures r <= |writes|
    ensures forall i :: 0 <= i < r - 1 ==> CodeOf(file, writes[i]).Some?
    ensures r == |writes| || (r > 0 && CodeOf(file, writes[r - 1]).None?)
  {
    if writes == [] then 0
    else if CodeOf(file, writes[0]).None? then 1
    else 1 + Reach(file, writes[1..])
  }

  /** Past the rows it can reach a run does nothing and reports nothing added. */
  lemma NothingPastReach<S(!new)>(file: ImportFile, plan: Plan, rows: seq<PlanRow>, key: Key<S>, s: S)
    requires key.Lawful() && Runnable(rows)
    ensures var r, all := RunTo(file, plan, rows, key, s, Reach(file, rows)), RunTo(file, plan, rows, key, s, |rows|);
            && r.state == all.state && CountAdded(all.outcomes) == CountAdded(r.outcomes)
            && all.outcomes[..Reach(file, rows)] == r.outcomes
            && (forall i :: Reach(file, rows) <= i < |rows| ==> all.outcomes[i] != Added)
            && (Reach(file, rows) < |rows| ==> r.outcomes[Reach(file, rows) - 1] != Added)
  {
    hide EntryFor, WriteOne, RunTo, CountAdded, CodeOf;
    var n := Reach(file, rows);
    var r, all := RunTo(file, plan, rows, key, s, n), RunTo(file, plan, rows, key, s, |rows|);
    if n < |rows| {
      RunToEffect(file, plan, rows, false, key, s, n);
      assert Shows(r.outcomes[n - 1], false, key.codes(s), key.codes(r.state), PlaceOf(rows[n - 1].name.value),
                   CodeOf(file, rows[n - 1]));
      NotFoundStops(file, plan, rows, key, s, n);
      NothingAfterStop(file, plan, rows, key, s, n, |rows|);
      StopMeansUntouched(file, plan, rows, key, s, n);
      NothingMoreAdded(r.outcomes, all.outcomes);
    } else {
      assert r.outcomes[..n] == r.outcomes;
    }
  }

  lemma NotFoundStops<S(!new)>(file: ImportFile, plan: Plan, rows: seq<PlanRow>, key: Key<S>, s: S, n: nat)
    requires 0 < n <= |rows| && CodeOf(file, rows[n - 1]).None?
    ensures RunTo(file, plan, rows, key, s, n).stop.Some?
  {
    hide EntryFor;
  }

  lemma {:induction false} NothingMoreAdded(first: seq<Outcome>, all: seq<Outcome>)
    requires first <= all && forall i :: |first| <= i < |all| ==> all[i] != Added
    ensures CountAdded(all) == CountAdded(first)
    decreases |all|
  {
    if |first| < |all| {
      NothingMoreAdded(first, all[..|all| - 1]);
    } else {
      assert all == first;
    }
  }

  /**
   A run of a plan that replaces nothing, against a key whose hidden codes have
   no name of a row the run can reach: the first few rows are added and no
   others; only the row that failed may be on the key as well.
   */
  lemma AddsInOrder<S(!new)>(file: ImportFile, t: Target, plan: Plan, key: Key<S>, s: S, hidden: set<Place>)
    requires t.store != Molto2 && !t.replace && key.Lawful()
    requires SameButTouch(plan, PlanOf(file, t)) && Lists(t.existing, key.codes(s), hidden)
    requires hidden !! PlacesOf(WritesOf(plan.rows)[..Reach(file, WritesOf(plan.rows))])
    ensures var writes, rs := WritesOf(plan.rows), Run(file, plan, key, s);
            var k := CountAdded(rs.outcomes);
            var n := StoredCount(writes, k, key.codes(rs.state));
            && k <= n <= Reach(file, writes) <= |writes| == |rs.outcomes|
            && (forall i :: 0 <= i < |rs.outcomes| ==> (rs.outcomes[i] == Added <==> i < k))
            && (n == k + 1 ==> rs.outcomes[k].Failed?)
            && key.codes(rs.state).Keys == key.codes(s).Keys + PlacesOf(writes[..n])
            && |key.codes(rs.state)| == |key.codes(s)| + n
  {
    hide PlanOf, RunTo, WritesOf, EntryFor, CountAdded, PlacesOf, CodeOf, SameButTouch, Lists, Runnable, StoredCount;
    var writes := WritesOf(plan.rows);
    PlansAreRunnable(file, t, plan);
    forall m | 0 <= m < Reach(file, writes)
      ensures writes[m].verdict == Add && writes[m].name.Some? && PlaceOf(writes[m].name.value) !in key.codes(s)
    {
      AddsAreNew(file, t, plan, m);
      ReachedIsFree(t.existing, key.codes(s), hidden, writes, Reach(file, writes), m);
    }
    FreshRows(file, plan, writes, key, s);
  }

  lemma ReachedIsFree(e: Existing, codes: Codes, hidden: set<Place>, writes: seq<PlanRow>, r: nat, m: nat)
    requires Lists(e, codes, hidden) && m < r <= |writes| && hidden !! PlacesOf(writes[..r])
    requires writes[m].name.Some? && !writes[m].name.value.MoltoName? && writes[m].name.value !in e.names
    ensures PlaceOf(writes[m].name.value) !in codes
  {
    assert writes[..r][m] == writes[m];
    PlaceOfOne(writes[..r], m);
  }

  /** A run whose reachable rows are adds of names the key does not hold. */
  lemma FreshRows<S(!new)>(file: ImportFile, plan: Plan, writes: seq<PlanRow>, key: Key<S>, s: S)
    requires key.Lawful() && Runnable(writes)
    requires forall m :: 0 <= m < Reach(file, writes) ==>
               writes[m].verdict == Add && PlaceOf(writes[m].name.value) !in key.codes(s)
    ensures var rs := RunTo(file, plan, writes, key, s, |writes|);
            var k := CountAdded(rs.outcomes);
            var n := StoredCount(writes, k, key.codes(rs.state));
            && k <= n <= Reach(file, writes)
            && (forall i :: 0 <= i < |rs.outcomes| ==> (rs.outcomes[i] == Added <==> i < k))
            && (n == k + 1 ==> rs.outcomes[k].Failed?)
            && key.codes(rs.state).Keys == key.codes(s).Keys + PlacesOf(writes[..n])
            && |key.codes(rs.state)| == |key.codes(s)| + n
  {
    hide RunTo, EntryFor, CountAdded, PlacesOf, CodeOf, Reach;
    var r, rs := Reach(file, writes), RunTo(file, plan, writes, key, s, |writes|);
    var stored := FreshRun(file, plan, writes, key, s, r);
    NothingPastReach(file, plan, writes, key, s);
    var first := RunTo(file, plan, writes, key, s, r);
    forall i | 0 <= i < r ensures rs.outcomes[i] == first.outcomes[i] {
      assert rs.outcomes[..r][i] == rs.outcomes[i];
    }
    var k := CountAdded(rs.outcomes);
    if k < |writes| {
      NotAmongEarlier(writes, k);
      PlaceOfOne(writes[..k + 1], k);
    }
  }

  lemma PlaceOfOne(rows: seq<PlanRow>, m: nat)
    requires m < |rows| && rows[m].name.Some?
    ensures PlaceOf(rows[m].name.value) in PlacesOf(rows)
  {
  }

  lemma NotAmongEarlier(rows: seq<PlanRow>, k: nat)
    requires k < |rows| && rows[k].name.Some?
    requires forall i, j :: 0 <= i < j < |rows| ==> PlaceOfRow(rows[i]) != PlaceOfRow(rows[j])
    ensures PlaceOf(rows[k].name.value) !in PlacesOf(rows[..k])
  {
  }

  lemma PlacesOfSome(rows: seq<PlanRow>, n: nat)
    requires n <= |rows|
    ensures PlacesOf(rows[..n]) <= PlacesOf(rows)
  {
  }

  /** The first `k` rows that write are the first `k` adds of the plan. */
  lemma WritesArePlannedAdds(file: ImportFile, t: Target, plan: Plan, k: nat)
    requires t.store != Molto2 && !t.replace && SameButTouch(plan, PlanOf(file, t)) && k <= |WritesOf(plan.rows)|
    ensures |WritesOf(plan.rows)| == CountAdds(PlanOf(file, t).rows)
    ensures FirstAdds(PlanOf(file, t).rows, k)
         == set row | row in WritesOf(plan.rows)[..k] && row.name.Some? :: row.name.value
    ensures forall m :: 0 <= m < k ==>
              WritesOf(plan.rows)[m].name.Some? && !WritesOf(plan.rows)[m].name.value.MoltoName?
  {
    hide PlanOf, WritesOf, CountAdds, FirstAdds;
    PlannedRows(file, t, plan);
    FirstWritesAreFirstAdds(plan.rows, k);
    AddsButTouch(plan.rows, PlanOf(file, t).rows);
    FirstAddsButTouch(plan.rows, PlanOf(file, t).rows, k);
    forall m | 0 <= m < k
      ensures WritesOf(plan.rows)[m].name.Some? && !WritesOf(plan.rows)[m].name.value.MoltoName?
    {
      AddsAreNew(file, t, plan, m);
    }
  }

  /**
   Stopping loses nothing. Run a plan that replaces nothing against a key whose
   hidden codes have no name of a row the run can reach: the first few rows are
   added and no others, whatever the key answers and whatever answer is lost. Plan
   again from a new listing, and the plan is the old one with exactly the rows
   on the key turned to Exists: those added, and the one that failed if it was
   carried out after all. When every row was added, the new plan writes nothing.
   */
  lemma CarryingOnIsSafe<S(!new)>(
      file: ImportFile, t: Target, plan: Plan, key: Key<S>, s: S, hidden: set<Place>, later: Existing)
    requires t.store != Molto2 && !t.replace && key.Lawful()
    requires SameButTouch(plan, PlanOf(file, t))
    requires hidden !! PlacesOf(WritesOf(plan.rows)[..Reach(file, WritesOf(plan.rows))])
    requires Lists(t.existing, key.codes(s), hidden)
    requires Lists(later, key.codes(Run(file, plan, key, s).state), hidden)
    ensures var rs := Run(file, plan, key, s);
            var k := CountAdded(rs.outcomes);
            var n := StoredCount(WritesOf(plan.rows), k, key.codes(rs.state));
            && (forall i :: 0 <= i < |rs.outcomes| ==> (rs.outcomes[i] == Added <==> i < k))
            && (n == k + 1 ==> rs.outcomes[k].Failed?)
            && PlanOf(file, t.(existing := later)).rows == MarkExists(PlanOf(file, t).rows, n)
            && (n == |rs.outcomes| ==>
                  forall i :: 0 <= i < |file| ==> !PlanOf(file, t.(existing := later)).rows[i].Writes())
  {
    hide PlanOf, Run, WritesOf, CountAdded, CountAdds, MarkExists, FirstAdds, PlacesOf, SameButTouch;
    hide StoredCount, Lists;
    var rs := Run(file, plan, key, s);
    var n := StoredCount(WritesOf(plan.rows), CountAdded(rs.outcomes), key.codes(rs.state));
    AddsInOrder(file, t, plan, key, s, hidden);
    WritesArePlannedAdds(file, t, plan, n);
    var reached := WritesOf(plan.rows)[..Reach(file, WritesOf(plan.rows))];
    PlacesOfSome(reached, n);
    assert reached[..n] == WritesOf(plan.rows)[..n];
    ListedAfter(t, later, key.codes(s), key.codes(rs.state), hidden, WritesOf(plan.rows)[..n]);
    PlanningAgainIsSafe(file, t, later, n);
  }

  lemma PlannedRows(file: ImportFile, t: Target, plan: Plan)
    requires t.store != Molto2 && !t.replace && SameButTouch(plan, PlanOf(file, t))
    ensures forall i :: 0 <= i < |plan.rows| ==>
              plan.rows[i].verdict != Replace && (plan.rows[i].Writes() ==> plan.rows[i].name.Some?)
  {
    hide PlanOf;
    NothingToReplace(file, t);
    forall i | 0 <= i < |plan.rows| ensures plan.rows[i].Writes() ==> plan.rows[i].name.Some? {
      RowIsForItsItem(file, t, i);
    }
  }

  /** What a listing names after some rows were added. */
  lemma ListedAfter(
      t: Target, later: Existing, before: Codes, after: Codes, hidden: set<Place>, added: seq<PlanRow>)
    requires Lists(t.existing, before, hidden) && Lists(later, after, hidden)
    requires forall m :: 0 <= m < |added| ==> added[m].name.Some? && !added[m].name.value.MoltoName?
    requires after.Keys == before.Keys + PlacesOf(added) && |after| == |before| + |added|
    requires hidden !! PlacesOf(added)
    ensures (set n | n in later.names)
         == (set n | n in t.existing.names) + set row | row in added && row.name.Some? :: row.name.value
    ensures |later.names| + later.hidden == OnKey(t) + |added|
  {
    var names := set row | row in added && row.name.Some? :: row.name.value;
    forall n: StoredName
      ensures n in later.names <==> n in t.existing.names || n in names
    {
      ListedName(later, after, hidden, n);
      ListedName(t.existing, before, hidden, n);
      if n in names {
        var row :| row in added && row.name.Some? && row.name.value == n;
        assert PlaceOf(n) in PlacesOf(added);
      }
    }
  }

  /** A name is listed exactly when its code is on the key and not hidden. */
  lemma ListedName(e: Existing, codes: Codes, hidden: set<Place>, n: StoredName)
    requires Lists(e, codes, hidden)
    ensures n in e.names <==> Place.Named(n) in codes.Keys && Place.Named(n) !in hidden && !n.MoltoName?
  {
    if Place.Named(n) in codes.Keys && Place.Named(n) !in hidden {
      assert Place.Named(n) in set n' | n' in e.names :: Place.Named(n');
    }
  }
}
