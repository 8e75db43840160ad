/**
 What a whole run of an import does to a key that may overwrite, refuse
 duplicates, fill up or fail at any call.
 */
module RunLaws {
  import opened Prelude
  import opened ImportModel
  import opened ImportPlan
  import opened PlanLaws
  import opened ImportRun

  /** A place holds the same in both, or nothing in both. */
  predicate Same(before: Codes, after: Codes, place: Place) {
    (place in before <==> place in after) && (place in before ==> before[place] == after[place])
  }

  /** A place holds this code. */
  predicate Holds(codes: Codes, place: Place, code: Option<Code>) {
    code.Some? && place in codes && codes[place] == code.value
  }

  /** A slot holds this code's seed, whatever its title and settings. */
  predicate HoldsSeed(codes: Codes, place: Place, code: Option<Code>) {
    place.Slot? && code.Some? && place in codes && codes[place].entry.secret == code.value.entry.secret
  }

  /** Outcomes that leave open what the key holds, when an answer may have been lost. */
  predicate Uncertain(outcome: Outcome) {
    outcome.Failed? || outcome.RemovedNotAdded?
  }

  /**
   What an outcome says about a place: its own code is there, nothing is there,
   or nothing changed. When answers may be lost, a failure leaves open whether
   the call was carried out, and a Molto2 slot may have its new seed only.
   */
  predicate Shows(
      outcome: Outcome, honest: bool, before: Codes, after: Codes, place: Place, code: Option<Code>)
  {
    match outcome
    case Added => Holds(after, place, code)
    case Replaced => Holds(after, place, code)
    case RemovedNotAdded(refusal) =>
      || place !in after
      || (!honest && refusal.Failure? && (Holds(after, place, code) || HoldsSeed(after, place, code)))
    case Failed(_) =>
      || Same(before, after, place)
      || (!honest && (place !in after || Holds(after, place, code) || HoldsSeed(after, place, code)))
    case _ => Same(before, after, place)
  }

  /** The rows of a run: each has a name, and no two are written to one place. */
  predicate Runnable(rows: seq<PlanRow>) {
    && (forall i :: 0 <= i < |rows| ==> rows[i].Writes() && rows[i].name.Some?)
    && (forall i, j :: 0 <= i < j < |rows| ==> PlaceOfRow(rows[i]) != PlaceOfRow(rows[j]))
  }

  function PlaceOfRow(row: PlanRow): Option<Place> {
    if row.name.Some? then Some(PlaceOf(row.name.value)) else None
  }

  /** The code a row stores: the entry of the first item with its index, if it is one. */
  function CodeOf(file: ImportFile, row: PlanRow): Option<Code> {
    match EntryFor(file, row.index)
    case Some(entry) => Some(Code(entry, row.touch))
    case None => None
  }

  // ----- One write

  /**
   One write touches its own place only, and its outcome says what is there.
   What was there is gone only if it was asked to be deleted.
   */
  lemma WriteOneEffect<S(!new)>(file: ImportFile, plan: Plan, row: PlanRow, honest: bool, key: Key<S>, s: S)
    requires key.Lawful() && (honest ==> key.Honest()) && row.name.Some?
    ensures var w := WriteOne(file, plan, row, key, s);
            var before, after, place := key.codes(s), key.codes(w.state), PlaceOf(row.name.value);
            && Shows(w.outcome, honest, before, after, place, CodeOf(file, row))
            && (forall other :: other != place ==> Same(before, after, other))
            && (place in before && place !in after ==> DeleteCall(row.name.value) in w.calls)
            && w.outcome != NotTried
            && (w.stop.Some? <==> Uncertain(w.outcome) || w.outcome.NoRoomLeft?)
            && (w.stop.Some? ==> w.stop.value.rest == if w.outcome == NoRoomLeft then NoRoomLeft else NotTried)
            && (w.outcome == AlreadyThere ==> place in before)
  {
    hide EntryFor;
    if CodeOf(file, row).Some? {
      var name, code := row.name.value, CodeOf(file, row).value;
      var (s1, r) := key.add(s, name, code);
      AddShows(key.codes(s), key.codes(s1), r, name, code);
      if r == Err(AlreadyExists) {
        var (s2, r2) := key.delete(s1, name);
        var (s3, r3) := key.add(s2, name, code);
        DeleteShows(key.codes(s), key.codes(s2), r2, name);
        AddShows(key.codes(s2), key.codes(s3), r3, name, code);
        hide AddKeeps, DeleteKeeps;
        forall other | other != PlaceOf(name) ensures Same(key.codes(s), key.codes(s3), other) {
          assert Same(key.codes(s), key.codes(s2), other) && Same(key.codes(s2), key.codes(s3), other);
        }
        assert DeleteCall(name) in [AddCall(name), DeleteCall(name), AddCall(name)];
        assert DeleteCall(name) in [AddCall(name), DeleteCall(name)];
        hide Same, Holds, HoldsSeed;
      }
    }
  }

  /** What an add leaves at its own place and elsewhere. */
  lemma AddShows(before: Codes, after: Codes, r: Answer, name: StoredName, code: Code)
    requires AddKeeps(before, after, r, name, code)
    ensures var place := PlaceOf(name);
            && (forall other :: other != place ==> Same(before, after, other))
            && (place in before ==> place in after)
            && (r.Ok? ==> Holds(after, place, Some(code)))
            && (r.Err? && !r.error.Failure? ==> after == before)
            && (r.Err? ==> after == before || Holds(after, place, Some(code)) || HoldsSeed(after, place, Some(code)))
            && (r == Err(AlreadyExists) ==> place in before)
  {
    var place := PlaceOf(name);
    forall other | other != place ensures Same(before, after, other) {
      if CutShort(before, after, name, code) {
        assert other in after - {place} <==> other in after;
        assert other in before - {place} <==> other in before;
        assert other in after ==> (after - {place})[other] == after[other];
        assert other in before ==> (before - {place})[other] == before[other];
      }
    }
  }

  lemma DeleteShows(before: Codes, after: Codes, r: Answer, name: StoredName)
    requires DeleteKeeps(before, after, r, name)
    ensures forall other :: other != PlaceOf(name) ==> Same(before, after, other)
    ensures r.Ok? ==> PlaceOf(name) !in after
    ensures PlaceOf(name) !in after || after == before
  {
  }

  /**
   Only a name the key refused as existing is ever removed, and only when
   replacing was asked for; on a Molto2 nothing is. Every call is about the
   row's own name.
   */
  lemma DeletesOnlyAfterRefusal<S(!new)>(file: ImportFile, plan: Plan, row: PlanRow, key: Key<S>, s: S)
    requires row.name.Some?
    ensures var w := WriteOne(file, plan, row, key, s);
            var name, code := row.name.value, CodeOf(file, row);
            && (if code.Some? then 1 <= |w.calls| <= 3 && w.calls[0] == AddCall(name) else w.calls == [])
            && (forall i :: 0 <= i < |w.calls| ==> w.calls[i] == AddCall(name) || w.calls[i] == DeleteCall(name))
            && (DeleteCall(name) in w.calls <==>
                  && code.Some? && key.add(s, name, code.value).1 == Err(AlreadyExists)
                  && plan.store != Molto2 && (row.verdict == Replace || plan.replace))
            && (w.outcome.RemovedNotAdded? ==> w.calls == [AddCall(name), DeleteCall(name), AddCall(name)])
            && (w.outcome.Failed? && DeleteCall(name) in w.calls ==> w.calls == [AddCall(name), DeleteCall(name)])
  {
    hide EntryFor;
    if CodeOf(file, row).Some? {
      var (s1, r) := key.add(s, row.name.value, CodeOf(file, row).value);
    }
  }

  // ----- A whole run

  lemma RunToLast<S(!new)>(file: ImportFile, plan: Plan, rows: seq<PlanRow>, key: Key<S>, s: S, n: nat)
    requires 0 < n <= |rows|
    ensures RunTo(file, plan, rows, key, s, n)
         == RunStep(file, plan, rows[n - 1], key, RunTo(file, plan, rows, key, s, n - 1))
  {
    hide RunStep;
  }

  lemma ShowsOn(
      outcome: Outcome, honest: bool, before: Codes, middle: Codes, after: Codes, place: Place, code: Option<Code>)
    ensures Shows(outcome, honest, before, middle, place, code) && Same(middle, after, place) ==>
              Shows(outcome, honest, before, after, place, code)
    ensures Same(before, middle, place) && Shows(outcome, honest, middle, after, place, code) ==>
              Shows(outcome, honest, before, after, place, code)
    ensures Same(before, middle, place) && Same(middle, after, place) ==> Same(before, after, place)
  {
  }

  /** What a run over the first `n` rows did, place by place. */
  lemma {:induction false} RunToEffect<S(!new)>(
      file: ImportFile, plan: Plan, rows: seq<PlanRow>, honest: bool, key: Key<S>, s: S, n: nat)
    requires key.Lawful() && (honest ==> key.Honest()) && Runnable(rows) && n <= |rows|
    ensures var rs := RunTo(file, plan, rows, key, s, n);
            && (forall i :: 0 <= i < n ==>
                  Shows(rs.outcomes[i], honest, key.codes(s), key.codes(rs.state), PlaceOf(rows[i].name.value),
                        CodeOf(file, rows[i])))
            && (forall i :: 0 <= i < n && Gone(key.codes(s), key.codes(rs.state), PlaceOf(rows[i].name.value)) ==>
                  DeleteCall(rows[i].name.value) in rs.calls)
            && (forall place :: (forall i :: 0 <= i < n ==> PlaceOfRow(rows[i]) != Some(place)) ==>
                  Same(key.codes(s), key.codes(rs.state), place))
    decreases n
  {
    hide EntryFor, WriteOne, Shows, CodeOf, RunTo, Same, Gone;
    if n == 0 {
      NothingRun(file, plan, rows, key, s);
    } else {
      var was, row := RunTo(file, plan, rows, key, s, n - 1), rows[n - 1];
      RunToEffect(file, plan, rows, honest, key, s, n - 1);
      RunToLast(file, plan, rows, key, s, n);
      var rs := RunTo(file, plan, rows, key, s, n);
      var before, middle, after := key.codes(s), key.codes(was.state), key.codes(rs.state);
      if was.stop.None? {
        WriteOneEffect(file, plan, row, honest, key, was.state);
        GoneIs(middle, after, PlaceOf(row.name.value));
      } else {
        StopMeansUntouched(file, plan, rows, key, s, n - 1);
        SameAsItself(was.stop.value.rest, honest, middle, CodeOf(file, row));
        GoneIs(middle, after, PlaceOf(row.name.value));
      }
      forall i | 0 <= i < n
        ensures Shows(rs.outcomes[i], honest, before, after, PlaceOf(rows[i].name.value), CodeOf(file, rows[i]))
        ensures Gone(before, after, PlaceOf(rows[i].name.value)) ==> DeleteCall(rows[i].name.value) in rs.calls
      {
        var place := PlaceOf(rows[i].name.value);
        assert i < n - 1 ==> PlaceOfRow(rows[i]) != PlaceOfRow(row);
        ShowsOn(rs.outcomes[i], honest, before, middle, after, place, CodeOf(file, rows[i]));
        GoneOn(before, middle, after, place);
        if i < n - 1 {
          assert Same(middle, after, place);
          assert forall call :: call in was.calls ==> call in rs.calls;
        } else {
          assert Same(before, middle, place);
          assert was.stop.None? ==>
              forall call :: call in WriteOne(file, plan, row, key, was.state).calls ==> call in rs.calls;
        }
      }
      forall place | forall i :: 0 <= i < n ==> PlaceOfRow(rows[i]) != Some(place)
        ensures Same(before, after, place)
      {
        assert PlaceOfRow(row) != Some(place);
        ShowsOn(NotTried, honest, before, middle, after, place, CodeOf(file, row));
      }
    }
  }

  /** What was at a place is not there any more. */
  predicate Gone(before: Codes, after: Codes, place: Place) {
    place in before && place !in after
  }

  lemma GoneIs(before: Codes, after: Codes, place: Place)
    ensures Gone(before, after, place) <==> place in before && place !in after
    ensures Same(before, after, place) ==> !Gone(before, after, place)
  {
  }

  lemma GoneOn(before: Codes, middle: Codes, after: Codes, place: Place)
    ensures Same(before, middle, place) ==> (Gone(before, after, place) <==> Gone(middle, after, place))
    ensures Same(middle, after, place) ==> (Gone(before, after, place) <==> Gone(before, middle, place))
  {
  }

  lemma NothingRun<S(!new)>(file: ImportFile, plan: Plan, rows: seq<PlanRow>, key: Key<S>, s: S)
    ensures RunTo(file, plan, rows, key, s, 0) == RunState(s, [], None, [])
    ensures forall place :: Same(key.codes(s), key.codes(s), place)
  {
  }

  lemma SameAsItself(rest: Outcome, honest: bool, codes: Codes, code: Option<Code>)
    requires rest in {NotTried, NoRoomLeft}
    ensures forall place :: Same(codes, codes, place) && Shows(rest, honest, codes, codes, place, code)
  {
  }

  /** What a stop makes of later rows says that nothing happened to them. */
  lemma {:induction false} StopMeansUntouched<S(!new)>(
      file: ImportFile, plan: Plan, rows: seq<PlanRow>, key: Key<S>, s: S, n: nat)
    requires key.Lawful() && Runnable(rows) && n <= |rows|
    ensures var rs := RunTo(file, plan, rows, key, s, n);
            rs.stop.Some? ==> rs.stop.value.rest in {NotTried, NoRoomLeft}
    decreases n
  {
    hide EntryFor, WriteOne;
    if n > 0 {
      var was := RunTo(file, plan, rows, key, s, n - 1);
      StopMeansUntouched(file, plan, rows, key, s, n - 1);
      if was.stop.None? {
        WriteOneEffect(file, plan, rows[n - 1], false, key, was.state);
      }
    }
  }

  /** Once something stops the run, every later row gets the stop's outcome, and no call is made. */
  lemma {:induction false} NothingAfterStop<S(!new)>(
      file: ImportFile, plan: Plan, rows: seq<PlanRow>, key: Key<S>, s: S, m: nat, n: nat)
    requires m <= n <= |rows| && RunTo(file, plan, rows, key, s, m).stop.Some?
    ensures var first, last := RunTo(file, plan, rows, key, s, m), RunTo(file, plan, rows, key, s, n);
            && last.state == first.state && last.stop == first.stop && last.calls == first.calls
            && last.outcomes[..m] == first.outcomes
            && forall j :: m <= j < n ==> last.outcomes[j] == first.stop.value.rest
    decreases n - m
  {
    hide WriteOne;
    if m < n {
      NothingAfterStop(file, plan, rows, key, s, m, n - 1);
    }
  }

  lemma {:induction false} OutcomesArePrefix<S(!new)>(
      file: ImportFile, plan: Plan, rows: seq<PlanRow>, key: Key<S>, s: S, m: nat, n: nat)
    requires m <= n <= |rows|
    ensures RunTo(file, plan, rows, key, s, n).outcomes[..m] == RunTo(file, plan, rows, key, s, m).outcomes
    decreases n - m
  {
    hide WriteOne;
    if m < n {
      OutcomesArePrefix(file, plan, rows, key, s, m, n - 1);
    }
  }

  /**
   A run stops at its first failure: the rows before went through, the rows
   after were not tried (or had no room, when the key was full), and after the
   failing row's own calls there are none.
   */
  lemma StopsAtFirstFailure<S(!new)>(file: ImportFile, plan: Plan, rows: seq<PlanRow>, key: Key<S>, s: S, i: nat)
    requires key.Lawful() && Runnable(rows) && i < |rows|
    requires RunTo(file, plan, rows, key, s, i).stop.None?
    ensures var rs := RunTo(file, plan, rows, key, s, |rows|);
            var here := WriteOne(file, plan, rows[i], key, RunTo(file, plan, rows, key, s, i).state);
            && rs.outcomes[i] == here.outcome
            && (here.stop.Some? ==>
                  && rs.state == here.state
                  && rs.calls == RunTo(file, plan, rows, key, s, i).calls + here.calls
                  && forall j :: i < j < |rows| ==>
                       rs.outcomes[j] == if here.outcome == NoRoomLeft then NoRoomLeft else NotTried)
  {
    hide EntryFor, WriteOne;
    var was := RunTo(file, plan, rows, key, s, i);
    var now := RunTo(file, plan, rows, key, s, i + 1);
    OutcomesArePrefix(file, plan, rows, key, s, i + 1, |rows|);
    assert RunTo(file, plan, rows, key, s, |rows|).outcomes[i] == now.outcomes[i];
    WriteOneEffect(file, plan, rows[i], false, key, was.state);
    if now.stop.Some? {
      NothingAfterStop(file, plan, rows, key, s, i + 1, |rows|);
    }
  }

  /** The run was still going before any row that is not what a stop leaves. */
  lemma {:induction false} GoingBefore<S(!new)>(
      file: ImportFile, plan: Plan, rows: seq<PlanRow>, key: Key<S>, s: S, i: nat, n: nat)
    requires key.Lawful() && Runnable(rows) && i < n <= |rows|
    requires RunTo(file, plan, rows, key, s, n).outcomes[i] !in {NotTried, NoRoomLeft}
    ensures RunTo(file, plan, rows, key, s, i).stop.None?
  {
    if RunTo(file, plan, rows, key, s, i).stop.Some? {
      NothingAfterStop(file, plan, rows, key, s, i, n);
      StopMeansUntouched(file, plan, rows, key, s, i);
    }
  }

  /**
   Only the row that stopped the run can be uncertain. The rows before it went
   through, the rows after it were not tried, and nothing happened after it.
   */
  lemma OnlyTheStoppingRowIsUncertain<S(!new)>(
      file: ImportFile, plan: Plan, rows: seq<PlanRow>, key: Key<S>, s: S, i: nat)
    requires key.Lawful() && Runnable(rows) && i < |rows|
    requires Uncertain(RunTo(file, plan, rows, key, s, |rows|).outcomes[i])
    ensures var rs, was := RunTo(file, plan, rows, key, s, |rows|), RunTo(file, plan, rows, key, s, i);
            var here := WriteOne(file, plan, rows[i], key, was.state);
            && (forall j :: 0 <= j < i ==> rs.outcomes[j] in {Added, Replaced, AlreadyThere})
            && (forall j :: i < j < |rows| ==> rs.outcomes[j] == NotTried)
            && was.stop.None? && rs.outcomes[i] == here.outcome
            && rs.state == here.state && rs.calls == was.calls + here.calls
  {
    hide EntryFor, WriteOne;
    GoingBefore(file, plan, rows, key, s, i, |rows|);
    StopsAtFirstFailure(file, plan, rows, key, s, i);
    WriteOneEffect(file, plan, rows[i], false, key, RunTo(file, plan, rows, key, s, i).state);
    forall j | 0 <= j < i
      ensures RunTo(file, plan, rows, key, s, |rows|).outcomes[j] in {Added, Replaced, AlreadyThere}
    {
      WentThrough(file, plan, rows, key, s, j, i);
    }
  }

  /** A row before one the run reached went through. */
  lemma WentThrough<S(!new)>(
      file: ImportFile, plan: Plan, rows: seq<PlanRow>, key: Key<S>, s: S, j: nat, i: nat)
    requires key.Lawful() && Runnable(rows) && j < i < |rows| && RunTo(file, plan, rows, key, s, i).stop.None?
    ensures RunTo(file, plan, rows, key, s, |rows|).outcomes[j] in {Added, Replaced, AlreadyThere}
  {
    hide EntryFor, WriteOne;
    if RunTo(file, plan, rows, key, s, j).stop.Some? {
      NothingAfterStop(file, plan, rows, key, s, j, i);
    }
    if RunTo(file, plan, rows, key, s, j + 1).stop.Some? {
      NothingAfterStop(file, plan, rows, key, s, j + 1, i);
    }
    StopsAtFirstFailure(file, plan, rows, key, s, j);
    WriteOneEffect(file, plan, rows[j], false, key, RunTo(file, plan, rows, key, s, j).state);
  }

  /**
   At most one name is ever lost, whatever the key answers and whatever answers
   are lost. It is the name of the row that stopped the run, reported removed
   and not added, or failed where deleting it was the last call; its deletion
   was asked for; every later row was not tried; and the row's own calls are
   the last of the run.
   */
  lemma AtMostOneNameIsLost<S(!new)>(
      file: ImportFile, plan: Plan, rows: seq<PlanRow>, key: Key<S>, s: S, place: Place)
    returns (i: nat)
    requires key.Lawful() && Runnable(rows)
    requires Gone(key.codes(s), key.codes(RunTo(file, plan, rows, key, s, |rows|).state), place)
    ensures var rs := RunTo(file, plan, rows, key, s, |rows|);
            && i < |rows| && PlaceOfRow(rows[i]) == Some(place)
            && var name := rows[i].name.value;
               && (forall other :: Gone(key.codes(s), key.codes(rs.state), other) ==> other == place)
               && (forall j :: i < j < |rows| ==> rs.outcomes[j] == NotTried)
               && (exists k :: 0 <= k < |rs.calls| &&
                     if rs.outcomes[i].RemovedNotAdded?
                     then rs.calls[k..] == [AddCall(name), DeleteCall(name), AddCall(name)]
                     else rs.outcomes[i].Failed? && rs.calls[k..] == [AddCall(name), DeleteCall(name)])
  {
    hide EntryFor, WriteOne, Same, Shows, RunTo, CodeOf, Runnable;
    var rs := RunTo(file, plan, rows, key, s, |rows|);
    i := LostRow(file, plan, rows, key, s, place);
    OnlyTheStoppingRowIsUncertain(file, plan, rows, key, s, i);
    var was := RunTo(file, plan, rows, key, s, i);
    forall other | Gone(key.codes(s), key.codes(rs.state), other) ensures other == place {
      var j := LostRow(file, plan, rows, key, s, other);
      OnlyTheStoppingRowIsUncertain(file, plan, rows, key, s, j);
    }
    LostByDeleting(file, plan, rows, key, s, i);
    assert rs.calls[|was.calls|..] == WriteOne(file, plan, rows[i], key, was.state).calls;
  }

  /** A lost place is the place of an uncertain row. */
  lemma LostRow<S(!new)>(file: ImportFile, plan: Plan, rows: seq<PlanRow>, key: Key<S>, s: S, place: Place)
    returns (i: nat)
    requires key.Lawful() && Runnable(rows)
    requires Gone(key.codes(s), key.codes(RunTo(file, plan, rows, key, s, |rows|).state), place)
    ensures i < |rows| && PlaceOfRow(rows[i]) == Some(place)
    ensures Uncertain(RunTo(file, plan, rows, key, s, |rows|).outcomes[i])
  {
    hide EntryFor, WriteOne, RunTo, CodeOf;
    var rs := RunTo(file, plan, rows, key, s, |rows|);
    RunToEffect(file, plan, rows, false, key, s, |rows|);
    GoneIs(key.codes(s), key.codes(rs.state), place);
    i :| 0 <= i < |rows| && PlaceOfRow(rows[i]) == Some(place);
    assert Shows(rs.outcomes[i], false, key.codes(s), key.codes(rs.state), place, CodeOf(file, rows[i]));
  }

  /** The row that lost its name asked for its deletion. */
  lemma LostByDeleting<S(!new)>(file: ImportFile, plan: Plan, rows: seq<PlanRow>, key: Key<S>, s: S, i: nat)
    requires key.Lawful() && Runnable(rows) && i < |rows|
    requires Uncertain(RunTo(file, plan, rows, key, s, |rows|).outcomes[i])
    requires Gone(key.codes(s), key.codes(RunTo(file, plan, rows, key, s, |rows|).state), PlaceOf(rows[i].name.value))
    ensures var rs, name := RunTo(file, plan, rows, key, s, |rows|), rows[i].name.value;
            var here := WriteOne(file, plan, rows[i], key, RunTo(file, plan, rows, key, s, i).state);
            if rs.outcomes[i].RemovedNotAdded? then here.calls == [AddCall(name), DeleteCall(name), AddCall(name)]
            else rs.outcomes[i].Failed? && here.calls == [AddCall(name), DeleteCall(name)]
  {
    hide EntryFor, WriteOne, RunTo, Shows, CodeOf;
    var was := RunTo(file, plan, rows, key, s, i);
    OnlyTheStoppingRowIsUncertain(file, plan, rows, key, s, i);
    RunToEffect(file, plan, rows, false, key, s, i);
    assert Same(key.codes(s), key.codes(was.state), PlaceOf(rows[i].name.value));
    WriteOneEffect(file, plan, rows[i], false, key, was.state);
    DeletesOnlyAfterRefusal(file, plan, rows[i], key, was.state);
  }

  // ----- The rows of a plan can be run

  /** The position in the plan of the row that writes as number `m`. */
  function WriteAt(rows: seq<PlanRow>, m: nat): (i: nat)
    requires m < |WritesOf(rows)|
    ensures i < |rows| && rows[i] == WritesOf(rows)[m] && rows[i].Writes()
  {
    if rows[0].Writes() then if m == 0 then 0 else 1 + WriteAt(rows[1..], m - 1)
    else 1 + WriteAt(rows[1..], m)
  }

  lemma {:induction false} WriteAtIncreases(rows: seq<PlanRow>, m: nat, n: nat)
    requires m < n < |WritesOf(rows)|
    ensures WriteAt(rows, m) < WriteAt(rows, n)
  {
    if rows[0].Writes() {
      if m > 0 {
        WriteAtIncreases(rows[1..], m - 1, n - 1);
      }
    } else {
      WriteAtIncreases(rows[1..], m, n);
    }
  }

  predicate DistinctIndexes(file: ImportFile) {
    forall i, j :: 0 <= i < j < |file| ==> file[i].index != file[j].index
  }

  lemma {:induction false} OwnEntry(file: ImportFile, i: nat)
    requires DistinctIndexes(file) && i < |file| && file[i].entry.Ok?
    ensures EntryFor(file, file[i].index) == Some(file[i].entry.value)
    decreases |file|
  {
    if i > 0 {
      OwnEntry(file[1..], i - 1);
    }
  }

  /** The same plan but for what requires a touch. */
  predicate SameButTouch(plan: Plan, other: Plan) {
    && plan.store == other.store && plan.replace == other.replace && |plan.rows| == |other.rows|
    && forall i :: 0 <= i < |plan.rows| ==>
         && plan.rows[i].index == other.rows[i].index && plan.rows[i].name == other.rows[i].name
         && plan.rows[i].verdict == other.rows[i].verdict
  }

  /** A row of a plan that writes has a name, and its item an entry; with distinct indexes the run finds that entry. */
  lemma WritingRowOf(file: ImportFile, t: Target, plan: Plan, m: nat)
    requires SameButTouch(plan, PlanOf(file, t)) && m < |WritesOf(plan.rows)|
    ensures var i, row := WriteAt(plan.rows, m), WritesOf(plan.rows)[m];
            && i < |file| && row.Writes() && row.name.Some? && file[i].entry.Ok? && row.index == file[i].index
            && (DistinctIndexes(file) ==> CodeOf(file, row) == Some(Code(file[i].entry.value, row.touch)))
  {
    hide PlanOf, EntryFor, WriteAt, WritesOf, DistinctIndexes;
    var i := WriteAt(plan.rows, m);
    RowIsForItsItem(file, t, i);
    if DistinctIndexes(file) {
      OwnEntry(file, i);
    }
  }

  /** Whatever is planned can be run: every row that writes has a name and a place of its own. */
  lemma PlansAreRunnable(file: ImportFile, t: Target, plan: Plan)
    requires SameButTouch(plan, PlanOf(file, t))
    ensures Runnable(WritesOf(plan.rows))
  {
    hide PlanOf, EntryFor, WriteAt, WritesOf, DistinctIndexes, CodeOf;
    var rows := plan.rows;
    var writes := WritesOf(rows);
    forall m | 0 <= m < |writes| ensures writes[m].Writes() && writes[m].name.Some? {
      WritingRowOf(file, t, plan, m);
    }
    forall m, n | 0 <= m < n < |writes| ensures PlaceOfRow(writes[m]) != PlaceOfRow(writes[n]) {
      WriteAtIncreases(rows, m, n);
      PlanWritesDistinctPlaces(file, t, WriteAt(rows, m), WriteAt(rows, n));
    }
  }

  /**
   End to end: run the plan made for any file against any lawful key. Each row
   reported added or replaced ends with the entry of the first item with its
   index under its name, which is its own item's when indexes are distinct; a
   row already there, without room or not tried leaves its name as it was;
   every name the plan does not write is as it was; and a name is gone only if
   its deletion was asked for. Only a failure leaves open whether its call was
   carried out, and on a key that loses no answer not even that: a failed row
   then leaves its name as it was, and a row removed and not added ends with
   nothing there.
   */
  lemma RunStoresWhatItReports<S(!new)>(
      file: ImportFile, t: Target, plan: Plan, honest: bool, key: Key<S>, s: S)
    requires key.Lawful() && (honest ==> key.Honest())
    requires SameButTouch(plan, PlanOf(file, t))
    ensures var writes, rs := WritesOf(plan.rows), Run(file, plan, key, s);
            && |rs.outcomes| == |writes|
            && (forall m :: 0 <= m < |writes| ==>
                  var i := WriteAt(plan.rows, m);
                  && writes[m].name.Some? && i < |file| && file[i].entry.Ok?
                  && Shows(rs.outcomes[m], honest, key.codes(s), key.codes(rs.state), PlaceOf(writes[m].name.value),
                           CodeOf(file, writes[m]))
                  && (DistinctIndexes(file) ==>
                        CodeOf(file, writes[m]) == Some(Code(file[i].entry.value, writes[m].touch)))
                  && (Gone(key.codes(s), key.codes(rs.state), PlaceOf(writes[m].name.value)) ==>
                        DeleteCall(writes[m].name.value) in rs.calls))
            && (forall place :: (forall m :: 0 <= m < |writes| ==> PlaceOfRow(writes[m]) != Some(place)) ==>
                  Same(key.codes(s), key.codes(rs.state), place))
  {
    hide PlanOf, EntryFor, WriteAt, WritesOf, DistinctIndexes, Shows, RunTo, Runnable, Same, Gone, CodeOf;
    PlansAreRunnable(file, t, plan);
    var writes, rs := WritesOf(plan.rows), Run(file, plan, key, s);
    RunToEffect(file, plan, writes, honest, key, s, |writes|);
    forall m | 0 <= m < |writes|
      ensures var i := WriteAt(plan.rows, m);
              && writes[m].name.Some? && i < |file| && file[i].entry.Ok?
              && Shows(rs.outcomes[m], honest, key.codes(s), key.codes(rs.state), PlaceOf(writes[m].name.value),
                       CodeOf(file, writes[m]))
              && (DistinctIndexes(file) ==>
                    CodeOf(file, writes[m]) == Some(Code(file[i].entry.value, writes[m].touch)))
              && (Gone(key.codes(s), key.codes(rs.state), PlaceOf(writes[m].name.value)) ==>
                    DeleteCall(writes[m].name.value) in rs.calls)
    {
      WritingRowOf(file, t, plan, m);
    }
    forall place | forall m :: 0 <= m < |writes| ==> PlaceOfRow(writes[m]) != Some(place)
      ensures Same(key.codes(s), key.codes(rs.state), place)
    {
      assert Same(key.codes(s), key.codes(RunTo(file, plan, writes, key, s, |writes|).state), place);
    }
  }

  /**
   Asking for a touch on some rows, for a file of distinct indexes: each row
   added or replaced ends with its item's entry, showing its codes on a touch
   exactly when that was asked for and the key is not a Molto2.
   */
  lemma TouchIsStoredAsAsked<S(!new)>(file: ImportFile, t: Target, wants: PlanRow -> bool, key: Key<S>, s: S, m: nat)
    requires key.Lawful() && DistinctIndexes(file)
    requires m < |WritesOf(SetTouch(PlanOf(file, t), wants).rows)|
    ensures var plan := SetTouch(PlanOf(file, t), wants);
            var i, row, rs := WriteAt(plan.rows, m), WritesOf(plan.rows)[m], Run(file, plan, key, s);
            && i < |file| && file[i].entry.Ok? && row.name.Some?
            && row.(touch := PlanOf(file, t).rows[i].touch) == PlanOf(file, t).rows[i]
            && (rs.outcomes[m] in {Added, Replaced} ==>
                  Holds(key.codes(rs.state), PlaceOf(row.name.value),
                        Some(Code(file[i].entry.value, t.store != Molto2 && wants(PlanOf(file, t).rows[i])))))
  {
    hide EntryFor, WriteAt, WritesOf, DistinctIndexes, RunTo, Same, Gone, Holds, CodeOf, PlanRows, LimitsOf;
    var plan := SetTouch(PlanOf(file, t), wants);
    RunStoresWhatItReports(file, t, plan, false, key, s);
  }
}
