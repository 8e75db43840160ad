/**
 Carrying on against a key with codes it counts but does not name: it is safe
 for every key exactly when none of those codes has a name the plan writes.
 */
module HiddenLaws {
  import opened Prelude
  import opened ImportModel
  import opened ImportPlan
  import opened PlanLaws
  import opened ImportRun
  import opened RunLaws
  import opened RunPlanLaws

  /** The hidden codes no row wrote over: what was added has a name that can be read. */
  function StillHidden(hidden: set<Place>, writes: seq<PlanRow>, outcomes: seq<Outcome>): set<Place>
    requires |outcomes| == |writes|
  {
    hidden - PlacesOf(AddedRows(writes, outcomes))
  }

  function AddedRows(writes: seq<PlanRow>, outcomes: seq<Outcome>): seq<PlanRow>
    requires |outcomes| == |writes|
    decreases |writes|
  {
    if writes == [] then []
    else (if outcomes[0] == Added then [writes[0]] else []) + AddedRows(writes[1..], outcomes[1..])
  }

  /** The run added the first few rows, and planning again finds exactly the stored ones there. */
  ghost predicate CarriesOn<S(!new)>(
      file: ImportFile, t: Target, plan: Plan, key: Key<S>, s: S, later: Existing)
  {
    var rs := Run(file, plan, key, s);
    var k := CountAdded(rs.outcomes);
    var n := StoredCount(WritesOf(plan.rows), k, key.codes(rs.state));
    && (forall i :: 0 <= i < |rs.outcomes| ==> (rs.outcomes[i] == Added <==> i < k))
    && (n == k + 1 ==> rs.outcomes[k].Failed?)
    && PlanOf(file, t.(existing := later)).rows == MarkExists(PlanOf(file, t).rows, n)
    && (n == |rs.outcomes| ==>
          forall i :: 0 <= i < |file| ==> !PlanOf(file, t.(existing := later)).rows[i].Writes())
  }

  /** The key answers by the law, and both listings are of what it holds, the later one after the run. */
  ghost predicate ListedBoth<S(!new)>(
      file: ImportFile, t: Target, plan: Plan, key: Key<S>, s: S, hidden: set<Place>, later: Existing)
  {
    var rs := Run(file, plan, key, s);
    && key.Lawful() && Lists(t.existing, key.codes(s), hidden)
    && Lists(later, key.codes(rs.state), StillHidden(hidden, WritesOf(plan.rows), rs.outcomes))
  }

  /** It holds what it took, and refuses a name it holds. */
  function RefusingKey(): Key<Codes> {
    Key((s: Codes, name: StoredName, code: Code) =>
          if PlaceOf(name) in s then (s, Err(AlreadyExists)) else (s[PlaceOf(name) := code], Ok(())),
        (s: Codes, name: StoredName) => (s - {PlaceOf(name)}, Ok(())),
        (s: Codes) => s)
  }

  lemma RefusingKeyIsLawful()
    ensures RefusingKey().Lawful() && RefusingKey().Honest()
    ensures forall s: Codes :: RefusingKey().codes(s) == s
  {
  }

  // ----- A run against it

  lemma RefusingWrite(file: ImportFile, plan: Plan, row: PlanRow, s: Codes)
    requires row.name.Some? && row.verdict == Add && !plan.replace
    ensures var w, place := WriteOne(file, plan, row, RefusingKey(), s), PlaceOf(row.name.value);
            && s.Keys <= w.state.Keys <= s.Keys + {place}
            && (w.outcome == Added ==> place !in s)
            && (CodeOf(file, row).Some? ==> w.stop.None? && (place !in s ==> w.outcome == Added))
  {
    hide EntryFor;
  }

  /** It keeps what it holds, adds only rows whose place is free, and adds every such row it reaches. */
  lemma {:induction false} RefusingRun(file: ImportFile, plan: Plan, rows: seq<PlanRow>, s: Codes, n: nat)
    requires Runnable(rows) && n <= |rows| && !plan.replace
    requires forall i :: 0 <= i < |rows| ==> rows[i].verdict == Add
    ensures var rs := RunTo(file, plan, rows, RefusingKey(), s, n);
            && s.Keys <= rs.state.Keys <= s.Keys + PlacesOf(rows[..n])
            && (forall i :: 0 <= i < n && rs.outcomes[i] == Added ==> PlaceOf(rows[i].name.value) !in s)
            && ((forall i :: 0 <= i < n ==> CodeOf(file, rows[i]).Some?) ==>
                  && rs.stop.None?
                  && forall i :: 0 <= i < n && PlaceOf(rows[i].name.value) !in s ==> rs.outcomes[i] == Added)
    decreases n
  {
    hide WriteOne, RunTo, CodeOf, RefusingKey, PlacesOf;
    if n == 0 {
      NothingRun(file, plan, rows, RefusingKey(), s);
      NoPlaces();
      assert rows[..0] == [];
    } else {
      RefusingRun(file, plan, rows, s, n - 1);
      RunToLast(file, plan, rows, RefusingKey(), s, n);
      PlacesOfOneMore(rows, n - 1);
      NotAmongEarlier(rows, n - 1);
      var was := RunTo(file, plan, rows, RefusingKey(), s, n - 1);
      if was.stop.None? {
        RefusingWrite(file, plan, rows[n - 1], was.state);
      } else {
        RefusingKeyIsLawful();
        StopMeansUntouched(file, plan, rows, RefusingKey(), s, n - 1);
      }
    }
  }

  /** Places are added as many times as there are rows reported so. */
  lemma {:induction false} AddedAtLeast(outcomes: seq<Outcome>, m: nat)
    requires m <= |outcomes| && forall i :: 0 <= i < m ==> outcomes[i] == Added
    ensures CountAdded(outcomes) >= m
    decreases |outcomes|
  {
    if m > 0 {
      var last := |outcomes| - 1;
      AddedAtLeast(outcomes[..last], if m == |outcomes| then m - 1 else m);
    }
  }

  lemma {:induction false} AddedRowsAre(writes: seq<PlanRow>, outcomes: seq<Outcome>, row: PlanRow)
    requires |outcomes| == |writes| && row in AddedRows(writes, outcomes)
    ensures exists i :: 0 <= i < |writes| && writes[i] == row && outcomes[i] == Added
    decreases |writes|
  {
    if outcomes[0] == Added && row == writes[0] {
    } else {
      AddedRowsAre(writes[1..], outcomes[1..], row);
      var i :| 0 <= i < |writes[1..]| && writes[1..][i] == row && outcomes[1..][i] == Added;
      assert writes[i + 1] == row && outcomes[i + 1] == Added;
    }
  }

  // ----- A later listing

  lemma {:induction false} NamesAt(places: set<Place>) returns (names: seq<StoredName>)
    requires forall place :: place in places ==> place.Named? && !place.name.MoltoName?
    ensures |names| == |places| && places == set n | n in names :: Place.Named(n)
    ensures forall n :: n in names ==> !n.MoltoName? && Place.Named(n) in places
  {
    if places == {} {
      names := [];
    } else {
      var place :| place in places;
      var rest := NamesAt(places - {place});
      names := [place.name] + rest;
      assert (set n | n in names :: Place.Named(n)) == {place} + set n | n in rest :: Place.Named(n);
    }
  }

  /** What a key holds can be listed, when all but the hidden codes are named ones. */
  lemma CanBeListed(codes: Codes, hidden: set<Place>) returns (e: Existing)
    requires hidden <= codes.Keys
    requires forall place :: place in codes && place !in hidden ==> place.Named? && !place.name.MoltoName?
    ensures Lists(e, codes, hidden)
  {
    var named := codes.Keys - hidden;
    var names := NamesAt(named);
    e := Existing(names, |hidden|);
    assert codes.Keys == named + hidden && |codes.Keys| == |codes|;
    assert |named + hidden| == |named| + |hidden|;
  }

  // ----- The two plans

  /** Marking the first `n` adds marks the row that writes as number `m < n`. */
  lemma {:induction false} MarkedWrite(rows: seq<PlanRow>, others: seq<PlanRow>, m: nat, n: nat)
    requires |rows| == |others| && m < n && m < |WritesOf(rows)|
    requires forall i :: 0 <= i < |rows| ==> rows[i].verdict == others[i].verdict != Replace
    ensures MarkExists(others, n)[WriteAt(rows, m)].verdict == Exists
    decreases |rows|
  {
    if rows[0].Writes() {
      if m > 0 {
        MarkedWrite(rows[1..], others[1..], m - 1, n - 1);
      }
    } else {
      MarkedWrite(rows[1..], others[1..], m, n);
    }
  }

  /** A row is found there only when its name is listed. */
  lemma FoundOnlyWhenListed(file: ImportFile, t: Target, later: Existing, j: nat, name: StoredName)
    requires t.store != Molto2 && j < |file| && PlanOf(file, t).rows[j].name == Some(name)
    requires name !in later.names
    ensures PlanOf(file, t.(existing := later)).rows[j].verdict != Exists
  {
    hide PlanRows, LimitsOf, ImportPlan.Named, PassAt, PlanOf, StartsAnother, Candidates;
    var t' := t.(existing := later);
    var ask, ask', p := AskOf(t), AskOf(t'), Pass(map[], t.firstSlot);
    CandidatesAre(file, t);
    CandidatesAre(file, t');
    WritesAreCandidates(file, t, j);
    RowAt(ask, file, p, j);
    ItemOnKey(ask, PassAt(ask, file, p, j), file[j]);
    RowAt(ask', file, p, j);
    ItemOnKey(ask', PassAt(ask', file, p, j), file[j]);
    if PlanOf(file, t').rows[j].verdict == Exists {
      OnlySkipped(file, t', j);
    }
  }

  lemma OnlySkipped(file: ImportFile, t: Target, j: nat)
    requires j < |file| && PlanOf(file, t).rows[j].verdict == Exists
    ensures Candidates(file, t)[j].verdict == Exists
  {
    hide PlanRows, LimitsOf;
    if t.store != Molto2 && CapacityOf(t).Some? {
      RoomAt(Candidates(file, t), OnKey(t), CapacityOf(t).value, j);
    }
  }

  // ----- Exactly when

  /** The rows of a plan that replaces nothing: adds with names of their own, on an OATH or Token2 key. */
  lemma WritesAreAdds(file: ImportFile, t: Target, plan: Plan)
    requires t.store != Molto2 && !t.replace && SameButTouch(plan, PlanOf(file, t))
    ensures var writes := WritesOf(plan.rows);
            && Runnable(writes) && !plan.replace
            && forall m :: 0 <= m < |writes| ==>
                 && writes[m].verdict == Add && !writes[m].name.value.MoltoName?
                 && writes[m].name.value !in t.existing.names
  {
    hide PlanOf, WritesOf, Runnable;
    PlansAreRunnable(file, t, plan);
    forall m | 0 <= m < |WritesOf(plan.rows)|
      ensures var row := WritesOf(plan.rows)[m];
              row.verdict == Add && row.name.Some? && !row.name.value.MoltoName?
              && row.name.value !in t.existing.names
    {
      AddsAreNew(file, t, plan, m);
    }
    assert plan.replace == PlanOf(file, t).replace;
    PlanReplaces(file, t);
    RunnableNames(WritesOf(plan.rows));
  }

  lemma PlanReplaces(file: ImportFile, t: Target)
    ensures PlanOf(file, t).replace == t.replace
  {
  }

  lemma RunnableNames(rows: seq<PlanRow>)
    requires Runnable(rows)
    ensures forall m :: 0 <= m < |rows| ==> rows[m].name.Some?
  {
  }

  /** A name that is not listed is on the key only if it is hidden, and hidden names are not listed. */
  lemma NotListed(e: Existing, codes: Codes, hidden: set<Place>, name: StoredName)
    requires Lists(e, codes, hidden) && !name.MoltoName?
    ensures Place.Named(name) in hidden ==> name !in e.names && Place.Named(name) in codes
    ensures Place.Named(name) !in hidden && name !in e.names ==> Place.Named(name) !in codes
  {
    ListedName(e, codes, hidden, name);
  }

  /** The first row with a hidden code's name. */
  lemma FirstHidden(writes: seq<PlanRow>, hidden: set<Place>) returns (m: nat)
    requires (forall i :: 0 <= i < |writes| ==> writes[i].name.Some?) && !(hidden !! PlacesOf(writes))
    ensures m < |writes| && PlaceOf(writes[m].name.value) in hidden
    ensures forall i :: 0 <= i < m ==> PlaceOf(writes[i].name.value) !in hidden
  {
    var place :| place in hidden && place in PlacesOf(writes);
    var row :| row in writes && row.name.Some? && PlaceOf(row.name.value) == place;
    m := 0;
    while PlaceOf(writes[m].name.value) !in hidden
      invariant m < |writes| && exists i :: m <= i < |writes| && writes[i] == row
      invariant forall i :: 0 <= i < m ==> PlaceOf(writes[i].name.value) !in hidden
      decreases |writes| - m
    {
      m := m + 1;
    }
  }

  /** Where only places the key did not hold are added, no hidden code is written over. */
  lemma NoneWrittenOver(writes: seq<PlanRow>, outcomes: seq<Outcome>, codes: Codes, hidden: set<Place>)
    requires |outcomes| == |writes| && hidden <= codes.Keys
    requires forall i :: 0 <= i < |writes| && outcomes[i] == Added ==>
               writes[i].name.Some? && PlaceOf(writes[i].name.value) !in codes
    ensures StillHidden(hidden, writes, outcomes) == hidden
  {
    hide AddedRows;
    forall place | place in PlacesOf(AddedRows(writes, outcomes)) ensures place !in codes {
      var row :| row in AddedRows(writes, outcomes) && row.name.Some? && PlaceOf(row.name.value) == place;
      AddedRowsAre(writes, outcomes, row);
    }
  }

  /** A listing of the key after rows were written. */
  lemma ListAfter(t: Target, before: Codes, after: Codes, hidden: set<Place>, writes: seq<PlanRow>)
    returns (later: Existing)
    requires Lists(t.existing, before, hidden) && before.Keys <= after.Keys <= before.Keys + PlacesOf(writes)
    requires forall m :: 0 <= m < |writes| ==> writes[m].name.Some? && !writes[m].name.value.MoltoName?
    ensures Lists(later, after, hidden)
  {
    later := CanBeListed(after, hidden);
  }

  /** After a run against it, the key can be listed with the same codes hidden. */
  lemma RefusedIsListed(file: ImportFile, t: Target, plan: Plan, codes: Codes, hidden: set<Place>)
    returns (later: Existing)
    requires t.store != Molto2 && !t.replace && SameButTouch(plan, PlanOf(file, t)) && Lists(t.existing, codes, hidden)
    ensures var rs := Run(file, plan, RefusingKey(), codes);
            ListedBoth(file, t, plan, RefusingKey(), codes, hidden, later) && Lists(later, rs.state, hidden)
  {
    hide PlanOf, WritesOf, RunTo, RefusingKey, StillHidden;
    var writes, rs := WritesOf(plan.rows), Run(file, plan, RefusingKey(), codes);
    WritesAreAdds(file, t, plan);
    RefusingKeyIsLawful();
    RefusingRun(file, plan, writes, codes, |writes|);
    assert writes[..|writes|] == writes;
    NoneWrittenOver(writes, rs.outcomes, codes, hidden);
    later := ListAfter(t, codes, rs.state, hidden, writes);
  }

  /** The first row with a hidden code's name counts as stored: those before it are added, and its place is taken. */
  lemma HiddenCountsAsStored(file: ImportFile, t: Target, plan: Plan, codes: Codes, hidden: set<Place>)
    returns (m: nat)
    requires t.store != Molto2 && !t.replace && SameButTouch(plan, PlanOf(file, t)) && Lists(t.existing, codes, hidden)
    requires !(hidden !! PlacesOf(WritesOf(plan.rows)[..Reach(file, WritesOf(plan.rows))]))
    ensures var writes, rs := WritesOf(plan.rows), Run(file, plan, RefusingKey(), codes);
            && m < |writes| && writes[m].name.Some? && !writes[m].name.value.MoltoName?
            && Place.Named(writes[m].name.value) in hidden
            && m < StoredCount(writes, CountAdded(rs.outcomes), rs.state)
  {
    hide PlanOf, WritesOf, RunTo, CountAdded, RefusingKey, CodeOf, PlacesOf, Runnable;
    var writes, rs := WritesOf(plan.rows), Run(file, plan, RefusingKey(), codes);
    var reached := writes[..Reach(file, writes)];
    WritesAreAdds(file, t, plan);
    RunnableNames(writes);
    m := FirstHidden(reached, hidden);
    RefusingRun(file, plan, writes, codes, |writes|);
    RefusingRun(file, plan, writes, codes, m);
    OutcomesArePrefix(file, plan, writes, RefusingKey(), codes, m, |writes|);
    forall i | 0 <= i < m ensures rs.outcomes[i] == Added {
      assert reached[i] == writes[i];
      NotListed(t.existing, codes, hidden, writes[i].name.value);
      assert rs.outcomes[i] == rs.outcomes[..m][i];
    }
    AddedAtLeast(rs.outcomes, m);
    assert reached[m] == writes[m];
    NotListed(t.existing, codes, hidden, writes[m].name.value);
  }

  /**
   When a hidden code has the name of a row the run reaches, a key that refuses
   what it holds is one carrying on fails with: the row is counted as stored,
   and planning again does not find it.
   */
  lemma AHiddenNameBreaksIt(file: ImportFile, t: Target, plan: Plan, codes: Codes, hidden: set<Place>)
    returns (later: Existing)
    requires t.store != Molto2 && !t.replace && SameButTouch(plan, PlanOf(file, t)) && Lists(t.existing, codes, hidden)
    requires !(hidden !! PlacesOf(WritesOf(plan.rows)[..Reach(file, WritesOf(plan.rows))]))
    ensures ListedBoth(file, t, plan, RefusingKey(), codes, hidden, later)
    ensures var rs := Run(file, plan, RefusingKey(), codes);
            var n := StoredCount(WritesOf(plan.rows), CountAdded(rs.outcomes), RefusingKey().codes(rs.state));
            PlanOf(file, t.(existing := later)).rows != MarkExists(PlanOf(file, t).rows, n)
  {
    hide PlanOf, WritesOf, WriteAt, Run, CountAdded, MarkExists, RefusingKey, Reach, StoredCount, ListedBoth, Lists;
    var writes, rs := WritesOf(plan.rows), Run(file, plan, RefusingKey(), codes);
    RefusingKeyIsLawful();
    later := RefusedIsListed(file, t, plan, codes, hidden);
    var m := HiddenCountsAsStored(file, t, plan, codes, hidden);
    var n := StoredCount(writes, CountAdded(rs.outcomes), rs.state);
    PlannedRows(file, t, plan);
    NothingToReplace(file, t);
    MarkedWrite(plan.rows, PlanOf(file, t).rows, m, n);
    NotListed(later, rs.state, hidden, writes[m].name.value);
    FoundOnlyWhenListed(file, t, later, WriteAt(plan.rows, m), writes[m].name.value);
  }

  /**
   For a plan that replaces nothing: carrying on is safe with every lawful key
   and every listing it can give if and only if none of the hidden codes has the
   name of a row the run can reach, which is every row the plan writes when each
   finds its entry.
   */
  lemma SafeExactlyWhenHiddenNamesAreOthers(
      file: ImportFile, t: Target, plan: Plan, codes: Codes, hidden: set<Place>)
    requires t.store != Molto2 && !t.replace && SameButTouch(plan, PlanOf(file, t))
    requires Lists(t.existing, codes, hidden)
    ensures hidden !! PlacesOf(WritesOf(plan.rows)[..Reach(file, WritesOf(plan.rows))]) <==>
              forall key: Key<Codes>, s: Codes, later: Existing ::
                ListedBoth(file, t, plan, key, s, hidden, later) ==> CarriesOn(file, t, plan, key, s, later)
  {
    hide PlanOf, WritesOf, RunTo, StillHidden, CountAdded, MarkExists, PlacesOf, SameButTouch, Lists, StoredCount,
         Reach;
    var writes := WritesOf(plan.rows);
    var reached := writes[..Reach(file, writes)];
    if hidden !! PlacesOf(reached) {
      forall key: Key<Codes>, s: Codes, later: Existing | ListedBoth(file, t, plan, key, s, hidden, later)
        ensures CarriesOn(file, t, plan, key, s, later)
      {
        NamesApart(file, t, plan, key, s, hidden);
        CarryingOnIsSafe(file, t, plan, key, s, hidden, later);
      }
    } else {
      var later := AHiddenNameBreaksIt(file, t, plan, codes, hidden);
      assert !CarriesOn(file, t, plan, RefusingKey(), codes, later);
    }
  }

  /** Hidden codes with other names stay hidden. */
  lemma NamesApart<S(!new)>(file: ImportFile, t: Target, plan: Plan, key: Key<S>, s: S, hidden: set<Place>)
    requires key.Lawful() && SameButTouch(plan, PlanOf(file, t))
    requires hidden !! PlacesOf(WritesOf(plan.rows)[..Reach(file, WritesOf(plan.rows))])
    ensures StillHidden(hidden, WritesOf(plan.rows), Run(file, plan, key, s).outcomes) == hidden
  {
    hide AddedRows, PlanOf, WritesOf, RunTo, CodeOf;
    var writes, outcomes := WritesOf(plan.rows), Run(file, plan, key, s).outcomes;
    var reached := writes[..Reach(file, writes)];
    PlansAreRunnable(file, t, plan);
    NothingPastReach(file, plan, writes, key, s);
    forall place | place in PlacesOf(AddedRows(writes, outcomes)) ensures place in PlacesOf(reached) {
      var row :| row in AddedRows(writes, outcomes) && row.name.Some? && PlaceOf(row.name.value) == place;
      AddedRowsAre(writes, outcomes, row);
      var i :| 0 <= i < |writes| && writes[i] == row && outcomes[i] == Added;
      assert reached[i] == row;
    }
  }
}
