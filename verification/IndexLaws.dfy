/**
 Which entry a row stores, when items of a file may share an index; and what a
 lost answer does to what a failure says.
 */
module IndexLaws {
  import opened Prelude
  import opened ImportModel
  import opened ImportPlan
  import opened PlanLaws
  import opened ImportRun
  import opened RunLaws

  // ----- The first item with an index

  /** Item `i` is the first with its index. */
  predicate FirstWithIndex(file: ImportFile, i: int) {
    0 <= i < |file| && forall j :: 0 <= j < i ==> file[j].index != file[i].index
  }

  /** The entry found for an index is the entry of the first item with it. */
  lemma {:induction false} FoundIsFirst(file: ImportFile, index: nat, e: ImportEntry)
    ensures EntryFor(file, index) == Some(e) <==>
              exists i :: FirstWithIndex(file, i) && file[i].index == index && file[i].entry == Ok(e)
    decreases |file|
  {
    if file != [] {
      if file[0].index == index {
        assert FirstWithIndex(file, 0);
      } else {
        FoundIsFirst(file[1..], index, e);
        forall i | FirstWithIndex(file, i) && file[i].index == index ensures FirstWithIndex(file[1..], i - 1) {
          assert forall j :: 0 <= j < i - 1 ==> file[1..][j] == file[j + 1];
        }
        forall i | FirstWithIndex(file[1..], i) && file[1..][i].index == index ensures FirstWithIndex(file, i + 1) {
          assert forall j :: 0 < j < i + 1 ==> file[j] == file[1..][j - 1];
        }
        forall i | FirstWithIndex(file, i) && file[i].index == index ensures i > 0 && file[1..][i - 1] == file[i] {
        }
        if i :| FirstWithIndex(file[1..], i) && file[1..][i].index == index && file[1..][i].entry == Ok(e) {
          assert FirstWithIndex(file, i + 1) && file[i + 1].entry == Ok(e);
        }
      }
    }
  }

  // ----- A key that takes every add

  /** It holds what it took, and never refuses. */
  function PlainKey(): Key<Codes> {
    Key((s: Codes, name: StoredName, code: Code) => (s[PlaceOf(name) := code], Ok(())),
        (s: Codes, name: StoredName) => (s - {PlaceOf(name)}, Ok(())),
        (s: Codes) => s)
  }

  lemma PlainKeyIsLawful()
    ensures PlainKey().Lawful() && PlainKey().Honest()
  {
  }

  lemma PlainWrite(file: ImportFile, plan: Plan, row: PlanRow, s: Codes)
    requires row.name.Some?
    ensures var w, entry := WriteOne(file, plan, row, PlainKey(), s), EntryFor(file, row.index);
            && (entry.Some? ==> w.stop.None? && (w.outcome == Added || w.outcome == Replaced))
            && (entry.None? ==> w.stop.Some? && w.outcome.Failed? && w.state == s)
  {
    hide EntryFor;
  }

  /** While an entry is found for each row, such a run goes on and every write goes through. */
  lemma {:induction false} PlainRun(file: ImportFile, plan: Plan, rows: seq<PlanRow>, s: Codes, n: nat)
    requires n <= |rows|
    requires forall i :: 0 <= i < n ==> rows[i].name.Some? && EntryFor(file, rows[i].index).Some?
    ensures var rs := RunTo(file, plan, rows, PlainKey(), s, n);
            rs.stop.None? && forall i :: 0 <= i < n ==> rs.outcomes[i] == Added || rs.outcomes[i] == Replaced
    decreases n
  {
    hide EntryFor, WriteOne, RunTo, PlainKey;
    if n == 0 {
      NothingRun(file, plan, rows, PlainKey(), s);
    } else {
      PlainRun(file, plan, rows, s, n - 1);
      RunToLast(file, plan, rows, PlainKey(), s, n);
      PlainWrite(file, plan, rows[n - 1], RunTo(file, plan, rows, PlainKey(), s, n - 1).state);
    }
  }

  // ----- Which entry each row stores

  /** The entry of the item a row of the run is for. */
  function OwnEntryOf(file: ImportFile, plan: Plan, m: nat): Option<ImportEntry>
    requires m < |WritesOf(plan.rows)|
  {
    var i := WriteAt(plan.rows, m);
    if i < |file| && file[i].entry.Ok? then Some(file[i].entry.value) else None
  }

  /** Its own entry is under its name. */
  predicate StoresItsOwn(file: ImportFile, plan: Plan, codes: Codes, m: nat)
    requires m < |WritesOf(plan.rows)|
  {
    var row, own := WritesOf(plan.rows)[m], OwnEntryOf(file, plan, m);
    row.name.Some? && own.Some? && Holds(codes, PlaceOf(row.name.value), Some(Code(own.value, row.touch)))
  }

  /** The first item with its index holds its own entry. */
  predicate FindsItsOwn(file: ImportFile, plan: Plan, m: nat)
    requires m < |WritesOf(plan.rows)|
  {
    EntryFor(file, WritesOf(plan.rows)[m].index) == OwnEntryOf(file, plan, m)
  }

  /**
   For every file, plan and lawful key: a row reported added or replaced has its
   own entry under its name if and only if the first item with its index holds
   that entry. Distinct indexes are enough for that, and so are equal entries
   under one index.
   */
  lemma StoresItsOwnExactlyWhenFoundFirst<S(!new)>(
      file: ImportFile, t: Target, plan: Plan, key: Key<S>, s: S, m: nat)
    requires key.Lawful() && SameButTouch(plan, PlanOf(file, t)) && m < |WritesOf(plan.rows)|
    requires Run(file, plan, key, s).outcomes[m] in {Added, Replaced}
    ensures StoresItsOwn(file, plan, key.codes(Run(file, plan, key, s).state), m) <==> FindsItsOwn(file, plan, m)
  {
    hide PlanOf, WriteAt, WritesOf, EntryFor, RunTo, DistinctIndexes, Same, Gone;
    RunStoresWhatItReports(file, t, plan, false, key, s);
  }

  /** On an empty key that takes every add, every row stores its own entry if and only if it is so for every row. */
  lemma AllStoreTheirOwnExactlyWhenFoundFirst(file: ImportFile, t: Target, plan: Plan)
    requires SameButTouch(plan, PlanOf(file, t))
    ensures var stored := Run(file, plan, PlainKey(), map[]).state;
            (forall m :: 0 <= m < |WritesOf(plan.rows)| ==> StoresItsOwn(file, plan, stored, m)) <==>
            (forall m :: 0 <= m < |WritesOf(plan.rows)| ==> FindsItsOwn(file, plan, m))
  {
    hide PlanOf, WriteAt, WritesOf, EntryFor, RunTo, DistinctIndexes, Gone, PlainKey, StoresItsOwn;
    var writes, rs := WritesOf(plan.rows), Run(file, plan, PlainKey(), map[]);
    PlainKeyIsLawful();
    PlainCodes();
    RunStoresWhatItReports(file, t, plan, true, PlainKey(), map[]);
    if forall m :: 0 <= m < |writes| ==> FindsItsOwn(file, plan, m) {
      forall m | 0 <= m < |writes| ensures writes[m].name.Some? && EntryFor(file, writes[m].index).Some? {
        assert FindsItsOwn(file, plan, m);
      }
      PlainRun(file, plan, writes, map[], |writes|);
    }
    forall m | 0 <= m < |writes|
      ensures StoresItsOwn(file, plan, rs.state, m) ==> rs.outcomes[m] in {Added, Replaced}
    {
      if StoresItsOwn(file, plan, rs.state, m) {
        StoredIsThere(file, plan, rs.state, m);
      }
      assert Shows(rs.outcomes[m], true, map[], rs.state, PlaceOf(writes[m].name.value), CodeOf(file, writes[m]));
    }
    forall m | 0 <= m < |writes| && rs.outcomes[m] in {Added, Replaced}
      ensures StoresItsOwn(file, plan, rs.state, m) <==> FindsItsOwn(file, plan, m)
    {
      StoresItsOwnExactlyWhenFoundFirst(file, t, plan, PlainKey(), map[], m);
    }
  }

  lemma StoredIsThere(file: ImportFile, plan: Plan, codes: Codes, m: nat)
    requires m < |WritesOf(plan.rows)| && StoresItsOwn(file, plan, codes, m)
    ensures WritesOf(plan.rows)[m].name.Some? && PlaceOf(WritesOf(plan.rows)[m].name.value) in codes
  {
  }

  lemma PlainCodes()
    ensures forall s: Codes :: PlainKey().codes(s) == s
  {
  }

  // ----- Two items of one index

  /** A Molto2 with nothing on it. */
  const EMPTY_MOLTO2 := Target(Molto2, 0, Existing([], 0), false)

  /**
   Two items of one index, both of which a Molto2 takes: the plan writes both,
   and the run stores the first item's entry in the second item's slot, under
   the second item's title.
   */
  lemma SharedIndexStoresTheWrongEntry(first: ImportEntry, second: ImportEntry, index: nat)
    requires Titled(ImportItem(index, Ok(first))).Ok? && Titled(ImportItem(index, Ok(second))).Ok?
    ensures var a, b := ImportItem(index, Ok(first)), ImportItem(index, Ok(second));
            var plan := PlanOf([a, b], EMPTY_MOLTO2);
            && plan.rows == [PlanRow(index, Some(MoltoName(0, Titled(a).value)), Add, false),
                             PlanRow(index, Some(MoltoName(1, Titled(b).value)), Add, false)]
            && Run([a, b], plan, PlainKey(), map[]).state
               == map[Slot(0) := Code(first, false), Slot(1) := Code(first, false)]
  {
    hide Titled;
    var a, b := ImportItem(index, Ok(first)), ImportItem(index, Ok(second));
    var file := [a, b];
    var plan := PlanOf(file, EMPTY_MOLTO2);
    PlannedInOrder(a, b);
    var row0, row1 := plan.rows[0], plan.rows[1];
    assert plan.rows[1..] == [row1] && [row1][1..] == [];
    assert WritesOf([]) == [] && WritesOf([row1]) == [row1];
    assert WritesOf(plan.rows) == [row0, row1];
    hide PlanOf, WritesOf;
    assert EntryFor(file, index) == Some(first);
    var key, writes := PlainKey(), [row0, row1];
    assert RunTo(file, plan, writes, key, map[], 0).state == map[];
    var one: Codes := map[Slot(0) := Code(first, false)];
    assert RunTo(file, plan, writes, key, map[], 1).state == one;
    assert RunTo(file, plan, writes, key, map[], 2).state == one[Slot(1) := Code(first, false)];
  }

  lemma PlannedInOrder(a: ImportItem, b: ImportItem)
    requires Titled(a).Ok? && Titled(b).Ok?
    ensures PlanOf([a, b], EMPTY_MOLTO2).rows == [PlanRow(a.index, Some(MoltoName(0, Titled(a).value)), Add, false),
                                                  PlanRow(b.index, Some(MoltoName(1, Titled(b).value)), Add, false)]
  {
    hide Titled, PlanRows;
    var ask := AskOf(EMPTY_MOLTO2);
    PlanRowsFirst(ask, [a, b], Pass(map[], 0));
    PlanRowsFirst(ask, [b], Pass(map[], 1));
    assert [a, b][1..] == [b] && [b][1..] == [];
    NoItems(ask, Pass(map[], 2));
  }

  lemma NoItems(ask: Ask, p: Pass)
    ensures PlanRows(ask, [], p) == []
  {
  }

  /** Such entries exist: two accounts that differ in name and secret. */
  lemma SuchEntriesExist()
    ensures var first := ImportEntry(Some("A"), None, [1], Sha1, 6, Totp(30));
            var second := ImportEntry(Some("B"), None, [2], Sha1, 6, Totp(30));
            && first != second
            && Titled(ImportItem(0, Ok(first))) == Ok("A") && Titled(ImportItem(0, Ok(second))) == Ok("B")
  {
    OneLetter('A');
    OneLetter('B');
  }

  lemma OneLetter(c: char)
    requires c as int < 128
    ensures LongestPrefix([c], 12) == [c]
  {
    assert LongestPrefix([c][1..], 11) == [];
  }

  // ----- A lost answer

  /** A key that carries out every add and loses the answer. */
  function LosingKey(): Key<Codes> {
    Key((s: Codes, name: StoredName, code: Code) => (s[PlaceOf(name) := code], Err(Failure("no answer"))),
        (s: Codes, name: StoredName) => (s - {PlaceOf(name)}, Err(Failure("no answer"))),
        (s: Codes) => s)
  }

  /**
   On such a key a failed row's code is stored all the same: a failure leaves
   its name as it was only on a key that loses no answer.
   */
  lemma FailedButStored(file: ImportFile, plan: Plan, row: PlanRow, s: Codes)
    requires row.name.Some? && EntryFor(file, row.index).Some?
    ensures LosingKey().Lawful() && !LosingKey().Honest()
    ensures var w := WriteOne(file, plan, row, LosingKey(), s);
            w.outcome.Failed? && Holds(w.state, PlaceOf(row.name.value), CodeOf(file, row))
  {
    hide EntryFor;
    var name, code := row.name.value, CodeOf(file, row).value;
    var (after, answer) := LosingKey().add(map[], name, code);
    assert LosingKey().codes(after) == map[PlaceOf(name) := code];
    assert PlaceOf(name) in after;
  }
}
