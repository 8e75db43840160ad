/**
 The write loop: store a plan's codes one at a time, stop on the first error,
 and report what happened to each. A key is a state and what it answers to an
 add or a delete there; the loop is a method over any such key.
 */
module ImportRun {
  import opened Prelude
  import opened ImportModel

  datatype StoreError = AlreadyExists | Full | Failure(message: string)

  type Answer = Result<(), StoreError>

  /** What is stored under a name: the entry, and whether showing it needs a touch. */
  datatype Code = Code(entry: ImportEntry, touch: bool)

  /** Where a name is on a key: the name itself, or the slot alone on a Molto2. */
  datatype Place = Named(name: StoredName) | Slot(slot: nat)

  function PlaceOf(name: StoredName): Place {
    if name.MoltoName? then Slot(name.slot) else Named(name)
  }

  type Codes = map<Place, Code>

  /**
   A Molto2 add that failed part-way: the slot has the new code's seed, and a
   title or settings that may still be what was there.
   */
  predicate CutShort(before: Codes, after: Codes, name: StoredName, code: Code) {
    var place := PlaceOf(name);
    && name.MoltoName? && after - {place} == before - {place}
    && place in after && after[place].entry.secret == code.entry.secret
  }

  /**
   What an add may do. One that succeeds does what it says. A name is refused
   as existing only when it is there, and such a refusal, like a full key,
   changes nothing. One that fails otherwise may have been carried out or not,
   its answer being what was lost, or been cut short.
   */
  predicate AddKeeps(before: Codes, after: Codes, r: Answer, name: StoredName, code: Code) {
    var stored := before[PlaceOf(name) := code];
    && (r.Ok? ==> after == stored)
    && (r.Err? ==> after == before || (r.error.Failure? && (after == stored || CutShort(before, after, name, code))))
    && (r == Err(AlreadyExists) ==> PlaceOf(name) in before)
  }

  /** What a delete may do: one that succeeds does what it says, one that fails may have been carried out or not. */
  predicate DeleteKeeps(before: Codes, after: Codes, r: Answer, name: StoredName) {
    after == before - {PlaceOf(name)} || (r.Err? && after == before)
  }

  /** A key: how its state answers, and what codes a state holds. */
  datatype Key<!S(!new)> = Key(
    add: (S, StoredName, Code) -> (S, Answer),
    delete: (S, StoredName) -> (S, Answer),
    codes: S -> Codes)
  {
    /** The key may overwrite, refuse a name it holds, fill up, fail, or lose its answer, at any call. */
    ghost predicate Lawful() {
      && (forall s: S, name: StoredName, code: Code ::
            AddKeeps(codes(s), codes(add(s, name, code).0), add(s, name, code).1, name, code))
      && (forall s: S, name: StoredName ::
            DeleteKeeps(codes(s), codes(delete(s, name).0), delete(s, name).1, name))
    }

    /** No answer is ever lost and no call cut short: one that does not succeed changes nothing. */
    ghost predicate Honest() {
      && (forall s: S, name: StoredName, code: Code ::
            add(s, name, code).1.Err? ==> codes(add(s, name, code).0) == codes(s))
      && (forall s: S, name: StoredName :: delete(s, name).1.Err? ==> codes(delete(s, name).0) == codes(s))
    }
  }

  datatype Outcome =
    | Added
    | Replaced
    | AlreadyThere
    | RemovedNotAdded(refusal: StoreError)
    | Failed(why: Problem)
    | NoRoomLeft
    | NotTried

  datatype Problem = NoNameToStore | NoLongerInFile | KeySaid(error: StoreError)

  /** Why the run stops, and what the rows after become. */
  datatype Stop = Stop(rest: Outcome)

  datatype Call = AddCall(name: StoredName) | DeleteCall(name: StoredName)

  /** One planned write: the state and outcome, whether the run stops, and the calls made. */
  datatype Wrote<S> = Wrote(state: S, outcome: Outcome, stop: Option<Stop>, calls: seq<Call>)

  /** The entry of the first item with this index. */
  function EntryFor(file: ImportFile, index: nat): Option<ImportEntry> {
    if file == [] then None
    else if file[0].index == index then
      match file[0].entry
      case Ok(e) => Some(e)
      case Err(_) => None
    else EntryFor(file[1..], index)
  }

  function WriteOne<S(!new)>(file: ImportFile, plan: Plan, row: PlanRow, key: Key<S>, s: S): Wrote<S> {
    if row.name.None? then Wrote(s, Failed(NoNameToStore), Some(Stop(NotTried)), []) else
    var name := row.name.value;
    var entry := EntryFor(file, row.index);
    if entry.None? then Wrote(s, Failed(NoLongerInFile), Some(Stop(NotTried)), []) else
    var code := Code(entry.value, row.touch);
    var replacing := row.verdict == Replace;
    var (s1, r) := key.add(s, name, code);
    match r
    case Ok(_) => Wrote(s1, if replacing then Replaced else Added, None, [AddCall(name)])
    case Err(Full) => Wrote(s1, NoRoomLeft, Some(Stop(NoRoomLeft)), [AddCall(name)])
    case Err(Failure(m)) => Wrote(s1, Failed(KeySaid(r.error)), Some(Stop(NotTried)), [AddCall(name)])
    case Err(AlreadyExists) =>
      if plan.store == Molto2 || !(replacing || plan.replace) then Wrote(s1, AlreadyThere, None, [AddCall(name)])
      else WriteOver(name, code, key, s1)
  }

  /** The key refuses duplicates: remove the old code, then add the new one. */
  function WriteOver<S(!new)>(name: StoredName, code: Code, key: Key<S>, s: S): Wrote<S> {
    var (s1, r) := key.delete(s, name);
    if r.Err? then Wrote(s1, Failed(KeySaid(r.error)), Some(Stop(NotTried)), [AddCall(name), DeleteCall(name)]) else
    var (s2, r2) := key.add(s1, name, code);
    var calls := [AddCall(name), DeleteCall(name), AddCall(name)];
    if r2.Ok? then Wrote(s2, Replaced, None, calls)
    else Wrote(s2, RemovedNotAdded(r2.error), Some(Stop(NotTried)), calls)
  }

  datatype RunState<S> = RunState(state: S, outcomes: seq<Outcome>, stop: Option<Stop>, calls: seq<Call>)

  /** The rows of a plan that write, in order. */
  function WritesOf(rows: seq<PlanRow>): seq<PlanRow> {
    if rows == [] then [] else (if rows[0].Writes() then [rows[0]] else []) + WritesOf(rows[1..])
  }

  /** One more row: written, or what the stop makes of it. */
  function RunStep<S(!new)>(file: ImportFile, plan: Plan, row: PlanRow, key: Key<S>, rs: RunState<S>): RunState<S> {
    match rs.stop
    case Some(stop) => rs.(outcomes := rs.outcomes + [stop.rest])
    case None =>
      var w := WriteOne(file, plan, row, key, rs.state);
      RunState(w.state, rs.outcomes + [w.outcome], w.stop, rs.calls + w.calls)
  }

  /** The run over the first `n` of the rows that write. */
  function RunTo<S(!new)>(file: ImportFile, plan: Plan, rows: seq<PlanRow>, key: Key<S>, s: S, n: nat)
    : (rs: RunState<S>)
    requires n <= |rows|
    ensures |rs.outcomes| == n
    decreases n
  {
    if n == 0 then RunState(s, [], None, [])
    else RunStep(file, plan, rows[n - 1], key, RunTo(file, plan, rows, key, s, n - 1))
  }

  function Run<S(!new)>(file: ImportFile, plan: Plan, key: Key<S>, s: S): RunState<S> {
    var rows := WritesOf(plan.rows);
    RunTo(file, plan, rows, key, s, |rows|)
  }

  // ----- The loop

  /** A key in use: its state changes with every call. */
  class CodeStore<S(!new)> {
    var state: S
    var calls: seq<Call>
    const key: Key<S>

    constructor (s: S, key: Key<S>)
      ensures state == s && calls == [] && this.key == key
    {
      state, calls, this.key := s, [], key;
    }

    method Add(name: StoredName, code: Code) returns (r: Answer)
      modifies this
      ensures (state, r) == key.add(old(state), name, code)
      ensures calls == old(calls) + [AddCall(name)]
    {
      var (s, answer) := key.add(state, name, code);
      state, calls, r := s, calls + [AddCall(name)], answer;
    }

    method Delete(name: StoredName) returns (r: Answer)
      modifies this
      ensures (state, r) == key.delete(old(state), name)
      ensures calls == old(calls) + [DeleteCall(name)]
    {
      var (s, answer) := key.delete(state, name);
      state, calls, r := s, calls + [DeleteCall(name)], answer;
    }

    method WriteRow(file: ImportFile, plan: Plan, row: PlanRow) returns (outcome: Outcome, stop: Option<Stop>)
      modifies this
      ensures var w := WriteOne(file, plan, row, key, old(state));
              state == w.state && outcome == w.outcome && stop == w.stop && calls == old(calls) + w.calls
    {
      if row.name.None? {
        return Failed(NoNameToStore), Some(Stop(NotTried));
      }
      var name := row.name.value;
      var entry := EntryFor(file, row.index);
      if entry.None? {
        return Failed(NoLongerInFile), Some(Stop(NotTried));
      }
      var code := Code(entry.value, row.touch);
      var replacing := row.verdict == Replace;
      var r := Add(name, code);
      match r {
        case Ok(_) => return if replacing then Replaced else Added, None;
        case Err(Full) => return NoRoomLeft, Some(Stop(NoRoomLeft));
        case Err(Failure(m)) => return Failed(KeySaid(r.error)), Some(Stop(NotTried));
        case Err(AlreadyExists) =>
      }
      var mayReplace := plan.store != Molto2 && (replacing || plan.replace);
      if !mayReplace {
        return AlreadyThere, None;
      }
      ghost var before := old(calls);
      var deleted := Delete(name);
      if deleted.Err? {
        assert calls == before + [AddCall(name), DeleteCall(name)];
        return Failed(KeySaid(deleted.error)), Some(Stop(NotTried));
      }
      var again := Add(name, code);
      assert calls == before + [AddCall(name), DeleteCall(name), AddCall(name)];
      if again.Ok? {
        return Replaced, None;
      }
      return RemovedNotAdded(again.error), Some(Stop(NotTried));
    }

    method RunPlan(file: ImportFile, plan: Plan) returns (outcomes: seq<Outcome>, stop: Option<Stop>)
      modifies this
      ensures var rs := Run(file, plan, key, old(state));
              state == rs.state && outcomes == rs.outcomes && stop == rs.stop && calls == old(calls) + rs.calls
    {
      hide WriteOne, WritesOf;
      var writes := WritesOf(plan.rows);
      outcomes, stop := [], None;
      ghost var before, first := calls, state;
      for i := 0 to |writes|
        invariant RunState(state, outcomes, stop, RunTo(file, plan, writes, key, first, i).calls)
               == RunTo(file, plan, writes, key, first, i)
        invariant calls == before + RunTo(file, plan, writes, key, first, i).calls
      {
        var outcome;
        match stop {
          case Some(s) => outcome := s.rest;
          case None => outcome, stop := WriteRow(file, plan, writes[i]);
        }
        outcomes := outcomes + [outcome];
      }
    }
  }
}
