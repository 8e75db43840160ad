/**
 What a plan promises: distinct names, prefix safety, room, Molto2 slots, and
 that planning again after part of it was written changes nothing else.
 */
module PlanLaws {
  import opened Prelude
  import opened ImportModel
  import opened ImportPlan

  // ----- Where each row was decided

  /** What the loop carries when it reaches item `i`. */
  function PassAt(ask: Ask, items: ImportFile, p: Pass, i: nat): Pass
    requires i <= |items|
    decreases i
  {
    if i == 0 then p else PassAt(ask, items[1..], PlanItem(ask, p, items[0]).1, i - 1)
  }

  lemma {:induction false} RowAt(ask: Ask, items: ImportFile, p: Pass, i: nat)
    requires i < |items|
    ensures PlanRows(ask, items, p)[i] == PlanItem(ask, PassAt(ask, items, p, i), items[i]).0
    ensures PassAt(ask, items, p, i + 1) == PlanItem(ask, PassAt(ask, items, p, i), items[i]).1
    decreases i
  {
    hide PlanItem;
    if i > 0 {
      RowAt(ask, items[1..], PlanItem(ask, p, items[0]).1, i - 1);
    }
  }

  /** The row an item of an OATH or Token2 plan gets, and what is remembered after it. */
  lemma ItemOnKey(ask: Ask, p: Pass, item: ImportItem)
    requires ask.store != Molto2
    ensures var (row, p') := PlanItem(ask, p, item);
            match Named(ask.store, item)
            case Err(why) => row.name == None && row.verdict == Skipped(why) && p' == p
            case Ok(n) => row.name == Some(n) && row.verdict == Judge(ask, p, n)
                          && p' == Remember(p, n, item.index, Judge(ask, p, n))
  {
    hide Named, Judge;
  }

  /** Names are only ever added to what is remembered. */
  lemma {:induction false} SeenGrows(ask: Ask, items: ImportFile, p: Pass, i: nat, j: nat)
    requires ask.store != Molto2 && i <= j <= |items|
    ensures PassAt(ask, items, p, i).seen.Keys <= PassAt(ask, items, p, j).seen.Keys
    decreases j - i
  {
    hide PlanItem, Named, Judge, PassAt;
    if i < j {
      RowAt(ask, items, p, i);
      ItemOnKey(ask, PassAt(ask, items, p, i), items[i]);
      SeenGrows(ask, items, p, i + 1, j);
    }
  }

  /** A row that writes was not remembered before it, is after it, and passed the prefix rule. */
  lemma WritingRow(ask: Ask, items: ImportFile, p: Pass, i: nat)
    requires ask.store != Molto2 && i < |items| && PlanRows(ask, items, p)[i].Writes()
    ensures var row, before := PlanRows(ask, items, p)[i], PassAt(ask, items, p, i);
            && row.name.Some?
            && row.name.value !in before.seen
            && row.name.value in PassAt(ask, items, p, i + 1).seen
            && (row.verdict == Replace <==> row.name.value in ask.names)
            && !StartsAnother(ask.store, row.name.value, ask.names + before.seen.Keys)
  {
    hide PlanItem, Named, PassAt, StartsAnother;
    RowAt(ask, items, p, i);
    ItemOnKey(ask, PassAt(ask, items, p, i), items[i]);
  }

  /**
   No two rows write the same name. On firmware with the prefix issue, no row
   writes a name that starts a different name on the key or written before it.
   */
  lemma WrittenNamesAreDistinctAndSafe(ask: Ask, items: ImportFile, p: Pass, i: nat, j: nat)
    requires ask.store != Molto2 && i < j < |items|
    requires PlanRows(ask, items, p)[i].Writes() && PlanRows(ask, items, p)[j].Writes()
    ensures var first, second := PlanRows(ask, items, p)[i].name, PlanRows(ask, items, p)[j].name;
            && first.Some? && second.Some? && first != second
            && !StartsAnother(ask.store, second.value, ask.names + {first.value})
  {
    WritingRow(ask, items, p, i);
    WritingRow(ask, items, p, j);
    SeenGrows(ask, items, p, i + 1, j);
    hide PlanRows, PassAt;
  }

  /** A name refused by the prefix rule is never written later in the file. */
  lemma RefusedStaysRefused(ask: Ask, items: ImportFile, p: Pass, i: nat, j: nat)
    requires ask.store != Molto2 && i < j < |items|
    requires PlanRows(ask, items, p)[i].verdict == Skipped(StartsAnotherName)
    requires PlanRows(ask, items, p)[i].name.Some?
    requires PlanRows(ask, items, p)[j].name == PlanRows(ask, items, p)[i].name
    ensures !PlanRows(ask, items, p)[j].Writes()
  {
    var before := PassAt(ask, items, p, i);
    RowAt(ask, items, p, i);
    ItemOnKey(ask, before, items[i]);
    SeenGrows(ask, items, p, i, j);
    if PlanRows(ask, items, p)[j].Writes() {
      WritingRow(ask, items, p, j);
      hide PlanRows, PassAt, PlanItem, Named;
    }
  }

  // ----- Room

  function CountAdds(rows: seq<PlanRow>): nat {
    if rows == [] then 0 else (if rows[0].verdict == Add then 1 else 0) + CountAdds(rows[1..])
  }

  /** Room only turns adds into skips. */
  lemma {:induction false} RoomAt(rows: seq<PlanRow>, used: nat, capacity: nat, i: nat)
    requires i < |rows|
    ensures var r := Room(rows, used, capacity)[i];
            r == rows[i] || (rows[i].verdict == Add && r == rows[i].(verdict := Skipped(NoRoom(capacity))))
    decreases i
  {
    if i > 0 {
      RoomAt(rows[1..], if rows[0].verdict == Add && used < capacity then used + 1 else used, capacity, i - 1);
    }
  }

  /** As many adds stay as there are, or as there is room for. */
  lemma {:induction false} AddsThatFit(rows: seq<PlanRow>, used: nat, capacity: nat)
    ensures CountAdds(Room(rows, used, capacity)) == Min(CountAdds(rows), Max(capacity - used, 0))
    decreases |rows|
  {
    if rows != [] {
      var next := if rows[0].verdict == Add && used < capacity then used + 1 else used;
      AddsThatFit(rows[1..], next, capacity);
      assert Room(rows, used, capacity)[1..] == Room(rows[1..], next, capacity);
    }
  }

  /** Every add comes before every row there is no room for. */
  lemma {:induction false} AddsComeFirst(rows: seq<PlanRow>, used: nat, capacity: nat, i: nat, j: nat)
    requires i < j < |rows| && rows[i].verdict == Add && Room(rows, used, capacity)[i].verdict != Add
    ensures Room(rows, used, capacity)[j].verdict != Add
    decreases i
  {
    var next := if rows[0].verdict == Add && used < capacity then used + 1 else used;
    assert Room(rows, used, capacity)[1..] == Room(rows[1..], next, capacity);
    if i == 0 {
      NoRoomForAny(rows[1..], used, capacity, j - 1);
    } else {
      AddsComeFirst(rows[1..], next, capacity, i - 1, j - 1);
    }
  }

  lemma {:induction false} NoRoomForAny(rows: seq<PlanRow>, used: nat, capacity: nat, j: nat)
    requires used >= capacity && j < |rows|
    ensures Room(rows, used, capacity)[j].verdict != Add
    decreases j
  {
    assert Room(rows, used, capacity)[1..] == Room(rows[1..], used, capacity);
    if j > 0 {
      NoRoomForAny(rows[1..], used, capacity, j - 1);
    }
  }

  /**
   A key with a known capacity gets as many adds as the file has candidates,
   or as it has room for, whichever is fewer; they all come before the rows
   there is no room for; rows that are not adds are as they were.
   */
  lemma RoomIsUsedInFileOrder(file: ImportFile, t: Target)
    requires t.store != Molto2 && CapacityOf(t).Some?
    ensures var rows, planned := Candidates(file, t), PlanOf(file, t).rows;
            && |planned| == |rows|
            && CountAdds(planned) == Min(CountAdds(rows), Max(CapacityOf(t).value - OnKey(t), 0))
            && (forall i, j :: 0 <= i < j < |rows| && planned[j].verdict == Add && rows[i].verdict == Add ==>
                  planned[i].verdict == Add)
            && (forall i :: 0 <= i < |rows| ==>
                  planned[i] == if rows[i].verdict == Add && planned[i].verdict != Add
                                then rows[i].(verdict := Skipped(NoRoom(CapacityOf(t).value))) else rows[i])
  {
    hide PlanRows, Room, LimitsOf, CountAdds;
    var rows, used, capacity := Candidates(file, t), OnKey(t), CapacityOf(t).value;
    AddsThatFit(rows, used, capacity);
    forall i | 0 <= i < |rows|
      ensures Room(rows, used, capacity)[i]
           == if rows[i].verdict == Add && Room(rows, used, capacity)[i].verdict != Add
              then rows[i].(verdict := Skipped(NoRoom(capacity))) else rows[i]
    {
      RoomAt(rows, used, capacity, i);
    }
    forall i, j | 0 <= i < j < |rows| && Room(rows, used, capacity)[j].verdict == Add && rows[i].verdict == Add
      ensures Room(rows, used, capacity)[i].verdict == Add
    {
      if Room(rows, used, capacity)[i].verdict != Add {
        AddsComeFirst(rows, used, capacity, i, j);
      }
    }
  }

  // ----- Molto2 slots

  function CountWrites(rows: seq<PlanRow>): nat {
    if rows == [] then 0 else (if rows[0].Writes() then 1 else 0) + CountWrites(rows[1..])
  }

  /**
   On a Molto2 the written rows take consecutive slots from the first, none
   past the last, and replace exactly the slots in use. A row is past the last
   slot only when the slots before it are all taken; no row is anything else.
   */
  lemma {:induction false} SlotsAreConsecutive(ask: Ask, items: ImportFile, p: Pass, i: nat)
    requires ask.store == Molto2 && i < |items|
    ensures var rows := PlanRows(ask, items, p);
            var slot := p.nextSlot + CountWrites(rows[..i]);
            && (rows[i].Writes() <==> Titled(items[i]).Ok? && slot <= MOLTO_LAST_SLOT)
            && (rows[i].Writes() ==>
                  && rows[i].name == Some(MoltoName(slot, Titled(items[i]).value))
                  && (rows[i].verdict == Replace <==> SlotInUse(ask.names, slot)))
            && (!rows[i].Writes() ==>
                  rows[i].verdict == Skipped(if Titled(items[i]).Err? then Titled(items[i]).error else PastLastSlot))
    decreases i
  {
    hide Titled, SlotInUse;
    var rows := PlanRows(ask, items, p);
    PlanRowsFirst(ask, items, p);
    var (row, p') := PlanItem(ask, p, items[0]);
    hide PlanRows;
    if i > 0 {
      SlotsAreConsecutive(ask, items[1..], p', i - 1);
      assert rows[..i][1..] == PlanRows(ask, items[1..], p')[..i - 1];
      assert CountWrites(rows[..i]) == (if row.Writes() then 1 else 0) + CountWrites(rows[..i][1..]);
    }
  }

  lemma {:induction false} FewerWritesBefore(rows: seq<PlanRow>, i: nat, j: nat)
    requires i < j <= |rows| && rows[i].Writes()
    ensures CountWrites(rows[..i]) < CountWrites(rows[..j])
    decreases i
  {
    var a, b := rows[..i], rows[..j];
    assert b[1..] == rows[1..][..j - 1];
    if i > 0 {
      assert a[1..] == rows[1..][..i - 1];
      FewerWritesBefore(rows[1..], i - 1, j - 1);
    }
  }

  // ----- Every plan's rows, by where they are written

  /** Two rows that write never write to the same place. */
  lemma PlanWritesDistinctPlaces(file: ImportFile, t: Target, i: nat, j: nat)
    requires i < j < |file|
    requires PlanOf(file, t).rows[i].Writes() && PlanOf(file, t).rows[j].Writes()
    ensures var a, b := PlanOf(file, t).rows[i].name, PlanOf(file, t).rows[j].name;
            && a.Some? && b.Some? && a != b
            && a.value.MoltoName? == b.value.MoltoName? == (t.store == Molto2)
            && (t.store == Molto2 ==> a.value.slot != b.value.slot)
  {
    hide PlanRows, LimitsOf, Titled, Named, PlanItem, Judge;
    var ask, p := AskOf(t), Pass(map[], t.firstSlot);
    var rows := PlanRows(ask, file, p);
    WritesAreCandidates(file, t, i);
    WritesAreCandidates(file, t, j);
    if t.store == Molto2 {
      SlotsAreConsecutive(ask, file, p, i);
      SlotsAreConsecutive(ask, file, p, j);
      FewerWritesBefore(rows, i, j);
      hide CountWrites;
    } else {
      WrittenNamesAreDistinctAndSafe(ask, file, p, i, j);
      NamedKind(ask, file, p, i);
      NamedKind(ask, file, p, j);
    }
  }

  lemma NamedKind(ask: Ask, file: ImportFile, p: Pass, i: nat)
    requires ask.store != Molto2 && i < |file| && PlanRows(ask, file, p)[i].name.Some?
    ensures !PlanRows(ask, file, p)[i].name.value.MoltoName?
  {
    hide CheckParams, PlanRows, PassAt;
    RowAt(ask, file, p, i);
    ItemOnKey(ask, PassAt(ask, file, p, i), file[i]);
  }

  /** A row that writes is a candidate as it was, for the item at its place in the file. */
  lemma WritesAreCandidates(file: ImportFile, t: Target, i: nat)
    requires i < |file|
    ensures PlanOf(file, t).rows[i].Writes() ==> PlanOf(file, t).rows[i] == Candidates(file, t)[i]
    ensures PlanOf(file, t).rows[i].name == Candidates(file, t)[i].name
    ensures PlanOf(file, t).rows[i].index == Candidates(file, t)[i].index
  {
    hide PlanRows, LimitsOf;
    if t.store != Molto2 && CapacityOf(t).Some? {
      RoomAt(Candidates(file, t), OnKey(t), CapacityOf(t).value, i);
    }
  }

  /** A row carries its item's index; a row that writes is for an entry the file holds. */
  lemma RowIsForItsItem(file: ImportFile, t: Target, i: nat)
    requires i < |file|
    ensures PlanOf(file, t).rows[i].index == file[i].index
    ensures PlanOf(file, t).rows[i].Writes() ==> PlanOf(file, t).rows[i].name.Some? && file[i].entry.Ok?
  {
    hide PlanRows, LimitsOf, CheckParams, NameFor, MoltoTitle, Judge, PassAt, PlanOf, Candidates;
    WritesAreCandidates(file, t, i);
    var ask, p := AskOf(t), Pass(map[], t.firstSlot);
    RowAt(ask, file, p, i);
    assert Candidates(file, t) == PlanRows(ask, file, p) by { CandidatesAre(file, t); }
  }

  lemma CandidatesAre(file: ImportFile, t: Target)
    ensures Candidates(file, t) == PlanRows(AskOf(t), file, Pass(map[], t.firstSlot))
  {
    hide PlanRows;
  }

  // ----- Planning again

  /** The names of the first `k` adds. */
  function FirstAdds(rows: seq<PlanRow>, k: nat): set<StoredName>
    decreases |rows|
  {
    if rows == [] || k == 0 then {}
    else if rows[0].verdict == Add then
      (if rows[0].name.Some? then {rows[0].name.value} else {}) + FirstAdds(rows[1..], k - 1)
    else FirstAdds(rows[1..], k)
  }

  /** The same rows, with the first `k` adds already there. */
  function MarkExists(rows: seq<PlanRow>, k: nat): (r: seq<PlanRow>)
    ensures |r| == |rows|
    decreases |rows|
  {
    if rows == [] || k == 0 then rows
    else if rows[0].verdict == Add then [rows[0].(verdict := Exists)] + MarkExists(rows[1..], k - 1)
    else [rows[0]] + MarkExists(rows[1..], k)
  }

  /** A name refused now is not added by any later item. */
  lemma {:induction false} RefusedIsNotAdded(ask: Ask, items: ImportFile, p: Pass, name: StoredName, k: nat)
    requires ask.store != Molto2
    requires name in p.seen || StartsAnother(ask.store, name, ask.names + p.seen.Keys)
    ensures name !in FirstAdds(PlanRows(ask, items, p), k)
    decreases |items|
  {
    hide PlanItem, Named, StartsAnother;
    if items != [] && k > 0 {
      var (row, p') := PlanItem(ask, p, items[0]);
      ItemOnKey(ask, p, items[0]);
      if name !in p'.seen {
        MoreOthers(ask.store, name, ask.names + p.seen.Keys, ask.names + p'.seen.Keys);
      }
      RefusedIsNotAdded(ask, items[1..], p', name, k);
      RefusedIsNotAdded(ask, items[1..], p', name, k - 1);
    }
  }

  lemma MoreOthers(store: Store, name: StoredName, few: set<StoredName>, many: set<StoredName>)
    requires few <= many
    ensures StartsAnother(store, name, few) ==> StartsAnother(store, name, many)
  {
  }

  /** With added names that are remembered or about to be added, an item is judged the same or found there. */
  lemma JudgedAgain(ask: Ask, added: set<StoredName>, p: Pass, name: StoredName)
    requires !ask.replace
    requires name in added ==> name in p.seen || name in ask.names || Judge(ask, p, name) == Add
    requires Judge(ask, p, name) == Add && name !in added ==> added <= p.seen.Keys
    ensures Judge(ask.(names := ask.names + added), p, name)
         == if Judge(ask, p, name) == Add && name in added then Exists else Judge(ask, p, name)
  {
    var others, more := ask.names + p.seen.Keys, ask.names + added + p.seen.Keys;
    MoreOthers(ask.store, name, others, more);
    if added <= p.seen.Keys {
      assert more == others;
    }
    hide StartsAnother;
  }

  /**
   Planning again with the first `k` adds on the key: those rows become
   Exists, and every other row is exactly what it was.
   */
  lemma {:induction false} PlannedAgain(ask: Ask, added: set<StoredName>, items: ImportFile, p: Pass, k: nat)
    requires ask.store != Molto2 && !ask.replace
    requires FirstAdds(PlanRows(ask, items, p), k) <= added <= p.seen.Keys + FirstAdds(PlanRows(ask, items, p), k)
    ensures PlanRows(ask.(names := ask.names + added), items, p) == MarkExists(PlanRows(ask, items, p), k)
    decreases |items|
  {
    hide PlanItem, Named, Judge;
    if items != [] {
      var again := ask.(names := ask.names + added);
      var (row, p') := PlanItem(ask, p, items[0]);
      var rest := PlanRows(ask, items[1..], p');
      assert PlanRows(ask, items, p) == [row] + rest;
      ItemOnKey(ask, p, items[0]);
      ItemOnKey(again, p, items[0]);
      var k' := if row.verdict == Add && k > 0 then k - 1 else k;
      if Named(ask.store, items[0]).Ok? {
        var n := Named(ask.store, items[0]).value;
        FirstIsJudged(ask, added, items, p, k, n);
        JudgedAgain(ask, added, p, n);
      }
      IndexKept(ask, p, items[0]);
      IndexKept(again, p, items[0]);
      assert PlanItem(again, p, items[0]).1 == p';
      assert FirstAdds(rest, k') <= added <= p'.seen.Keys + FirstAdds(rest, k');
      PlannedAgain(ask, added, items[1..], p', k');
      MarkFirst(row, rest, k);
      assert PlanItem(again, p, items[0]).0 == if row.verdict == Add && k > 0 then row.(verdict := Exists) else row;
      hide PlanRows, MarkExists, FirstAdds;
      assert PlanRows(again, items, p) == [PlanItem(again, p, items[0]).0] + PlanRows(again, items[1..], p') by {
        PlanRowsFirst(again, items, p);
      }
    }
  }

  lemma MarkFirst(row: PlanRow, rest: seq<PlanRow>, k: nat)
    ensures MarkExists([row] + rest, k)
         == [if row.verdict == Add && k > 0 then row.(verdict := Exists) else row]
            + MarkExists(rest, if row.verdict == Add && k > 0 then k - 1 else k)
  {
    var rows := [row] + rest;
    assert rows[1..] == rest;
    if k == 0 {
      assert MarkExists(rest, 0) == rest;
    }
  }

  lemma IndexKept(ask: Ask, p: Pass, item: ImportItem)
    ensures PlanItem(ask, p, item).0.index == item.index && !PlanItem(ask, p, item).0.touch
  {
    hide Named, Titled, Judge;
  }

  /** What the invariant says about the item at hand. */
  lemma FirstIsJudged(ask: Ask, added: set<StoredName>, items: ImportFile, p: Pass, k: nat, n: StoredName)
    requires ask.store != Molto2 && !ask.replace && items != [] && Named(ask.store, items[0]) == Ok(n)
    requires FirstAdds(PlanRows(ask, items, p), k) <= added <= p.seen.Keys + FirstAdds(PlanRows(ask, items, p), k)
    ensures n in added ==> n in p.seen || n in ask.names || Judge(ask, p, n) == Add
    ensures Judge(ask, p, n) == Add && n !in added ==> k == 0 && added <= p.seen.Keys
    ensures Judge(ask, p, n) == Add ==> (n in added <==> k > 0)
  {
    hide Named, StartsAnother, PlanItem;
    var (row, p') := PlanItem(ask, p, items[0]);
    PlanRowsFirst(ask, items, p);
    ItemOnKey(ask, p, items[0]);
    if n in added && n !in p.seen && Judge(ask, p, n) == Skipped(StartsAnotherName) {
      RefusedIsNotAdded(ask, items, p, n, k);
    }
  }

  /** Marking the first adds and counting room can be done in either order. */
  lemma {:induction false} RoomAfterMarking(rows: seq<PlanRow>, used: nat, capacity: nat, k: nat)
    requires k <= CountAdds(Room(rows, used, capacity))
    ensures Room(MarkExists(rows, k), used + k, capacity) == MarkExists(Room(rows, used, capacity), k)
    ensures FirstAdds(Room(rows, used, capacity), k) == FirstAdds(rows, k)
    decreases |rows|
  {
    if rows == [] || k == 0 {
    } else if rows[0].verdict == Add && used >= capacity {
      AddsThatFit(rows, used, capacity);
      assert false;
    } else {
      var row, rest := rows[0], rows[1..];
      var adds := row.verdict == Add;
      var k', used' := if adds then k - 1 else k, if adds then used + 1 else used;
      var fitted := Room(rest, used', capacity);
      assert Room(rows, used, capacity) == [row] + fitted;
      assert ([row] + fitted)[1..] == fitted;
      RoomAfterMarking(rest, used', capacity, k');
      var marked := if adds then row.(verdict := Exists) else row;
      assert MarkExists(rows, k) == [marked] + MarkExists(rest, k');
      assert ([marked] + MarkExists(rest, k'))[1..] == MarkExists(rest, k');
      assert MarkExists([row] + fitted, k) == [marked] + MarkExists(fitted, k');
      assert Room([marked] + MarkExists(rest, k'), used + k, capacity)
          == [marked] + Room(MarkExists(rest, k'), used + k, capacity);
    }
  }

  /**
   Running an import again is safe. When replacing was not asked for and the
   first `k` planned adds are on the key by now, the new plan is the old one
   with exactly those rows turned to Exists; every other verdict (no room, same
   name, starts another name) is unchanged. With all of them on the key it
   writes nothing.
   */
  lemma PlanningAgainIsSafe(file: ImportFile, t: Target, later: Existing, k: nat)
    requires t.store != Molto2 && !t.replace
    requires k <= CountAdds(PlanOf(file, t).rows)
    requires (set n | n in later.names) == (set n | n in t.existing.names) + FirstAdds(PlanOf(file, t).rows, k)
    requires |later.names| + later.hidden == OnKey(t) + k
    ensures PlanOf(file, t.(existing := later)).rows == MarkExists(PlanOf(file, t).rows, k)
    ensures k == CountAdds(PlanOf(file, t).rows) ==>
              forall i :: 0 <= i < |file| ==> !PlanOf(file, t.(existing := later)).rows[i].Writes()
  {
    hide PlanRows, Room, LimitsOf, CountAdds, MarkExists, FirstAdds;
    var t' := t.(existing := later);
    var ask, p := AskOf(t), Pass(map[], t.firstSlot);
    var rows := PlanRows(ask, file, p);
    var planned := PlanOf(file, t).rows;
    var added := FirstAdds(planned, k);
    assert AskOf(t') == ask.(names := ask.names + added);
    if CapacityOf(t).Some? {
      RoomAfterMarking(rows, OnKey(t), CapacityOf(t).value, k);
    }
    PlannedAgain(ask, added, file, p, k);
    if k == CountAdds(planned) {
      NothingToReplace(file, t);
      forall i | 0 <= i < |file| ensures !MarkExists(planned, k)[i].Writes() {
        NothingLeft(planned, k, i);
      }
    }
  }

  /** Without replacing there are no replace rows on an OATH or Token2 key. */
  lemma NothingToReplace(file: ImportFile, t: Target)
    requires t.store != Molto2 && !t.replace
    ensures forall i :: 0 <= i < |file| ==> PlanOf(file, t).rows[i].verdict != Replace
  {
    hide PlanRows, LimitsOf, Named, PassAt, PlanOf, StartsAnother, Candidates;
    var ask, p := AskOf(t), Pass(map[], t.firstSlot);
    CandidatesAre(file, t);
    forall i | 0 <= i < |file| ensures PlanOf(file, t).rows[i].verdict != Replace {
      WritesAreCandidates(file, t, i);
      RowAt(ask, file, p, i);
      ItemOnKey(ask, PassAt(ask, file, p, i), file[i]);
    }
  }

  lemma {:induction false} NothingLeft(rows: seq<PlanRow>, k: nat, i: nat)
    requires k == CountAdds(rows) && i < |rows| && forall j :: 0 <= j < |rows| ==> rows[j].verdict != Replace
    ensures !MarkExists(rows, k)[i].Writes()
    decreases i
  {
    if k == 0 {
      NoAdds(rows, i);
    } else if i > 0 {
      NothingLeft(rows[1..], if rows[0].verdict == Add then k - 1 else k, i - 1);
    }
  }

  lemma {:induction false} NoAdds(rows: seq<PlanRow>, i: nat)
    requires CountAdds(rows) == 0 && i < |rows|
    ensures rows[i].verdict != Add
    decreases i
  {
    if i > 0 {
      NoAdds(rows[1..], i - 1);
    }
  }
}
