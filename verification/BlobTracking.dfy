/**
 Following each element of an array through any sequence of edits: an element
 is there at the end, the same and in its place among the others, exactly when
 no edit named it.
 */
module BlobTracking {
  import opened Prelude
  import opened Bytes
  import opened Ctap
  import opened DeviceLabel
  import opened LargeBlobs
  import opened LargeBlobLaws

  /** An item and the number it had in the array the edits began with; none for one an edit put there. */
  datatype Tracked = Tracked(item: Item, origin: Option<nat>)

  function ItemsIn(ts: seq<Tracked>): (items: seq<Item>)
    ensures |items| == |ts|
    ensures forall i :: 0 <= i < |ts| ==> items[i] == ts[i].item
  {
    seq(|ts|, i requires 0 <= i < |ts| => ts[i].item)
  }

  /** Every item of an array, with its own number. */
  function Start(items: seq<Item>): (ts: seq<Tracked>)
    ensures |ts| == |items|
    ensures forall i :: 0 <= i < |items| ==> ts[i] == Tracked(items[i], Some(i))
  {
    seq(|items|, i requires 0 <= i < |items| => Tracked(items[i], Some(i)))
  }

  // ----- What an edit names, and what it leaves

  /** The edit names the item at `pos`: to replace it, to remove it, or as one of those it clears. */
  predicate Names(c: Crypto, items: seq<Item>, e: Edit, pos: int) {
    0 <= pos < |items| &&
    match e
    case AddNote(_) => false
    case ReplaceNote(idx, _) => ItemIndex(items, idx) == Some(pos)
    case RemoveEntry(idx) => ItemIndex(items, idx) == Some(pos)
    case SetLabel(_, _) => IsLabelItem(c, items[pos])
    case KeepOnlyLabel => !IsLabelItem(c, items[pos])
  }

  function KeptOf(c: Crypto, ts: seq<Tracked>, wanted: bool): seq<Tracked> {
    if ts == [] then []
    else (if IsLabelItem(c, ts[0].item) == wanted then [ts[0]] else []) + KeptOf(c, ts[1..], wanted)
  }

  /** What each edit makes of the items, followed. */
  function Follow(c: Crypto, ts: seq<Tracked>, e: Edit): seq<Tracked> {
    var items := ItemsIn(ts);
    match e
    case AddNote(text) => ts + [Tracked(Entry(FromText(text)), None)]
    case ReplaceNote(idx, text) =>
      (match ItemIndex(items, idx)
       case Some(pos) => ts[pos := Tracked(Entry(FromText(text)), None)]
       case None => ts)
    case RemoveEntry(idx) =>
      (match ItemIndex(items, idx)
       case Some(pos) => ts[..pos] + ts[pos + 1..]
       case None => ts)
    case SetLabel(name, nonce) =>
      KeptOf(c, ts, false)
      + (if name.Some? && EncodeEntry(c, name.value, nonce).Ok?
         then [Tracked(Entry(EncodeEntry(c, name.value, nonce).value), None)] else [])
    case KeepOnlyLabel => KeptOf(c, ts, true)
  }

  function FollowAll(c: Crypto, ts: seq<Tracked>, edits: seq<Edit>): seq<Tracked>
    decreases |edits|
  {
    if edits == [] then ts else FollowAll(c, Follow(c, ts, edits[0]), edits[1..])
  }

  /** Some edit of the sequence names the element that began as number `k`. */
  predicate EverNamed(c: Crypto, ts: seq<Tracked>, edits: seq<Edit>, k: nat)
    decreases |edits|
  {
    edits != [] &&
    (NamedNow(c, ts, edits[0], k) || EverNamed(c, Follow(c, ts, edits[0]), edits[1..], k))
  }

  predicate NamedNow(c: Crypto, ts: seq<Tracked>, e: Edit, k: nat) {
    exists pos :: 0 <= pos < |ts| && ts[pos].origin == Some(k) && Names(c, ItemsIn(ts), e, pos)
  }

  // ----- Following is what the edits do

  lemma {:induction false} KeptAreLabelItems(c: Crypto, ts: seq<Tracked>, wanted: bool)
    ensures ItemsIn(KeptOf(c, ts, wanted)) == LabelItems(c, ItemsIn(ts), wanted)
  {
    hide IsLabelItem;
    if ts != [] {
      KeptAreLabelItems(c, ts[1..], wanted);
      assert ItemsIn(ts)[1..] == ItemsIn(ts[1..]);
    }
  }

  lemma FollowIsApply(c: Crypto, a: LargeBlobArray, ts: seq<Tracked>, e: Edit)
    requires ItemsIn(ts) == a.items && Apply(c, a, e).Some?
    ensures ItemsIn(Follow(c, ts, e)) == Apply(c, a, e).value.items
  {
    hide FromText, EncodeEntry, ItemIndex, LabelItems, KeptOf;
    KeptAreLabelItems(c, ts, false);
    KeptAreLabelItems(c, ts, true);
  }

  lemma {:induction false} FollowAllIsApplyAll(c: Crypto, a: LargeBlobArray, ts: seq<Tracked>, edits: seq<Edit>)
    requires ItemsIn(ts) == a.items && ApplyAll(c, a, edits).Some?
    ensures ItemsIn(FollowAll(c, ts, edits)) == ApplyAll(c, a, edits).value.items
    decreases |edits|
  {
    hide Apply, Follow;
    if edits != [] {
      FollowIsApply(c, a, ts, edits[0]);
      FollowAllIsApplyAll(c, Apply(c, a, edits[0]).value, Follow(c, ts, edits[0]), edits[1..]);
    }
  }

  // ----- Elements that are followed stay what they are, in order

  /** Each item with an origin is the item that began there, and origins increase. */
  predicate Faithful(began: seq<Item>, ts: seq<Tracked>) {
    && (forall i :: 0 <= i < |ts| && ts[i].origin.Some? ==>
          ts[i].origin.value < |began| && ts[i].item == began[ts[i].origin.value])
    && (forall i, j :: 0 <= i < j < |ts| && ts[i].origin.Some? && ts[j].origin.Some? ==>
          ts[i].origin.value < ts[j].origin.value)
  }

  /** The element that began as number `k` is among these. */
  predicate Has(ts: seq<Tracked>, k: nat) {
    exists i :: 0 <= i < |ts| && ts[i].origin == Some(k)
  }

  lemma {:induction false} KeptAre(c: Crypto, ts: seq<Tracked>, wanted: bool)
    ensures forall t :: t in KeptOf(c, ts, wanted) <==> t in ts && IsLabelItem(c, t.item) == wanted
  {
    hide IsLabelItem;
    if ts != [] {
      KeptAre(c, ts[1..], wanted);
      assert ts == [ts[0]] + ts[1..];
    }
  }

  lemma {:induction false} KeptFaithful(began: seq<Item>, c: Crypto, ts: seq<Tracked>, wanted: bool)
    requires Faithful(began, ts)
    ensures Faithful(began, KeptOf(c, ts, wanted))
  {
    hide IsLabelItem;
    if ts != [] {
      var first, rest := ts[0], ts[1..];
      assert forall i :: 0 <= i < |rest| ==> rest[i] == ts[i + 1];
      KeptFaithful(began, c, rest, wanted);
      KeptAre(c, rest, wanted);
      var kept := KeptOf(c, rest, wanted);
      hide KeptOf;
      if first.origin.Some? {
        forall j | 0 <= j < |kept| && kept[j].origin.Some? ensures first.origin.value < kept[j].origin.value {
          assert kept[j] in rest;
          var i :| 0 <= i < |rest| && rest[i] == kept[j];
          assert ts[0].origin.value < ts[i + 1].origin.value;
        }
      }
      PutFirst(began, first, kept);
    }
  }

  lemma PutFirst(began: seq<Item>, first: Tracked, kept: seq<Tracked>)
    requires Faithful(began, kept)
    requires first.origin.Some? ==>
               && first.origin.value < |began| && first.item == began[first.origin.value]
               && forall j :: 0 <= j < |kept| && kept[j].origin.Some? ==> first.origin.value < kept[j].origin.value
    ensures Faithful(began, [first] + kept)
  {
  }

  lemma AppendFaithful(began: seq<Item>, ts: seq<Tracked>, item: Item)
    requires Faithful(began, ts)
    ensures Faithful(began, ts + [Tracked(item, None)])
    ensures forall k: nat :: Has(ts + [Tracked(item, None)], k) <==> Has(ts, k)
  {
    var more := ts + [Tracked(item, None)];
    forall k: nat ensures Has(more, k) <==> Has(ts, k) {
      if i :| 0 <= i < |ts| && ts[i].origin == Some(k) {
        assert more[i] == ts[i];
      }
      if i :| 0 <= i < |more| && more[i].origin == Some(k) {
        assert ts[i] == more[i];
      }
    }
  }

  /** What is left of the items a label edit keeps or drops. */
  lemma KeptHas(began: seq<Item>, c: Crypto, ts: seq<Tracked>, wanted: bool, k: nat)
    requires Faithful(began, ts)
    ensures Has(KeptOf(c, ts, wanted), k) <==>
              exists i :: 0 <= i < |ts| && ts[i].origin == Some(k) && IsLabelItem(c, ts[i].item) == wanted
  {
    hide IsLabelItem, KeptOf, Faithful;
    KeptAre(c, ts, wanted);
    var kept := KeptOf(c, ts, wanted);
    if i :| 0 <= i < |kept| && kept[i].origin == Some(k) {
      assert kept[i] in kept;
      var j :| 0 <= j < |ts| && ts[j] == kept[i];
    }
    if i :| 0 <= i < |ts| && ts[i].origin == Some(k) && IsLabelItem(c, ts[i].item) == wanted {
      assert ts[i] in kept;
      var j :| 0 <= j < |kept| && kept[j] == ts[i];
    }
  }

  /** An origin stands at one place only. */
  lemma OneOfEach(began: seq<Item>, ts: seq<Tracked>, i: nat, j: nat)
    requires Faithful(began, ts) && i < |ts| && j < |ts| && ts[i].origin.Some? && ts[i].origin == ts[j].origin
    ensures i == j
  {
  }

  /** Putting something else at a place, or nothing, takes away the element there and no other. */
  lemma TakenAway(began: seq<Item>, ts: seq<Tracked>, pos: nat, item: Item)
    requires Faithful(began, ts) && pos < |ts|
    ensures var replaced, removed := ts[pos := Tracked(item, None)], ts[..pos] + ts[pos + 1..];
            && Faithful(began, replaced) && Faithful(began, removed)
            && forall k: nat ::
                 && (Has(replaced, k) <==> Has(ts, k) && ts[pos].origin != Some(k))
                 && (Has(removed, k) <==> Has(ts, k) && ts[pos].origin != Some(k))
  {
    var replaced, removed := ts[pos := Tracked(item, None)], ts[..pos] + ts[pos + 1..];
    assert forall i :: 0 <= i < pos ==> removed[i] == ts[i];
    assert forall i :: pos <= i < |removed| ==> removed[i] == ts[i + 1];
    forall k: nat
      ensures Has(replaced, k) <==> Has(ts, k) && ts[pos].origin != Some(k)
      ensures Has(removed, k) <==> Has(ts, k) && ts[pos].origin != Some(k)
    {
      if i :| 0 <= i < |ts| && ts[i].origin == Some(k) {
        if ts[pos].origin == Some(k) {
          OneOfEach(began, ts, i, pos);
        } else {
          assert replaced[i] == ts[i] && removed[if i < pos then i else i - 1] == ts[i];
        }
      }
      if i :| 0 <= i < |replaced| && replaced[i].origin == Some(k) {
        assert ts[i].origin == Some(k) && i != pos;
      }
      if i :| 0 <= i < |removed| && removed[i].origin == Some(k) {
        assert ts[if i < pos then i else i + 1].origin == Some(k);
      }
    }
  }

  lemma OneEditFor(began: seq<Item>, c: Crypto, ts: seq<Tracked>, e: Edit, k: nat)
    requires Faithful(began, ts)
    ensures Faithful(began, Follow(c, ts, e))
    ensures Has(Follow(c, ts, e), k) <==> Has(ts, k) && !NamedNow(c, ts, e, k)
  {
    hide Faithful, Has, KeptOf, FromText, EncodeEntry, IsLabelItem, ItemIndex, NamedNow;
    match e {
      case AddNote(text) =>
        AppendFaithful(began, ts, Entry(FromText(text)));
        NamesNone(c, ts, e, k);
      case ReplaceNote(idx, text) => NamesOne(began, c, ts, e, idx, Entry(FromText(text)), k);
      case RemoveEntry(idx) => NamesOne(began, c, ts, e, idx, Entry(FromText([])), k);
      case SetLabel(name, nonce) =>
        NamesKind(began, c, ts, e, false, k);
        if name.Some? && EncodeEntry(c, name.value, nonce).Ok? {
          AppendFaithful(began, KeptOf(c, ts, false), Entry(EncodeEntry(c, name.value, nonce).value));
        } else {
          assert KeptOf(c, ts, false) + [] == KeptOf(c, ts, false);
        }
      case KeepOnlyLabel => NamesKind(began, c, ts, e, true, k);
    }
  }

  /** One edit takes away exactly what it names. */
  lemma OneEdit(began: seq<Item>, c: Crypto, ts: seq<Tracked>, e: Edit)
    requires Faithful(began, ts)
    ensures Faithful(began, Follow(c, ts, e))
    ensures forall k: nat :: Has(Follow(c, ts, e), k) <==> Has(ts, k) && !NamedNow(c, ts, e, k)
  {
    hide Faithful, Has, Follow, NamedNow;
    OneEditFor(began, c, ts, e, 0);
    forall k: nat ensures Has(Follow(c, ts, e), k) <==> Has(ts, k) && !NamedNow(c, ts, e, k) {
      OneEditFor(began, c, ts, e, k);
    }
  }

  lemma NamesNone(c: Crypto, ts: seq<Tracked>, e: Edit, k: nat)
    requires e.AddNote?
    ensures !NamedNow(c, ts, e, k)
  {
  }

  lemma NamesOne(began: seq<Item>, c: Crypto, ts: seq<Tracked>, e: Edit, idx: nat, item: Item, k: nat)
    requires Faithful(began, ts) && (e == RemoveEntry(idx) || (e.ReplaceNote? && e.idx == idx))
    ensures match ItemIndex(ItemsIn(ts), idx)
            case None => !NamedNow(c, ts, e, k)
            case Some(pos) =>
              var replaced, removed := ts[pos := Tracked(item, None)], ts[..pos] + ts[pos + 1..];
              && Faithful(began, replaced) && Faithful(began, removed)
              && (Has(replaced, k) <==> Has(ts, k) && !NamedNow(c, ts, e, k))
              && (Has(removed, k) <==> Has(ts, k) && !NamedNow(c, ts, e, k))
  {
    hide Faithful, Has, ItemIndex;
    if ItemIndex(ItemsIn(ts), idx).Some? {
      var pos := ItemIndex(ItemsIn(ts), idx).value;
      TakenAway(began, ts, pos, item);
      assert Names(c, ItemsIn(ts), e, pos);
      assert NamedNow(c, ts, e, k) <==> ts[pos].origin == Some(k);
    }
  }

  lemma NamesKind(began: seq<Item>, c: Crypto, ts: seq<Tracked>, e: Edit, wanted: bool, k: nat)
    requires Faithful(began, ts) && if wanted then e.KeepOnlyLabel? else e.SetLabel?
    ensures Faithful(began, KeptOf(c, ts, wanted))
    ensures Has(KeptOf(c, ts, wanted), k) <==> Has(ts, k) && !NamedNow(c, ts, e, k)
  {
    hide KeptOf, IsLabelItem;
    KeptFaithful(began, c, ts, wanted);
    KeptHas(began, c, ts, wanted, k);
    if i :| 0 <= i < |ts| && ts[i].origin == Some(k) {
      assert Names(c, ItemsIn(ts), e, i) <==> IsLabelItem(c, ts[i].item) != wanted;
      forall j | 0 <= j < |ts| && ts[j].origin == Some(k) ensures j == i {
        OneOfEach(began, ts, i, j);
      }
    }
  }

  lemma {:induction false} AllEdits(began: seq<Item>, c: Crypto, ts: seq<Tracked>, edits: seq<Edit>)
    requires Faithful(began, ts)
    ensures Faithful(began, FollowAll(c, ts, edits))
    ensures forall k: nat :: Has(FollowAll(c, ts, edits), k) <==> Has(ts, k) && !EverNamed(c, ts, edits, k)
    decreases |edits|
  {
    hide Faithful, Has, Follow, NamedNow;
    if edits != [] {
      OneEdit(began, c, ts, edits[0]);
      AllEdits(began, c, Follow(c, ts, edits[0]), edits[1..]);
    }
  }

  /**
   Over any sequence of edits, an element keeps its exact bytes if and only if
   no edit names it: it is then at the end, itself, and those kept are in the
   order they began in. Whose it is does not matter, nor whether it was read,
   skipped, or holds keys this program does not know.
   */
  lemma OnlyNamedElementsChange(c: Crypto, a: LargeBlobArray, edits: seq<Edit>)
    requires ApplyAll(c, a, edits).Some?
    ensures var ends := FollowAll(c, Start(a.items), edits);
            && ItemsIn(ends) == ApplyAll(c, a, edits).value.items
            && Faithful(a.items, ends)
            && forall k: nat :: k < |a.items| ==> (Has(ends, k) <==> !EverNamed(c, Start(a.items), edits, k))
  {
    var ts := Start(a.items);
    assert ItemsIn(ts) == a.items;
    FollowAllIsApplyAll(c, a, ts, edits);
    AllEdits(a.items, c, ts, edits);
    forall k: nat | k < |a.items| ensures Has(ts, k) {
      assert ts[k].origin == Some(k);
    }
  }

  /** In bytes: where each element that no edit named is now. */
  lemma UnnamedElementsKeepTheirBytes(c: Crypto, a: LargeBlobArray, edits: seq<Edit>, k: nat) returns (at: nat)
    requires ApplyAll(c, a, edits).Some? && k < |a.items| && !EverNamed(c, Start(a.items), edits, k)
    ensures var after := Elements(ApplyAll(c, a, edits).value.items);
            at < |after| && after[at] == Elements(a.items)[k]
  {
    hide ApplyAll, EverNamed, FollowAll, ItemBytes;
    OnlyNamedElementsChange(c, a, edits);
    var ends := FollowAll(c, Start(a.items), edits);
    at :| 0 <= at < |ends| && ends[at].origin == Some(k);
  }
}
