/**
 What every edit of a large-blob array keeps: whatever is written reads back as
 the same elements, and no element an edit does not name changes a byte.
 */
module LargeBlobLaws {
  import opened Prelude
  import opened Bytes
  import opened Ctap
  import opened Cbor
  import opened CborLaws
  import opened DeviceLabel
  import opened LargeBlobs
  import Utf8

  // ----- Reading and writing back

  /** Parsed items are valid, their bytes are the array's elements, and what follows the array is counted. */
  lemma ParsedIsValid(data: bytes)
    requires Parse(data).Ok?
    ensures var a := Parse(data).value;
            && ValidItems(a.items) && |a.items| < U64 && a.rawArray == data
            && SplitArray(data).Ok? && Elements(a.items) == SplitArray(data).value.0
            && a.trailing == |SplitArray(data).value.1|
  {
    hide ItemLenAt, SplitMap, FillSlots, SplitItems, Concat, Header;
    var (raw, rest) := SplitArray(data).value;
    assert ReadHead(data).Ok? && |raw| == ReadHead(data).value.arg;
    HeaderIsShortest(data);
    hide ReadHead;
    SplitArrayElements(data);
    hide OneElement, SplitArray;
    forall i | 0 <= i < |raw|
      ensures ValidItem(ItemOf(raw[i])) && ItemBytes(ItemOf(raw[i])) == raw[i]
    {
      ParsedItem(raw[i]);
    }
  }

  lemma ParsedItem(raw: bytes)
    requires OneElement(raw)
    ensures ValidItem(ItemOf(raw)) && ItemBytes(ItemOf(raw)) == raw
  {
    hide OneElement, SplitMap, FillSlots;
  }

  /** A valid item's bytes are one element, and read back as the item. */
  lemma ItemReadsBack(item: Item)
    requires ValidItem(item)
    ensures OneElement(ItemBytes(item)) && ItemOf(ItemBytes(item)) == AsRead(item)
  {
    hide OneElement, ConformingEntry, Encode;
    if item.Entry? && item.entry.original.None? {
      BuiltEntryConforms(item.entry);
    }
  }

  /**
   What is written for valid items is an array that parses, with nothing left
   over, to the same items in the same order.
   */
  lemma WrittenReadsBack(a: LargeBlobArray)
    requires ValidItems(a.items) && |a.items| < U64
    ensures Parse(ArrayBytes(a)) == Ok(LargeBlobArray(AllAsRead(a.items), ArrayBytes(a), 0))
  {
    hide OneElement, ConformingEntry, Encode, Header, Concat, SplitArray, ValidItem, ReadHead, ItemBytes;
    var raw := Elements(a.items);
    forall i | 0 <= i < |raw|
      ensures OneElement(raw[i]) && ItemOf(raw[i]) == AllAsRead(a.items)[i]
    {
      ItemReadsBack(a.items[i]);
    }
    SplitArrayOfParts(raw, []);
    assert ArrayBytes(a) + [] == ArrayBytes(a);
    HeadOfHeader(MT_ARRAY, |raw|, Concat(raw));
    assert ItemsOf(raw) == AllAsRead(a.items);
  }

  // ----- Edits

  datatype Edit =
    | AddNote(text: string)
    | ReplaceNote(idx: nat, text: string)
    | RemoveEntry(idx: nat)
    | SetLabel(name: Option<Label>, nonce: bytes)
    | KeepOnlyLabel

  /** A text fits in memory, a nonce is twelve bytes. */
  predicate ValidEdit(e: Edit) {
    match e
    case AddNote(text) => |Utf8.Encode(text)| + 4 <= MAX_PART
    case ReplaceNote(_, text) => |Utf8.Encode(text)| + 4 <= MAX_PART
    case SetLabel(_, nonce) => |nonce| == 12
    case _ => true
  }

  /** One edit; none when it is refused. */
  function Apply(c: Crypto, a: LargeBlobArray, e: Edit): Option<LargeBlobArray> {
    match e
    case AddNote(text) => Some(WithTextNote(a, text))
    case ReplaceNote(idx, text) => WithReplacedNote(a, idx, text)
    case RemoveEntry(idx) => WithoutEntry(a, idx)
    case SetLabel(name, nonce) =>
      (match WithLabel(c, a, name, nonce)
       case Ok(b) => Some(b)
       case Err(_) => None)
    case KeepOnlyLabel => Some(OnlyLabel(c, a))
  }

  /** A sequence of edits; none as soon as one is refused. */
  function ApplyAll(c: Crypto, a: LargeBlobArray, edits: seq<Edit>): Option<LargeBlobArray>
    decreases |edits|
  {
    if edits == [] then Some(a) else
    var b :- Apply(c, a, edits[0]);
    ApplyAll(c, b, edits[1..])
  }

  /** What is invariant over edits: valid items, and room in a u64 for `spare` more. */
  predicate Sound(a: LargeBlobArray, spare: nat) {
    ValidItems(a.items) && |a.items| + spare < U64
  }

  lemma NoteIsValid(text: string)
    requires |Utf8.Encode(text)| + 4 <= MAX_PART
    ensures ValidItem(Entry(FromText(text))) && IsKrNote(FromText(text))
  {
  }

  lemma NewLabelIsValid(c: Crypto, l: Label, nonce: bytes)
    requires c.Lawful() && |nonce| == 12 && EncodeEntry(c, l, nonce).Ok?
    ensures var item := Entry(EncodeEntry(c, l, nonce).value);
            ValidItem(item) && IsLabelItem(c, item) && DecodeEntry(c, item.entry) == Some(l)
  {
    hide EncodeEntry, DecodeEntry;
    NameRoundTrip(c, l, nonce);
  }

  lemma ApplyKeepsSound(c: Crypto, a: LargeBlobArray, e: Edit, spare: nat)
    requires c.Lawful() && ValidEdit(e) && Sound(a, spare + 1) && Apply(c, a, e).Some?
    ensures Sound(Apply(c, a, e).value, spare) && Apply(c, a, e).value.trailing == a.trailing
  {
    hide ValidItem, EncodeEntry, DecodeEntry, FromText, IsLabelItem;
    var b := Apply(c, a, e).value;
    match e {
      case AddNote(text) => NoteIsValid(text);
      case ReplaceNote(_, text) => NoteIsValid(text);
      case RemoveEntry(_) =>
      case SetLabel(name, nonce) =>
        if name.Some? {
          NewLabelIsValid(c, name.value, nonce);
        }
      case KeepOnlyLabel =>
    }
  }

  lemma {:induction false} ApplyAllKeepsSound(c: Crypto, a: LargeBlobArray, edits: seq<Edit>)
    requires c.Lawful() && Sound(a, |edits|) && ApplyAll(c, a, edits).Some?
    requires forall i :: 0 <= i < |edits| ==> ValidEdit(edits[i])
    ensures Sound(ApplyAll(c, a, edits).value, 0) && ApplyAll(c, a, edits).value.trailing == a.trailing
    decreases |edits|
  {
    hide Apply, ValidEdit, Sound;
    if edits != [] {
      ApplyKeepsSound(c, a, edits[0], |edits| - 1);
      ApplyAllKeepsSound(c, Apply(c, a, edits[0]).value, edits[1..]);
    }
  }

  /**
   Any sequence of edits of an array read from a key gives one whose written
   form parses back to the same elements in the same order, byte for byte. An
   array read with bytes after its end is never written at all.
   */
  lemma EditedReadsBack(c: Crypto, data: bytes, edits: seq<Edit>)
    requires c.Lawful() && Parse(data).Ok?
    requires |Parse(data).value.items| + |edits| < U64
    requires forall i :: 0 <= i < |edits| ==> ValidEdit(edits[i])
    requires ApplyAll(c, Parse(data).value, edits).Some?
    ensures var b := ApplyAll(c, Parse(data).value, edits).value;
            && SerializeWithChecksum(c, b)
               == (if Parse(data).value.trailing > 0 then Err(InvalidResponseShape(ExtraBytesAfterEnd))
                   else Ok(ArrayBytes(b) + c.left16(ArrayBytes(b))))
            && Parse(ArrayBytes(b)) == Ok(LargeBlobArray(AllAsRead(b.items), ArrayBytes(b), 0))
            && Elements(AllAsRead(b.items)) == Elements(b.items)
  {
    hide Parse, ApplyAll, ArrayBytes, ValidEdit, AsRead;
    ParsedIsValid(data);
    ApplyAllKeepsSound(c, Parse(data).value, edits);
    var b := ApplyAll(c, Parse(data).value, edits).value;
    WrittenReadsBack(b);
    forall i | 0 <= i < |b.items| ensures ItemBytes(AllAsRead(b.items)[i]) == ItemBytes(b.items[i]) {
      SameBytesAsRead(b.items[i]);
    }
    assert Elements(AllAsRead(b.items)) == Elements(b.items);
  }

  lemma SameBytesAsRead(item: Item)
    ensures ItemBytes(AsRead(item)) == ItemBytes(item)
  {
  }

  // ----- Entry numbers

  lemma EntriesFirst(items: seq<Item>)
    requires items != []
    ensures Entries(items) == (if items[0].Entry? then [items[0].entry] else []) + Entries(items[1..])
  {
  }

  lemma NoItemsNoEntries()
    ensures Entries([]) == []
  {
  }

  lemma {:induction false} EntriesOfConcat(x: seq<Item>, y: seq<Item>)
    ensures Entries(x + y) == Entries(x) + Entries(y)
  {
    hide Entries;
    if x == [] {
      NoItemsNoEntries();
      assert x + y == y;
    } else {
      var first := if x[0].Entry? then [x[0].entry] else [];
      EntriesOfConcat(x[1..], y);
      EntriesFirst(x);
      EntriesFirst(x + y);
      assert (x + y)[1..] == x[1..] + y;
      assert first + (Entries(x[1..]) + Entries(y)) == first + Entries(x[1..]) + Entries(y);
    }
  }

  /** An entry number in range names one item, and counts the entries before it. */
  lemma {:induction false} ItemIndexOf(items: seq<Item>, idx: nat)
    ensures ItemIndex(items, idx).Some? <==> idx < |Entries(items)|
    ensures ItemIndex(items, idx).Some? ==>
              var pos := ItemIndex(items, idx).value;
              && items[pos].entry == Entries(items)[idx]
              && |Entries(items[..pos])| == idx
  {
    if items != [] && !(items[0].Entry? && idx == 0) {
      var rest := if items[0].Entry? then idx - 1 else idx;
      ItemIndexOf(items[1..], rest);
      if ItemIndex(items[1..], rest).Some? {
        var pos := ItemIndex(items[1..], rest).value;
        assert items[..pos + 1][1..] == items[1..][..pos];
      }
    }
  }

  /** Around a position: what is before it, the item, and what is after. */
  lemma EntriesAround(items: seq<Item>, pos: nat)
    requires pos < |items| && items[pos].Entry?
    ensures Entries(items) == Entries(items[..pos]) + [items[pos].entry] + Entries(items[pos + 1..])
  {
    var tail := items[pos..];
    assert items == items[..pos] + tail;
    EntriesOfConcat(items[..pos], tail);
    assert tail[1..] == items[pos + 1..];
    assert Entries(tail) == [tail[0].entry] + Entries(tail[1..]);
  }

  /**
   A note is replaced exactly when the number names a note; only that element
   changes. An entry is removed exactly when the number names one; every other
   element keeps its bytes and its place among the rest.
   */
  lemma EditsChangeOnlyWhatTheyName(a: LargeBlobArray, idx: nat, text: string)
    ensures WithReplacedNote(a, idx, text).Some? <==> idx < |Entries(a.items)| && IsKrNote(Entries(a.items)[idx])
    ensures WithReplacedNote(a, idx, text).Some? ==>
              var pos := ItemIndex(a.items, idx).value;
              var b := WithReplacedNote(a, idx, text).value;
              && Elements(b.items) == Elements(a.items)[pos := ItemBytes(Entry(FromText(text)))]
              && Entries(b.items) == Entries(a.items)[idx := FromText(text)]
    ensures WithoutEntry(a, idx).Some? <==> idx < |Entries(a.items)|
    ensures WithoutEntry(a, idx).Some? ==>
              var pos := ItemIndex(a.items, idx).value;
              var b := WithoutEntry(a, idx).value;
              && Elements(b.items) == Elements(a.items)[..pos] + Elements(a.items)[pos + 1..]
              && Entries(b.items) == Entries(a.items)[..idx] + Entries(a.items)[idx + 1..]
  {
    hide ItemIndex, ItemBytes, Entries, FromText;
    ItemIndexOf(a.items, idx);
    if ItemIndex(a.items, idx).Some? {
      var pos := ItemIndex(a.items, idx).value;
      EntriesAround(a.items, pos);
      var replaced := a.items[pos := Entry(FromText(text))];
      EntriesAround(replaced, pos);
      assert replaced[..pos] == a.items[..pos] && replaced[pos + 1..] == a.items[pos + 1..];
      assert Elements(replaced) == Elements(a.items)[pos := ItemBytes(Entry(FromText(text)))];
      EntriesOfConcat(a.items[..pos], a.items[pos + 1..]);
      var without := a.items[..pos] + a.items[pos + 1..];
      assert Elements(without) == Elements(a.items)[..pos] + Elements(a.items)[pos + 1..];
    }
  }

  // ----- The name

  lemma {:induction false} LabelItemsOfConcat(c: Crypto, x: seq<Item>, y: seq<Item>, wanted: bool)
    ensures LabelItems(c, x + y, wanted) == LabelItems(c, x, wanted) + LabelItems(c, y, wanted)
  {
    hide IsLabelItem;
    if x == [] {
      assert x + y == y;
    } else {
      assert (x + y)[1..] == x[1..] + y;
      LabelItemsOfConcat(c, x[1..], y, wanted);
    }
  }

  lemma {:induction false} LabelItemsOfKept(c: Crypto, items: seq<Item>, first: bool, second: bool)
    ensures LabelItems(c, LabelItems(c, items, first), second)
         == if first == second then LabelItems(c, items, first) else []
  {
    hide IsLabelItem;
    if items != [] {
      LabelItemsOfKept(c, items[1..], first, second);
      var kept, rest := LabelItems(c, items, first), LabelItems(c, items[1..], first);
      if IsLabelItem(c, items[0]) == first {
        assert kept == [items[0]] + rest && kept[1..] == rest;
      } else {
        assert kept == rest;
      }
    }
  }

  lemma {:induction false} NoLabelLeft(c: Crypto, items: seq<Item>)
    requires forall i :: 0 <= i < |items| ==> !IsLabelItem(c, items[i])
    ensures LastLabel(c, Entries(items)) == None
  {
    hide DecodeEntry;
    if items != [] {
      var init, last := items[..|items| - 1], items[|items| - 1];
      NoLabelLeft(c, init);
      assert items == init + [last];
      EntriesOfConcat(init, [last]);
      assert [last][1..] == [];
      if last.Entry? {
        assert IsLabelItem(c, last) == DecodeEntry(c, last.entry).Some?;
        assert Entries(items) == Entries(init) + [last.entry];
        assert Entries(items)[..|Entries(items)| - 1] == Entries(init);
      } else {
        assert Entries(items) == Entries(init);
      }
    }
  }

  /**
   After a name is set there is exactly one name entry, it is the last entry,
   and the array's name is the one set; after it is cleared there is none.
   Nothing else moved: the other elements are those that were not names.
   */
  lemma LabelAfterSetting(c: Crypto, a: LargeBlobArray, name: Option<Label>, nonce: bytes)
    requires c.Lawful() && |nonce| == 12
    ensures WithLabel(c, a, name, nonce).Ok? <==> name.None? || ValidLabel(name.value)
    ensures WithLabel(c, a, name, nonce).Ok? ==>
              var b := WithLabel(c, a, name, nonce).value;
              && LabelItems(c, b.items, false) == LabelItems(c, a.items, false)
              && (name.None? ==> LabelItems(c, b.items, true) == [] && LabelOf(c, b) == None)
              && (name.Some? ==>
                    && |b.items| > 0 && LabelItems(c, b.items, true) == [b.items[|b.items| - 1]]
                    && LabelOf(c, b) == Some((|Entries(b.items)| - 1, name.value)))
  {
    hide EncodeEntry, DecodeEntry, LabelItems, ValidLabel, Entries, IsLabelItem, LastLabel;
    var kept := LabelItems(c, a.items, false);
    LabelItemsOfKept(c, a.items, false, false);
    LabelItemsOfKept(c, a.items, false, true);
    if name.None? {
      NoneIsLabel(c, a.items);
      NoLabelLeft(c, kept);
    } else {
      NameRoundTrip(c, name.value, nonce);
      if ValidLabel(name.value) {
        NewLabelIsFound(c, kept, name.value, nonce);
      }
    }
  }

  lemma {:induction false} NoneIsLabel(c: Crypto, items: seq<Item>)
    ensures forall item :: item in LabelItems(c, items, false) ==> !IsLabelItem(c, item)
  {
    hide IsLabelItem;
    if items != [] {
      NoneIsLabel(c, items[1..]);
    }
  }

  lemma NewLabelIsFound(c: Crypto, kept: seq<Item>, l: Label, nonce: bytes)
    requires c.Lawful() && |nonce| == 12 && ValidLabel(l)
    requires LabelItems(c, kept, false) == kept && LabelItems(c, kept, true) == []
    ensures EncodeEntry(c, l, nonce).Ok?
    ensures var last := Entry(EncodeEntry(c, l, nonce).value);
            var items := kept + [last];
            && LabelItems(c, items, false) == kept && LabelItems(c, items, true) == [last]
            && LastLabel(c, Entries(items)) == Some((|Entries(items)| - 1, l))
  {
    hide EncodeEntry, DecodeEntry, LabelItems, ValidLabel, Entries;
    NameRoundTrip(c, l, nonce);
    var e := EncodeEntry(c, l, nonce).value;
    LabelItemsOfConcat(c, kept, [Entry(e)], false);
    LabelItemsOfConcat(c, kept, [Entry(e)], true);
    LabelItemsOfOne(c, Entry(e));
    EntriesOfConcat(kept, [Entry(e)]);
    assert Entries([Entry(e)]) == [e] by { EntriesOfOne(e); }
  }

  lemma LabelItemsOfOne(c: Crypto, item: Item)
    ensures LabelItems(c, [item], true) == if IsLabelItem(c, item) then [item] else []
    ensures LabelItems(c, [item], false) == if IsLabelItem(c, item) then [] else [item]
  {
    hide IsLabelItem;
    assert [item][1..] == [];
  }

  lemma EntriesOfOne(e: LargeBlobEntry)
    ensures Entries([Entry(e)]) == [e]
  {
    assert [Entry(e)][1..] == [];
  }

  /** Setting a name again forgets the name set before it. */
  lemma LaterLabelAbsorbs(
      c: Crypto, a: LargeBlobArray, first: Option<Label>, nonce1: bytes, second: Option<Label>, nonce2: bytes)
    requires c.Lawful() && |nonce1| == 12 && |nonce2| == 12 && WithLabel(c, a, first, nonce1).Ok?
    ensures WithLabel(c, WithLabel(c, a, first, nonce1).value, second, nonce2) == WithLabel(c, a, second, nonce2)
  {
    hide LabelItems, EncodeEntry, ValidLabel, LabelOf;
    LabelAfterSetting(c, a, first, nonce1);
  }
}
