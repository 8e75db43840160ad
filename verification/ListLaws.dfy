/** Which line of a list of URIs each item came from, and when two items share an index. */
module ListLaws {
  import opened Prelude
  import opened Bytes
  import opened ImportModel
  import opened Strings
  import opened Entries
  import opened Migration
  import opened UriLists
  import opened RunLaws
  import OtpAuth

  // ----- Items and their lines

  /** How many items a line gives: none, one, or as many as its export holds accounts. */
  function Given(raw: string, lossy: bytes -> string): nat {
    var line := Trim(raw);
    if !Content(line) then 0
    else if IsMigrationUri(line) && ParseUriWide(line, lossy).Ok? then |ParseUriWide(line, lossy).value.items|
    else 1
  }

  function GivenBefore(lines: seq<string>, n: nat, lossy: bytes -> string): nat
    requires n <= |lines|
  {
    if n == 0 then 0 else GivenBefore(lines, n - 1, lossy) + Given(lines[n - 1], lossy)
  }

  /** A line adds the items it gives, all under its number. */
  lemma LineGives(so: WideFile, raw: string, i: nat, lossy: bytes -> string)
    requires AddLine(so, raw, i, lossy).Ok?
    ensures var next := AddLine(so, raw, i, lossy).value;
            && so.items <= next.items && |next.items| == |so.items| + Given(raw, lossy)
            && forall k :: |so.items| <= k < |next.items| ==> next.items[k].index == i
  {
    hide ParseUriWide, OtpAuth.ParseEntry, TrimStart, Trim;
  }

  /**
   The items of a list are those of its lines in order: item `k` has the number
   of the line that gave it, and each line gives as many as it holds.
   */
  lemma {:induction false} ItemsComeFromTheirLines(lines: seq<string>, n: nat, lossy: bytes -> string)
    requires n <= |lines| && ReadTo(lines, n, lossy).Ok?
    ensures var items := ReadTo(lines, n, lossy).value.items;
            && |items| == GivenBefore(lines, n, lossy) <= MAX_ENTRIES
            && (forall k :: 0 <= k < |items| ==>
                  && items[k].index < n
                  && GivenBefore(lines, items[k].index, lossy) <= k < GivenBefore(lines, items[k].index + 1, lossy))
    decreases n
  {
    hide AddLine, Given;
    if n > 0 {
      ItemsComeFromTheirLines(lines, n - 1, lossy);
      var so := ReadTo(lines, n - 1, lossy).value;
      LineGives(so, lines[n - 1], n - 1, lossy);
      WithinTheLimit(so, lines[n - 1], n - 1, lossy);
      var items := ReadTo(lines, n, lossy).value.items;
      forall k | 0 <= k < |items|
        ensures items[k].index < n
        ensures GivenBefore(lines, items[k].index, lossy) <= k < GivenBefore(lines, items[k].index + 1, lossy)
      {
        if k < |so.items| {
          assert items[k] == so.items[k];
        }
      }
    }
  }

  lemma WithinTheLimit(so: WideFile, raw: string, i: nat, lossy: bytes -> string)
    requires AddLine(so, raw, i, lossy).Ok? && |so.items| <= MAX_ENTRIES
    ensures |AddLine(so, raw, i, lossy).value.items| <= MAX_ENTRIES
  {
    hide LineFile;
  }

  lemma {:induction false} GivenGrows(lines: seq<string>, m: nat, n: nat, lossy: bytes -> string)
    requires m <= n <= |lines|
    ensures GivenBefore(lines, m, lossy) <= GivenBefore(lines, n, lossy)
    decreases n - m
  {
    hide Given;
    if m < n {
      GivenGrows(lines, m, n - 1, lossy);
    }
  }

  /** Every item a line gives is in the list, under its number. */
  lemma LinesAreInTheList(lines: seq<string>, n: nat, i: nat, k: nat, lossy: bytes -> string)
    requires i < n <= |lines| && ReadTo(lines, n, lossy).Ok?
    requires GivenBefore(lines, i, lossy) <= k < GivenBefore(lines, i + 1, lossy)
    ensures k < |ReadTo(lines, n, lossy).value.items| && ReadTo(lines, n, lossy).value.items[k].index == i
  {
    hide ReadTo, Given;
    ItemsComeFromTheirLines(lines, n, lossy);
    GivenGrows(lines, i + 1, n, lossy);
    var items := ReadTo(lines, n, lossy).value.items;
    var j := items[k].index;
    if j < i {
      GivenGrows(lines, j + 1, i, lossy);
    } else if j > i {
      GivenGrows(lines, i + 1, j, lossy);
    }
  }

  /**
   The items of a list have distinct indexes if and only if no line of it is an
   export of more than one account.
   */
  lemma DistinctExactlyWhenExportsAreSingle(text: string, lossy: bytes -> string)
    requires ParseListWide(text, lossy).Ok?
    ensures DistinctIndexes(ParseListWide(text, lossy).value.items) <==>
              forall line :: line in Lines(text) && Content(Trim(line)) && IsMigrationUri(Trim(line)) ==>
                var file := ParseUriWide(Trim(line), lossy);
                file.Ok? ==> |file.value.items| == 1
  {
    hide ParseUriWide, Lines, Trim, TrimStart, ReadTo, IsMigrationUri, Content;
    var lines := Lines(text);
    var items := ReadTo(lines, |lines|, lossy).value.items;
    ItemsComeFromTheirLines(lines, |lines|, lossy);
    if i :| 0 <= i < |lines| && Given(lines[i], lossy) > 1 {
      var k := GivenBefore(lines, i, lossy);
      LinesAreInTheList(lines, |lines|, i, k, lossy);
      LinesAreInTheList(lines, |lines|, i, k + 1, lossy);
      assert items[k].index == items[k + 1].index;
    } else {
      forall k, l | 0 <= k < l < |items| ensures items[k].index != items[l].index {
        assert Given(lines[items[k].index], lossy) <= 1;
      }
      assert DistinctIndexes(items);
    }
    forall line | line in lines && Content(Trim(line)) && IsMigrationUri(Trim(line))
      ensures Given(line, lossy)
           == if ParseUriWide(Trim(line), lossy).Ok? then |ParseUriWide(Trim(line), lossy).value.items| else 1
      ensures ParseUriWide(Trim(line), lossy).Ok? ==> |ParseUriWide(Trim(line), lossy).value.items| > 0
    {
      ExportsHoldSomething(Trim(line), lossy);
    }
  }

  lemma ExportsHoldSomething(uri: string, lossy: bytes -> string)
    ensures ParseUriWide(uri, lossy).Ok? ==> ParseUriWide(uri, lossy).value.items != []
  {
    hide DecodeUri, PayloadFrom;
  }
}
