/**
 Lists and exports written out and read back, and what becomes of a list that
 holds an export of more than one account.
 */
module ListWrites {
  import opened Prelude
  import opened Bytes
  import opened ImportModel
  import opened ImportPlan
  import opened ImportRun
  import opened Strings
  import opened Entries
  import opened Migration
  import opened MigrationLaws
  import opened UriLists
  import opened RunLaws
  import opened IndexLaws
  import OtpAuth
  import OtpAuthLaws
  import OtpAuthWrites
  import Base32
  import Base64
  import Utf8

  // ----- What is written is read back

  /** Each line, and a line feed after it. */
  function WriteLines(lines: seq<string>): string {
    if lines == [] then [] else lines[0] + ['\n'] + WriteLines(lines[1..])
  }

  /** A line as a list can hold it. */
  predicate OneLineOf(line: string) {
    '\n' !in line && (line != [] ==> line[|line| - 1] != '\r')
  }

  lemma {:induction false} PartsOfLines(lines: seq<string>)
    requires forall i :: 0 <= i < |lines| ==> '\n' !in lines[i]
    ensures Split(WriteLines(lines), '\n') == lines + [[]]
    decreases |lines|
  {
    hide SplitOnce;
    if lines == [] {
      assert '\n' !in WriteLines(lines);
    } else {
      PartsOfLines(lines[1..]);
      SplitOnceAt(lines[0], '\n', WriteLines(lines[1..]));
    }
  }

  lemma LinesReadBack(lines: seq<string>)
    requires forall i :: 0 <= i < |lines| ==> OneLineOf(lines[i])
    ensures Lines(WriteLines(lines)) == lines
  {
    hide Strings.Split, WriteLines;
    PartsOfLines(lines);
    var parts := lines + [[]];
    assert |parts| == |lines| + 1 && parts[|lines|] == [];
    forall i | 0 <= i < |lines| ensures WithoutReturn(parts[i]) == lines[i] {
      assert OneLineOf(lines[i]);
    }
    LinesOf(WriteLines(lines), lines);
  }

  lemma LinesOf(text: string, lines: seq<string>)
    requires Split(text, '\n') == lines + [[]]
    requires forall i :: 0 <= i < |lines| ==> WithoutReturn((lines + [[]])[i]) == lines[i]
    ensures Lines(text) == lines
  {
    hide Strings.Split, WithoutReturn;
  }

  // ----- A line with no white space in it

  predicate Solid(s: string) {
    forall c :: c in s ==> !White(c)
  }

  lemma SolidLine(s: string)
    requires Solid(s)
    ensures Trim(s) == s && TrimStart(s) == s && OneLineOf(s)
  {
  }

  lemma EscapedIsSolid(s: string)
    ensures Solid(OtpAuthWrites.EscapeText(s)) && '&' !in OtpAuthWrites.EscapeText(s)
  {
    hide OtpAuthWrites.EscapeText;
    OtpAuthWrites.EscapedReadsBack(s, false);
  }

  // ----- An export

  /** An export's URI: its payload in base64, escaped or as it is. */
  function WriteExport(payload: bytes, escaped: bool): string {
    OFFLINE + "?" + DATA + DataText(payload, escaped)
  }

  function DataText(payload: bytes, escaped: bool): string {
    if escaped then OtpAuthWrites.EscapeText(Base64.Encode(payload)) else Base64.Encode(payload)
  }

  predicate Base64Char(c: char) {
    Base64.Sextet(c).Some? || c == '='
  }

  lemma {:induction false} Base64Letters(b: bytes)
    ensures forall i :: 0 <= i < |Base64.Encode(b)| ==> Base64Char(Base64.Encode(b)[i])
    decreases |b|
  {
    hide Base64.Sextet, Base64.Group;
    if b != [] {
      Base64Letters(b[Min(|b|, 3)..]);
    }
  }

  /** Text with no percent sign is itself, plus signs and all. */
  lemma PlainReadsBack(s: string)
    requires forall i :: 0 <= i < |s| ==> s[i] < 128 as char && s[i] != '%'
    ensures OtpAuth.PercentDecode(s, false) == Some(s)
  {
    hide Utf8.Encode, Utf8.Decode, OtpAuth.Unescape;
    var b: bytes := seq(|s|, i requires 0 <= i < |s| => s[i] as int);
    assert OtpAuthWrites.AsText(b) == s;
    OtpAuthWrites.AsciiEncodes(b);
    OtpAuthLaws.UnescapePlain(b, false);
    assert OtpAuth.Unescape(b, false).value == b;
    Utf8.DecodeOfEncode(s);
  }

  lemma DataReadsBack(payload: bytes, escaped: bool)
    ensures var text := DataText(payload, escaped);
            Solid(text) && '&' !in text && Payload64(text) == Ok(payload)
  {
    hide Base64.Encode, Base64.Decode, OtpAuth.PercentDecode, OtpAuthWrites.EscapeText;
    var text := Base64.Encode(payload);
    Base64.DecodeOfEncode(payload);
    Base64Letters(payload);
    if escaped {
      OtpAuthWrites.EscapedReadsBack(text, false);
      EscapedIsSolid(text);
    } else {
      PlainReadsBack(text);
    }
  }

  lemma FixedPartIsSolid()
    ensures Solid(OFFLINE + "?" + DATA) && SCHEME <= OFFLINE && OFFLINE != [] && OFFLINE[0] == 'o' && '&' !in DATA
  {
    hide White;
    LowerIsSolid();
    assert forall c :: c in OFFLINE ==> 'a' <= c <= 'z' || c in "-:/";
    assert forall c :: c in DATA ==> 'a' <= c <= 'z' || c == '=';
  }

  lemma LowerIsSolid()
    ensures forall c :: 'a' <= c <= 'z' || c in "-:/=?" ==> !White(c)
  {
  }

  lemma LastOfOne(text: string)
    requires '&' !in DATA && '&' !in text
    ensures LastData(Split(QueryOf(['?'] + (DATA + text)), '&')) == Some(text)
  {
    hide Strings.Split;
    var query := DATA + text;
    assert (['?'] + query)[1..] == query && query[|DATA|..] == text;
    OtpAuthWrites.SplitWhole(query);
    assert [query][..0] == [];
  }

  /** The payload an export's URI was written for is read from it. */
  lemma UriReadsBack(payload: bytes, escaped: bool)
    ensures var uri := WriteExport(payload, escaped);
            Solid(uri) && IsMigrationUri(uri) && Content(uri) && DecodeUri(uri) == Ok(payload)
  {
    hide DataText, Payload64, Strings.Split, Trim, TrimStart, LastData, QueryOf, White;
    var text := DataText(payload, escaped);
    DataReadsBack(payload, escaped);
    FixedPartIsSolid();
    LastOfOne(text);
    hide OFFLINE, DATA, SCHEME;
    var uri := WriteExport(payload, escaped);
    assert Solid(uri);
    SolidLine(uri);
    var rest := ['?'] + (DATA + text);
    assert uri == OFFLINE + rest;
    assert After(uri, OFFLINE) == Some(rest);
    assert uri[0] == OFFLINE[0];
  }

  /** What an export's URI was written for is what both readers read. */
  lemma ExportUriReadsBack(
      accounts: seq<Account>, size: nat, index: nat, escaped: bool, lossy: bytes -> string)
    requires accounts != [] && ExportableAll(accounts) && size < U32 && index < U32
    requires forall s: string :: lossy(Utf8.Encode(s)) == s
    ensures var uri := WriteExport(WritePayload(accounts, size, index), escaped);
            var batch := if size > 1 then Some((index, size)) else None;
            && ParseUri(uri, lossy).Ok? && ParseUri(uri, lossy).value.batch == batch
            && ParseUri(uri, lossy).value.entries == EntriesOf(KeptBy(accounts, true))
            && (|accounts| <= MAX_ENTRIES ==> ParseUriWide(uri, lossy) == Ok(WideFile(ItemsOf(accounts), batch)))
  {
    hide DecodeUri, WritePayload, PayloadFrom, EntriesOf, SkippedOf, ItemsOf, ExportableAll, Utf8.Encode, WriteExport;
    UriReadsBack(WritePayload(accounts, size, index), escaped);
    ExportReadsBack(accounts, size, index, lossy);
    ReadersAgree(WritePayload(accounts, size, index), lossy);
  }

  // ----- An entry's URI

  lemma {:induction false} SolidQuery(ps: seq<OtpAuthWrites.Pair>)
    requires forall p :: p in ps ==> Solid(p.0)
    ensures Solid(OtpAuthWrites.WriteQuery(ps))
    decreases |ps|
  {
    hide White, OtpAuthWrites.EscapeText;
    assert !White('=') && !White('&') by { NotWhite(); }
    if ps != [] {
      EscapedIsSolid(ps[0].1);
      assert Solid(OtpAuthWrites.WriteParam(ps[0]));
      if |ps| > 1 {
        SolidQuery(ps[1..]);
      }
    }
  }

  lemma NotWhite()
    ensures !White('=') && !White('&') && !White('/') && !White('?') && !White('#')
  {
  }

  lemma SolidWords()
    ensures Solid("otpauth://") && Solid("totp") && Solid("hotp") && Solid("secret") && Solid("algorithm")
            && Solid("digits") && Solid("period") && Solid("counter") && Solid("issuer")
  {
  }

  lemma EntryUriIsSolid(e: ImportEntry, secret: string)
    ensures var uri := OtpAuthWrites.UriOfEntry(e, secret);
            Solid(uri) && !(SCHEME <= uri) && Content(uri)
  {
    hide White, OtpAuthWrites.EscapeText, OtpAuthWrites.WriteQuery, Decimal, OtpAuthWrites.HashName;
    SolidWords();
    NotWhite();
    SolidQuery(OtpAuthWrites.ParamsOfEntry(e, secret));
    EscapedIsSolid(if e.account.Some? then e.account.value else []);
    var uri := OtpAuthWrites.UriOfEntry(e, secret);
    assert uri[7] == "otpauth://"[7] && uri[0] == "otpauth://"[0];
    assert SCHEME[7] == '-';
  }

  // ----- A list

  datatype Line =
    | Blank
    | EntryLine(entry: ImportEntry)
    | ExportLine(accounts: seq<Account>, size: nat, index: nat, escaped: bool)

  function WriteLine(line: Line): string {
    match line
    case Blank => []
    case EntryLine(e) => OtpAuthWrites.UriOfEntry(e, Base32.Encode(e.secret))
    case ExportLine(accounts, size, index, escaped) => WriteExport(WritePayload(accounts, size, index), escaped)
  }

  predicate Writes(line: Line) {
    match line
    case Blank => true
    case EntryLine(e) => OtpAuthWrites.Carriable(e)
    case ExportLine(accounts, size, index, _) =>
      accounts != [] && |accounts| <= MAX_ENTRIES && ExportableAll(accounts) && size < U32 && index < U32
  }

  /** What a line is there for: its items under its number, and its batch. */
  function FileOfLine(line: Line, i: nat): WideFile {
    match line
    case Blank => WideFile([], None)
    case EntryLine(e) => WideFile([ImportItem(i, Ok(e))], None)
    case ExportLine(accounts, size, index, _) =>
      WideFile(Numbered(ItemsOf(accounts), i), if size > 1 then Some((index, size)) else None)
  }

  function Joined(so: WideFile, next: WideFile): WideFile {
    WideFile(so.items + next.items, if so.batch.Some? then so.batch else next.batch)
  }

  function FileOf(lines: seq<Line>, n: nat): WideFile
    requires n <= |lines|
  {
    if n == 0 then WideFile([], None) else Joined(FileOf(lines, n - 1), FileOfLine(lines[n - 1], n - 1))
  }

  function Texts(lines: seq<Line>): (texts: seq<string>)
    ensures |texts| == |lines|
  {
    seq(|lines|, i requires 0 <= i < |lines| => WriteLine(lines[i]))
  }

  lemma LineReadsBack(so: WideFile, line: Line, i: nat, lossy: bytes -> string)
    requires Writes(line) && |so.items| <= MAX_ENTRIES && forall s: string :: lossy(Utf8.Encode(s)) == s
    ensures OneLineOf(WriteLine(line))
    ensures var next := Joined(so, FileOfLine(line, i));
            AddLine(so, WriteLine(line), i, lossy)
            == if |next.items| <= MAX_ENTRIES then Ok(next) else Err(TooManyEntries)
  {
    hide OtpAuth.ParseEntry, ParseUriWide, Trim, TrimStart, WriteExport, WritePayload, OtpAuthWrites.UriOfEntry,
         Base32.Encode, OtpAuthWrites.Carriable, ExportableAll, ItemsOf, Utf8.Encode, DecodeUri;
    var text := WriteLine(line);
    match line {
      case Blank =>
        SolidLine([]);
        assert so.items + [] == so.items;
      case EntryLine(e) =>
        EntryUriIsSolid(e, Base32.Encode(e.secret));
        SolidLine(text);
        OtpAuthWrites.EveryEntryReadsBack(e);
      case ExportLine(accounts, size, index, escaped) =>
        UriReadsBack(WritePayload(accounts, size, index), escaped);
        SolidLine(text);
        ExportUriReadsBack(accounts, size, index, escaped, lossy);
    }
  }

  lemma {:induction false} FileGrows(lines: seq<Line>, m: nat, n: nat)
    requires m <= n <= |lines|
    ensures |FileOf(lines, m).items| <= |FileOf(lines, n).items|
    decreases n - m
  {
    hide FileOfLine;
    if m < n {
      FileGrows(lines, m, n - 1);
    }
  }

  lemma {:induction false} LinesReadTo(lines: seq<Line>, n: nat, lossy: bytes -> string)
    requires n <= |lines| && forall i :: 0 <= i < |lines| ==> Writes(lines[i])
    requires forall s: string :: lossy(Utf8.Encode(s)) == s
    ensures ReadTo(Texts(lines), n, lossy)
         == if |FileOf(lines, n).items| <= MAX_ENTRIES then Ok(FileOf(lines, n)) else Err(TooManyEntries)
    decreases n
  {
    hide AddLine, FileOfLine, WriteLine, Writes, Utf8.Encode;
    if n > 0 {
      FileGrows(lines, n - 1, n);
      LinesReadTo(lines, n - 1, lossy);
      if |FileOf(lines, n - 1).items| <= MAX_ENTRIES {
        LineReadsBack(FileOf(lines, n - 1), lines[n - 1], n - 1, lossy);
      }
    }
  }

  /**
   A list of entries and exports written one a line, with blank lines between,
   is read as exactly their items in order, each under its line's number, when
   there are at most 1000; more are refused.
   */
  lemma ListReadsBack(lines: seq<Line>, lossy: bytes -> string)
    requires forall i :: 0 <= i < |lines| ==> Writes(lines[i])
    requires forall s: string :: lossy(Utf8.Encode(s)) == s
    ensures var file := FileOf(lines, |lines|);
            ParseListWide(WriteLines(Texts(lines)), lossy)
            == if file.items == [] then Err(EmptyFile)
               else if |file.items| > MAX_ENTRIES then Err(TooManyEntries)
               else Ok(file)
  {
    hide Lines, WriteLines, ReadTo, FileOf, WriteLine, Writes, Utf8.Encode, AddLine;
    forall i | 0 <= i < |lines| ensures OneLineOf(Texts(lines)[i]) {
      LineIsOne(lines[i], lossy);
    }
    LinesReadBack(Texts(lines));
    LinesReadTo(lines, |lines|, lossy);
  }

  lemma LineIsOne(line: Line, lossy: bytes -> string)
    requires Writes(line) && forall s: string :: lossy(Utf8.Encode(s)) == s
    ensures OneLineOf(WriteLine(line))
  {
    hide WriteLine, AddLine, Utf8.Encode;
    LineReadsBack(WideFile([], None), line, 0, lossy);
  }

  // ----- A list that holds an export of two accounts

  /** A list of one line, an export of two accounts. */
  function TwoAccounts(a: Account, b: Account): string {
    WriteLines(Texts([ExportLine([a, b], 1, 0, true)]))
  }

  /** Its items: one index for both. */
  function TwoItems(a: Account, b: Account): (file: ImportFile)
    ensures |file| == 2
  {
    [ImportItem(0, ToEntry(a)), ImportItem(0, ToEntry(b))]
  }

  lemma TwoAccountsRead(a: Account, b: Account, lossy: bytes -> string)
    requires ExportableAll([a, b]) && forall s: string :: lossy(Utf8.Encode(s)) == s
    ensures ParseListWide(TwoAccounts(a, b), lossy)
         == Ok(WideFile(TwoItems(a, b), None))
  {
    hide WriteLines, Texts, ParseListWide, ToEntry, ExportableAll, Utf8.Encode;
    var lines := [ExportLine([a, b], 1, 0, true)];
    var file := FileOf(lines, 1);
    assert FileOf(lines, 0) == WideFile([], None);
    assert Numbered(ItemsOf([a, b]), 0) == [ImportItem(0, ToEntry(a)), ImportItem(0, ToEntry(b))];
    assert file.items == [ImportItem(0, ToEntry(a)), ImportItem(0, ToEntry(b))];
    ListReadsBack(lines, lossy);
  }

  /**
   Read, planned for an empty Molto2 and run, such a list leaves the first
   account's entry in the second account's slot, under the second's title.
   */
  lemma AListStoresTheWrongEntry(a: Account, b: Account, lossy: bytes -> string)
    requires ExportableAll([a, b]) && forall s: string :: lossy(Utf8.Encode(s)) == s
    requires Titled(TwoItems(a, b)[0]).Ok? && Titled(TwoItems(a, b)[1]).Ok?
    ensures ParseListWide(TwoAccounts(a, b), lossy) == Ok(WideFile(TwoItems(a, b), None)) && ToEntry(a).Ok?
    ensures var plan := PlanOf(TwoItems(a, b), EMPTY_MOLTO2);
            && plan.rows[1].name == Some(MoltoName(1, Titled(TwoItems(a, b)[1]).value))
            && Run(TwoItems(a, b), plan, PlainKey(), map[]).state
               == map[Slot(0) := Code(ToEntry(a).value, false), Slot(1) := Code(ToEntry(a).value, false)]
  {
    hide ParseListWide, PlanOf, Run, ExportableAll, ToEntry, Titled, PlainKey, TwoAccounts, Utf8.Encode;
    TwoAccountsRead(a, b, lossy);
    TitledIsEntry(ImportItem(0, ToEntry(a)));
    TitledIsEntry(ImportItem(0, ToEntry(b)));
    SharedIndexStoresTheWrongEntry(ToEntry(a).value, ToEntry(b).value, 0);
  }

  /**
   When the first account is one no key takes, the second is planned all the
   same, and the run reports it gone from the file and stores nothing.
   */
  lemma AListLosesAnEntry(a: Account, b: Account, lossy: bytes -> string)
    requires ExportableAll([a, b]) && forall s: string :: lossy(Utf8.Encode(s)) == s
    requires ToEntry(a).Err? && Titled(TwoItems(a, b)[1]).Ok?
    ensures ParseListWide(TwoAccounts(a, b), lossy) == Ok(WideFile(TwoItems(a, b), None))
    ensures var plan := PlanOf(TwoItems(a, b), EMPTY_MOLTO2);
            var rs := Run(TwoItems(a, b), plan, PlainKey(), map[]);
            && plan.rows[1].verdict == Add
            && rs.outcomes == [Failed(NoLongerInFile)] && rs.state == map[]
  {
    hide ParseListWide, PlanOf, Run, ExportableAll, ToEntry, Titled, PlainKey, TwoAccounts, Utf8.Encode;
    TwoAccountsRead(a, b, lossy);
    UnusableFirst(ImportItem(0, ToEntry(a)), ImportItem(0, ToEntry(b)));
  }

  lemma UnusableFirst(first: ImportItem, second: ImportItem)
    requires first.entry.Err? && Titled(second).Ok? && first.index == second.index
    ensures var file := [first, second];
            var plan, rs := PlanOf(file, EMPTY_MOLTO2), Run(file, PlanOf(file, EMPTY_MOLTO2), PlainKey(), map[]);
            && |plan.rows| == 2 && plan.rows[1].verdict == Add
            && rs.outcomes == [Failed(NoLongerInFile)] && rs.state == map[]
  {
    hide CheckParams, MoltoTitle, PlanRows, SlotInUse;
    var file, ask := [first, second], AskOf(EMPTY_MOLTO2);
    PlanRowsFirst(ask, file, Pass(map[], 0));
    PlanRowsFirst(ask, [second], Pass(map[], 0));
    assert file[1..] == [second] && [second][1..] == [];
    NoItems(ask, Pass(map[], 1));
    var plan := PlanOf(file, EMPTY_MOLTO2);
    NothingInUse(ask.names, 0);
    var row := plan.rows[1];
    assert plan.rows == [plan.rows[0], row] && !plan.rows[0].Writes() && row.Writes();
    assert plan.rows[1..] == [row] && [row][1..] == [];
    assert WritesOf([]) == [] && WritesOf([row]) == [row] && WritesOf(plan.rows) == [row];
    assert EntryFor(file, row.index) == None;
    hide PlanOf;
    assert RunTo(file, plan, [row], PlainKey(), map[], 0) == RunState(map[], [], None, []);
  }

  lemma TitledIsEntry(item: ImportItem)
    ensures Titled(item).Ok? ==> item.entry.Ok?
  {
    hide CheckParams, MoltoTitle;
  }

  lemma NothingInUse(names: set<StoredName>, slot: nat)
    requires names == {}
    ensures !SlotInUse(names, slot)
  {
  }

  /** An account with an issuer and a secret, and nothing else out of the ordinary. */
  function Plain(issuer: string, secret: bytes): Account {
    Account(secret, [], issuer, 1, 1, 2, 0)
  }

  lemma PlainEntry(issuer: string, secret: bytes)
    requires issuer != [] && secret != [] && |secret| < 128
    ensures ToEntry(Plain(issuer, secret)) == Ok(ImportEntry(Some(issuer), None, secret, Sha1, 6, Totp(30)))
  {
  }

  /** Such accounts exist: two that differ in issuer and secret. */
  lemma SuchAccountsExist()
    ensures var a, b := Plain("A", [1]), Plain("B", [2]);
            && ExportableAll([a, b]) && ToEntry(a) != ToEntry(b)
            && Titled(TwoItems(a, b)[0]) == Ok("A") && Titled(TwoItems(a, b)[1]) == Ok("B")
  {
    hide Utf8.Encode, ExportableAll, Titled, ToEntry, Exportable, FieldsOf, WriteFields;
    PlainEntry("A", [1]);
    PlainEntry("B", [2]);
    ShortText("A");
    ShortText("B");
    ShortText([]);
    SmallAccount(Plain("A", [1]));
    SmallAccount(Plain("B", [2]));
    SuchEntriesExist();
    BothExportable(Plain("A", [1]), Plain("B", [2]));
  }

  lemma ShortText(s: string)
    requires |s| <= 1
    ensures |Utf8.Encode(s)| < 128
  {
    Utf8.EncodeBound(s);
  }

  lemma BothExportable(a: Account, b: Account)
    requires forall x :: x in [a, b] ==> Exportable(x) && |WriteFields(FieldsOf(x))| < U64
    ensures ExportableAll([a, b])
  {
    hide Exportable, FieldsOf, WriteFields;
  }

  /** An account of short fields can be exported. */
  lemma SmallAccount(a: Account)
    requires |a.secret| < 128 && |Utf8.Encode(a.name)| < 128 && |Utf8.Encode(a.issuer)| < 128
    requires a.algorithm < 128 && a.digits < 128 && a.kind < 128 && a.counter < 128
    ensures Exportable(a) && |WriteFields(FieldsOf(a))| < U64
  {
    hide Utf8.Encode, WriteField;
    var fs := FieldsOf(a);
    forall f | f in fs ensures |WriteField(f)| <= 130 {
      SmallField(f);
    }
    SmallFields(fs);
  }

  lemma SmallField(f: Field)
    requires f.number < 8 && (f.Number? ==> f.value < 128) && (f.Data? ==> |f.data| < 128)
    ensures |WriteField(f)| <= 130
  {
  }

  lemma {:induction false} SmallFields(fs: seq<Field>)
    requires forall f :: f in fs ==> |WriteField(f)| <= 130
    ensures |WriteFields(fs)| <= 130 * |fs|
  {
    hide WriteField;
    if fs != [] {
      SmallFields(fs[1..]);
    }
  }
}
