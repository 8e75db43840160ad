/**
 A text file of URIs, one a line: otpauth URIs, and the exports of another
 app, whose URI holds all of its accounts. The functions say what is read; the
 methods are the loops that read it.
 */
module UriLists {
  import opened Prelude
  import opened Bytes
  import opened ImportModel
  import opened Strings
  import opened Entries
  import opened Migration
  import OtpAuth
  import Base64

  // ----- One export URI

  const SCHEME := "otpauth-migration://"
  const OFFLINE := "otpauth-migration://offline"
  const DATA := "data="

  predicate IsMigrationUri(uri: string) {
    SCHEME <= TrimStart(uri)
  }

  /** What follows the prefix, if it is one. */
  function After(s: string, prefix: string): (rest: Option<string>)
    ensures rest.Some? <==> prefix <= s
  {
    if prefix <= s then Some(s[|prefix|..]) else None
  }

  /** The last value given for data. */
  function LastData(parts: seq<string>): Option<string> {
    if parts == [] then None
    else
      var last := |parts| - 1;
      if After(parts[last], DATA).Some? then After(parts[last], DATA) else LastData(parts[..last])
  }

  /** What follows the fixed part, with or without its question mark. */
  function QueryOf(rest: string): string {
    if rest != [] && rest[0] == '?' then rest[1..] else rest
  }

  /** The payload a URI holds: its last data value, percent-decoded with each plus kept, then base64. */
  function DecodeUri(uri: string): Result<bytes, BulkError> {
    match After(Trim(uri), OFFLINE)
    case None => Err(NotOffline)
    case Some(rest) =>
      match LastData(Split(QueryOf(rest), '&'))
      case None => Err(NoData)
      case Some(data) => Payload64(data)
  }

  function Payload64(data: string): Result<bytes, BulkError> {
    match OtpAuth.PercentDecode(data, false)
    case None => Err(BadEscape)
    case Some(text) =>
      match Base64.Decode(text)
      case None => Err(BadBase64)
      case Some(payload) => Ok(payload)
  }

  function ParseUri(uri: string, lossy: bytes -> string): Result<Migration, BulkError> {
    var payload :- DecodeUri(uri);
    ParsePayload(payload, lossy)
  }

  function ParseUriWide(uri: string, lossy: bytes -> string): Result<WideFile, BulkError> {
    var payload :- DecodeUri(uri);
    ParsePayloadWide(payload, lossy)
  }

  // ----- The list

  function WithoutReturn(line: string): string {
    if line != [] && line[|line| - 1] == '\r' then line[..|line| - 1] else line
  }

  /** `str::lines`: ended by a line feed, or a carriage return and one; nothing after the last is no line. */
  function Lines(text: string): seq<string> {
    var parts := Split(text, '\n');
    var last := |parts| - 1;
    seq(last, i requires 0 <= i < last => WithoutReturn(parts[i])) + if parts[last] == [] then [] else [parts[last]]
  }

  /** Neither blank nor a comment. */
  predicate Content(line: string) {
    line != [] && line[0] != '#'
  }

  const UNREADABLE := Malformed("the Google Authenticator export couldn't be read")

  /** The same items, all under the line's number. */
  function Numbered(items: ImportFile, i: nat): (numbered: ImportFile)
    ensures |numbered| == |items|
  {
    seq(|items|, k requires 0 <= k < |items| => items[k].(index := i))
  }

  /** What a line adds: an export's items, or one item. */
  function LineFile(line: string, i: nat, lossy: bytes -> string): Result<WideFile, BulkError> {
    if IsMigrationUri(line) then
      match ParseUriWide(line, lossy)
      case Ok(file) => Ok(WideFile(Numbered(file.items, i), file.batch))
      case Err(TooManyEntries) => Err(TooManyEntries)
      case Err(_) => Ok(WideFile([ImportItem(i, Err(UNREADABLE))], None))
    else Ok(WideFile([ImportItem(i, OtpAuth.ParseEntry(line).1)], None))
  }

  /** One more line: nothing when it is blank or a comment, too many past the limit. */
  function AddLine(so: WideFile, raw: string, i: nat, lossy: bytes -> string): Result<WideFile, BulkError> {
    var line := Trim(raw);
    if !Content(line) then Ok(so)
    else if |so.items| >= MAX_ENTRIES then Err(TooManyEntries)
    else
      var file :- LineFile(line, i, lossy);
      if |so.items| + |file.items| > MAX_ENTRIES then Err(TooManyEntries)
      else Ok(WideFile(so.items + file.items, if so.batch.Some? then so.batch else file.batch))
  }

  /** The first `n` lines. */
  function ReadTo(lines: seq<string>, n: nat, lossy: bytes -> string): Result<WideFile, BulkError>
    requires n <= |lines|
  {
    if n == 0 then Ok(WideFile([], None)) else
    var so :- ReadTo(lines, n - 1, lossy);
    AddLine(so, lines[n - 1], n - 1, lossy)
  }

  function ParseListWide(text: string, lossy: bytes -> string): Result<WideFile, BulkError> {
    var lines := Lines(text);
    var file :- ReadTo(lines, |lines|, lossy);
    if file.items == [] then Err(EmptyFile) else Ok(file)
  }

  // ----- The loops

  /** The loop over a query's parts keeps the last data value. */
  method ReadUri(given: string) returns (r: Result<bytes, BulkError>)
    ensures r == DecodeUri(given)
  {
    hide Split, OtpAuth.PercentDecode, Base64.Decode, Trim;
    var uri := Trim(given);
    if !(OFFLINE <= uri) {
      return Err(NotOffline);
    }
    var parts := Split(QueryOf(uri[|OFFLINE|..]), '&');
    var data: Option<string> := None;
    for i := 0 to |parts|
      invariant data == LastData(parts[..i])
    {
      assert parts[..i + 1][..i] == parts[..i];
      if DATA <= parts[i] {
        data := Some(parts[i][|DATA|..]);
      }
    }
    assert parts[..|parts|] == parts;
    if data.None? {
      return Err(NoData);
    }
    var text := OtpAuth.PercentDecode(data.value, false);
    if text.None? {
      return Err(BadEscape);
    }
    var payload := Base64.DecodeLoop(text.value);
    return if payload.Some? then Ok(payload.value) else Err(BadBase64);
  }

  /** The loop over the lines, which stops at the first line past the limit. */
  method ReadList(text: string, lossy: bytes -> string) returns (r: Result<WideFile, BulkError>)
    ensures r == ParseListWide(text, lossy)
  {
    hide Lines, Trim, ReadTo, ParseUriWide, OtpAuth.ParseEntry, TrimStart;
    var lines := Lines(text);
    var items: ImportFile, batch: Option<(nat, nat)> := [], None;
    NoLines(lines, lossy);
    for i := 0 to |lines|
      invariant ReadTo(lines, i, lossy) == Ok(WideFile(items, batch))
    {
      OneLine(lines, i, lossy);
      var line := Trim(lines[i]);
      if Content(line) {
        if |items| >= MAX_ENTRIES {
          StopsThere(lines, i + 1, |lines|, lossy);
          return Err(TooManyEntries);
        }
        if IsMigrationUri(line) {
          var file := ParseUriWide(line, lossy);
          match file {
            case Err(e) =>
              if e == TooManyEntries {
                StopsThere(lines, i + 1, |lines|, lossy);
                return Err(e);
              }
              items := items + [ImportItem(i, Err(UNREADABLE))];
            case Ok(f) =>
              if |items| + |f.items| > MAX_ENTRIES {
                StopsThere(lines, i + 1, |lines|, lossy);
                return Err(TooManyEntries);
              }
              batch := if batch.Some? then batch else f.batch;
              items := items + Numbered(f.items, i);
          }
        } else {
          items := items + [ImportItem(i, OtpAuth.ParseEntry(line).1)];
        }
      }
    }
    return if items == [] then Err(EmptyFile) else Ok(WideFile(items, batch));
  }

  lemma NoLines(lines: seq<string>, lossy: bytes -> string)
    ensures ReadTo(lines, 0, lossy) == Ok(WideFile([], None))
  {
  }

  lemma OneLine(lines: seq<string>, i: nat, lossy: bytes -> string)
    requires i < |lines|
    ensures ReadTo(lines, i + 1, lossy)
         == match ReadTo(lines, i, lossy)
            case Ok(so) => AddLine(so, lines[i], i, lossy)
            case Err(e) => Err(e)
  {
    hide AddLine;
  }

  /** An error is the list's. */
  lemma {:induction false} StopsThere(lines: seq<string>, m: nat, n: nat, lossy: bytes -> string)
    requires m <= n <= |lines| && ReadTo(lines, m, lossy).Err?
    ensures ReadTo(lines, n, lossy) == ReadTo(lines, m, lossy)
    decreases n - m
  {
    hide AddLine;
    if m < n {
      StopsThere(lines, m, n - 1, lossy);
    }
  }
}
