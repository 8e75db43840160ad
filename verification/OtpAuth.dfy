/**
 The two readers of an otpauth URI: Parse, which takes only what a Molto2
 stores, and ParseEntry, which takes what any key might. The functions say
 what is read; the methods are the loops that read it.
 */
module OtpAuth {
  import opened Prelude
  import opened Bytes
  import opened ImportModel
  import opened Strings
  import opened Entries
  import opened ImportPlan
  import Base32
  import Utf8

  // ----- The parts of the URI

  datatype UriParts = UriParts(kind: string, rawLabel: string, query: string)

  datatype SplitError = NotOtpAuthUri | NoLabel

  function SplitUri(uri: string): Result<UriParts, SplitError> {
    if !("otpauth://" <= uri) then Err(NotOtpAuthUri) else
    var rest := uri[10..];
    var (front, query) := if SplitOnce(rest, '?').Some? then SplitOnce(rest, '?').value else (rest, []);
    match SplitOnce(front, '/')
    case None => Err(NoLabel)
    case Some((kind, rawLabel)) => Ok(UriParts(kind, rawLabel, query))
  }

  function HexNibble(c: byte): (v: Option<nat>)
    ensures v.Some? ==> v.value < 16
  {
    if 48 <= c <= 57 then Some(c - 48)
    else if 97 <= c <= 102 then Some(c - 87)
    else if 65 <= c <= 70 then Some(c - 55)
    else None
  }

  function Joined(hi: nat, lo: nat): nat {
    16 * hi + lo
  }

  /** Percent-decoding of bytes; a plus is a space in a query only. */
  function Unescape(b: bytes, plusIsSpace: bool): Option<bytes> {
    if b == [] then Some([])
    else if b[0] == 37 then
      if |b| < 3 then None else
      var hi :- HexNibble(b[1]);
      var lo :- HexNibble(b[2]);
      var rest :- Unescape(b[3..], plusIsSpace);
      Some([Joined(hi, lo)] + rest)
    else
      var rest :- Unescape(b[1..], plusIsSpace);
      Some([if b[0] == 43 && plusIsSpace then 32 else b[0]] + rest)
  }

  function PercentDecode(s: string, plusIsSpace: bool): Option<string> {
    var raw :- Unescape(Utf8.Encode(s), plusIsSpace);
    Utf8.Decode(raw)
  }

  /** A parameter: its name, and its value unless the percent-encoding is bad. */
  datatype Param = Param(name: ParamName, value: Option<string>)

  /** The parameters either reader knows. */
  datatype ParamName =
    | SecretParam
    | IssuerParam
    | AlgorithmParam
    | DigitsParam
    | PeriodParam
    | CounterParam
    | OtherParam

  function NameOf(k: string): ParamName {
    if k == "secret" then SecretParam
    else if k == "issuer" then IssuerParam
    else if k == "algorithm" then AlgorithmParam
    else if k == "digits" then DigitsParam
    else if k == "period" then PeriodParam
    else if k == "counter" then CounterParam
    else OtherParam
  }

  function ParamOf(pair: string): Param {
    var (k, v) := if SplitOnce(pair, '=').Some? then SplitOnce(pair, '=').value else (pair, []);
    Param(NameOf(k), PercentDecode(v, true))
  }

  function ParamsOf(pairs: seq<string>): seq<Param> {
    if pairs == [] then []
    else (if pairs[0] == [] then [] else [ParamOf(pairs[0])]) + ParamsOf(pairs[1..])
  }

  function QueryParams(query: string): seq<Param> {
    ParamsOf(Split(query, '&'))
  }

  // ----- What a Molto2 stores

  datatype OtpAuthError =
    | NotOtpAuth
    | UnsupportedType(name: string)
    | MissingSecret
    | InvalidSecret
    | UnsupportedAlgorithm(name: string)
    | UnsupportedDigits(digits: nat)
    | UnsupportedPeriod(period: nat)
    | MalformedUri(what: string)

  datatype MoltoEntry = MoltoEntry(
    issuer: Option<string>, account: Option<string>, secret: bytes, hash: HashAlg, digits: nat, period: nat)

  datatype Found = Found(secret: Option<string>, issuer: Option<string>, hash: HashAlg, digits: nat, period: nat)

  const NOTHING_FOUND := Found(None, None, Sha1, 6, 30)

  /** The hash a Molto2 has by this name. */
  function MoltoHash(name: string): Option<HashAlg> {
    if Upper(name) == "SHA1" then Some(Sha1) else if Upper(name) == "SHA256" then Some(Sha256) else None
  }

  function Take(f: Found, p: Param): Result<Found, OtpAuthError> {
    if p.value.None? then Err(MalformedUri("query value percent-encoding")) else
    var v := p.value.value;
    if p.name == SecretParam then Ok(f.(secret := Some(v)))
    else if p.name == IssuerParam then Ok(f.(issuer := Some(v)))
    else if p.name == AlgorithmParam then
      if MoltoHash(v).Some? then Ok(f.(hash := MoltoHash(v).value)) else Err(UnsupportedAlgorithm(Upper(v)))
    else if p.name == DigitsParam then
      match ParseUnsigned(v, U32)
      case None => Err(MalformedUri("digits"))
      case Some(n) => if MoltoDigits(n) then Ok(f.(digits := n)) else Err(UnsupportedDigits(n))
    else if p.name == PeriodParam then
      match ParseUnsigned(v, U32)
      case None => Err(MalformedUri("period"))
      case Some(n) => Ok(f.(period := n))
    else Ok(f)
  }

  function TakeAll(f: Found, params: seq<Param>): Result<Found, OtpAuthError>
    decreases |params|
  {
    if params == [] then Ok(f) else
    var next :- Take(f, params[0]);
    TakeAll(next, params[1..])
  }

  /** After the parameters: the period, the secret, the names. */
  function Conclude(text: string, f: Found): Result<MoltoEntry, OtpAuthError> {
    if f.period != 30 && f.period != 60 then Err(UnsupportedPeriod(f.period))
    else if f.secret.None? then Err(MissingSecret)
    else
      var secret := Base32.Decode(f.secret.value);
      if secret.None? || secret.value == [] || |secret.value| > 63 then Err(InvalidSecret)
      else
        var (labelIssuer, account) := SplitLabel(text);
        var issuer := if f.issuer.Some? then f.issuer else labelIssuer;
        Ok(MoltoEntry(NonEmpty(issuer), NonEmpty(account), secret.value, f.hash, f.digits, f.period))
  }

  function Parse(uri: string): Result<MoltoEntry, OtpAuthError> {
    match SplitUri(uri)
    case Err(NotOtpAuthUri) => Err(NotOtpAuth)
    case Err(NoLabel) => Err(MalformedUri("missing label"))
    case Ok(parts) =>
      if Upper(parts.kind) != "TOTP" then Err(UnsupportedType(parts.kind)) else
      var text := PercentDecode(parts.rawLabel, false);
      if text.None? then Err(MalformedUri("label percent-encoding")) else
      var f :- TakeAll(NOTHING_FOUND, QueryParams(parts.query));
      Conclude(text.value, f)
  }

  // ----- What any key might store

  datatype Gathered = Gathered(
    secret: Option<string>, issuer: Option<string>, algorithm: Option<string>, digits: nat, period: nat,
    counter: nat, badCounter: bool, malformed: Option<string>)

  const NOTHING_GATHERED := Gathered(None, None, None, 6, 30, 0, false, None)

  /** The first thing found wrong is kept. */
  function Wrong(g: Gathered, what: string): Gathered {
    if g.malformed.Some? then g else g.(malformed := Some(what))
  }

  function Gather(g: Gathered, p: Param): Gathered {
    if p.value.None? then Wrong(g, "a parameter's percent-encoding is invalid") else
    var v := p.value.value;
    if p.name == SecretParam then g.(secret := Some(v))
    else if p.name == IssuerParam then g.(issuer := Some(v))
    else if p.name == AlgorithmParam then g.(algorithm := Some(v))
    else if p.name == DigitsParam then
      match ParseUnsigned(v, U32)
      case None => Wrong(g, "the digits value isn't a number")
      case Some(n) => g.(digits := n)
    else if p.name == PeriodParam then
      match ParseUnsigned(v, U32)
      case None => Wrong(g, "the period value isn't a number")
      case Some(n) => g.(period := n)
    else if p.name == CounterParam then
      match ParseUnsigned(v, U64)
      case None => g.(badCounter := true)
      case Some(n) => g.(counter := n)
    else g
  }

  function GatherAll(g: Gathered, params: seq<Param>): Gathered
    decreases |params|
  {
    if params == [] then g else GatherAll(Gather(g, params[0]), params[1..])
  }

  /** The entry: type, syntax, secret, hash, then the rest. */
  function Assemble(kind: string, issuer: Option<string>, account: Option<string>, g: Gathered)
    : Result<ImportEntry, Unusable>
  {
    var name :- TypeFromName(kind);
    if g.malformed.Some? then Err(Malformed(g.malformed.value))
    else if g.badCounter && name == HotpName then Err(Malformed("the counter value isn't a number"))
    else
      var secret :- DecodeSecret(if g.secret.Some? then g.secret.value else []);
      var hash :- HashFromName(if g.algorithm.Some? then g.algorithm.value else "SHA1");
      Finish(issuer, account, secret, hash, g.digits, if name == TotpName then Totp(g.period) else Hotp(g.counter))
  }

  /** The name the URI carries, and the entry. */
  function ParseEntry(uri: string): (Option<string>, Result<ImportEntry, Unusable>) {
    match SplitUri(uri)
    case Err(NotOtpAuthUri) => (None, Err(Malformed("not an otpauth:// URI")))
    case Err(NoLabel) => (None, Err(Malformed("the URI has no label")))
    case Ok(parts) =>
      var text := PercentDecode(parts.rawLabel, false);
      if text.None? then (None, Err(Malformed("the label's percent-encoding is invalid"))) else
      var (labelIssuer, account) := SplitLabel(text.value);
      var g := GatherAll(NOTHING_GATHERED, QueryParams(parts.query));
      var issuer := NonEmpty(if g.issuer.Some? then g.issuer else labelIssuer);
      (NameLabel(issuer, NonEmpty(account)), Assemble(parts.kind, issuer, NonEmpty(account), g))
  }

  // ----- The loops

  method UnescapeLoop(b: bytes, plusIsSpace: bool) returns (r: Option<bytes>)
    ensures r == Unescape(b, plusIsSpace)
  {
    var out: bytes, i: nat := [], 0;
    assert b[0..] == b;
    PrependNothing<byte>(Unescape(b, plusIsSpace));
    while i < |b|
      invariant i <= |b|
      invariant Unescape(b, plusIsSpace) == Prepend<byte>(out, Unescape(b[i..], plusIsSpace))
    {
      hide HexNibble, Unescape, Prepend;
      ghost var left := b[i..];
      assert left[0] == b[i] && left[1..] == b[i + 1..];
      assert i + 3 <= |b| ==> left[1] == b[i + 1] && left[2] == b[i + 2] && left[3..] == b[i + 3..];
      UnescapeFirst(left, plusIsSpace);
      PrependNone<byte>(out);
      var c: byte;
      if b[i] == 43 && plusIsSpace {
        c := 32;
        PrependTwice<byte>(out, [c], Unescape(left[1..], plusIsSpace));
        i := i + 1;
      } else if b[i] == 37 {
        if i + 2 >= |b| {
          return None;
        }
        var hi, lo := HexNibble(b[i + 1]), HexNibble(b[i + 2]);
        if hi.None? || lo.None? {
          return None;
        }
        c := Joined(hi.value, lo.value);
        PrependTwice<byte>(out, [c], Unescape(left[3..], plusIsSpace));
        i := i + 3;
      } else {
        c := b[i];
        PrependTwice<byte>(out, [c], Unescape(left[1..], plusIsSpace));
        i := i + 1;
      }
      out := out + [c];
    }
    assert b[i..] == [];
    assert out + [] == out;
    r := Some(out);
  }

  /** What the first byte, or the first escape, becomes. */
  lemma UnescapeFirst(b: bytes, plusIsSpace: bool)
    requires b != []
    ensures Unescape(b, plusIsSpace) ==
              if b[0] != 37 then
                Prepend<byte>([if b[0] == 43 && plusIsSpace then 32 else b[0]], Unescape(b[1..], plusIsSpace))
              else if |b| < 3 || HexNibble(b[1]).None? || HexNibble(b[2]).None? then None
              else Prepend<byte>([Joined(HexNibble(b[1]).value, HexNibble(b[2]).value)], Unescape(b[3..], plusIsSpace))
  {
    hide HexNibble;
  }

  method ReadNarrow(uri: string) returns (r: Result<MoltoEntry, OtpAuthError>)
    ensures r == Parse(uri)
  {
    hide SplitUri, QueryParams, Conclude, PercentDecode, ParseUnsigned, MoltoHash, Upper;
    var split := SplitUri(uri);
    if split.Err? {
      return Err(if split.error == NotOtpAuthUri then NotOtpAuth else MalformedUri("missing label"));
    }
    var parts := split.value;
    if Upper(parts.kind) != "TOTP" {
      return Err(UnsupportedType(parts.kind));
    }
    var text := PercentDecode(parts.rawLabel, false);
    if text.None? {
      return Err(MalformedUri("label percent-encoding"));
    }
    var params := QueryParams(parts.query);
    var secret: Option<string>, issuer: Option<string> := None, None;
    var hash, digits: nat, period: nat := Sha1, 6, 30;
    assert params[0..] == params;
    for i := 0 to |params|
      invariant TakeAll(NOTHING_FOUND, params) == TakeAll(Found(secret, issuer, hash, digits, period), params[i..])
    {
      ghost var left := params[i..];
      assert left[0] == params[i] && left[1..] == params[i + 1..];
      ghost var f := Found(secret, issuer, hash, digits, period);
      var k := params[i].name;
      if params[i].value.None? {
        assert Take(f, left[0]).Err?;
        return Err(MalformedUri("query value percent-encoding"));
      }
      var v := params[i].value.value;
      if k == SecretParam {
        secret := Some(v);
      } else if k == IssuerParam {
        issuer := Some(v);
      } else if k == AlgorithmParam {
        var known := MoltoHash(v);
        if known.None? {
          assert Take(f, left[0]).Err?;
          return Err(UnsupportedAlgorithm(Upper(v)));
        }
        hash := known.value;
      } else if k == DigitsParam {
        var n := ParseUnsigned(v, U32);
        if n.None? {
          assert Take(f, left[0]).Err?;
          return Err(MalformedUri("digits"));
        }
        if !MoltoDigits(n.value) {
          assert Take(f, left[0]).Err?;
          return Err(UnsupportedDigits(n.value));
        }
        digits := n.value;
      } else if k == PeriodParam {
        var n := ParseUnsigned(v, U32);
        if n.None? {
          assert Take(f, left[0]).Err?;
          return Err(MalformedUri("period"));
        }
        period := n.value;
      }
      assert Take(f, left[0]) == Ok(Found(secret, issuer, hash, digits, period));
    }
    assert params[|params|..] == [];
    r := Conclude(text.value, Found(secret, issuer, hash, digits, period));
  }

  method ReadWide(uri: string) returns (name: Option<string>, entry: Result<ImportEntry, Unusable>)
    ensures (name, entry) == ParseEntry(uri)
  {
    hide SplitUri, QueryParams, Assemble, PercentDecode, ParseUnsigned, SplitLabel, NameLabel;
    var split := SplitUri(uri);
    if split.Err? {
      var what := if split.error == NotOtpAuthUri then "not an otpauth:// URI" else "the URI has no label";
      return None, Err(Malformed(what));
    }
    var parts := split.value;
    var text := PercentDecode(parts.rawLabel, false);
    if text.None? {
      return None, Err(Malformed("the label's percent-encoding is invalid"));
    }
    var (labelIssuer, account) := SplitLabel(text.value);
    var params := QueryParams(parts.query);
    var g := NOTHING_GATHERED;
    assert params[0..] == params;
    for i := 0 to |params|
      invariant GatherAll(NOTHING_GATHERED, params) == GatherAll(g, params[i..])
    {
      ghost var left := params[i..];
      assert left[0] == params[i] && left[1..] == params[i + 1..];
      g := Gather(g, params[i]);
    }
    assert params[|params|..] == [];
    var issuer := NonEmpty(if g.issuer.Some? then g.issuer else labelIssuer);
    name := NameLabel(issuer, NonEmpty(account));
    entry := Assemble(parts.kind, issuer, NonEmpty(account), g);
  }
}
