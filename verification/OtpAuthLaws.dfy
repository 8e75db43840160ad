/**
 The narrow otpauth reader refines the wide one: exactly which URIs it takes,
 and with the same result.
 */
module OtpAuthLaws {
  import opened Prelude
  import opened Bytes
  import opened ImportModel
  import opened ImportPlan
  import opened Strings
  import opened Entries
  import opened OtpAuth
  import Base32
  import Utf8

  /** What a parameter itself must be for a Molto2, wherever it stands among others of its name. */
  predicate MoltoTakes(p: Param) {
    p.value.Some? ==>
      && (p.name == AlgorithmParam ==> MoltoHash(p.value.value).Some?)
      && (p.name == DigitsParam ==>
            ParseUnsigned(p.value.value, U32).Some? ==> MoltoDigits(ParseUnsigned(p.value.value, U32).value))
  }

  predicate AllTaken(params: seq<Param>) {
    forall i :: 0 <= i < |params| ==> MoltoTakes(params[i])
  }

  /** The two loops hold the same so far. */
  predicate Match(f: Found, g: Gathered) {
    && f.secret == g.secret && f.issuer == g.issuer && f.digits == g.digits && f.period == g.period
    && HashFromName(if g.algorithm.Some? then g.algorithm.value else "SHA1") == Ok(f.hash)
    && f.hash != Sha512 && MoltoDigits(f.digits)
    && g.malformed.None?
  }

  lemma DefaultsMatch()
    ensures Match(NOTHING_FOUND, NOTHING_GATHERED)
  {
    assert Upper("SHA1") == "SHA1";
  }

  lemma HashesAgree(name: string)
    ensures MoltoHash(name).Some? <==> HashFromName(name).Ok? && HashFromName(name).value != Sha512
    ensures MoltoHash(name).Some? ==> HashFromName(name) == Ok(MoltoHash(name).value)
  {
    hide Upper;
  }

  lemma StepsAgree(f: Found, g: Gathered, p: Param)
    requires Match(f, g)
    ensures Take(f, p).Ok? <==> Gather(g, p).malformed.None? && MoltoTakes(p)
    ensures Take(f, p).Ok? ==> Match(Take(f, p).value, Gather(g, p))
  {
    hide ParseUnsigned, HashFromName, MoltoHash, MoltoDigits, Match;
    MatchIs(f, g);
    if p.value.Some? {
      if p.name == AlgorithmParam {
        HashesAgree(p.value.value);
        if Take(f, p).Ok? {
          MatchIs(Take(f, p).value, Gather(g, p));
        }
      } else if p.name == DigitsParam {
        if Take(f, p).Ok? {
          MatchIs(Take(f, p).value, Gather(g, p));
        }
      } else if p.name == PeriodParam {
        if Take(f, p).Ok? {
          MatchIs(Take(f, p).value, Gather(g, p));
        }
      } else {
        MatchIs(Take(f, p).value, Gather(g, p));
      }
    }
  }

  lemma MatchIs(f: Found, g: Gathered)
    ensures Match(f, g) <==>
              && f.secret == g.secret && f.issuer == g.issuer && f.digits == g.digits && f.period == g.period
              && HashFromName(if g.algorithm.Some? then g.algorithm.value else "SHA1") == Ok(f.hash)
              && f.hash != Sha512 && MoltoDigits(f.digits)
              && g.malformed.None?
  {
    hide HashFromName;
  }

  lemma {:induction false} WrongStays(g: Gathered, params: seq<Param>)
    requires g.malformed.Some?
    ensures GatherAll(g, params).malformed == g.malformed
    decreases |params|
  {
    hide ParseUnsigned;
    if params != [] {
      WrongStays(Gather(g, params[0]), params[1..]);
    }
  }

  lemma {:induction false} LoopsAgree(f: Found, g: Gathered, params: seq<Param>)
    requires Match(f, g)
    ensures TakeAll(f, params).Ok? <==> GatherAll(g, params).malformed.None? && AllTaken(params)
    ensures TakeAll(f, params).Ok? ==> Match(TakeAll(f, params).value, GatherAll(g, params))
    decreases |params|
  {
    hide Take, Gather, MoltoTakes, HashFromName;
    if params != [] {
      var p, rest := params[0], params[1..];
      StepsAgree(f, g, p);
      assert AllTaken(params) <==> MoltoTakes(p) && AllTaken(rest) by {
        assert params == [p] + rest;
      }
      if Take(f, p).Ok? {
        LoopsAgree(Take(f, p).value, Gather(g, p), rest);
      } else if Gather(g, p).malformed.Some? {
        WrongStays(Gather(g, p), rest);
      }
    }
  }

  /** One entry as both readers give it. */
  predicate SameEntry(n: MoltoEntry, e: ImportEntry) {
    && n.issuer == e.issuer && n.account == e.account && n.secret == e.secret
    && n.hash == e.hash && n.digits == e.digits && e.kind == Totp(n.period)
  }

  /** What a Molto2 takes of an entry. */
  lemma MoltoParams(e: ImportEntry)
    ensures CheckParams(e, Molto2).None? <==>
              && e.kind.Totp? && (e.kind.period == 30 || e.kind.period == 60)
              && e.hash != Sha512 && MoltoDigits(e.digits) && |e.secret| <= 63
  {
    assert e.hash in {Sha1, Sha256} <==> e.hash != Sha512;
  }

  lemma EndsAgree(kind: string, text: string, f: Found, g: Gathered)
    requires Match(f, g)
    ensures var (labelIssuer, account) := SplitLabel(text);
            var issuer := NonEmpty(if g.issuer.Some? then g.issuer else labelIssuer);
            var w := Assemble(kind, issuer, NonEmpty(account), g);
            var n := Conclude(text, f);
            && (Upper(kind) == "TOTP" && n.Ok? <==> w.Ok? && CheckParams(w.value, Molto2).None?)
            && (Upper(kind) == "TOTP" && n.Ok? ==> SameEntry(n.value, w.value))
  {
    hide SplitLabel, Base32.Decode, HashFromName, Upper, CheckParams;
    var (labelIssuer, account) := SplitLabel(text);
    var issuer := NonEmpty(if g.issuer.Some? then g.issuer else labelIssuer);
    var w := Assemble(kind, issuer, NonEmpty(account), g);
    if w.Ok? {
      MoltoParams(w.value);
    }
    EmptyIsNoSecret();
    TypesDiffer(kind);
  }

  lemma EmptyIsNoSecret()
    ensures Base32.Decode([]) == Some([])
  {
  }

  lemma TypesDiffer(kind: string)
    ensures "TOTP" != "HOTP"
    ensures TypeFromName(kind) == Ok(TotpName) <==> Upper(kind) == "TOTP"
  {
    assert "TOTP"[0] != "HOTP"[0];
  }

  predicate ParamsAllTaken(uri: string) {
    SplitUri(uri).Ok? ==> AllTaken(QueryParams(SplitUri(uri).value.query))
  }

  /**
   The narrow reader takes a URI if and only if the wide one takes it, the
   Molto2 check finds nothing wrong, and every algorithm and digits parameter,
   even one a later parameter of the name replaces, is one a Molto2 has. Then
   both give the same issuer, account, secret, hash, digits and period.
   */
  lemma NarrowRefinesWide(uri: string)
    ensures var n, w := Parse(uri), ParseEntry(uri).1;
            && (n.Ok? <==> w.Ok? && CheckParams(w.value, Molto2).None? && ParamsAllTaken(uri))
            && (n.Ok? ==> SameEntry(n.value, w.value))
  {
    hide SplitUri, QueryParams, PercentDecode, Assemble, Conclude, CheckParams, Match, SplitLabel, AllTaken, Upper,
         TakeAll, GatherAll, NameLabel;
    if SplitUri(uri).Ok? {
      var parts := SplitUri(uri).value;
      var text := PercentDecode(parts.rawLabel, false);
      if text.Some? {
        var params := QueryParams(parts.query);
        DefaultsMatch();
        LoopsAgree(NOTHING_FOUND, NOTHING_GATHERED, params);
        var f, g := TakeAll(NOTHING_FOUND, params), GatherAll(NOTHING_GATHERED, params);
        if f.Ok? {
          EndsAgree(parts.kind, text.value, f.value, g);
        } else if g.malformed.Some? {
          MalformedIsRefused(parts.kind, g);
        }
      }
    }
  }

  lemma MalformedIsRefused(kind: string, g: Gathered)
    requires g.malformed.Some?
    ensures forall issuer: Option<string>, account: Option<string> :: Assemble(kind, issuer, account, g).Err?
  {
    hide TypeFromName;
  }

  // ----- Without repeats the wide reader and the check are enough

  /** Only one parameter has this name. */
  predicate Once(params: seq<Param>, name: ParamName) {
    forall i, j :: 0 <= i < j < |params| && params[i].name == name ==> params[j].name != name
  }

  predicate Has(params: seq<Param>, name: ParamName) {
    exists i :: 0 <= i < |params| && params[i].name == name
  }

  lemma {:induction false} OthersLeaveIt(g: Gathered, params: seq<Param>)
    ensures !Has(params, DigitsParam) ==> GatherAll(g, params).digits == g.digits
    ensures !Has(params, AlgorithmParam) ==> GatherAll(g, params).algorithm == g.algorithm
    decreases |params|
  {
    hide Gather, GatherAll, Has;
    if params == [] {
      GatherNone(g);
    } else {
      GatherOne(g, params);
      OneLeavesIt(g, params[0]);
      OthersLeaveIt(Gather(g, params[0]), params[1..]);
      HasAnyOf(params, DigitsParam);
      HasAnyOf(params, AlgorithmParam);
    }
  }

  lemma GatherNone(g: Gathered)
    ensures GatherAll(g, []) == g
  {
  }

  lemma OneLeavesIt(g: Gathered, p: Param)
    ensures p.name != DigitsParam ==> Gather(g, p).digits == g.digits
    ensures p.name != AlgorithmParam ==> Gather(g, p).algorithm == g.algorithm
  {
    hide ParseUnsigned;
  }

  lemma HasAnyOf(params: seq<Param>, name: ParamName)
    requires params != []
    ensures Has(params, name) <==> params[0].name == name || Has(params[1..], name)
  {
    var rest := params[1..];
    assert forall i :: 0 <= i < |rest| ==> rest[i] == params[i + 1];
    if Has(params, name) && params[0].name != name {
      var i :| 0 <= i < |params| && params[i].name == name;
      assert rest[i - 1].name == name;
    }
  }

  /** A parameter that stands alone is the one the wide reader judges. */
  lemma {:induction false} AloneIsJudged(g: Gathered, params: seq<Param>)
    requires Once(params, DigitsParam) && Once(params, AlgorithmParam)
    requires var end := GatherAll(g, params);
             && end.malformed.None? && MoltoDigits(end.digits)
             && (end.algorithm.Some? ==> MoltoHash(end.algorithm.value).Some?)
    ensures AllTaken(params)
    decreases |params|
  {
    hide ParseUnsigned, MoltoHash, MoltoDigits, GatherAll;
    if params != [] {
      var p, rest := params[0], params[1..];
      GatherOne(g, params);
      assert forall i :: 0 <= i < |rest| ==> rest[i] == params[i + 1];
      AloneIsJudged(Gather(g, p), rest);
      if p.name == DigitsParam || p.name == AlgorithmParam {
        assert !Has(rest, p.name);
        OthersLeaveIt(Gather(g, p), rest);
      }
      if Gather(g, p).malformed.Some? {
        WrongStays(Gather(g, p), rest);
      }
      assert MoltoTakes(p);
      forall i | 0 <= i < |params| ensures MoltoTakes(params[i]) {
        assert i > 0 ==> params[i] == rest[i - 1];
      }
    }
  }

  lemma GatherOne(g: Gathered, params: seq<Param>)
    requires params != []
    ensures GatherAll(g, params) == GatherAll(Gather(g, params[0]), params[1..])
  {
  }

  /**
   For a URI that gives algorithm and digits at most once, the narrow reader
   takes exactly what the wide one takes and the Molto2 check passes.
   */
  lemma NarrowIsWideAndChecked(uri: string)
    requires SplitUri(uri).Ok? ==>
               && Once(QueryParams(SplitUri(uri).value.query), DigitsParam)
               && Once(QueryParams(SplitUri(uri).value.query), AlgorithmParam)
    ensures Parse(uri).Ok? <==> ParseEntry(uri).1.Ok? && CheckParams(ParseEntry(uri).1.value, Molto2).None?
  {
    hide SplitUri, QueryParams, PercentDecode, Parse, CheckParams, SplitLabel, AllTaken, Once, NameLabel, HashFromName,
         Base32.Decode, TypeFromName, GatherAll, MoltoHash;
    NarrowRefinesWide(uri);
    var w := ParseEntry(uri).1;
    if w.Ok? && CheckParams(w.value, Molto2).None? {
      MoltoParams(w.value);
      var params := QueryParams(SplitUri(uri).value.query);
      var g := GatherAll(NOTHING_GATHERED, params);
      if g.algorithm.Some? {
        HashesAgree(g.algorithm.value);
      }
      AloneIsJudged(NOTHING_GATHERED, params);
    }
  }

  lemma OneDigit()
    ensures ParseUnsigned("5", U32) == Some(5) && ParseUnsigned("6", U32) == Some(6)
  {
    assert "5"[..0] == [] && "6"[..0] == [];
    assert ParseDecimal([]) == 0;
  }

  // ----- Percent-encoding

  function HexDigit(v: nat): byte
    requires v < 16
  {
    if v < 10 then 48 + v else 55 + v
  }

  /** Every byte escaped. */
  function Escape(b: bytes): bytes {
    if b == [] then [] else [37, HexDigit(b[0] / 16), HexDigit(b[0] % 16)] + Escape(b[1..])
  }

  /** What is escaped comes back, in a label or a query. */
  lemma {:induction false} UnescapeOfEscape(b: bytes, plusIsSpace: bool)
    ensures Unescape(Escape(b), plusIsSpace) == Some(b)
  {
    if b != [] {
      var e := Escape(b);
      assert e[3..] == Escape(b[1..]);
      UnescapeOfEscape(b[1..], plusIsSpace);
      UnescapeFirst(e, plusIsSpace);
      assert Joined(HexNibble(e[1]).value, HexNibble(e[2]).value) == b[0];
      assert [b[0]] + b[1..] == b;
    }
  }

  /** Text with no percent sign is itself in a label; in a query each plus becomes a space. */
  lemma {:induction false} UnescapePlain(b: bytes, plusIsSpace: bool)
    requires 37 !in b
    ensures var r := Unescape(b, plusIsSpace);
            && r.Some? && |r.value| == |b|
            && forall i :: 0 <= i < |b| ==> r.value[i] == if b[i] == 43 && plusIsSpace then 32 else b[i]
    decreases |b|
  {
    hide Unescape, HexNibble;
    if b == [] {
      NothingToUnescape(plusIsSpace);
    } else {
      UnescapePlain(b[1..], plusIsSpace);
      UnescapeFirst(b, plusIsSpace);
    }
  }

  lemma NothingToUnescape(plusIsSpace: bool)
    ensures Unescape([], plusIsSpace) == Some([])
  {
  }
}
