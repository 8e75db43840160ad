/** An otpauth URI as the format describes it, and that the wide reader gives back what was written. */
module OtpAuthWrites {
  import opened Prelude
  import opened Bytes
  import opened ImportModel
  import opened Strings
  import opened Entries
  import opened OtpAuth
  import opened OtpAuthLaws
  import Base32
  import ImportPlan
  import Utf8

  // ----- Escaping

  /** Bytes below 128 as text. */
  function AsText(b: bytes): (s: string)
    ensures |s| == |b|
  {
    seq(|b|, i requires 0 <= i < |b| => b[i] as char)
  }

  lemma {:induction false} AsciiEncodes(b: bytes)
    requires forall i :: 0 <= i < |b| ==> b[i] < 128
    ensures Utf8.Encode(AsText(b)) == b
  {
    hide Utf8.Encode;
    if b == [] {
      Utf8.EncodeNothing();
      assert AsText(b) == [];
    } else {
      AsciiEncodes(b[1..]);
      Utf8.EncodeFirst(AsText(b));
      assert AsText(b)[1..] == AsText(b[1..]);
      assert Utf8.EncodeChar(AsText(b)[0]) == [b[0]];
    }
  }

  function EscapeText(s: string): string {
    AsText(Escape(Utf8.Encode(s)))
  }

  predicate EscapeByte(c: int) {
    c == 37 || 48 <= c <= 57 || 65 <= c <= 70
  }

  lemma {:induction false} EscapedIsPlain(b: bytes)
    ensures forall i :: 0 <= i < |Escape(b)| ==> EscapeByte(Escape(b)[i])
  {
    if b != [] {
      EscapedIsPlain(b[1..]);
    }
  }

  /** Escaped text has none of the characters that part a URI, and decodes to the text. */
  lemma EscapedReadsBack(s: string, plusIsSpace: bool)
    ensures PercentDecode(EscapeText(s), plusIsSpace) == Some(s)
    ensures forall c :: c in EscapeText(s) ==> EscapeByte(c as int)
  {
    hide Utf8.Encode, Utf8.Decode, Escape, Unescape;
    var b := Utf8.Encode(s);
    EscapedIsPlain(b);
    AsciiEncodes(Escape(b));
    UnescapeOfEscape(b, plusIsSpace);
    Utf8.DecodeOfEncode(s);
  }

  // ----- The URI

  type Pair = (string, string)

  function WriteParam(p: Pair): string {
    p.0 + "=" + EscapeText(p.1)
  }

  function WriteQuery(ps: seq<Pair>): string {
    if ps == [] then []
    else if |ps| == 1 then WriteParam(ps[0])
    else WriteParam(ps[0]) + "&" + WriteQuery(ps[1..])
  }

  function WriteUri(kind: string, text: string, ps: seq<Pair>): string {
    "otpauth://" + kind + "/" + EscapeText(text) + "?" + WriteQuery(ps)
  }

  /** A parameter name with none of the characters that part a query. */
  predicate PlainName(k: string) {
    '=' !in k && '&' !in k
  }

  lemma PartsReadBack(kind: string, text: string, ps: seq<Pair>)
    requires '?' !in kind && '/' !in kind
    ensures SplitUri(WriteUri(kind, text, ps)) == Ok(UriParts(kind, EscapeText(text), WriteQuery(ps)))
  {
    hide EscapeText, WriteQuery, SplitOnce;
    EscapedReadsBack(text, false);
    var front, query := kind + "/" + EscapeText(text), WriteQuery(ps);
    assert WriteUri(kind, text, ps) == "otpauth://" + (front + ['?'] + query);
    SplitOnceAt(front, '?', query);
    SplitOnceAt(kind, '/', EscapeText(text));
    assert front == kind + ['/'] + EscapeText(text);
    assert ("otpauth://" + (front + ['?'] + query))[10..] == front + ['?'] + query;
  }

  lemma ParamReadsBack(p: Pair)
    requires PlainName(p.0)
    ensures WriteParam(p) != [] && '&' !in WriteParam(p)
    ensures ParamOf(WriteParam(p)) == Param(NameOf(p.0), Some(p.1))
  {
    hide EscapeText, SplitOnce, NameOf, PercentDecode;
    EscapedReadsBack(p.1, true);
    SplitOnceAt(p.0, '=', EscapeText(p.1));
    assert WriteParam(p) == p.0 + ['='] + EscapeText(p.1);
  }

  function Read(ps: seq<Pair>): seq<Param> {
    if ps == [] then [] else [Param(NameOf(ps[0].0), Some(ps[0].1))] + Read(ps[1..])
  }

  /** The parameters are read in the order they were written. */
  lemma {:induction false} QueryReadsBack(ps: seq<Pair>)
    requires forall p :: p in ps ==> PlainName(p.0)
    ensures QueryParams(WriteQuery(ps)) == Read(ps)
    decreases |ps|
  {
    hide WriteParam, ParamOf, SplitOnce, NameOf, ParamsOf, Split;
    if ps == [] {
      SplitWhole([]);
      OnePart([]);
    } else {
      ParamReadsBack(ps[0]);
      var first := WriteParam(ps[0]);
      if |ps| == 1 {
        SplitWhole(first);
        OnePart(first);
        assert ps[1..] == [];
      } else {
        var rest := WriteQuery(ps[1..]);
        QueryReadsBack(ps[1..]);
        SplitOnceAt(first, '&', rest);
        assert WriteQuery(ps) == first + ['&'] + rest;
        SplitNext(first, rest);
        FirstPart(first, Split(rest, '&'));
      }
    }
  }

  lemma SplitWhole(s: string)
    requires '&' !in s
    ensures Split(s, '&') == [s]
  {
    hide SplitOnce;
  }

  lemma SplitNext(first: string, rest: string)
    requires SplitOnce(first + ['&'] + rest, '&') == Some((first, rest))
    ensures Split(first + ['&'] + rest, '&') == [first] + Split(rest, '&')
  {
    hide SplitOnce;
  }

  lemma FirstPart(first: string, rest: seq<string>)
    requires first != []
    ensures ParamsOf([first] + rest) == [ParamOf(first)] + ParamsOf(rest)
  {
    hide ParamOf;
    assert ([first] + rest)[1..] == rest;
  }

  lemma OnePart(s: string)
    ensures ParamsOf([s]) == if s == [] then [] else [ParamOf(s)]
  {
    hide ParamOf;
    assert [s][1..] == [];
  }

  // ----- An entry

  function HashName(h: HashAlg): string {
    match h
    case Sha1 => "SHA1"
    case Sha256 => "SHA256"
    case Sha512 => "SHA512"
  }

  /** The parameters of an entry whose secret is spelled `secret`. */
  function ParamsOfEntry(e: ImportEntry, secret: string): seq<Pair> {
    [("secret", secret), ("algorithm", HashName(e.hash)), ("digits", Decimal(e.digits)),
     if e.kind.Totp? then ("period", Decimal(e.kind.period)) else ("counter", Decimal(e.kind.counter))]
    + if e.issuer.Some? then [("issuer", e.issuer.value)] else []
  }

  function UriOfEntry(e: ImportEntry, secret: string): string {
    WriteUri(if e.kind.Totp? then "totp" else "hotp", if e.account.Some? then e.account.value else [],
             ParamsOfEntry(e, secret))
  }

  /** An entry a URI can carry: the account is the label, so it has no colon and no space around it. */
  predicate Carriable(e: ImportEntry) {
    && 1 <= |e.secret| <= MAX_SECRET_BYTES
    && 1 <= e.digits <= 10
    && (e.kind.Totp? ==> 1 <= e.kind.period < U32)
    && (e.kind.Hotp? ==> e.kind.counter < U64)
    && (e.issuer.Some? ==> e.issuer.value != [])
    && (e.account.Some? ==>
          e.account.value != [] && ':' !in e.account.value && Trim(e.account.value) == e.account.value)
  }

  predicate Carried(e: ImportEntry, secret: string) {
    Carriable(e) && Base32.Decode(secret) == Some(e.secret)
  }

  lemma DecimalReadsBack(n: nat, bound: nat)
    requires n < bound
    ensures ParseUnsigned(Decimal(n), bound) == Some(n)
  {
    hide Decimal, ParseDecimal;
    ParseOfDecimal(n);
    assert IsDigit(Decimal(n)[0]);
  }

  lemma HashNameReadsBack(h: HashAlg)
    ensures HashFromName(HashName(h)) == Ok(h)
  {
    assert Upper("SHA1") == "SHA1" && Upper("SHA256") == "SHA256" && Upper("SHA512") == "SHA512";
  }

  lemma KindReadsBack()
    ensures TypeFromName("totp") == Ok(TotpName) && TypeFromName("hotp") == Ok(HotpName)
  {
    assert Upper("totp") == "TOTP" && Upper("hotp") == "HOTP";
    assert "TOTP"[0] != "HOTP"[0];
  }

  lemma ParamNames()
    ensures NameOf("secret") == SecretParam && NameOf("issuer") == IssuerParam && NameOf("algorithm") == AlgorithmParam
    ensures NameOf("digits") == DigitsParam && NameOf("period") == PeriodParam && NameOf("counter") == CounterParam
    ensures PlainName("secret") && PlainName("issuer") && PlainName("algorithm")
    ensures PlainName("digits") && PlainName("period") && PlainName("counter")
  {
    assert "secret"[0] == 's' && "issuer"[0] == 'i' && "algorithm"[0] == 'a' && "digits"[0] == 'd';
    assert "period"[0] == 'p' && "counter"[0] == 'c';
  }

  /** What the parameters of an entry leave gathered. */
  lemma EntryIsGathered(e: ImportEntry, secret: string)
    requires Carried(e, secret)
    ensures GatherAll(NOTHING_GATHERED, Read(ParamsOfEntry(e, secret)))
         == Gathered(Some(secret), e.issuer, Some(HashName(e.hash)), e.digits,
                     if e.kind.Totp? then e.kind.period else 30, if e.kind.Hotp? then e.kind.counter else 0,
                     false, None)
  {
    hide ParseUnsigned, HashName, Decimal, NameOf, Read, GatherAll, Base32.Decode, Trim, Gather;
    ParamNames();
    var ps := ParamsOfEntry(e, secret);
    DecimalReadsBack(e.digits, U32);
    if e.kind.Totp? {
      DecimalReadsBack(e.kind.period, U32);
    } else {
      DecimalReadsBack(e.kind.counter, U64);
    }
    var g1 := GatherWritten(NOTHING_GATHERED, ps, 0);
    var g2 := GatherWritten(g1, ps, 1);
    var g3 := GatherWritten(g2, ps, 2);
    var g4 := GatherWritten(g3, ps, 3);
    assert ps[0..] == ps;
    GatherFields(NOTHING_GATHERED, secret);
    GatherFields(g1, HashName(e.hash));
    GatherFields(g2, Decimal(e.digits));
    GatherFields(g3, if e.kind.Totp? then Decimal(e.kind.period) else Decimal(e.kind.counter));
    if e.issuer.Some? {
      var g5 := GatherWritten(g4, ps, 4);
      GatherFields(g4, e.issuer.value);
      GatherEnds(g5, ps[5..]);
    } else {
      GatherEnds(g4, ps[4..]);
    }
  }

  lemma GatherWritten(g: Gathered, ps: seq<Pair>, i: nat) returns (next: Gathered)
    requires i < |ps|
    ensures next == Gather(g, Param(NameOf(ps[i].0), Some(ps[i].1)))
    ensures GatherAll(g, Read(ps[i..])) == GatherAll(next, Read(ps[i + 1..]))
  {
    hide Gather, NameOf;
    next := Gather(g, Param(NameOf(ps[i].0), Some(ps[i].1)));
    assert ps[i..][1..] == ps[i + 1..];
    assert Read(ps[i..])[1..] == Read(ps[i + 1..]);
  }

  lemma GatherEnds(g: Gathered, ps: seq<Pair>)
    requires ps == []
    ensures GatherAll(g, Read(ps)) == g
  {
  }

  /** What each parameter changes. */
  lemma GatherFields(g: Gathered, v: string)
    ensures Gather(g, Param(SecretParam, Some(v))) == g.(secret := Some(v))
    ensures Gather(g, Param(IssuerParam, Some(v))) == g.(issuer := Some(v))
    ensures Gather(g, Param(AlgorithmParam, Some(v))) == g.(algorithm := Some(v))
    ensures ParseUnsigned(v, U32).Some? ==>
              && Gather(g, Param(DigitsParam, Some(v))) == g.(digits := ParseUnsigned(v, U32).value)
              && Gather(g, Param(PeriodParam, Some(v))) == g.(period := ParseUnsigned(v, U32).value)
    ensures ParseUnsigned(v, U64).Some? ==>
              Gather(g, Param(CounterParam, Some(v))) == g.(counter := ParseUnsigned(v, U64).value)
  {
    hide ParseUnsigned;
  }

  /** The account alone is the label. */
  lemma LabelReadsBack(account: Option<string>)
    requires account.Some? ==> account.value != [] && ':' !in account.value && Trim(account.value) == account.value
    ensures SplitLabel(if account.Some? then account.value else []) == (None, account)
  {
    hide Trim, SplitOnce;
  }

  /** A label with a colon gives both parts, split at the first colon and trimmed. */
  lemma LabelGivesBoth(issuer: string, account: string)
    requires ':' !in issuer
    ensures SplitLabel(issuer + ":" + account) == (Some(Trim(issuer)), Some(Trim(account)))
  {
    hide Trim, SplitOnce;
    SplitOnceAt(issuer, ':', account);
  }

  lemma ParamsArePlain(e: ImportEntry, secret: string)
    ensures forall p :: p in ParamsOfEntry(e, secret) ==> PlainName(p.0)
  {
    hide Decimal, HashName, PlainName, NameOf;
    ParamNames();
  }

  lemma WrittenAssembles(e: ImportEntry, secret: string)
    requires Carried(e, secret)
    ensures Assemble(if e.kind.Totp? then "totp" else "hotp", e.issuer, e.account,
                     GatherAll(NOTHING_GATHERED, Read(ParamsOfEntry(e, secret)))) == Ok(e)
  {
    hide GatherAll, Read, ParamsOfEntry, Base32.Decode, HashFromName, TypeFromName, HashName, Trim;
    EntryIsGathered(e, secret);
    HashNameReadsBack(e.hash);
    KindReadsBack();
  }

  /**
   Every entry a URI can carry, written as a URI with its secret in any
   spelling, is read back as the same entry and named after its issuer and
   account.
   */
  lemma EntryReadsBack(e: ImportEntry, secret: string)
    requires Carried(e, secret)
    ensures ParseEntry(UriOfEntry(e, secret)) == (NameLabel(e.issuer, e.account), Ok(e))
  {
    hide SplitUri, QueryParams, PercentDecode, GatherAll, Read, Assemble, ParamsOfEntry, WriteUri, EscapeText,
         WriteQuery, NameLabel, SplitLabel, Base32.Decode, Trim;
    var kind, text := if e.kind.Totp? then "totp" else "hotp", if e.account.Some? then e.account.value else [];
    var ps := ParamsOfEntry(e, secret);
    assert '?' !in "totp" && '/' !in "totp" && '?' !in "hotp" && '/' !in "hotp";
    PartsReadBack(kind, text, ps);
    EscapedReadsBack(text, false);
    ParamsArePlain(e, secret);
    QueryReadsBack(ps);
    LabelReadsBack(e.account);
    WrittenAssembles(e, secret);
    EntryIsGathered(e, secret);
  }

  /** With the secret in base32, nothing is asked of the entry but that a URI can carry it. */
  lemma EveryEntryReadsBack(e: ImportEntry)
    requires Carriable(e)
    ensures ParseEntry(UriOfEntry(e, Base32.Encode(e.secret))).1 == Ok(e)
  {
    hide Carriable, ParseEntry, UriOfEntry, Base32.Decode, Base32.Encode, NameLabel;
    Base32.DecodeOfEncode(e.secret);
    EntryReadsBack(e, Base32.Encode(e.secret));
  }

  // ----- A URI the two readers differ on

  /** A URI that gives digits twice, first 5 and then 6. */
  function TwoDigitsUri(secret: bytes): string {
    WriteUri("totp", "x", [("secret", Base32.Encode(secret)), ("digits", "5"), ("digits", "6")])
  }

  /**
   The narrow reader refuses such a URI for its 5; the wide reader takes it,
   with 6 digits, and a Molto2 would take that entry when its secret fits.
   */
  lemma ReadersDifferOnARepeat(secret: bytes)
    requires 1 <= |secret| <= MAX_SECRET_BYTES
    ensures var uri, e := TwoDigitsUri(secret), ImportEntry(None, Some("x"), secret, Sha1, 6, Totp(30));
            && Parse(uri) == Err(UnsupportedDigits(5))
            && ParseEntry(uri).1 == Ok(e)
            && (|secret| <= 63 ==> ImportPlan.CheckParams(e, Molto2).None?)
  {
    hide SplitUri, QueryParams, PercentDecode, WriteUri, EscapeText, WriteQuery, SplitLabel, NameLabel, Base32.Decode,
         Base32.Encode, ImportPlan.CheckParams, TakeAll, GatherAll, Read;
    var spelled := Base32.Encode(secret);
    var ps: seq<Pair> := [("secret", spelled), ("digits", "5"), ("digits", "6")];
    var e := ImportEntry(None, Some("x"), secret, Sha1, 6, Totp(30));
    Base32.DecodeOfEncode(secret);
    ParamNames();
    assert '?' !in "totp" && '/' !in "totp";
    PartsReadBack("totp", "x", ps);
    EscapedReadsBack("x", false);
    QueryReadsBack(ps);
    AlreadyTrimmed('x');
    LabelReadsBack(Some("x"));
    TwoDigitsTaken(spelled, ps);
    KindReadsBack();
    HashNameReadsBack(Sha1);
    MoltoParams(e);
  }

  lemma AlreadyTrimmed(c: char)
    requires !White(c)
    ensures Trim([c]) == [c]
  {
  }

  /** What the two loops make of its parameters. */
  lemma TwoDigitsTaken(spelled: string, ps: seq<Pair>)
    requires ps == [("secret", spelled), ("digits", "5"), ("digits", "6")]
    ensures TakeAll(NOTHING_FOUND, Read(ps)) == Err(UnsupportedDigits(5))
    ensures GatherAll(NOTHING_GATHERED, Read(ps)) == NOTHING_GATHERED.(secret := Some(spelled), digits := 6)
  {
    hide ParseUnsigned, NameOf, Read;
    ParamNames();
    OneDigit();
    var secret, five, six :=
      Param(SecretParam, Some(spelled)), Param(DigitsParam, Some("5")), Param(DigitsParam, Some("6"));
    assert ps[1..] == [ps[1], ps[2]] && ps[1..][1..] == [ps[2]] && ps[1..][1..][1..] == [];
    ReadThree(ps);
    var all := [secret, five, six];
    assert Read(ps) == all && all[1..] == [five, six] && [five, six][1..] == [six] && [six][1..] == [];
    hide GatherAll, Gather;
    var g1 := GatherWritten(NOTHING_GATHERED, ps, 0);
    var g2 := GatherWritten(g1, ps, 1);
    var g3 := GatherWritten(g2, ps, 2);
    GatherFields(NOTHING_GATHERED, spelled);
    GatherFields(g1, "5");
    GatherFields(g2, "6");
    GatherEnds(g3, ps[3..]);
    assert ps[0..] == ps;
  }

  lemma ReadThree(ps: seq<Pair>)
    requires |ps| == 3
    ensures Read(ps) == [Param(NameOf(ps[0].0), Some(ps[0].1)), Param(NameOf(ps[1].0), Some(ps[1].1)),
                         Param(NameOf(ps[2].0), Some(ps[2].1))]
  {
    hide NameOf, Read;
    ReadOneMore(ps, 0);
    ReadOneMore(ps, 1);
    ReadOneMore(ps, 2);
    assert ps[0..] == ps;
    assert Read(ps[3..]) == [] by { ReadNone(ps[3..]); }
  }

  lemma ReadOneMore(ps: seq<Pair>, i: nat)
    requires i < |ps|
    ensures Read(ps[i..]) == [Param(NameOf(ps[i].0), Some(ps[i].1))] + Read(ps[i + 1..])
  {
    hide NameOf;
    assert ps[i..][1..] == ps[i + 1..];
  }

  lemma ReadNone(ps: seq<Pair>)
    requires ps == []
    ensures Read(ps) == []
  {
  }
}
