/**
 How a code is named on a key, and that a time-based code's name on a family
 that reads a leading `digits/` as the period says what it was made from.
 */
module OathNames {
  import opened Prelude
  import opened Bytes
  import opened Strings
  import opened ImportModel
  import Utf8

  /** What a name's two parts are, an issuer alone and an account alone being the same name. */
  datatype Parts = Both(issuer: string, account: string) | Single(text: string)

  function PartsOf(e: ImportEntry): Option<Parts> {
    match (e.issuer, e.account)
    case (Some(i), Some(a)) => Some(Both(i, a))
    case (Some(one), None) => Some(Single(one))
    case (None, Some(one)) => Some(Single(one))
    case (None, None) => None
  }

  /** `<digits>/...`: what is read as a period prefix. */
  predicate LooksLikePeriodPrefix(s: string) {
    match SplitOnce(s, '/')
    case Some((head, _)) => head != [] && AllDigits(head)
    case None => false
  }

  predicate ReadsPeriod(e: ImportEntry, family: Family) {
    e.kind.Totp? && family != Nitrokey3
  }

  /** The full OATH name of an entry, or why it cannot be named. */
  function OathNameOf(e: ImportEntry, family: Family): Result<string, Skip> {
    var base :- match (e.issuer, e.account)
                case (Some(i), Some(a)) => if ':' in i then Err(AmbiguousName) else Ok(i + ":" + a)
                case (Some(one), None) => if ':' in one then Err(AmbiguousName) else Ok(one)
                case (None, Some(one)) => if ':' in one then Err(AmbiguousName) else Ok(one)
                case (None, None) => Err(NoName);
    if ReadsPeriod(e, family) && e.kind.period != 30 then Ok(Decimal(e.kind.period) + "/" + base)
    else if ReadsPeriod(e, family) && LooksLikePeriodPrefix(base) then Err(AmbiguousName)
    else Ok(base)
  }

  /** Token2's pair: the issuer as the app, or one part alone as the account. */
  function Token2NameOf(e: ImportEntry): Result<(string, string), Skip> {
    match (e.issuer, e.account)
    case (Some(i), Some(a)) => Ok((i, a))
    case (None, Some(one)) => Ok(([], one))
    case (Some(one), None) => Ok(([], one))
    case (None, None) => Err(NoName)
  }

  /** What a client reads a stored name as: the period, and the parts. */
  function ReadBack(name: string): (nat, Parts) {
    if LooksLikePeriodPrefix(name) then
      var (head, rest) := SplitOnce(name, '/').value;
      (ParseDecimal(head), ReadParts(rest))
    else (30, ReadParts(name))
  }

  function ReadParts(s: string): Parts {
    match SplitOnce(s, ':')
    case Some((i, a)) => Both(i, a)
    case None => Single(s)
  }

  /** The parts written out, as they would be joined without any check. */
  function Joined(p: Parts): string {
    match p
    case Both(i, a) => i + ":" + a
    case Single(one) => one
  }

  lemma JoinedReadsBack(p: Parts)
    ensures ReadParts(Joined(p)) == p <==> (if p.Both? then ':' !in p.issuer else ':' !in p.text)
  {
    if p.Both? {
      if ':' !in p.issuer {
        SplitOnceAt(p.issuer, ':', p.account);
      } else {
        var (i, a) := SplitOnce(p.issuer, ':').value;
        assert Joined(p) == i + [':'] + (a + ":" + p.account);
        SplitOnceAt(i, ':', a + ":" + p.account);
        assert |i| < |p.issuer|;
      }
    }
  }

  lemma PrefixedReadsBack(period: nat, base: string)
    ensures ReadBack(Decimal(period) + "/" + base) == (period, ReadParts(base))
  {
    var head := Decimal(period);
    SplitOnceAt(head, '/', base);
    ParseOfDecimal(period);
  }

  /** A name read as having a period prefix is not read whole. */
  lemma PrefixIsNotReadWhole(base: string, p: Parts)
    requires LooksLikePeriodPrefix(base) && Joined(p) == base
    ensures ReadBack(base).1 != p
  {
    var (head, rest) := SplitOnce(base, '/').value;
    assert |rest| < |base|;
    JoinedOfRead(rest);
  }

  lemma JoinedOfRead(s: string)
    ensures Joined(ReadParts(s)) == s
  {
  }

  /** The name an entry would get if nothing were ever refused. */
  function Unchecked(e: ImportEntry, p: Parts): string
    requires e.kind.Totp?
  {
    if e.kind.period != 30 then Decimal(e.kind.period) + "/" + Joined(p) else Joined(p)
  }

  /**
   For a time-based code on a family that reads the period from the name, a
   name is given exactly when the entry has a part to name it by and the name
   reads back as its own period and parts.
   */
  lemma NamedExactlyWhenItReadsBack(e: ImportEntry, family: Family)
    requires ReadsPeriod(e, family)
    ensures OathNameOf(e, family).Ok? <==>
              PartsOf(e).Some? && ReadBack(Unchecked(e, PartsOf(e).value)) == (e.kind.period, PartsOf(e).value)
    ensures OathNameOf(e, family).Ok? ==> OathNameOf(e, family).value == Unchecked(e, PartsOf(e).value)
  {
    if PartsOf(e).Some? {
      var p := PartsOf(e).value;
      var base := Joined(p);
      JoinedReadsBack(p);
      if e.kind.period != 30 {
        PrefixedReadsBack(e.kind.period, base);
      } else if LooksLikePeriodPrefix(base) {
        PrefixIsNotReadWhole(base, p);
      }
      hide ReadBack, ReadParts, LooksLikePeriodPrefix;
    }
  }

  /** So two such entries share a stored name only if they agree on period and parts. */
  lemma NamesAreUnambiguous(e: ImportEntry, f: ImportEntry, family: Family)
    requires ReadsPeriod(e, family) && ReadsPeriod(f, family)
    requires OathNameOf(e, family).Ok? && OathNameOf(e, family) == OathNameOf(f, family)
    ensures e.kind.period == f.kind.period && PartsOf(e) == PartsOf(f)
  {
    hide ReadBack, OathNameOf, Unchecked;
    NamedExactlyWhenItReadsBack(e, family);
    NamedExactlyWhenItReadsBack(f, family);
  }
}
