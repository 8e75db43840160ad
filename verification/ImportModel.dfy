/** What an import file holds, and where its codes can go. */
module ImportModel {
  import opened Prelude
  import opened Bytes

  datatype HashAlg = Sha1 | Sha256 | Sha512

  datatype OtpKind = Totp(period: nat) | Hotp(counter: nat)

  datatype ImportEntry = ImportEntry(
    issuer: Option<string>, account: Option<string>, secret: bytes, hash: HashAlg, digits: nat, kind: OtpKind)

  datatype Unusable =
    | BadSecret
    | BadType(name: string)
    | BadHash(name: string)
    | BadDigits(digits: nat)
    | BadPeriod(period: nat)
    | Malformed(what: string)

  /** One entry of a file: its position, and the entry or why no key can take it. */
  datatype ImportItem = ImportItem(index: nat, entry: Result<ImportEntry, Unusable>)

  type ImportFile = seq<ImportItem>

  datatype Version = Version(major: nat, minor: nat, patch: nat)

  /** Version order: major, then minor, then patch. */
  predicate Before(v: Version, w: Version) {
    || v.major < w.major
    || (v.major == w.major && v.minor < w.minor)
    || (v.major == w.major && v.minor == w.minor && v.patch < w.patch)
  }

  datatype Family = YubiKey(version: Option<Version>) | Solo2 | Nitrokey3 | OtherFamily

  datatype Store = Molto2 | Oath(family: Family) | Token2Otp

  datatype StoredName =
    | OathName(name: string)
    | Token2Name(app: string, account: string)
    | MoltoName(slot: nat, title: string)

  datatype Skip =
    | NotUsable(why: Unusable)
    | NoName
    | NameTooLong(len: nat, max: nat)
    | NotAscii
    | AmbiguousName
    | HashRefused(hash: HashAlg)
    | DigitsRefused(digits: nat)
    | PeriodRefused(period: nat)
    | PeriodNotStored(period: nat)
    | HotpRefused
    | CounterRefused(counter: nat)
    | SecretLength(len: nat, max: nat)
    | TooLongForCommand
    | SameNameInFile(first: nat)
    | NoRoom(capacity: nat)
    | PastLastSlot
    | StartsAnotherName

  datatype Verdict = Add | Replace | Exists | Skipped(why: Skip)

  datatype PlanRow = PlanRow(index: nat, name: Option<StoredName>, verdict: Verdict, touch: bool) {
    predicate Writes() {
      verdict == Add || verdict == Replace
    }
  }

  datatype Existing = Existing(names: seq<StoredName>, hidden: nat)

  datatype Target = Target(store: Store, firstSlot: nat, existing: Existing, replace: bool)

  datatype Plan = Plan(store: Store, rows: seq<PlanRow>, capacity: Option<nat>, onKey: nat, replace: bool)
}
