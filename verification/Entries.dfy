/** What every wide reader does with an entry's fields before keeping it. */
module Entries {
  import opened Prelude
  import opened Bytes
  import opened ImportModel
  import opened Strings
  import Base32

  const MAX_SECRET_BYTES: nat := 255
  const MAX_ENTRIES: nat := 1000

  function NonEmpty(s: Option<string>): Option<string> {
    if s == Some([]) then None else s
  }

  /** `issuer:account`, or whichever is present. */
  function NameLabel(issuer: Option<string>, account: Option<string>): Option<string> {
    match (NonEmpty(issuer), NonEmpty(account))
    case (Some(i), Some(a)) => Some(i + ":" + a)
    case (Some(i), None) => Some(i)
    case (None, other) => other
  }

  function HashFromName(name: string): Result<HashAlg, Unusable> {
    var upper := Upper(name);
    if upper == "SHA1" then Ok(Sha1)
    else if upper == "SHA256" then Ok(Sha256)
    else if upper == "SHA512" then Ok(Sha512)
    else Err(BadHash(upper))
  }

  datatype TypeName = TotpName | HotpName

  function TypeFromName(name: string): Result<TypeName, Unusable> {
    if Upper(name) == "TOTP" then Ok(TotpName)
    else if Upper(name) == "HOTP" then Ok(HotpName)
    else Err(BadType(name))
  }

  function CheckSecret(secret: bytes): Result<bytes, Unusable> {
    if secret == [] || |secret| > MAX_SECRET_BYTES then Err(BadSecret) else Ok(secret)
  }

  function DecodeSecret(text: string): Result<bytes, Unusable> {
    match Base32.Decode(text)
    case None => Err(BadSecret)
    case Some(secret) => CheckSecret(secret)
  }

  /** Digits, then the period, then the entry. */
  function Finish(
      issuer: Option<string>, account: Option<string>, secret: bytes, hash: HashAlg, digits: nat, kind: OtpKind)
    : Result<ImportEntry, Unusable>
  {
    if !(1 <= digits <= 10) then Err(BadDigits(digits))
    else if kind == Totp(0) then Err(BadPeriod(0))
    else Ok(ImportEntry(NonEmpty(issuer), NonEmpty(account), secret, hash, digits, kind))
  }

  /** `Issuer:account` split at the first colon, both trimmed; without one it is the account. */
  function SplitLabel(label_: string): (Option<string>, Option<string>) {
    match SplitOnce(label_, ':')
    case Some((i, a)) => (Some(Trim(i)), Some(Trim(a)))
    case None => if label_ == [] then (None, None) else (None, Some(Trim(label_)))
  }
}
