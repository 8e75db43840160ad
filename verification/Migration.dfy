/**
 Google Authenticator exports: a protobuf payload of accounts, read narrowly
 for a Molto2 and widely for any key. `lossy` is the conversion of names that
 may not be valid UTF-8.
 */
module Migration {
  import opened Prelude
  import opened Bytes
  import opened ImportModel
  import opened Strings
  import opened Entries
  import OtpAuth

  // ----- The wire

  /** `2 ^ (7 * i)`. */
  function Shift(i: nat): (w: nat)
    ensures w > 0
  {
    if i == 0 then 1 else 128 * Shift(i - 1)
  }

  /** A varint from its byte `i` on, over the value so far; bits past the 64th are lost. */
  function VarintFrom(b: bytes, i: nat, sum: nat): (r: Option<(nat, bytes)>)
    ensures r.Some? ==> |r.value.1| < |b|
    decreases |b|
  {
    if i >= 10 || b == [] then None else
    var next := sum + b[0] % 128 * Shift(i) % U64;
    if b[0] < 128 then Some((next, b[1..])) else VarintFrom(b[1..], i + 1, next)
  }

  function Varint(b: bytes): (r: Option<(nat, bytes)>)
    ensures r.Some? ==> |r.value.1| < |b|
  {
    VarintFrom(b, 0, 0)
  }

  function Chunk(b: bytes): (r: Option<(bytes, bytes)>)
    ensures r.Some? ==> |r.value.1| < |b|
  {
    var (len, rest) :- Varint(b);
    if |rest| < len then None else Some((rest[..len], rest[len..]))
  }

  /** The number of a field and its wire type. */
  datatype FieldKey = FieldKey(number: nat, wire: nat)

  function KeyOf(k: nat): FieldKey {
    FieldKey(k / 8, k % 8)
  }

  datatype Field = Number(number: nat, value: nat) | Data(number: nat, data: bytes) | Fixed(number: nat)

  function FieldAfter(key: FieldKey, b: bytes): (r: Option<(Field, bytes)>)
    ensures r.Some? ==> |r.value.1| <= |b|
  {
    if key.wire == 0 then
      var (v, rest) :- Varint(b);
      Some((Number(key.number, v), rest))
    else if key.wire == 2 then
      var (data, rest) :- Chunk(b);
      Some((Data(key.number, data), rest))
    else
      var size := if key.wire == 1 then 8 else 4;
      if (key.wire != 1 && key.wire != 5) || |b| < size then None else Some((Fixed(key.number), b[size..]))
  }

  // ----- One account

  datatype Account = Account(
    secret: bytes, name: string, issuer: string, algorithm: nat, digits: nat, kind: nat, counter: nat)

  const NO_ACCOUNT := Account([], [], [], 0, 0, 0, 0)

  /** A later field replaces an earlier one; unknown fields are skipped. */
  function Put(a: Account, f: Field, lossy: bytes -> string): Account {
    match f
    case Data(n, data) =>
      if n == 1 then a.(secret := data)
      else if n == 2 then a.(name := lossy(data))
      else if n == 3 then a.(issuer := lossy(data))
      else a
    case Number(n, v) =>
      if n == 4 then a.(algorithm := v)
      else if n == 5 then a.(digits := v)
      else if n == 6 then a.(kind := v)
      else if n == 7 then a.(counter := v)
      else a
    case Fixed(_) => a
  }

  function AccountFrom(b: bytes, a: Account, lossy: bytes -> string): Option<Account>
    decreases |b|
  {
    if b == [] then Some(a) else
    var (k, rest) :- Varint(b);
    var (f, left) :- FieldAfter(KeyOf(k), rest);
    AccountFrom(left, Put(a, f, lossy), lossy)
  }

  /** The narrow reader's own fields: it knows six, and skips the counter like any other. */
  function PutNarrow(a: Account, f: Field, lossy: bytes -> string): Account {
    match f
    case Data(n, data) =>
      if n == 1 then a.(secret := data)
      else if n == 2 then a.(name := lossy(data))
      else if n == 3 then a.(issuer := lossy(data))
      else a
    case Number(n, v) =>
      if n == 4 then a.(algorithm := v)
      else if n == 5 then a.(digits := v)
      else if n == 6 then a.(kind := v)
      else a
    case Fixed(_) => a
  }

  function NarrowAccountFrom(b: bytes, a: Account, lossy: bytes -> string): Option<Account>
    decreases |b|
  {
    if b == [] then Some(a) else
    var (k, rest) :- Varint(b);
    var (f, left) :- FieldAfter(KeyOf(k), rest);
    NarrowAccountFrom(left, PutNarrow(a, f, lossy), lossy)
  }

  /** An account as the narrow or the wide reader reads it. */
  function AccountOf(b: bytes, narrow: bool, lossy: bytes -> string): Option<Account> {
    if narrow then NarrowAccountFrom(b, NO_ACCOUNT, lossy) else AccountFrom(b, NO_ACCOUNT, lossy)
  }

  function NamesOf(a: Account): (Option<string>, Option<string>) {
    var (fromName, account) := SplitLabel(a.name);
    (NonEmpty(if a.issuer == [] then fromName else Some(a.issuer)), NonEmpty(account))
  }

  datatype SkipReason = NotTotp | HashNotKnown | DigitsNotKnown | SecretSize

  /** For a Molto2. */
  function ToMolto(a: Account): Result<OtpAuth.MoltoEntry, SkipReason> {
    if a.kind != 0 && a.kind != 2 then Err(NotTotp)
    else if a.algorithm > 2 then Err(HashNotKnown)
    else if a.digits > 2 then Err(DigitsNotKnown)
    else if a.secret == [] || |a.secret| > 63 then Err(SecretSize)
    else
      var (issuer, account) := NamesOf(a);
      Ok(OtpAuth.MoltoEntry(issuer, account, a.secret, if a.algorithm == 2 then Sha256 else Sha1,
                            if a.digits == 2 then 8 else 6, 30))
  }

  function HashOf(algorithm: nat): Result<HashAlg, Unusable> {
    if algorithm <= 1 then Ok(Sha1)
    else if algorithm == 2 then Ok(Sha256)
    else if algorithm == 3 then Ok(Sha512)
    else if algorithm == 4 then Err(BadHash("MD5"))
    else Err(BadHash("algorithm " + Decimal(algorithm)))
  }

  /** For any key. */
  function ToEntry(a: Account): Result<ImportEntry, Unusable> {
    if a.kind > 2 then Err(BadType("type " + Decimal(a.kind))) else
    var secret :- CheckSecret(a.secret);
    var hash :- HashOf(a.algorithm);
    if a.digits > 2 then Err(Malformed("the digit count isn't one keyroost knows")) else
    var (issuer, account) := NamesOf(a);
    Finish(issuer, account, secret, hash, if a.digits == 2 then 8 else 6,
           if a.kind == 1 then Hotp(a.counter) else Totp(30))
  }

  // ----- The payload

  datatype BulkError =
    | MalformedPayload
    | NoAccounts
    | TooManyEntries
    | NotOffline
    | NoData
    | BadEscape
    | BadBase64
    | EmptyFile

  /** What both readers keep besides accounts: the batch size and index, truncated to 32 bits. */
  datatype Batch = Batch(size: Option<nat>, index: Option<nat>)

  const NO_BATCH := Batch(None, None)

  function PutBatch(batch: Batch, f: Field): Batch {
    if f.Number? && f.number == 3 then batch.(size := Some(f.value % U32))
    else if f.Number? && f.number == 4 then batch.(index := Some(f.value % U32))
    else batch
  }

  function BatchOf(batch: Batch): Option<(nat, nat)> {
    if batch.index.Some? && batch.size.Some? && batch.size.value > 1 then Some((batch.index.value, batch.size.value))
    else None
  }

  predicate IsAccount(key: FieldKey) {
    key.number == 1 && key.wire == 2
  }

  /** Every account of a payload in order, and the batch; the wide reader has a limit, the narrow one none. */
  datatype Payload = Payload(accounts: seq<Account>, batch: Batch)

  function PayloadFrom(b: bytes, so: Payload, limit: Option<nat>, lossy: bytes -> string): Result<Payload, BulkError>
    decreases |b|
  {
    if b == [] then Ok(so) else
    var k := Varint(b);
    if k.None? then Err(MalformedPayload) else
    var key := KeyOf(k.value.0);
    if IsAccount(key) && limit.Some? && |so.accounts| >= limit.value then Err(TooManyEntries) else
    var f := FieldAfter(key, k.value.1);
    if f.None? then Err(MalformedPayload)
    else if IsAccount(key) then
      match AccountOf(f.value.0.data, limit.None?, lossy)
      case None => Err(MalformedPayload)
      case Some(a) => PayloadFrom(f.value.1, so.(accounts := so.accounts + [a]), limit, lossy)
    else PayloadFrom(f.value.1, so.(batch := PutBatch(so.batch, f.value.0)), limit, lossy)
  }

  /** What the narrow reader gives: the entries a Molto2 takes, why it skips the others, and the batch. */
  datatype Migration = Migration(entries: seq<OtpAuth.MoltoEntry>, skipped: seq<SkipReason>, batch: Option<(nat, nat)>)

  function EntriesOf(accounts: seq<Account>): seq<OtpAuth.MoltoEntry> {
    if accounts == [] then [] else
    var last := accounts[|accounts| - 1];
    EntriesOf(accounts[..|accounts| - 1]) + if ToMolto(last).Ok? then [ToMolto(last).value] else []
  }

  function SkippedOf(accounts: seq<Account>): seq<SkipReason> {
    if accounts == [] then [] else
    var last := accounts[|accounts| - 1];
    SkippedOf(accounts[..|accounts| - 1]) + if ToMolto(last).Err? then [ToMolto(last).error] else []
  }

  function ParsePayload(b: bytes, lossy: bytes -> string): Result<Migration, BulkError> {
    match PayloadFrom(b, Payload([], NO_BATCH), None, lossy)
    case Err(e) => Err(e)
    case Ok(p) =>
      if p.accounts == [] then Err(NoAccounts)
      else Ok(Migration(EntriesOf(p.accounts), SkippedOf(p.accounts), BatchOf(p.batch)))
  }

  datatype WideFile = WideFile(items: ImportFile, batch: Option<(nat, nat)>)

  function ItemsOf(accounts: seq<Account>): (items: ImportFile)
    ensures |items| == |accounts|
  {
    seq(|accounts|, i requires 0 <= i < |accounts| => ImportItem(i, ToEntry(accounts[i])))
  }

  function ParsePayloadWide(b: bytes, lossy: bytes -> string): Result<WideFile, BulkError> {
    match PayloadFrom(b, Payload([], NO_BATCH), Some(MAX_ENTRIES), lossy)
    case Err(e) => Err(e)
    case Ok(p) => if p.accounts == [] then Err(NoAccounts) else Ok(WideFile(ItemsOf(p.accounts), BatchOf(p.batch)))
  }

  // ----- The code

  /** The bytes still to be read. */
  class Reader {
    var rest: bytes

    constructor (b: bytes)
      ensures rest == b
    {
      rest := b;
    }

    method ReadVarint() returns (r: Option<nat>)
      modifies this
      ensures match Varint(old(rest))
              case Some((v, left)) => r == Some(v) && rest == left
              case None => r == None
    {
      var v: nat := 0;
      ghost var first := rest;
      for i := 0 to 10
        invariant VarintFrom(first, 0, 0) == VarintFrom(rest, i, v)
      {
        if rest == [] {
          return None;
        }
        var b := rest[0];
        rest := rest[1..];
        v := v + b % 128 * Shift(i) % U64;
        if b < 128 {
          return Some(v);
        }
      }
      r := None;
    }

    method ReadChunk() returns (r: Option<bytes>)
      modifies this
      ensures match Chunk(old(rest))
              case Some((data, left)) => r == Some(data) && rest == left
              case None => r == None
    {
      hide Varint;
      var len :- ReadVarint();
      if |rest| < len {
        return None;
      }
      r := Some(rest[..len]);
      rest := rest[len..];
    }

    /** The next key, or `Some(None)` at the end. */
    method ReadKey() returns (r: Option<Option<FieldKey>>)
      modifies this
      ensures old(rest) == [] ==> r == Some(None) && rest == []
      ensures old(rest) != [] ==>
                match Varint(old(rest))
                case Some((k, left)) => r == Some(Some(KeyOf(k))) && rest == left
                case None => r == None
    {
      hide Varint;
      if rest == [] {
        return Some(None);
      }
      var k :- ReadVarint();
      r := Some(Some(KeyOf(k)));
    }

    method Skip(key: FieldKey) returns (r: Option<()>)
      modifies this
      ensures match FieldAfter(key, old(rest))
              case Some((_, left)) => r == Some(()) && rest == left
              case None => r == None
    {
      hide Varint, Chunk;
      if key.wire == 0 {
        var v :- ReadVarint();
      } else if key.wire == 1 {
        if |rest| < 8 {
          return None;
        }
        rest := rest[8..];
      } else if key.wire == 2 {
        var data :- ReadChunk();
      } else if key.wire == 5 {
        if |rest| < 4 {
          return None;
        }
        rest := rest[4..];
      } else {
        return None;
      }
      r := Some(());
    }
  }

  /** The narrow reader's loop over the fields of an account. */
  method ReadAccountNarrow(b: bytes, lossy: bytes -> string) returns (a: Option<Account>)
    ensures a == NarrowAccountFrom(b, NO_ACCOUNT, lossy)
  {
    hide Varint, Chunk;
    var r := new Reader(b);
    var secret: bytes, name: string, issuer: string := [], [], [];
    var algorithm: nat, digits: nat, kind: nat := 0, 0, 0;
    while true
      invariant fresh(r)
      invariant NarrowAccountFrom(b, NO_ACCOUNT, lossy)
             == NarrowAccountFrom(r.rest, Account(secret, name, issuer, algorithm, digits, kind, 0), lossy)
      decreases |r.rest|
    {
      var next :- r.ReadKey();
      if next.None? {
        return Some(Account(secret, name, issuer, algorithm, digits, kind, 0));
      }
      var key := next.value;
      if key == FieldKey(1, 2) {
        secret :- r.ReadChunk();
      } else if key == FieldKey(2, 2) {
        var data :- r.ReadChunk();
        name := lossy(data);
      } else if key == FieldKey(3, 2) {
        var data :- r.ReadChunk();
        issuer := lossy(data);
      } else if key == FieldKey(4, 0) {
        algorithm :- r.ReadVarint();
      } else if key == FieldKey(5, 0) {
        digits :- r.ReadVarint();
      } else if key == FieldKey(6, 0) {
        kind :- r.ReadVarint();
      } else {
        var skipped :- r.Skip(key);
      }
    }
  }

  /** The wide reader's loop over the fields of an account. */
  method ReadAccount(b: bytes, lossy: bytes -> string) returns (a: Option<Account>)
    ensures a == AccountFrom(b, NO_ACCOUNT, lossy)
  {
    hide Varint, Chunk;
    var r := new Reader(b);
    var secret: bytes, name: string, issuer: string := [], [], [];
    var algorithm: nat, digits: nat, kind: nat, counter: nat := 0, 0, 0, 0;
    while true
      invariant fresh(r)
      invariant AccountFrom(b, NO_ACCOUNT, lossy)
             == AccountFrom(r.rest, Account(secret, name, issuer, algorithm, digits, kind, counter), lossy)
      decreases |r.rest|
    {
      var next :- r.ReadKey();
      if next.None? {
        return Some(Account(secret, name, issuer, algorithm, digits, kind, counter));
      }
      var key := next.value;
      if key.wire == 2 && 1 <= key.number <= 3 {
        var data :- r.ReadChunk();
        if key.number == 1 {
          secret := data;
        } else if key.number == 2 {
          name := lossy(data);
        } else {
          issuer := lossy(data);
        }
      } else if key.wire == 0 && 4 <= key.number <= 7 {
        var v :- r.ReadVarint();
        if key.number == 4 {
          algorithm := v;
        } else if key.number == 5 {
          digits := v;
        } else if key.number == 6 {
          kind := v;
        } else {
          counter := v;
        }
      } else {
        var skipped :- r.Skip(key);
      }
    }
  }

  method ReadPayload(b: bytes, lossy: bytes -> string) returns (out: Result<Migration, BulkError>)
    ensures out == ParsePayload(b, lossy)
  {
    hide Varint, Chunk, NarrowAccountFrom, ToMolto;
    var r := new Reader(b);
    var entries: seq<OtpAuth.MoltoEntry>, skipped: seq<SkipReason> := [], [];
    var size: Option<nat>, index: Option<nat> := None, None;
    ghost var accounts: seq<Account> := [];
    while true
      invariant fresh(r)
      invariant entries == EntriesOf(accounts) && skipped == SkippedOf(accounts)
      invariant (entries == [] && skipped == []) <==> accounts == []
      invariant PayloadFrom(b, Payload([], NO_BATCH), None, lossy)
             == PayloadFrom(r.rest, Payload(accounts, Batch(size, index)), None, lossy)
      decreases |r.rest|
    {
      var next := r.ReadKey();
      if next.None? {
        return Err(MalformedPayload);
      }
      if next.value.None? {
        break;
      }
      var key := next.value.value;
      if IsAccount(key) {
        var data := r.ReadChunk();
        if data.None? {
          return Err(MalformedPayload);
        }
        var a := ReadAccountNarrow(data.value, lossy);
        if a.None? {
          return Err(MalformedPayload);
        }
        assert (accounts + [a.value])[..|accounts|] == accounts;
        match ToMolto(a.value) {
          case Ok(e) => entries := entries + [e];
          case Err(s) => skipped := skipped + [s];
        }
        accounts := accounts + [a.value];
      } else if key == FieldKey(3, 0) {
        var v := r.ReadVarint();
        if v.None? {
          return Err(MalformedPayload);
        }
        size := Some(v.value % U32);
      } else if key == FieldKey(4, 0) {
        var v := r.ReadVarint();
        if v.None? {
          return Err(MalformedPayload);
        }
        index := Some(v.value % U32);
      } else {
        var done := r.Skip(key);
        if done.None? {
          return Err(MalformedPayload);
        }
      }
    }
    if entries == [] && skipped == [] {
      return Err(NoAccounts);
    }
    out := Ok(Migration(entries, skipped, BatchOf(Batch(size, index))));
  }

  method ReadPayloadWide(b: bytes, lossy: bytes -> string) returns (out: Result<WideFile, BulkError>)
    ensures out == ParsePayloadWide(b, lossy)
  {
    hide Varint, Chunk, AccountFrom, ToEntry;
    var r := new Reader(b);
    var items: ImportFile := [];
    var size: Option<nat>, index: Option<nat> := None, None;
    ghost var accounts: seq<Account> := [];
    while true
      invariant fresh(r)
      invariant items == ItemsOf(accounts)
      invariant PayloadFrom(b, Payload([], NO_BATCH), Some(MAX_ENTRIES), lossy)
             == PayloadFrom(r.rest, Payload(accounts, Batch(size, index)), Some(MAX_ENTRIES), lossy)
      decreases |r.rest|
    {
      var next := r.ReadKey();
      if next.None? {
        return Err(MalformedPayload);
      }
      if next.value.None? {
        break;
      }
      var key := next.value.value;
      if IsAccount(key) {
        if |items| >= MAX_ENTRIES {
          return Err(TooManyEntries);
        }
        var data := r.ReadChunk();
        if data.None? {
          return Err(MalformedPayload);
        }
        var a := ReadAccount(data.value, lossy);
        if a.None? {
          return Err(MalformedPayload);
        }
        items := items + [ImportItem(|items|, ToEntry(a.value))];
        accounts := accounts + [a.value];
      } else if key == FieldKey(3, 0) {
        var v := r.ReadVarint();
        if v.None? {
          return Err(MalformedPayload);
        }
        size := Some(v.value % U32);
      } else if key == FieldKey(4, 0) {
        var v := r.ReadVarint();
        if v.None? {
          return Err(MalformedPayload);
        }
        index := Some(v.value % U32);
      } else {
        var done := r.Skip(key);
        if done.None? {
          return Err(MalformedPayload);
        }
      }
    }
    if items == [] {
      return Err(NoAccounts);
    }
    out := Ok(WideFile(items, BatchOf(Batch(size, index))));
  }
}
