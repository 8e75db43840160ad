/**
 OpenSSH certificates (PROTOCOL.certkeys) as a key stores them: the wire form
 and the text of a -cert.pub file. The functions say what is read; the Reader
 class and the methods after it are the code that reads.
 */
module SshCert {
  import opened Prelude
  import opened Bytes
  import opened Strings
  import Base64
  import Utf8

  const CERT_SUFFIX := "-cert-v01@openssh.com"
  const CERT_TYPE_USER: nat := 1
  const CERT_TYPE_HOST: nat := 2

  datatype Cert = Cert(
    keyType: string, serial: nat, certType: nat, keyId: string, principals: seq<string>,
    validAfter: nat, validBefore: nat, criticalOptions: seq<(string, string)>, extensions: seq<string>)

  // ----- Wire data: what is read at a position, and the position after it

  function TakeAt(b: bytes, p: nat, n: nat): (r: Option<(bytes, nat)>)
    ensures r.Some? ==> p <= r.value.1 <= |b|
  {
    if p + n <= |b| then Some((b[p..p + n], p + n)) else None
  }

  function NumberAt(b: bytes, p: nat, width: nat): (r: Option<(nat, nat)>)
    ensures r.Some? ==> p <= r.value.1 <= |b|
  {
    var (n, q) :- TakeAt(b, p, width);
    Some((FromBE(n), q))
  }

  function BytesAt(b: bytes, p: nat): (r: Option<(bytes, nat)>)
    ensures r.Some? ==> p < r.value.1 <= |b|
  {
    var (n, q) :- NumberAt(b, p, 4);
    TakeAt(b, q, n)
  }

  function TextAt(b: bytes, p: nat): (r: Option<(string, nat)>)
    ensures r.Some? ==> p < r.value.1 <= |b|
  {
    var (raw, q) :- BytesAt(b, p);
    var text :- Utf8.Decode(raw);
    Some((text, q))
  }

  function SkipFields(b: bytes, p: nat, n: nat): Option<nat>
    decreases n
  {
    if n == 0 then Some(p) else
    var (_, q) :- BytesAt(b, p);
    SkipFields(b, q, n - 1)
  }

  /** Wire strings one after the other, to the end. */
  function PackedStrings(b: bytes, p: nat): Option<seq<string>>
    requires p <= |b|
    decreases |b| - p
  {
    if p == |b| then Some([]) else
    var (s, q) :- TextAt(b, p);
    var rest :- PackedStrings(b, q);
    Some([s] + rest)
  }

  /** The value of an option: nothing, or one wire string and nothing after it. */
  function OptionValue(data: bytes): Option<string> {
    if data == [] then Some([]) else
    var (v, q) :- TextAt(data, 0);
    if q == |data| then Some(v) else None
  }

  function PackedPairs(b: bytes, p: nat): Option<seq<(string, string)>>
    requires p <= |b|
    decreases |b| - p
  {
    if p == |b| then Some([]) else
    var (name, q) :- TextAt(b, p);
    var (data, q2) :- BytesAt(b, q);
    var value :- OptionValue(data);
    var rest :- PackedPairs(b, q2);
    Some([(name, value)] + rest)
  }

  function Names(pairs: seq<(string, string)>): (names: seq<string>)
    ensures |names| == |pairs|
  {
    seq(|pairs|, i requires 0 <= i < |pairs| => pairs[i].0)
  }

  // ----- A certificate

  /** How many fields the public key of a certificate type has. */
  function PubkeyFields(keyType: string): Option<nat> {
    if keyType == "ssh-ed25519" + CERT_SUFFIX then Some(1)
    else if keyType == "ssh-rsa" + CERT_SUFFIX then Some(2)
    else if keyType == "ecdsa-sha2-nistp256" + CERT_SUFFIX then Some(2)
    else if keyType == "ecdsa-sha2-nistp384" + CERT_SUFFIX then Some(2)
    else if keyType == "ecdsa-sha2-nistp521" + CERT_SUFFIX then Some(2)
    else if keyType == "sk-ssh-ed25519" + CERT_SUFFIX then Some(2)
    else if keyType == "sk-ecdsa-sha2-nistp256" + CERT_SUFFIX then Some(3)
    else None
  }

  /** The part up to the serial: the type, and where the public key ends. */
  function HeadAt(b: bytes): Option<(string, nat)> {
    var (keyType, p) :- TextAt(b, 0);
    var fields :- PubkeyFields(keyType);
    var (_, q) :- BytesAt(b, p);
    var end :- SkipFields(b, q, fields);
    Some((keyType, end))
  }

  /** What a certificate says, from the serial to the extensions. */
  function BodyAt(b: bytes, keyType: string, p0: nat): Option<(Cert, nat)> {
    var (serial, p1) :- NumberAt(b, p0, 8);
    var (certType, p2) :- NumberAt(b, p1, 4);
    if certType != CERT_TYPE_USER && certType != CERT_TYPE_HOST then None else
    var (keyId, p3) :- TextAt(b, p2);
    var (names, p4) :- BytesAt(b, p3);
    var principals :- PackedStrings(names, 0);
    var (validAfter, p5) :- NumberAt(b, p4, 8);
    var (validBefore, p6) :- NumberAt(b, p5, 8);
    var (options, p7) :- BytesAt(b, p6);
    var criticalOptions :- PackedPairs(options, 0);
    var (more, p8) :- BytesAt(b, p7);
    var extensions :- PackedPairs(more, 0);
    var cert := Cert(
      keyType, serial, certType, keyId, principals, validAfter, validBefore, criticalOptions, Names(extensions));
    Some((cert, p8))
  }

  /** A certificate at the start of `b`, and where it ends. */
  function CertAt(b: bytes): Option<(Cert, nat)> {
    var (keyType, p) :- HeadAt(b);
    var (cert, q) :- BodyAt(b, keyType, p);
    var end :- SkipFields(b, q, 3);
    Some((cert, end))
  }

  function ParseWire(b: bytes): Option<Cert> {
    var (cert, end) :- CertAt(b);
    if end == |b| then Some(cert) else None
  }

  // ----- Text

  predicate AsciiSpace(c: char) {
    c == ' ' || c == '\t' || c == '\n' || c == '\U{0C}' || c == '\r'
  }

  /** `split_ascii_whitespace`, with the word being read. */
  function WordsFrom(s: string, word: string): seq<string> {
    if s == [] then if word == [] then [] else [word]
    else if AsciiSpace(s[0]) then (if word == [] then [] else [word]) + WordsFrom(s[1..], [])
    else WordsFrom(s[1..], word + [s[0]])
  }

  function Words(s: string): seq<string> {
    WordsFrom(s, [])
  }

  predicate EndsWith(s: string, tail: string) {
    |tail| <= |s| && s[|s| - |tail|..] == tail
  }

  function ParseText(s: string): Option<(Cert, bytes)> {
    var words := Words(s);
    if words == [] || !EndsWith(words[0], CERT_SUFFIX) || |words| < 2 then None else
    var wire :- Base64.Decode(words[1]);
    var cert :- ParseWire(wire);
    if cert.keyType == words[0] then Some((cert, wire)) else None
  }

  predicate Printable(s: string) {
    forall i :: 0 <= i < |s| ==> ' ' <= s[i] <= '~'
  }

  /** One final line end removed. */
  function WithoutLineEnd(s: string): string {
    if EndsWith(s, "\r\n") then s[..|s| - 2] else if EndsWith(s, "\n") then s[..|s| - 1] else s
  }

  function PlainCertLine(text: string): Option<string> {
    var line := WithoutLineEnd(text);
    if Printable(line) then Some(line) else None
  }

  function ToCertPub(wire: bytes): Option<string> {
    var cert :- ParseWire(wire);
    Some(cert.keyType + " " + Base64.Encode(wire) + "\n")
  }

  datatype StoredCert = StoredCert(info: Cert, wire: bytes, certPub: string)

  function FromStored(b: bytes): Option<StoredCert> {
    if ParseWire(b).Some? then
      var certPub :- ToCertPub(b);
      Some(StoredCert(ParseWire(b).value, b, certPub))
    else
      var text :- Utf8.Decode(b);
      var (info, wire) :- ParseText(Trim(text));
      if PlainCertLine(text).Some? then Some(StoredCert(info, wire, PlainCertLine(text).value + "\n"))
      else
        var certPub :- ToCertPub(wire);
        Some(StoredCert(info, wire, certPub))
  }

  // ----- The code

  /** What a read returned against what is there: on success the position is just after it. */
  predicate Reads<T(==)>(r: Option<T>, pos: nat, there: Option<(T, nat)>) {
    match there
    case Some((v, q)) => r == Some(v) && pos == q
    case None => r == None
  }

  class Reader {
    const buf: bytes
    var pos: nat

    constructor (b: bytes)
      ensures buf == b && pos == 0
    {
      buf, pos := b, 0;
    }

    predicate Valid()
      reads this
    {
      pos <= |buf|
    }

    method Take(n: nat) returns (r: Option<bytes>)
      requires Valid()
      modifies this
      ensures Valid() && Reads(r, pos, TakeAt(buf, old(pos), n))
    {
      var end := pos + n;
      if end > |buf| {
        return None;
      }
      r := Some(buf[pos..end]);
      pos := end;
    }

    method Number(width: nat) returns (r: Option<nat>)
      requires Valid()
      modifies this
      ensures Valid() && Reads(r, pos, NumberAt(buf, old(pos), width))
    {
      var b := Take(width);
      r := if b.Some? then Some(FromBE(b.value)) else None;
    }

    method ReadBytes() returns (r: Option<bytes>)
      requires Valid()
      modifies this
      ensures Valid() && Reads(r, pos, BytesAt(buf, old(pos)))
    {
      var n :- Number(4);
      r := Take(n);
    }

    method ReadText() returns (r: Option<string>)
      requires Valid()
      modifies this
      ensures Valid() && Reads(r, pos, TextAt(buf, old(pos)))
    {
      var raw :- ReadBytes();
      r := Utf8.Decode(raw);
    }

    predicate Done()
      reads this
    {
      pos == |buf|
    }

    method Skip(n: nat) returns (r: Option<()>)
      requires Valid()
      modifies this
      ensures Valid()
      ensures match SkipFields(buf, old(pos), n)
              case Some(q) => r == Some(()) && pos == q
              case None => r == None
    {
      hide BytesAt;
      for i := 0 to n
        invariant Valid() && SkipFields(buf, old(pos), n) == SkipFields(buf, pos, n - i)
      {
        var field :- ReadBytes();
      }
      r := Some(());
    }
  }

  method ReadPackedStrings(b: bytes) returns (r: Option<seq<string>>)
    ensures r == PackedStrings(b, 0)
  {
    hide TextAt;
    var reader := new Reader(b);
    var out: seq<string> := [];
    assert PackedStrings(b, 0).Some? ==> out + PackedStrings(b, 0).value == PackedStrings(b, 0).value;
    while !reader.Done()
      invariant reader.Valid() && reader.buf == b && fresh(reader)
      invariant PackedStrings(b, 0) == if PackedStrings(b, reader.pos).Some?
                                       then Some(out + PackedStrings(b, reader.pos).value) else None
      decreases |b| - reader.pos
    {
      ghost var p := reader.pos;
      var s :- reader.ReadText();
      assert PackedStrings(b, reader.pos).Some? ==>
          out + ([s] + PackedStrings(b, reader.pos).value) == out + [s] + PackedStrings(b, reader.pos).value;
      out := out + [s];
    }
    assert out + [] == out;
    r := Some(out);
  }

  method ReadOptionValue(data: bytes) returns (r: Option<string>)
    ensures r == OptionValue(data)
  {
    hide TextAt;
    if data == [] {
      return Some([]);
    }
    var inner := new Reader(data);
    var v :- inner.ReadText();
    r := if inner.Done() then Some(v) else None;
  }

  method ReadPackedPairs(b: bytes) returns (r: Option<seq<(string, string)>>)
    ensures r == PackedPairs(b, 0)
  {
    hide TextAt, BytesAt, OptionValue;
    var reader := new Reader(b);
    var out: seq<(string, string)> := [];
    assert PackedPairs(b, 0).Some? ==> out + PackedPairs(b, 0).value == PackedPairs(b, 0).value;
    while !reader.Done()
      invariant reader.Valid() && reader.buf == b && fresh(reader)
      invariant PackedPairs(b, 0) == if PackedPairs(b, reader.pos).Some?
                                     then Some(out + PackedPairs(b, reader.pos).value) else None
      decreases |b| - reader.pos
    {
      var name :- reader.ReadText();
      var data :- reader.ReadBytes();
      var value :- ReadOptionValue(data);
      assert PackedPairs(b, reader.pos).Some? ==>
          out + ([(name, value)] + PackedPairs(b, reader.pos).value)
          == out + [(name, value)] + PackedPairs(b, reader.pos).value;
      out := out + [(name, value)];
    }
    assert out + [] == out;
    r := Some(out);
  }

  /** The type, the nonce and the public key. */
  method ReadHead(r: Reader) returns (keyType: Option<string>)
    requires r.pos == 0
    modifies r
    ensures r.Valid() && Reads(keyType, r.pos, HeadAt(r.buf))
  {
    hide TextAt, BytesAt, SkipFields, PubkeyFields;
    var name :- r.ReadText();
    var fields :- PubkeyFields(name);
    var nonce :- r.ReadBytes();
    var key :- r.Skip(fields);
    keyType := Some(name);
  }

  /** From the serial to the extensions. */
  method ReadBody(r: Reader, keyType: string) returns (cert: Option<Cert>)
    requires r.Valid()
    modifies r
    ensures r.Valid() && Reads(cert, r.pos, BodyAt(r.buf, keyType, old(r.pos)))
  {
    hide TextAt, BytesAt, NumberAt, PackedStrings, PackedPairs, Names;
    var serial :- r.Number(8);
    var certType :- r.Number(4);
    if certType != CERT_TYPE_USER && certType != CERT_TYPE_HOST {
      return None;
    }
    var keyId :- r.ReadText();
    var names :- r.ReadBytes();
    var principals :- ReadPackedStrings(names);
    var validAfter :- r.Number(8);
    var validBefore :- r.Number(8);
    var options :- r.ReadBytes();
    var criticalOptions :- ReadPackedPairs(options);
    var more :- r.ReadBytes();
    var extensions :- ReadPackedPairs(more);
    cert := Some(Cert(
      keyType, serial, certType, keyId, principals, validAfter, validBefore, criticalOptions, Names(extensions)));
  }

  method ReadWire(blob: bytes) returns (cert: Option<Cert>)
    ensures cert == ParseWire(blob)
  {
    hide HeadAt, BodyAt, SkipFields;
    var r := new Reader(blob);
    var keyType :- ReadHead(r);
    var info :- ReadBody(r, keyType);
    var rest :- r.Skip(3);
    cert := if r.Done() then Some(info) else None;
  }
}
