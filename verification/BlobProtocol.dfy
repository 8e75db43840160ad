/**
 The fragment loops against a conforming authenticator: the write state machine
 of CTAP 2.1, section 6.10.2, free to refuse any request and to lose any answer.
 */
module BlobProtocol {
  import opened Prelude
  import opened Bytes
  import opened Ctap
  import opened Cbor
  import opened CborLaws
  import opened DeviceLabel
  import opened LargeBlobs
  import opened LargeBlobLaws
  import opened BlobDevice

  // ----- The authenticator

  /** A write under way: how much was announced, and what has arrived. */
  datatype Pending = Pending(total: nat, received: bytes)

  /** An authenticator: the array it stores, a write under way, and anything else it holds. */
  datatype Auth = Auth(stored: bytes, pending: Option<Pending>, other: nat)

  datatype Command =
    | GetFragment(count: nat, offset: nat)
    | SetFragment(fragment: bytes, offset: nat, length: Option<nat>)
    | Unknown

  function UintOf(v: Option<Value>): Option<nat> {
    if v.Some? && v.value.UInt? then Some(v.value.n) else None
  }

  function BytesOf(v: Option<Value>): Option<bytes> {
    if v.Some? && v.value.Bytes? then Some(v.value.data) else None
  }

  /** The command a parameter map holds. */
  function CommandOf(m: seq<Pair>): Command {
    var offset := UintOf(UintKey(m, KEY_OFFSET));
    var count := UintOf(UintKey(m, KEY_GET));
    var fragment := BytesOf(UintKey(m, KEY_SET));
    if offset.None? then Unknown
    else if count.Some? then GetFragment(count.value, offset.value)
    else if fragment.Some? then SetFragment(fragment.value, offset.value, UintOf(UintKey(m, KEY_LENGTH)))
    else Unknown
  }

  /** The command a message holds, as the authenticator decodes it. */
  function ParseCommand(payload: bytes): Command {
    if payload == [] || payload[0] != CTAP2_LARGE_BLOBS then Unknown else
    match Decode(payload[1..])
    case Ok((Map(m), rest)) => if rest == [] then CommandOf(m) else Unknown
    case _ => Unknown
  }

  function Slice(stored: bytes, offset: nat, count: nat): bytes {
    if offset > |stored| then [] else stored[offset..Min(offset + count, |stored|)]
  }

  function GetReply(chunk: bytes): bytes {
    [0] + Encode(Map([Pair(UInt(RESP_CONFIG), Bytes(chunk))]))
  }

  predicate GoodChecksum(c: Crypto, data: bytes) {
    |data| >= CHECKSUM_LEN && data[|data| - CHECKSUM_LEN..] == c.left16(data[..|data| - CHECKSUM_LEN])
  }

  /** What accepting a fragment makes of the authenticator, if it may be accepted. */
  function Accept(c: Crypto, s: Auth, cmd: Command): Option<Auth>
    requires cmd.SetFragment?
  {
    var started :- if cmd.offset == 0 then
                     if cmd.length.Some? then Some(Pending(cmd.length.value, [])) else None
                   else if cmd.length.None? then s.pending else None;
    if |started.received| != cmd.offset then None else
    var received := started.received + cmd.fragment;
    if |received| > started.total then None
    else if |received| < started.total then Some(s.(pending := Some(Pending(started.total, received))))
    else if GoodChecksum(c, received) then Some(s.(stored := received, pending := None))
    else None
  }

  /** The answer is an error, of the link or of the authenticator. */
  predicate Refused(reply: Reply) {
    reply.Err? || (reply.value != [] && reply.value[0] != 0)
  }

  /**
   One exchange with a conforming authenticator. It may refuse anything, and
   then stores what it stored; it may accept a fragment and have its answer
   lost on the link; it answers a read with the bytes asked for, or refuses.
   */
  predicate Exchange(c: Crypto, s: Auth, payload: bytes, s': Auth, reply: Reply) {
    match ParseCommand(payload)
    case GetFragment(count, offset) =>
      s'.stored == s.stored && (Refused(reply) || reply == Ok(GetReply(Slice(s.stored, offset, count))))
    case SetFragment(fragment, offset, length) =>
      var accepted := Accept(c, s, SetFragment(fragment, offset, length));
      || (Refused(reply) && s'.stored == s.stored)
      || (accepted.Some? && reply == Err(Transport) && s'.stored == accepted.value.stored)
      || (accepted.Some? && reply == Ok([0]) && s'.stored == accepted.value.stored
          && s'.pending == accepted.value.pending)
    case Unknown => Refused(reply) && s'.stored == s.stored
  }

  /** Every exchange is a conforming one. */
  ghost predicate Conforms(c: Crypto, step: Step<Auth>) {
    forall s: Auth, payload: bytes :: Exchange(c, s, payload, step(s, payload).0, step(s, payload).1)
  }

  /** It never refuses to be read. */
  ghost predicate AnswersReads(step: Step<Auth>) {
    forall s: Auth, payload: bytes :: ParseCommand(payload).GetFragment? ==> !Refused(step(s, payload).1)
  }

  /** It never refuses a fragment it may accept, and its answer is not lost. */
  ghost predicate AcceptsWrites(c: Crypto, step: Step<Auth>) {
    forall s: Auth, payload: bytes ::
      var cmd := ParseCommand(payload);
      cmd.SetFragment? && Accept(c, s, cmd).Some? ==> step(s, payload).1 == Ok([0])
  }

  // ----- Requests are understood

  /** A request of plain values decodes to its parameters. */
  lemma ParseOfRequest(m: seq<Pair>)
    requires 2 * |m| < U64
    requires forall i :: 0 <= i < |m| ==> WellFormedPair(m[i]) && NestingOfPair(m[i]) == 0
    ensures ParseCommand(Request(m)) == CommandOf(m)
  {
    NestingOfPlain(m);
    assert WellFormed(Map(m)) && Nesting(Map(m)) <= 1;
    RoundTrip(Map(m), []);
    hide Encode, Nesting, WellFormed, DecodeAt, CommandOf;
    assert Encode(Map(m)) + [] == Encode(Map(m));
    assert Request(m)[1..] == Encode(Map(m));
  }

  lemma {:induction false} NestingOfPlain(m: seq<Pair>)
    requires forall i :: 0 <= i < |m| ==> NestingOfPair(m[i]) == 0
    ensures NestingOfPairs(m) == 0
  {
    hide NestingOfPair;
    if m != [] {
      NestingOfPlain(m[1..]);
    }
  }

  lemma GetIsUnderstood(count: nat, offset: nat)
    requires count < U64 && offset < U64
    ensures ParseCommand(Request(GetParams(count, offset))) == GetFragment(count, offset)
  {
    var m := GetParams(count, offset);
    PlainPair(KEY_GET, UInt(count));
    PlainPair(KEY_OFFSET, UInt(offset));
    ParseOfRequest(m);
    hide ParseCommand, Request;
    var tail := m[1..];
    assert tail[1..] == [];
    assert UintKey(tail[1..], KEY_SET) == None;
    assert UintKey(tail, KEY_SET) == UintKey(tail[1..], KEY_SET);
    assert UintKey(tail, KEY_OFFSET) == Some(UInt(offset));
  }

  /** What a token's answers fit: its protocol is a number and its output is short. */
  ghost predicate GoodToken(t: Token) {
    && t.protocol < U64
    && forall offset: nat, fragment: bytes :: |t.authenticate(offset, fragment)| < U64
  }

  lemma SetIsUnderstood(fragment: bytes, offset: nat, total: nat, token: Token)
    requires |fragment| < U64 && offset < U64 && total < U64 && GoodToken(token)
    ensures ParseCommand(Request(SetParams(fragment, offset, total, token)))
         == SetFragment(fragment, offset, if offset == 0 then Some(total) else None)
  {
    var m := SetParams(fragment, offset, total, token);
    var auth := token.authenticate(offset % U32, fragment);
    assert |auth| < U64;
    SetParamsPlain(m, fragment, offset, total, auth, token.protocol);
    ParseOfRequest(m);
    hide ParseCommand, Request, WellFormedPair, NestingOfPair, SetParams;
    SetParamsLookedUp(m, fragment, offset, total, auth, token.protocol);
  }

  /** The parameters of a write, spelled out. */
  predicate IsSet(m: seq<Pair>, fragment: bytes, offset: nat, total: nat, auth: bytes, protocol: nat) {
    m == [Pair(UInt(KEY_SET), Bytes(fragment)), Pair(UInt(KEY_OFFSET), UInt(offset))]
         + (if offset == 0 then [Pair(UInt(KEY_LENGTH), UInt(total))] else [])
         + [Pair(UInt(KEY_PIN_UV_AUTH_PARAM), Bytes(auth)), Pair(UInt(KEY_PIN_UV_AUTH_PROTOCOL), UInt(protocol))]
  }

  lemma PlainPair(key: nat, v: Value)
    requires key < U64 && (v.UInt? || v.Bytes?) && WellFormed(v)
    ensures WellFormedPair(Pair(UInt(key), v)) && NestingOfPair(Pair(UInt(key), v)) == 0
  {
  }

  lemma SetParamsPlain(m: seq<Pair>, fragment: bytes, offset: nat, total: nat, auth: bytes, protocol: nat)
    requires IsSet(m, fragment, offset, total, auth, protocol)
    requires |fragment| < U64 && offset < U64 && total < U64 && |auth| < U64 && protocol < U64
    ensures |m| <= 5 && forall i :: 0 <= i < |m| ==> WellFormedPair(m[i]) && NestingOfPair(m[i]) == 0
  {
    var parts := [Pair(UInt(KEY_SET), Bytes(fragment)), Pair(UInt(KEY_OFFSET), UInt(offset)),
                  Pair(UInt(KEY_LENGTH), UInt(total)), Pair(UInt(KEY_PIN_UV_AUTH_PARAM), Bytes(auth)),
                  Pair(UInt(KEY_PIN_UV_AUTH_PROTOCOL), UInt(protocol))];
    PlainPair(KEY_SET, Bytes(fragment));
    PlainPair(KEY_OFFSET, UInt(offset));
    PlainPair(KEY_LENGTH, UInt(total));
    PlainPair(KEY_PIN_UV_AUTH_PARAM, Bytes(auth));
    PlainPair(KEY_PIN_UV_AUTH_PROTOCOL, UInt(protocol));
    hide WellFormedPair, NestingOfPair;
    forall i | 0 <= i < |m| ensures m[i] in parts {
      if offset != 0 && i >= 2 {
        assert m[i] == parts[i + 1];
      } else {
        assert m[i] == parts[i];
      }
    }
  }

  lemma SetParamsLookedUp(m: seq<Pair>, fragment: bytes, offset: nat, total: nat, auth: bytes, protocol: nat)
    requires IsSet(m, fragment, offset, total, auth, protocol)
    ensures CommandOf(m) == SetFragment(fragment, offset, if offset == 0 then Some(total) else None)
  {
    var one := m[1..];
    var two := one[1..];
    var three := two[1..];
    var four := three[1..];
    assert UintKey(m, KEY_OFFSET) == UintKey(one, KEY_OFFSET) == Some(UInt(offset));
    assert UintKey(m, KEY_GET) == UintKey(one, KEY_GET) == UintKey(two, KEY_GET) == UintKey(three, KEY_GET)
           == UintKey(four, KEY_GET);
    assert UintKey(m, KEY_LENGTH) == UintKey(one, KEY_LENGTH) == UintKey(two, KEY_LENGTH);
    if offset == 0 {
      assert four[1..] == [];
      assert UintKey(four, KEY_GET) == UintKey(four[1..], KEY_GET) == None;
    } else {
      assert four == [];
      assert UintKey(two, KEY_LENGTH) == UintKey(three, KEY_LENGTH) == UintKey(four, KEY_LENGTH) == None;
    }
  }

  /** An honest answer to a read gives the fragment it carries. */
  lemma FragmentOfReply(chunk: bytes)
    requires |chunk| < U64
    ensures FragmentOf(Ok(GetReply(chunk))) == Ok(chunk)
  {
    var m := [Pair(UInt(RESP_CONFIG), Bytes(chunk))];
    PlainPair(RESP_CONFIG, Bytes(chunk));
    NestingOfPlain(m);
    assert WellFormed(Map(m)) && Nesting(Map(m)) <= 1;
    RoundTrip(Map(m), []);
    hide Encode, Nesting, WellFormed, DecodeAt;
    assert Encode(Map(m)) + [] == Encode(Map(m));
    assert GetReply(chunk)[1..] == Encode(Map(m));
  }

  // ----- Reading

  /** One fragment from a conforming authenticator: an error, or the bytes at that offset. */
  lemma OneRead(c: Crypto, step: Step<Auth>, s: Auth, frag: nat, offset: nat)
    requires Conforms(c, step) && frag < U64 && offset <= |s.stored| < U64
    ensures var (s1, reply) := step(s, Request(GetParams(frag, offset)));
            && s1.stored == s.stored
            && (FragmentOf(reply).Ok? ==> FragmentOf(reply) == Ok(Slice(s.stored, offset, frag)))
            && (AnswersReads(step) ==> FragmentOf(reply).Ok?)
  {
    var payload := Request(GetParams(frag, offset));
    GetIsUnderstood(frag, offset);
    hide ParseCommand, Request, GetReply, Decode;
    FragmentOfReply(Slice(s.stored, offset, frag));
    assert Exchange(c, s, payload, step(s, payload).0, step(s, payload).1);
  }

  /**
   Reading a conforming authenticator from a whole number of fragments on
   leaves it storing what it stored. Data read is exactly the stored bytes.
   When reads are answered, it fails exactly when the whole fragments alone
   pass the cap.
   */
  lemma {:induction false} ReadFromAuth(c: Crypto, step: Step<Auth>, s: Auth, frag: nat, done: nat)
    requires Conforms(c, step) && 1 <= frag < U64 && |s.stored| < U64
    requires done * frag <= READ_CAP && done * frag <= |s.stored|
    ensures var (s1, r) := ReadFrom(step, s, frag, s.stored[..done * frag]);
            && s1.stored == s.stored
            && (r.Ok? ==> r.value == s.stored)
            && (AnswersReads(step) ==> (r.Ok? <==> |s.stored| / frag * frag <= READ_CAP))
    decreases READ_CAP - done * frag
  {
    hide Request, FragmentOf, Conforms, AnswersReads;
    var k, total := done * frag, |s.stored|;
    var data := s.stored[..k];
    OneRead(c, step, s, frag, k);
    var (s1, reply) := step(s, Request(GetParams(frag, k)));
    if FragmentOf(reply).Ok? {
      var chunk := Slice(s.stored, k, frag);
      if k + frag > total {
        assert data + chunk == s.stored;
        WholeFragments(total, frag, done);
      } else {
        var next := done + 1;
        assert next * frag == k + frag;
        assert data + chunk == s.stored[..next * frag];
        if next * frag > READ_CAP {
          AtLeastFragments(total, frag, next);
        } else {
          ReadFromAuth(c, step, s1, frag, next);
        }
      }
    }
  }

  lemma WholeFragments(total: nat, frag: nat, done: nat)
    requires frag >= 1 && done * frag <= total < done * frag + frag
    ensures total / frag * frag == done * frag
  {
    var q, r := total / frag, total % frag;
    assert total == q * frag + r;
    if q > done {
      MoreIsAtLeastOneMore(done, q, frag);
    } else if q < done {
      MoreIsAtLeastOneMore(q, done, frag);
    }
  }

  lemma MoreIsAtLeastOneMore(few: nat, many: nat, frag: nat)
    requires few < many
    ensures few * frag + frag <= many * frag
  {
    var k := many - few - 1;
    assert many == few + 1 + k;
    assert many * frag == few * frag + frag + k * frag;
  }

  lemma AtLeastFragments(total: nat, frag: nat, done: nat)
    requires frag >= 1 && done * frag <= total
    ensures total / frag * frag >= done * frag
  {
    var q, r := total / frag, total % frag;
    assert total == q * frag + r;
    if q < done {
      MoreIsAtLeastOneMore(q, done, frag);
    }
  }

  /**
   Any array of at most 64 KiB is read back exactly as stored, whatever the
   fragment length, exact multiples of it included. Beyond that it depends on
   the fragment length: the last, short fragment is never counted.
   */
  lemma ReadsWhatIsStored(c: Crypto, step: Step<Auth>, s: Auth, frag: nat)
    requires Conforms(c, step) && AnswersReads(step) && 1 <= frag < U64 && |s.stored| < U64
    ensures var (s1, r) := ReadFrom(step, s, frag, []);
            && s1.stored == s.stored
            && (r == Ok(s.stored) <==> |s.stored| / frag * frag <= READ_CAP)
            && (|s.stored| <= READ_CAP ==> r == Ok(s.stored))
  {
    hide ReadFrom, Conforms, AnswersReads;
    assert s.stored[..0 * frag] == [];
    ReadFromAuth(c, step, s, frag, 0);
    assert |s.stored| / frag * frag <= |s.stored| by {
      var q, r := |s.stored| / frag, |s.stored| % frag;
      assert |s.stored| == q * frag + r;
    }
  }

  // ----- Writing

  /** A write of `data` has sent its first `offset` bytes, and all were accepted. */
  predicate Underway(s: Auth, before: bytes, data: bytes, offset: nat) {
    && offset <= |data|
    && s.stored == (if 0 < offset == |data| then data else before)
    && (0 < offset < |data| ==> s.pending == Some(Pending(|data|, data[..offset])))
  }

  /** One fragment to a conforming authenticator. */
  lemma OneWrite(c: Crypto, step: Step<Auth>, s: Auth, token: Token, frag: nat, before: bytes, data: bytes, offset: nat)
    requires Conforms(c, step) && GoodToken(token) && |data| < U64 && frag >= 1
    requires offset < |data| && Underway(s, before, data, offset)
    ensures var end := FragmentEnd(data, frag, offset);
            var (s1, reply) := step(s, Request(SetParams(data[offset..end], offset, |data|, token)));
            && (Answer(reply).Ok? ==> Underway(s1, before, data, end))
            && (Answer(reply).Err? ==> s1.stored == before || s1.stored == data)
            && (Answer(reply).Err? && Answer(reply).error.StatusCode? ==> s1.stored == before)
  {
    var end := FragmentEnd(data, frag, offset);
    var fragment := data[offset..end];
    var payload := Request(SetParams(fragment, offset, |data|, token));
    SetIsUnderstood(fragment, offset, |data|, token);
    hide ParseCommand, Request, SetParams, Decode, GoodChecksum;
    var cmd := SetFragment(fragment, offset, if offset == 0 then Some(|data|) else None);
    AcceptedFragment(c, s, before, data, offset, end);
    hide Accept;
    var (s1, reply) := step(s, payload);
    assert Exchange(c, s, payload, s1, reply);
  }

  lemma AcceptedFragment(c: Crypto, s: Auth, before: bytes, data: bytes, offset: nat, end: nat)
    requires offset < end <= |data| && Underway(s, before, data, offset)
    ensures var cmd := SetFragment(data[offset..end], offset, if offset == 0 then Some(|data|) else None);
            Accept(c, s, cmd).Some? ==> Underway(Accept(c, s, cmd).value, before, data, end)
  {
    hide GoodChecksum;
    assert data[..offset] + data[offset..end] == data[..end];
    assert [] + data[..end] == data[..end];
    assert data[..|data|] == data;
  }

  lemma {:induction false} WriteFromAuth(
      c: Crypto, step: Step<Auth>, s: Auth, token: Token, frag: nat, before: bytes, data: bytes, offset: nat)
    requires Conforms(c, step) && GoodToken(token) && 1 <= |data| < U64 && frag >= 1
    requires Underway(s, before, data, offset)
    ensures var (s1, r) := WriteTo(step, s, token, frag, data, offset);
            && (s1.stored == before || s1.stored == data)
            && (r.Ok? ==> s1.stored == data)
            && (r.Err? && r.error.StatusCode? ==> s1.stored == before)
    decreases |data| - offset
  {
    hide Request, SetParams, Answer, Conforms, GoodToken;
    if offset < |data| {
      var end := FragmentEnd(data, frag, offset);
      OneWrite(c, step, s, token, frag, before, data, offset);
      var (s1, reply) := step(s, Request(SetParams(data[offset..end], offset, |data|, token)));
      if Answer(reply).Ok? {
        WriteFromAuth(c, step, s1, token, frag, before, data, end);
      }
    }
  }

  /**
   A write stores all of the data or leaves what was stored: done means
   stored, and an authenticator's refusal of any fragment means unchanged.
   Only a lost answer leaves the two cases open.
   */
  lemma WriteIsAllOrNothing(c: Crypto, step: Step<Auth>, s: Auth, token: Token, frag: nat, data: bytes)
    requires Conforms(c, step) && GoodToken(token) && 1 <= |data| < U64 && frag >= 1
    ensures var (s1, r) := WriteTo(step, s, token, frag, data, 0);
            && (s1.stored == s.stored || s1.stored == data)
            && (r.Ok? ==> s1.stored == data)
            && (r.Err? && r.error.StatusCode? ==> s1.stored == s.stored)
  {
    WriteFromAuth(c, step, s, token, frag, s.stored, data, 0);
  }

  /** The next fragment of a write underway may be accepted, unless it is the last and the checksum is wrong. */
  lemma MayBeAccepted(c: Crypto, s: Auth, before: bytes, data: bytes, offset: nat, end: nat)
    requires offset < end <= |data| && Underway(s, before, data, offset)
    ensures var cmd := SetFragment(data[offset..end], offset, if offset == 0 then Some(|data|) else None);
            Accept(c, s, cmd).Some? <==> end < |data| || GoodChecksum(c, data)
  {
    hide GoodChecksum;
    assert data[..offset] + data[offset..end] == data[..end];
    assert [] + data[..end] == data[..end];
    assert data[..|data|] == data;
  }

  /** A fragment that may be accepted is, and the write goes on; another is refused. */
  lemma OneWriteAccepted(
      c: Crypto, step: Step<Auth>, s: Auth, token: Token, frag: nat, before: bytes, data: bytes, offset: nat)
    requires Conforms(c, step) && AcceptsWrites(c, step) && GoodToken(token) && |data| < U64 && frag >= 1
    requires offset < |data| && Underway(s, before, data, offset)
    ensures var end := FragmentEnd(data, frag, offset);
            var reply := step(s, Request(SetParams(data[offset..end], offset, |data|, token))).1;
            Answer(reply).Ok? <==> end < |data| || GoodChecksum(c, data)
  {
    var end := FragmentEnd(data, frag, offset);
    var fragment := data[offset..end];
    var payload := Request(SetParams(fragment, offset, |data|, token));
    SetIsUnderstood(fragment, offset, |data|, token);
    hide ParseCommand, Request, SetParams, Decode, GoodChecksum, Underway;
    MayBeAccepted(c, s, before, data, offset, end);
    hide Accept;
    assert Exchange(c, s, payload, step(s, payload).0, step(s, payload).1);
  }

  /**
   An authenticator that accepts what it may stores the data exactly when its
   checksum is right, and then the write reports that it is done.
   */
  lemma {:induction false} WritesExactlyWhatChecks(
      c: Crypto, step: Step<Auth>, s: Auth, token: Token, frag: nat, before: bytes, data: bytes, offset: nat)
    requires Conforms(c, step) && AcceptsWrites(c, step) && GoodToken(token) && 1 <= |data| < U64 && frag >= 1
    requires Underway(s, before, data, offset) && offset < |data|
    ensures var (s1, r) := WriteTo(step, s, token, frag, data, offset);
            && (r.Ok? <==> GoodChecksum(c, data))
            && (GoodChecksum(c, data) ==> s1.stored == data)
    decreases |data| - offset
  {
    hide Request, SetParams, Answer, Conforms, AcceptsWrites, GoodToken, GoodChecksum;
    var end := FragmentEnd(data, frag, offset);
    OneWrite(c, step, s, token, frag, before, data, offset);
    OneWriteAccepted(c, step, s, token, frag, before, data, offset);
    var (s1, reply) := step(s, Request(SetParams(data[offset..end], offset, |data|, token)));
    if Answer(reply).Ok? && end < |data| {
      WritesExactlyWhatChecks(c, step, s1, token, frag, before, data, end);
    }
  }

  // ----- The fragments themselves

  /** The bytes each request of a write carries. */
  function Cuts(frag: nat, data: bytes, offset: nat): seq<bytes>
    requires frag >= 1
    decreases |data| - offset
  {
    if offset >= |data| then [] else
    var end := FragmentEnd(data, frag, offset);
    [data[offset..end]] + Cuts(frag, data, end)
  }

  /**
   A write's requests carry contiguous, non-empty fragments no longer than
   the limit, which together are the data; each is understood as a write at
   the offset where its fragment starts, and only the first names the length.
   */
  lemma {:induction false} WriteSendsContiguousFragments(token: Token, frag: nat, data: bytes, offset: nat)
    requires frag >= 1 && |data| < U64 && offset <= |data| && GoodToken(token)
    ensures var cuts := Cuts(frag, data, offset);
            var sent := SetRequests(token, frag, data, offset);
            && Concat(cuts) == data[offset..] && |sent| == |cuts|
            && (forall i :: 0 <= i < |cuts| ==> 1 <= |cuts[i]| <= frag)
            && (forall i :: 0 <= i < |cuts| ==>
                  var at := offset + |Concat(cuts[..i])|;
                  ParseCommand(sent[i]) == SetFragment(cuts[i], at, if at == 0 then Some(|data|) else None))
    decreases |data| - offset
  {
    hide ParseCommand, Request, SetParams, GoodToken;
    if offset < |data| {
      var end := FragmentEnd(data, frag, offset);
      var fragment := data[offset..end];
      var more := Cuts(frag, data, end);
      SetIsUnderstood(fragment, offset, |data|, token);
      WriteSendsContiguousFragments(token, frag, data, end);
      assert Cuts(frag, data, offset) == [fragment] + more;
      ConcatFirst(fragment, more);
      assert data[offset..] == fragment + data[end..];
      hide Cuts, SetRequests, Concat;
      OffsetsShift(fragment, more);
    }
  }

  /** Where each fragment starts, once one more stands in front. */
  lemma OffsetsShift(first: bytes, more: seq<bytes>)
    ensures |Concat(([first] + more)[..0])| == 0
    ensures forall i :: 0 <= i < |more| ==> |Concat(([first] + more)[..i + 1])| == |first| + |Concat(more[..i])|
  {
    forall i | 0 <= i < |more| ensures |Concat(([first] + more)[..i + 1])| == |first| + |Concat(more[..i])| {
      assert ([first] + more)[..i + 1] == [first] + more[..i];
      ConcatFirst(first, more[..i]);
    }
  }

  // ----- The update

  /** A name entry is one whatever bytes it was read as. */
  lemma {:induction false} LabelItemsAsRead(c: Crypto, items: seq<Item>)
    ensures Elements(LabelItems(c, AllAsRead(items), false)) == Elements(LabelItems(c, items, false))
    ensures |LabelItems(c, AllAsRead(items), true)| == |LabelItems(c, items, true)|
  {
    hide ItemBytes, LabelItems, IsLabelItem;
    if items == [] {
      assert AllAsRead(items) == items;
    } else {
      var item, rest, read := items[0], items[1..], AsRead(items[0]);
      LabelItemsAsRead(c, rest);
      assert items == [item] + rest && AllAsRead(items) == [read] + AllAsRead(rest);
      SameKindAsRead(c, item);
      LabelItemsOfOne(c, item);
      LabelItemsOfOne(c, read);
      LabelItemsOfConcat(c, [item], rest, false);
      LabelItemsOfConcat(c, [item], rest, true);
      LabelItemsOfConcat(c, [read], AllAsRead(rest), false);
      LabelItemsOfConcat(c, [read], AllAsRead(rest), true);
      ElementsOfConcat(LabelItems(c, [item], false), LabelItems(c, rest, false));
      ElementsOfConcat(LabelItems(c, [read], false), LabelItems(c, AllAsRead(rest), false));
      assert Elements([item]) == Elements([read]);
    }
  }

  lemma SameKindAsRead(c: Crypto, item: Item)
    ensures IsLabelItem(c, AsRead(item)) == IsLabelItem(c, item) && ItemBytes(AsRead(item)) == ItemBytes(item)
  {
    hide Encode;
  }

  /** An entry's name is the same whatever bytes it was read as. */
  lemma {:induction false} EntriesAsRead(items: seq<Item>)
    ensures |Entries(AllAsRead(items))| == |Entries(items)|
    ensures forall i :: 0 <= i < |Entries(items)| ==>
              && Entries(AllAsRead(items))[i].nonce == Entries(items)[i].nonce
              && Entries(AllAsRead(items))[i].ciphertext == Entries(items)[i].ciphertext
              && Entries(AllAsRead(items))[i].origSize == Entries(items)[i].origSize
  {
    hide ItemBytes;
    if items != [] {
      EntriesAsRead(items[1..]);
      assert AllAsRead(items)[1..] == AllAsRead(items[1..]);
    }
  }

  lemma {:induction false} LastLabelOfAlike(c: Crypto, x: seq<LargeBlobEntry>, y: seq<LargeBlobEntry>)
    requires |x| == |y|
    requires forall i :: 0 <= i < |x| ==>
               x[i].nonce == y[i].nonce && x[i].ciphertext == y[i].ciphertext && x[i].origSize == y[i].origSize
    ensures LastLabel(c, x) == LastLabel(c, y)
    decreases |x|
  {
    hide InflateRaw, ReadPlaintext;
    if x != [] {
      LastLabelOfAlike(c, x[..|x| - 1], y[..|y| - 1]);
    }
  }

  /** The name of an array is the same once it was written and read. */
  lemma LabelAsRead(c: Crypto, a: LargeBlobArray, b: LargeBlobArray)
    requires b.items == AllAsRead(a.items)
    ensures LabelOf(c, b) == LabelOf(c, a)
  {
    hide Entries, LastLabel;
    EntriesAsRead(a.items);
    LastLabelOfAlike(c, Entries(b.items), Entries(a.items));
  }

  /** The name an array has, without its number. */
  function NameIn(c: Crypto, a: LargeBlobArray): Option<Label> {
    match LabelOf(c, a)
    case None => None
    case Some((_, l)) => Some(l)
  }

  lemma ElementsOfConcat(x: seq<Item>, y: seq<Item>)
    ensures Elements(x + y) == Elements(x) + Elements(y)
  {
    hide ItemBytes;
  }

  /** What a plan made from an array read from a key will write. */
  lemma PlannedBytes(c: Crypto, current: LargeBlobArray, info: Info, name: Option<Label>, nonce: bytes)
    requires c.Lawful() && |nonce| == 12 && |current.items| + 1 < U64
    requires Parse(current.rawArray) == Ok(current)
    requires PlanLabelChange(c, current, info, name, nonce).Ok?
    ensures var bytes := PlanLabelChange(c, current, info, name, nonce).value.serialized;
            && CheckedArray(c, bytes).Ok?
            && var after := CheckedArray(c, bytes).value;
               && after.trailing == 0
               && Elements(LabelItems(c, after.items, false)) == Elements(LabelItems(c, current.items, false))
               && |LabelItems(c, after.items, true)| == (if name.Some? then 1 else 0)
               && NameIn(c, after) == name
  {
    hide Parse, ArrayBytes, LabelItems, LabelOf, AllAsRead, Elements, ValidItem;
    ParsedIsValid(current.rawArray);
    var after := WithLabel(c, current, name, nonce).value;
    assert Apply(c, current, SetLabel(name, nonce)) == Some(after);
    ApplyKeepsSound(c, current, SetLabel(name, nonce), 0);
    LabelAfterSetting(c, current, name, nonce);
    WrittenReadsBack(after);
    LabelItemsAsRead(c, after.items);
    LabelAsRead(c, after, LargeBlobArray(AllAsRead(after.items), ArrayBytes(after), 0));
    var raw := ArrayBytes(after);
    var bytes := raw + c.left16(raw);
    assert bytes[..|bytes| - CHECKSUM_LEN] == raw && bytes[|bytes| - CHECKSUM_LEN..] == c.left16(raw);
  }

  /** Reading the array is either an error or what is stored, checked; nothing changes. */
  lemma ReadArrayFromAuth(c: Crypto, step: Step<Auth>, s: Auth, info: Info)
    requires Conforms(c, step) && |s.stored| < U64 && MaxFragmentLength(info) < U64
    ensures var (s1, r) := ReadArray(c, step, s, info);
            && s1.stored == s.stored
            && (r.Ok? ==> r == CheckedArray(c, s.stored))
  {
    hide ReadFrom, Conforms, CheckedArray, MaxFragmentLength;
    var frag := MaxFragmentLength(info);
    assert s.stored[..0 * frag] == [];
    ReadFromAuth(c, step, s, frag, 0);
  }

  /**
   Applying a plan over a conforming authenticator, whatever it stores by
   then: it ends storing what it stored or exactly the planned bytes, with
   refusals leaving it unchanged. When it was written, the array it stored at
   the re-read is the one planned from, and the bytes now stored read as every
   element of that array that was not a name, byte for byte and in order, with
   the name asked for as its only name, or none.
   */
  lemma ApplyLosesNothing(
      c: Crypto, step: Step<Auth>, s: Auth, info: Info, token: Token,
      current: LargeBlobArray, name: Option<Label>, nonce: bytes)
    requires c.Lawful() && Conforms(c, step) && GoodToken(token) && |nonce| == 12
    requires |s.stored| < U64 && MaxFragmentLength(info) < U64 && MaxBytes(info) < U64
    requires Parse(current.rawArray) == Ok(current) && |current.items| + 1 < U64
    requires PlanLabelChange(c, current, info, name, nonce).Ok?
    ensures var plan := PlanLabelChange(c, current, info, name, nonce).value;
            var (s1, r) := ApplyPlan(c, step, s, info, token, plan);
            && (s1.stored == s.stored || s1.stored == plan.serialized)
            && (r.Ok? ==> s1.stored == plan.serialized)
            && (r == Err(Changed) ==> s1.stored == s.stored)
            && (r.Err? && r.error.FromCtap? && r.error.error.StatusCode? ==> s1.stored == s.stored)
            && (r.Ok? || s1.stored != s.stored ==> Survived(c, s.stored, s1.stored, name))
  {
    hide ReadArray, WriteTo, CheckedArray, PlanLabelChange, Conforms, MaxFragmentLength, GoodToken, Parse, LabelItems;
    var plan := PlanLabelChange(c, current, info, name, nonce).value;
    PlannedBytes(c, current, info, name, nonce);
    PlannedFrom(c, current, info, name, nonce);
    ReadArrayFromAuth(c, step, s, info);
    var (s1, now) := ReadArray(c, step, s, info);
    if now.Ok? && now.value.rawArray == plan.beforeRaw {
      CheckedIsParsed(c, s.stored);
      assert now.value == current;
      var frag := MaxFragmentLength(info);
      WriteIsAllOrNothing(c, step, s1, token, frag, plan.serialized);
      var (s2, w) := WriteTo(step, s1, token, frag, plan.serialized, 0);
      assert ApplyPlan(c, step, s, info, token, plan) == (s2, if w.Ok? then Ok(()) else Err(FromCtap(w.error)));
    }
  }

  /**
   And it does get there: over an authenticator that answers reads and accepts
   what it may, and still stores the array planned from, the planned bytes are
   stored and the change is reported done.
   */
  lemma ApplyStoresThePlan(
      c: Crypto, step: Step<Auth>, s: Auth, info: Info, token: Token,
      current: LargeBlobArray, name: Option<Label>, nonce: bytes)
    requires c.Lawful() && Conforms(c, step) && GoodToken(token) && |nonce| == 12
    requires AnswersReads(step) && AcceptsWrites(c, step)
    requires |s.stored| <= READ_CAP && MaxFragmentLength(info) < U64 && MaxBytes(info) < U64
    requires CheckedArray(c, s.stored) == Ok(current) && |current.items| + 1 < U64
    requires PlanLabelChange(c, current, info, name, nonce).Ok?
    ensures var plan := PlanLabelChange(c, current, info, name, nonce).value;
            var (s1, r) := ApplyPlan(c, step, s, info, token, plan);
            r == Ok(()) && s1.stored == plan.serialized
  {
    hide ReadFrom, WriteTo, CheckedArray, PlanLabelChange, Conforms, MaxFragmentLength, GoodToken, Parse, LabelItems,
         AnswersReads, AcceptsWrites, GoodChecksum;
    var plan := PlanLabelChange(c, current, info, name, nonce).value;
    CheckedIsParsed(c, s.stored);
    PlannedBytes(c, current, info, name, nonce);
    PlannedFrom(c, current, info, name, nonce);
    CheckedIsGood(c, plan.serialized);
    var frag := MaxFragmentLength(info);
    ReadsWhatIsStored(c, step, s, frag);
    var (s1, data) := ReadFrom(step, s, frag, []);
    assert Underway(s1, s.stored, plan.serialized, 0);
    WritesExactlyWhatChecks(c, step, s1, token, frag, s.stored, plan.serialized, 0);
  }

  lemma CheckedIsGood(c: Crypto, data: bytes)
    requires CheckedArray(c, data).Ok?
    ensures GoodChecksum(c, data)
  {
    hide Parse;
  }

  lemma PlannedFrom(c: Crypto, current: LargeBlobArray, info: Info, name: Option<Label>, nonce: bytes)
    requires PlanLabelChange(c, current, info, name, nonce).Ok?
    ensures var plan := PlanLabelChange(c, current, info, name, nonce).value;
            plan.beforeRaw == current.rawArray && 1 <= |plan.serialized| <= MaxBytes(info)
  {
    hide Concat, Elements;
  }

  lemma CheckedIsParsed(c: Crypto, data: bytes)
    requires CheckedArray(c, data).Ok?
    ensures Parse(CheckedArray(c, data).value.rawArray) == CheckedArray(c, data)
  {
    hide SplitArray;
  }

  /** Both stored forms hold arrays; every element that was not a name is still there, and the name is as asked. */
  predicate Survived(c: Crypto, before: bytes, after: bytes, name: Option<Label>) {
    && CheckedArray(c, before).Ok? && CheckedArray(c, after).Ok?
    && var stored0, stored1 := CheckedArray(c, before).value.items, CheckedArray(c, after).value.items;
       && Elements(LabelItems(c, stored1, false)) == Elements(LabelItems(c, stored0, false))
       && |LabelItems(c, stored1, true)| == (if name.Some? then 1 else 0)
       && NameIn(c, CheckedArray(c, after).value) == name
  }
}
