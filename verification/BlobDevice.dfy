/**
 Reading and writing the large-blob array over a key, fragment by fragment.
 A key is a state and a step: any device at all is some `step`. The loops are
 methods on Device; ReadFrom and WriteTo are what they compute.
 */
module BlobDevice {
  import opened Prelude
  import opened Bytes
  import opened Ctap
  import opened Cbor
  import opened DeviceLabel
  import opened LargeBlobs

  const CTAP2_LARGE_BLOBS: byte := 0x0C
  const KEY_GET: nat := 0x01
  const KEY_SET: nat := 0x02
  const KEY_OFFSET: nat := 0x03
  const KEY_LENGTH: nat := 0x04
  const KEY_PIN_UV_AUTH_PARAM: nat := 0x05
  const KEY_PIN_UV_AUTH_PROTOCOL: nat := 0x06
  const RESP_CONFIG: nat := 0x01

  const DEFAULT_MAX_MSG_SIZE: nat := 1024
  const MSG_SIZE_OVERHEAD: nat := 64
  const READ_CAP: nat := 64 * 1024

  type Reply = Result<bytes, CtapError>

  /** One exchange with a device in some state. */
  type Step<!S> = (S, bytes) -> (S, Reply)

  /** A PIN token: what it authenticates a fragment at an offset with, and its protocol. */
  datatype Token = Token(authenticate: (nat, bytes) -> bytes, protocol: nat)

  function MaxFragmentLength(info: Info): (n: nat)
    ensures n >= 1
  {
    var max := if info.maxMsgSize.Some? then info.maxMsgSize.value else DEFAULT_MAX_MSG_SIZE;
    Max(max - MSG_SIZE_OVERHEAD, 1)
  }

  function Request(params: seq<Pair>): bytes {
    [CTAP2_LARGE_BLOBS] + Encode(Map(params))
  }

  function GetParams(count: nat, offset: nat): seq<Pair> {
    [Pair(UInt(KEY_GET), UInt(count)), Pair(UInt(KEY_OFFSET), UInt(offset))]
  }

  /** A fragment's parameters; the total length goes with the first fragment only. */
  function SetParams(fragment: bytes, offset: nat, total: nat, token: Token): seq<Pair> {
    [Pair(UInt(KEY_SET), Bytes(fragment)), Pair(UInt(KEY_OFFSET), UInt(offset))]
    + (if offset == 0 then [Pair(UInt(KEY_LENGTH), UInt(total))] else [])
    + [Pair(UInt(KEY_PIN_UV_AUTH_PARAM), Bytes(token.authenticate(offset % U32, fragment))),
       Pair(UInt(KEY_PIN_UV_AUTH_PROTOCOL), UInt(token.protocol))]
  }

  /** What an answer means: its status, then its body. */
  function Answer(reply: Reply): Result<Value, CtapError> {
    var resp :- reply;
    if resp == [] then Err(EmptyResponse)
    else if resp[0] != 0 then Err(StatusCode(resp[0]))
    else if |resp| == 1 then Ok(Null)
    else match Decode(resp[1..])
         case Ok((v, _)) => Ok(v)
         case Err(e) => Err(BadCbor(e))
  }

  /** The fragment an answer to a read carries. */
  function FragmentOf(reply: Reply): Result<bytes, CtapError> {
    var v :- Answer(reply);
    if !v.Map? then Err(InvalidResponseShape(NotAMap)) else
    match UintKey(v.entries, RESP_CONFIG)
    case None => Err(InvalidResponseShape(MissingConfig))
    case Some(Bytes(b)) => Ok(b)
    case _ => Err(InvalidResponseShape(ConfigNotBytes))
  }

  // ----- Reading

  /** Ask for fragment after fragment until a short one, with `data` read already. */
  function ReadFrom<S>(step: Step<S>, s: S, frag: nat, data: bytes): (S, Result<bytes, CtapError>)
    requires frag >= 1 && |data| <= READ_CAP
    decreases READ_CAP - |data|
  {
    var (s1, reply) := step(s, Request(GetParams(frag, |data|)));
    match FragmentOf(reply)
    case Err(e) => (s1, Err(e))
    case Ok(chunk) =>
      var data' := data + chunk;
      if |chunk| < frag then (s1, Ok(data'))
      else if |data'| > READ_CAP then (s1, Err(InvalidResponseShape(TooLarge)))
      else ReadFrom(step, s1, frag, data')
  }

  /** The array in what was read, once its checksum is right. */
  function CheckedArray(c: Crypto, data: bytes): Result<LargeBlobArray, CtapError> {
    if |data| < CHECKSUM_LEN then Err(InvalidResponseShape(ShorterThanChecksum)) else
    var cut := |data| - CHECKSUM_LEN;
    if data[cut..] != c.left16(data[..cut]) then Err(InvalidResponseShape(ChecksumMismatch))
    else Parse(data[..cut])
  }

  function ReadArray<S>(c: Crypto, step: Step<S>, s: S, info: Info): (S, Result<LargeBlobArray, CtapError>) {
    var (s1, r) := ReadFrom(step, s, MaxFragmentLength(info), []);
    match r
    case Err(e) => (s1, Err(e))
    case Ok(data) => (s1, CheckedArray(c, data))
  }

  // ----- Writing

  function FragmentEnd(data: bytes, frag: nat, offset: nat): nat {
    Min(offset + frag, |data|)
  }

  /** The requests that write `data` from `offset` on, in order. */
  function SetRequests(token: Token, frag: nat, data: bytes, offset: nat): seq<bytes>
    requires frag >= 1
    decreases |data| - offset
  {
    if offset >= |data| then [] else
    var end := FragmentEnd(data, frag, offset);
    [Request(SetParams(data[offset..end], offset, |data|, token))] + SetRequests(token, frag, data, end)
  }

  /** Send those requests until one fails. */
  function WriteTo<S>(step: Step<S>, s: S, token: Token, frag: nat, data: bytes, offset: nat)
    : (S, Result<(), CtapError>)
    requires frag >= 1
    decreases |data| - offset
  {
    if offset >= |data| then (s, Ok(())) else
    var end := FragmentEnd(data, frag, offset);
    var (s1, reply) := step(s, Request(SetParams(data[offset..end], offset, |data|, token)));
    match Answer(reply)
    case Err(e) => (s1, Err(e))
    case Ok(_) => WriteTo(step, s1, token, frag, data, end)
  }

  // ----- Planning and applying a name change

  datatype LabelPlan = LabelPlan(beforeRaw: bytes, serialized: bytes, previous: Option<Label>, after: LargeBlobArray)

  function PlanLabelChange(c: Crypto, current: LargeBlobArray, info: Info, name: Option<Label>, nonce: bytes)
    : Result<LabelPlan, LabelError>
  {
    if info.largeBlobs != Some(true) then Err(Unsupported)
    else if info.clientPin != Some(true) then Err(NoPin)
    else
      var after :- WithLabel(c, current, name, nonce);
      match SerializeWithChecksum(c, after)
      case Err(e) => Err(FromCtap(e))
      case Ok(serialized) =>
        var max := MaxBytes(info);
        if |serialized| > max then Err(TooLargeFor(|serialized|, max))
        else
          var previous := match LabelOf(c, current)
                          case Some((_, l)) => Some(l)
                          case None => None;
          Ok(LabelPlan(current.rawArray, serialized, previous, after))
  }

  /** Re-read, and write only over the array planned from. */
  function ApplyPlan<S>(c: Crypto, step: Step<S>, s: S, info: Info, token: Token, plan: LabelPlan)
    : (S, Result<(), LabelError>)
  {
    var (s1, now) := ReadArray(c, step, s, info);
    match now
    case Err(e) => (s1, Err(FromCtap(e)))
    case Ok(a) =>
      if a.rawArray != plan.beforeRaw then (s1, Err(Changed)) else
      var (s2, r) := WriteTo(step, s1, token, MaxFragmentLength(info), plan.serialized, 0);
      (s2, match r
           case Ok(_) => Ok(())
           case Err(e) => Err(FromCtap(e)))
  }

  // ----- The loops

  class Device<S> {
    var state: S
    var log: seq<bytes>
    const step: Step<S>

    constructor (s: S, step: Step<S>)
      ensures state == s && this.step == step && log == []
    {
      state, log, this.step := s, [], step;
    }

    /** One exchange. */
    method Transact(payload: bytes) returns (reply: Reply)
      modifies this
      ensures (state, reply) == step(old(state), payload)
      ensures log == old(log) + [payload]
    {
      var (s, r) := step(state, payload);
      state, reply := s, r;
      log := log + [payload];
    }

    method ReadAll(frag: nat) returns (r: Result<bytes, CtapError>)
      requires frag >= 1
      modifies this
      ensures (state, r) == ReadFrom(step, old(state), frag, [])
    {
      hide Request, FragmentOf;
      var data: bytes := [];
      var offset := 0;
      var more := true;
      while more
        invariant more ==> offset == |data| <= READ_CAP
        invariant more ==> ReadFrom(step, old(state), frag, []) == ReadFrom(step, state, frag, data)
        invariant !more ==> ReadFrom(step, old(state), frag, []) == (state, Ok(data))
        decreases more, READ_CAP - |data|
      {
        var reply := Transact(Request(GetParams(frag, offset)));
        var chunk := FragmentOf(reply);
        if chunk.Err? {
          return Err(chunk.error);
        }
        var got := |chunk.value|;
        data := data + chunk.value;
        if got < frag {
          more := false;
        } else {
          offset := offset + got;
          if |data| > READ_CAP {
            return Err(InvalidResponseShape(TooLarge));
          }
        }
      }
      return Ok(data);
    }

    method Read(c: Crypto, info: Info) returns (r: Result<LargeBlobArray, CtapError>)
      modifies this
      ensures (state, r) == ReadArray(c, step, old(state), info)
    {
      var data := ReadAll(MaxFragmentLength(info));
      r := if data.Err? then Err(data.error) else CheckedArray(c, data.value);
    }

    method Write(info: Info, token: Token, serialized: bytes) returns (r: Result<(), CtapError>)
      modifies this
      ensures (state, r) == WriteTo(step, old(state), token, MaxFragmentLength(info), serialized, 0)
      ensures var all := SetRequests(token, MaxFragmentLength(info), serialized, 0);
              && old(log) <= log <= old(log) + all
              && (r.Ok? ==> log == old(log) + all)
    {
      hide Request, Answer, SetParams, MaxFragmentLength;
      var fragLen := MaxFragmentLength(info);
      ghost var all := SetRequests(token, fragLen, serialized, 0);
      ghost var before := log;
      var offset := 0;
      while offset < |serialized|
        invariant 0 <= offset <= |serialized| && before <= log
        invariant WriteTo(step, old(state), token, fragLen, serialized, 0)
               == WriteTo(step, state, token, fragLen, serialized, offset)
        invariant before + all == log + SetRequests(token, fragLen, serialized, offset)
      {
        var end := FragmentEnd(serialized, fragLen, offset);
        var fragment := serialized[offset..end];
        var reply := Transact(Request(SetParams(fragment, offset, |serialized|, token)));
        assert before + all == log + SetRequests(token, fragLen, serialized, end);
        var answer := Answer(reply);
        if answer.Err? {
          return Err(answer.error);
        }
        offset := end;
      }
      return Ok(());
    }

    method ApplyLabelPlan(c: Crypto, info: Info, token: Token, plan: LabelPlan) returns (r: Result<(), LabelError>)
      modifies this
      ensures (state, r) == ApplyPlan(c, step, old(state), info, token, plan)
    {
      hide ReadArray, WriteTo, SetRequests;
      var now := Read(c, info);
      if now.Err? {
        return Err(FromCtap(now.error));
      }
      if now.value.rawArray != plan.beforeRaw {
        return Err(Changed);
      }
      var written := Write(info, token, plan.serialized);
      r := if written.Err? then Err(FromCtap(written.error)) else Ok(());
    }
  }

  /** Fill the slots pair by pair, as the loop over a map's pairs does. */
  method RecognizeEntry(raw: bytes) returns (e: Option<LargeBlobEntry>)
    ensures e == ConformingEntry(raw)
  {
    hide SplitMap, FillSlot;
    var split := SplitMap(raw);
    if split.Err? || split.value.1 != [] {
      return None;
    }
    var pairs := split.value.0;
    var s := NO_SLOTS;
    assert pairs[0..] == pairs;
    for i := 0 to |pairs|
      invariant FillSlots(NO_SLOTS, pairs) == FillSlots(s, pairs[i..])
    {
      var next := FillSlot(s, pairs[i]);
      assert pairs[i..][1..] == pairs[i + 1..];
      if next.None? {
        return None;
      }
      s := next.value;
    }
    assert pairs[|pairs|..] == [];
    e := if s.ciphertext.Some? && s.nonce.Some? && s.origSize.Some?
         then Some(LargeBlobEntry(s.ciphertext.value, s.nonce.value, s.origSize.value, Some(raw)))
         else None;
  }
}
