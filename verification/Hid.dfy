/**
 CTAP-HID framing: section 11.2.4 of CTAP 2.1. A message is one initiation
 frame and up to 128 continuation frames of 64 bytes; many programs and many
 channels share one key. What reads will find is a list of polls, each with
 the time and the cancel flag as the code sees them there.
 */
module Hid {
  import opened Prelude
  import opened Bytes

  const BROADCAST: nat := 0xFFFF_FFFF
  const REPORT_SIZE: nat := 64
  const MAX_PAYLOAD: nat := 7609
  const INIT_DATA: nat := 57
  const CONT_DATA: nat := 59
  const INIT: byte := 0x86
  const KEEPALIVE: byte := 0xBB
  const ERROR: byte := 0xBF
  const ERR_CHANNEL_BUSY: byte := 0x06
  const BUSY_MAX_ATTEMPTS: nat := 4
  const BUSY_RETRY_DELAY: nat := 200
  const BUSY_TOTAL_BUDGET: nat := 1500

  type Frame = b: bytes | |b| == 64 witness seq(64, _ => 0)

  type Cid = c: nat | c < 0x1_0000_0000

  datatype HidError =
    | Timeout
    | Cancelled
    | Io
    | DeviceError(code: byte)
    | UnexpectedCommand(wanted: byte, got: byte)
    | OutOfSequence(counter: byte, got: byte)
    | PayloadTooLarge(len: nat)
    | InitResponseTooShort

  // ----- Frames

  function Padded(b: bytes): Frame
    requires |b| <= 64
  {
    b + seq(64 - |b|, _ => 0)
  }

  function CidOf(f: Frame): nat {
    FromBE(f[..4])
  }

  /** The initiation frame: channel, command, length, and the first 57 bytes. */
  function InitFrame(cid: Cid, cmd: byte, payload: bytes): Frame {
    Padded(BE(cid, 4) + [cmd] + BE(|payload|, 2) + payload[..Min(|payload|, INIT_DATA)])
  }

  /** A continuation frame: channel, the low 7 bits of the counter, and up to 59 bytes. */
  function ContFrame(cid: Cid, count: byte, chunk: bytes): Frame
    requires |chunk| <= CONT_DATA
  {
    Padded(BE(cid, 4) + [count % 128] + chunk)
  }

  /** The counter is a byte that wraps. */
  function Next(count: byte): byte {
    if count == 255 then 0 else count + 1
  }

  function ContFrames(cid: Cid, data: bytes, count: byte): seq<Frame>
    decreases |data|
  {
    if data == [] then [] else
    var n := Min(|data|, CONT_DATA);
    [ContFrame(cid, count, data[..n])] + ContFrames(cid, data[n..], Next(count))
  }

  function Frames(cid: Cid, cmd: byte, payload: bytes): seq<Frame> {
    [InitFrame(cid, cmd, payload)] + ContFrames(cid, payload[Min(|payload|, INIT_DATA)..], 0)
  }

  // ----- Sending

  /** What was written so far, which of the next writes work, and what reads will find. */
  datatype Bus = Bus(sent: seq<bytes>, writes: seq<bool>, polls: seq<Poll>)

  datatype Poll = Poll(now: nat, cancel: bool, got: Got, later: nat, cancelLater: bool)

  datatype Got = Nothing | Report(frame: Frame) | Broken

  /** One write: it works unless the list says otherwise. A written report has the report id 0 before it. */
  function WriteReport(bus: Bus, f: Frame): (r: (Bus, Option<HidError>))
    ensures r.0.polls == bus.polls
  {
    var left := if bus.writes == [] then [] else bus.writes[1..];
    if bus.writes != [] && !bus.writes[0] then (bus.(writes := left), Some(Io))
    else (Bus(bus.sent + [[0] + f], left, bus.polls), None)
  }

  function WriteAll(bus: Bus, fs: seq<Frame>): (r: (Bus, Option<HidError>))
    ensures r.0.polls == bus.polls
    decreases |fs|
  {
    if fs == [] then (bus, None) else
    var (next, fault) := WriteReport(bus, fs[0]);
    if fault.Some? then (next, fault) else WriteAll(next, fs[1..])
  }

  function Send(bus: Bus, cid: Cid, cmd: byte, payload: bytes): (r: (Bus, Option<HidError>))
    ensures r.0.polls == bus.polls
  {
    if |payload| > MAX_PAYLOAD then (bus, Some(PayloadTooLarge(|payload|)))
    else WriteAll(bus, Frames(cid, cmd, payload))
  }

  // ----- Receiving

  datatype Outcome = Received(payload: bytes) | Failed(error: HidError) | StillWaiting

  /** What a receive came to, and the polls it left. */
  datatype Reply = Reply(outcome: Outcome, polls: seq<Poll>)

  /** A wait step: past the deadline or cancelled, nothing is read. */
  function GivesUp(p: Poll, deadline: nat): Option<HidError> {
    if p.now >= deadline then Some(Timeout) else if p.cancel then Some(Cancelled) else None
  }

  function RecvBy(cid: Cid, cmd: byte, deadline: nat, timeout: nat, polls: seq<Poll>): (r: Reply)
    ensures |r.polls| <= |polls|
    ensures r.outcome.Received? ==> |r.polls| < |polls|
    decreases |polls|
  {
    if polls == [] then Reply(StillWaiting, []) else
    var p, rest := polls[0], polls[1..];
    if GivesUp(p, deadline).Some? then Reply(Failed(GivesUp(p, deadline).value), polls) else
    match p.got
    case Broken => Reply(Failed(Io), rest)
    case Nothing => RecvBy(cid, cmd, deadline, timeout, rest)
    case Report(f) =>
      if CidOf(f) != cid then RecvBy(cid, cmd, deadline, timeout, rest)
      else if f[4] == KEEPALIVE then
        if p.cancelLater then Reply(Failed(Cancelled), rest) else RecvBy(cid, cmd, p.later + timeout, timeout, rest)
      else if f[4] == ERROR then Reply(Failed(DeviceError(f[7])), rest)
      else if f[4] != cmd then Reply(Failed(UnexpectedCommand(cmd, f[4])), rest)
      else
        var bcnt := FromBE(f[5..7]);
        if bcnt > MAX_PAYLOAD then Reply(Failed(PayloadTooLarge(bcnt)), rest)
        else RecvRest(cid, deadline, bcnt, f[7..7 + Min(bcnt, INIT_DATA)], 0, rest)
  }

  /** The continuation frames, after `payload` of `bcnt` bytes arrived. */
  function RecvRest(cid: Cid, deadline: nat, bcnt: nat, payload: bytes, count: byte, polls: seq<Poll>): (r: Reply)
    ensures |r.polls| <= |polls|
    decreases |polls|
  {
    if |payload| >= bcnt then Reply(Received(payload), polls)
    else if polls == [] then Reply(StillWaiting, []) else
    var p, rest := polls[0], polls[1..];
    if GivesUp(p, deadline).Some? then Reply(Failed(GivesUp(p, deadline).value), polls) else
    match p.got
    case Broken => Reply(Failed(Io), rest)
    case Nothing => RecvRest(cid, deadline, bcnt, payload, count, rest)
    case Report(f) =>
      if CidOf(f) != cid then RecvRest(cid, deadline, bcnt, payload, count, rest)
      else if f[4] >= 0x80 then Reply(Failed(UnexpectedCommand(0x00, f[4])), rest)
      else if f[4] != count then Reply(Failed(OutOfSequence(count, f[4])), rest)
      else
        var chunk := f[5..5 + Min(bcnt - |payload|, CONT_DATA)];
        RecvRest(cid, deadline, bcnt, payload + chunk, Next(count), rest)
  }

  // ----- Allocating a channel

  datatype Allocated = Allocated(
    channel: nat, protocol: byte, major: byte, minor: byte, build: byte, capabilities: byte)

  datatype InitReply = InitReply(outcome: Result<Allocated, Option<HidError>>, polls: seq<Poll>)

  function ParseInit(resp: bytes): Allocated
    requires |resp| >= 17
  {
    Allocated(FromBE(resp[8..12]), resp[12], resp[13], resp[14], resp[15], resp[16])
  }

  /** Answers to other programs are skipped until the one with our nonce; `Err(None)` is still waiting. */
  function AwaitInit(nonce: bytes, deadline: nat, timeout: nat, polls: seq<Poll>): InitReply
    decreases |polls|
  {
    var r := RecvBy(BROADCAST, INIT, deadline, timeout, polls);
    match r.outcome
    case StillWaiting => InitReply(Err(None), r.polls)
    case Failed(e) => InitReply(Err(Some(e)), r.polls)
    case Received(resp) =>
      if |resp| < 17 then InitReply(Err(Some(InitResponseTooShort)), r.polls)
      else if resp[..8] != nonce then AwaitInit(nonce, deadline, timeout, r.polls)
      else InitReply(Ok(ParseInit(resp)), r.polls)
  }

  // ----- One command, retried while the channel is busy

  /** What the code sees around an attempt: when its receive starts, and the time and cancel flag at its pause. */
  datatype Attempt = Attempt(start: nat, elapsed: nat, cancelBefore: bool, cancelAfter: bool)

  function BusyRetryDelay(code: byte, attempt: nat, elapsed: nat): Option<nat> {
    if code != ERR_CHANNEL_BUSY || attempt >= BUSY_MAX_ATTEMPTS then None
    else if elapsed + BUSY_RETRY_DELAY >= BUSY_TOTAL_BUDGET then None
    else Some(BUSY_RETRY_DELAY)
  }

  function Exchange(bus: Bus, cid: Cid, cmd: byte, payload: bytes, start: nat, timeout: nat): (r: (Outcome, Bus))
    ensures |r.1.polls| <= |bus.polls|
  {
    var (after, fault) := Send(bus, cid, cmd, payload);
    if fault.Some? then (Failed(fault.value), after) else
    var r := RecvBy(cid, cmd, start + timeout, timeout, after.polls);
    (r.outcome, after.(polls := r.polls))
  }

  /** The outcome, the bus after, and the number of the last attempt. */
  datatype Transacted = Transacted(outcome: Outcome, bus: Bus, attempt: nat)

  /** The answer is busy, and another attempt is allowed. */
  predicate MayRetry(outcome: Outcome, attempt: nat, elapsed: nat) {
    && outcome.Failed? && outcome.error.DeviceError?
    && BusyRetryDelay(outcome.error.code, attempt, elapsed).Some?
  }

  /** Another attempt is made: allowed, and not cancelled before or after the pause. */
  predicate Retried(outcome: Outcome, attempt: nat, at: Attempt) {
    MayRetry(outcome, attempt, at.elapsed) && !at.cancelBefore && !at.cancelAfter
  }

  function TransactFrom(
      bus: Bus, cid: Cid, cmd: byte, payload: bytes, timeout: nat, around: nat -> Attempt, attempt: nat)
    : (t: Transacted)
    ensures |t.bus.polls| <= |bus.polls|
    decreases BUSY_MAX_ATTEMPTS - attempt
  {
    var at := around(attempt);
    var (outcome, after) := Exchange(bus, cid, cmd, payload, at.start, timeout);
    if !MayRetry(outcome, attempt, at.elapsed) then Transacted(outcome, after, attempt)
    else if at.cancelBefore || at.cancelAfter then Transacted(Failed(Cancelled), after, attempt)
    else TransactFrom(after, cid, cmd, payload, timeout, around, attempt + 1)
  }
}
