/** The loops that frame, send, wait and reassemble, on a device whose state they change. */
module HidCode {
  import opened Prelude
  import opened Bytes
  import opened Hid

  datatype Waited = Gave(error: HidError) | NoFrame | Arrived(frame: Frame, at: Poll) | NoMorePolls

  /** What a read finds. */
  function Read(p: Poll): Waited {
    match p.got
    case Broken => Gave(Io)
    case Nothing => NoFrame
    case Report(f) => Arrived(f, p)
  }

  class HidDevice {
    var sent: seq<bytes>
    var writes: seq<bool>
    var polls: seq<Poll>
    const timeout: nat

    ghost function State(): Bus
      reads this
    {
      Bus(sent, writes, polls)
    }

    constructor (bus: Bus, timeout: nat)
      ensures State() == bus && this.timeout == timeout
    {
      sent, writes, polls, this.timeout := bus.sent, bus.writes, bus.polls, timeout;
    }

    method Write(frame: array<byte>) returns (fault: Option<HidError>)
      requires frame.Length == REPORT_SIZE + 1 && frame[0] == 0
      modifies this`sent, this`writes
      ensures (State(), fault) == WriteReport(old(State()), frame[1..])
    {
      var works := writes == [] || writes[0];
      if writes != [] {
        writes := writes[1..];
      }
      if !works {
        return Some(Io);
      }
      assert frame[..] == [0] + frame[1..];
      sent := sent + [frame[..]];
      fault := None;
    }

    method SendMessage(cid: Cid, cmd: byte, payload: bytes) returns (fault: Option<HidError>)
      modifies this`sent, this`writes
      ensures (State(), fault) == Send(old(State()), cid, cmd, payload)
    {
      hide WriteAll, Frames, BE, Padded, ContFrames, InitFrame, ContFrame, WriteReport;
      if |payload| > MAX_PAYLOAD {
        return Some(PayloadTooLarge(|payload|));
      }
      ghost var was := State();
      var frame := new byte[REPORT_SIZE + 1](_ => 0);
      var firstChunk := Min(|payload|, INIT_DATA);
      Fill(frame, BE(cid, 4) + [cmd] + BE(|payload|, 2) + payload[..firstChunk]);
      FirstFrame(was, cid, cmd, payload);
      fault := Write(frame);
      if fault.Some? {
        return;
      }
      var offset := firstChunk;
      var count: byte := 0;
      while offset < |payload|
        invariant firstChunk <= offset <= |payload| && fresh(frame) && fault == None
        invariant WriteAll(was, Frames(cid, cmd, payload))
               == WriteAll(State(), ContFrames(cid, payload[offset..], count))
      {
        var chunk := Min(|payload| - offset, CONT_DATA);
        Fill(frame, BE(cid, 4) + [count % 128] + payload[offset..offset + chunk]);
        assert payload[offset..][..chunk] == payload[offset..offset + chunk];
        assert payload[offset..][chunk..] == payload[offset + chunk..];
        NextFrame(State(), cid, payload[offset..], count);
        fault := Write(frame);
        if fault.Some? {
          return;
        }
        offset := offset + chunk;
        count := Next(count);
      }
      NoFrames(State(), cid, count);
      assert payload[offset..] == [];
    }

    /** Clear the frame and put the header and chunk after the report id. */
    method Fill(frame: array<byte>, content: bytes)
      requires frame.Length == REPORT_SIZE + 1 && |content| <= REPORT_SIZE
      modifies frame
      ensures frame[0] == 0 && frame[1..] == Padded(content)
    {
      for i := 0 to frame.Length
        invariant forall k :: 0 <= k < i ==> frame[k] == 0
      {
        frame[i] := 0;
      }
      for i := 0 to |content|
        invariant frame[0] == 0
        invariant frame[1..1 + i] == content[..i]
        invariant forall k :: 1 + i <= k < frame.Length ==> frame[k] == 0
      {
        frame[1 + i] := content[i];
        assert frame[1..2 + i] == frame[1..1 + i] + [content[i]];
      }
      assert frame[1..] == content + seq(REPORT_SIZE - |content|, _ => 0);
    }

    method WaitReport(deadline: nat) returns (w: Waited)
      modifies this`polls
      ensures old(polls) == [] ==> w == NoMorePolls && polls == []
      ensures old(polls) != [] ==>
                var p := old(polls[0]);
                if GivesUp(p, deadline).Some? then w == Gave(GivesUp(p, deadline).value) && polls == old(polls)
                else w == Read(p) && polls == old(polls[1..])
    {
      if polls == [] {
        return NoMorePolls;
      }
      var p := polls[0];
      if p.now >= deadline {
        return Gave(Timeout);
      }
      if p.cancel {
        return Gave(Cancelled);
      }
      polls := polls[1..];
      match p.got {
        case Broken => w := Gave(Io);
        case Nothing => w := NoFrame;
        case Report(f) => w := Arrived(f, p);
      }
    }

    method Receive(cid: Cid, cmd: byte, firstDeadline: nat) returns (outcome: Outcome)
      modifies this`polls
      ensures Reply(outcome, polls) == RecvBy(cid, cmd, firstDeadline, timeout, old(polls))
    {
      hide FromBE, RecvRest;
      ghost var first := polls;
      var deadline := firstDeadline;
      while true
        invariant RecvBy(cid, cmd, firstDeadline, timeout, first) == RecvBy(cid, cmd, deadline, timeout, polls)
        decreases |polls|
      {
        var w := WaitReport(deadline);
        match w {
          case NoMorePolls => return StillWaiting;
          case Gave(e) => return Failed(e);
          case NoFrame => continue;
          case Arrived(buf, p) =>
            if CidOf(buf) != cid {
              continue;
            }
            if buf[4] == KEEPALIVE {
              if p.cancelLater {
                return Failed(Cancelled);
              }
              deadline := p.later + timeout;
              continue;
            }
            if buf[4] == ERROR {
              return Failed(DeviceError(buf[7]));
            }
            if buf[4] != cmd {
              return Failed(UnexpectedCommand(cmd, buf[4]));
            }
            var bcnt := FromBE(buf[5..7]);
            if bcnt > MAX_PAYLOAD {
              return Failed(PayloadTooLarge(bcnt));
            }
            outcome := ReceiveRest(cid, deadline, bcnt, buf[7..7 + Min(bcnt, INIT_DATA)]);
            return;
        }
      }
    }

    method ReceiveRest(cid: Cid, deadline: nat, bcnt: nat, firstChunk: bytes) returns (outcome: Outcome)
      modifies this`polls
      ensures Reply(outcome, polls) == RecvRest(cid, deadline, bcnt, firstChunk, 0, old(polls))
    {
      hide FromBE;
      ghost var first := polls;
      var payload := firstChunk;
      var count: byte := 0;
      while |payload| < bcnt
        invariant RecvRest(cid, deadline, bcnt, firstChunk, 0, first)
               == RecvRest(cid, deadline, bcnt, payload, count, polls)
        decreases |polls|
      {
        var w := WaitReport(deadline);
        match w {
          case NoMorePolls => return StillWaiting;
          case Gave(e) => return Failed(e);
          case NoFrame => continue;
          case Arrived(buf, _) =>
            if CidOf(buf) != cid {
              continue;
            }
            if buf[4] >= 0x80 {
              return Failed(UnexpectedCommand(0x00, buf[4]));
            }
            if buf[4] != count {
              return Failed(OutOfSequence(count, buf[4]));
            }
            var chunk := Min(bcnt - |payload|, CONT_DATA);
            payload := payload + buf[5..5 + chunk];
            count := Next(count);
        }
      }
      outcome := Received(payload);
    }

    method DoInit(nonce: bytes, start: nat) returns (outcome: Result<Allocated, Option<HidError>>)
      requires |nonce| == 8
      modifies this
      ensures var (after, fault) := Send(old(State()), BROADCAST, INIT, nonce);
              if fault.Some? then outcome == Err(fault) && State() == after
              else && InitReply(outcome, polls) == AwaitInit(nonce, start + timeout, timeout, after.polls)
                   && sent == after.sent && writes == after.writes
    {
      hide Send, RecvBy, FromBE;
      var fault := SendMessage(BROADCAST, INIT, nonce);
      if fault.Some? {
        return Err(fault);
      }
      ghost var first := polls;
      var deadline := start + timeout;
      while true
        invariant AwaitInit(nonce, deadline, timeout, first) == AwaitInit(nonce, deadline, timeout, polls)
        invariant sent == Send(old(State()), BROADCAST, INIT, nonce).0.sent
        invariant writes == Send(old(State()), BROADCAST, INIT, nonce).0.writes
        decreases |polls|
      {
        var r := Receive(BROADCAST, INIT, deadline);
        match r {
          case StillWaiting => return Err(None);
          case Failed(e) => return Err(Some(e));
          case Received(resp) =>
            if |resp| < 17 {
              return Err(Some(InitResponseTooShort));
            }
            if resp[..8] != nonce {
              continue;
            }
            return Ok(ParseInit(resp));
        }
      }
    }

    method Transact(cid: Cid, cmd: byte, payload: bytes, around: nat -> Attempt) returns (outcome: Outcome)
      modifies this
      ensures var t := TransactFrom(old(State()), cid, cmd, payload, timeout, around, 1);
              outcome == t.outcome && State() == t.bus
    {
      hide Send, RecvBy;
      ghost var first := State();
      var attempt := 1;
      while true
        invariant attempt >= 1
        invariant TransactFrom(first, cid, cmd, payload, timeout, around, 1)
               == TransactFrom(State(), cid, cmd, payload, timeout, around, attempt)
        decreases BUSY_MAX_ATTEMPTS - attempt
      {
        ghost var before := State();
        var at := around(attempt);
        var fault := SendMessage(cid, cmd, payload);
        if fault.Some? {
          outcome := Failed(fault.value);
        } else {
          outcome := Receive(cid, cmd, at.start + timeout);
        }
        assert (outcome, State()) == Exchange(before, cid, cmd, payload, at.start, timeout);
        if !outcome.Failed? || !outcome.error.DeviceError? {
          return;
        }
        var delay := BusyRetryDelay(outcome.error.code, attempt, at.elapsed);
        if delay.None? {
          return;
        }
        if at.cancelBefore {
          return Failed(Cancelled);
        }
        if at.cancelAfter {
          return Failed(Cancelled);
        }
        attempt := attempt + 1;
      }
    }
  }

  /** Writing a message starts with its initiation frame. */
  lemma FirstFrame(bus: Bus, cid: Cid, cmd: byte, payload: bytes)
    ensures var n := Min(|payload|, INIT_DATA);
            var (next, fault) := WriteReport(bus, Padded(BE(cid, 4) + [cmd] + BE(|payload|, 2) + payload[..n]));
            WriteAll(bus, Frames(cid, cmd, payload)) ==
              (if fault.Some? then (next, fault) else WriteAll(next, ContFrames(cid, payload[n..], 0)))
  {
    hide BE, Padded, ContFrames;
    var rest := ContFrames(cid, payload[Min(|payload|, INIT_DATA)..], 0);
    assert ([InitFrame(cid, cmd, payload)] + rest)[1..] == rest;
  }

  lemma NextFrame(bus: Bus, cid: Cid, data: bytes, count: byte)
    requires data != []
    ensures var n := Min(|data|, CONT_DATA);
            var (next, fault) := WriteReport(bus, Padded(BE(cid, 4) + [count % 128] + data[..n]));
            WriteAll(bus, ContFrames(cid, data, count)) ==
              (if fault.Some? then (next, fault) else WriteAll(next, ContFrames(cid, data[n..], Next(count))))
  {
    hide BE, Padded;
    var n := Min(|data|, CONT_DATA);
    var rest := ContFrames(cid, data[n..], Next(count));
    assert ([ContFrame(cid, count, data[..n])] + rest)[1..] == rest;
  }

  lemma NoFrames(bus: Bus, cid: Cid, count: byte)
    ensures WriteAll(bus, ContFrames(cid, [], count)) == (bus, None)
  {
  }
}
