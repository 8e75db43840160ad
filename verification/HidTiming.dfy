/**
 How long a command can take. A silent key makes it wait for one receive
 deadline; a key that answers busy can make it wait for more than that, and
 exactly when it is retried.
 */
module HidTiming {
  import opened Prelude
  import opened Bytes
  import opened Hid
  import opened HidLaws

  /** The polls that were read: those before the ones left. */
  function ReadIn(before: seq<Poll>, after: seq<Poll>): seq<Poll> {
    if |after| <= |before| then before[..|before| - |after|] else []
  }

  predicate NoKeepalivesOn(cid: Cid, polls: seq<Poll>) {
    forall f :: f in OnChannel(cid, polls) ==> f[4] != KEEPALIVE
  }

  /** A retried attempt's busy answer, the pause after it and the next receive are in order on one clock. */
  predicate Before(started: nat, at: Attempt, next: Attempt) {
    && at.start <= started + at.elapsed
    && started + at.elapsed + BUSY_RETRY_DELAY <= next.start
  }

  /**
   One clock for a whole command, started at `started`: each attempt's reads are
   not earlier than its receive, and no later than the pause that follows it.
   */
  ghost predicate OneClock(
      bus: Bus, cid: Cid, cmd: byte, payload: bytes, timeout: nat, started: nat, around: nat -> Attempt, attempt: nat)
    decreases BUSY_MAX_ATTEMPTS - attempt
  {
    var at := around(attempt);
    var (outcome, after) := Exchange(bus, cid, cmd, payload, at.start, timeout);
    && started <= at.start
    && (forall p :: p in ReadIn(bus.polls, after.polls) ==> at.start <= p.now)
    && (Retried(outcome, attempt, at) ==>
          && (forall p :: p in ReadIn(bus.polls, after.polls) ==> p.now <= started + at.elapsed)
          && Before(started, at, around(attempt + 1))
          && OneClock(after, cid, cmd, payload, timeout, started, around, attempt + 1))
  }

  // ----- Reads are before the deadline

  lemma {:induction false} RestReadsInTime(
      cid: Cid, deadline: nat, bcnt: nat, payload: bytes, count: byte, polls: seq<Poll>)
    ensures forall p :: p in ReadIn(polls, RecvRest(cid, deadline, bcnt, payload, count, polls).polls) ==>
              p.now < deadline
    decreases |polls|
  {
    hide FromBE;
    var r := RecvRest(cid, deadline, bcnt, payload, count, polls);
    if polls != [] && |payload| < bcnt && GivesUp(polls[0], deadline).None? {
      var p, rest := polls[0], polls[1..];
      if Noise(cid, p) {
        RestReadsInTime(cid, deadline, bcnt, payload, count, rest);
        ReadOneMore(polls, r.polls);
      } else if p.got.Report? && p.got.frame[4] == count < 0x80 {
        var chunk := p.got.frame[5..5 + Min(bcnt - |payload|, CONT_DATA)];
        RestReadsInTime(cid, deadline, bcnt, payload + chunk, Next(count), rest);
        ReadOneMore(polls, r.polls);
      }
    }
  }

  lemma ReadOneMore(polls: seq<Poll>, left: seq<Poll>)
    requires polls != [] && |left| < |polls|
    ensures ReadIn(polls, left) == [polls[0]] + ReadIn(polls[1..], left)
  {
  }

  /** Without keepalives, everything a receive reads comes before its deadline. */
  lemma {:induction false} ReadsInTime(cid: Cid, cmd: byte, deadline: nat, timeout: nat, polls: seq<Poll>)
    requires NoKeepalivesOn(cid, polls)
    ensures forall p :: p in ReadIn(polls, RecvBy(cid, cmd, deadline, timeout, polls).polls) ==> p.now < deadline
    decreases |polls|
  {
    hide FromBE, RecvRest;
    var r := RecvBy(cid, cmd, deadline, timeout, polls);
    if polls != [] && GivesUp(polls[0], deadline).None? {
      var p, rest := polls[0], polls[1..];
      if Noise(cid, p) {
        ReadsInTime(cid, cmd, deadline, timeout, rest);
        ReadOneMore(polls, r.polls);
      } else if p.got.Report? {
        var f := p.got.frame;
        assert f in OnChannel(cid, polls);
        if f[4] == cmd && f[4] != ERROR && FromBE(f[5..7]) <= MAX_PAYLOAD {
          var bcnt := FromBE(f[5..7]);
          RestReadsInTime(cid, deadline, bcnt, f[7..7 + Min(bcnt, INIT_DATA)], 0, rest);
          ReadOneMore(polls, r.polls);
        }
      }
    }
  }

  /** What is left of a receive's polls is their end. */
  lemma {:induction false} RestLeavesTheEnd(
      cid: Cid, deadline: nat, bcnt: nat, payload: bytes, count: byte, polls: seq<Poll>)
    ensures IsEnd(polls, RecvRest(cid, deadline, bcnt, payload, count, polls).polls)
    decreases |polls|
  {
    hide FromBE, IsEnd;
    var r := RecvRest(cid, deadline, bcnt, payload, count, polls);
    WholeIsEnd(polls);
    if polls != [] && |payload| < bcnt && GivesUp(polls[0], deadline).None? {
      var p, rest := polls[0], polls[1..];
      EndOfRest(polls, rest);
      if Noise(cid, p) {
        RestLeavesTheEnd(cid, deadline, bcnt, payload, count, rest);
        EndOfRest(polls, r.polls);
      } else if p.got.Report? && p.got.frame[4] == count < 0x80 {
        var chunk := p.got.frame[5..5 + Min(bcnt - |payload|, CONT_DATA)];
        RestLeavesTheEnd(cid, deadline, bcnt, payload + chunk, Next(count), rest);
        EndOfRest(polls, r.polls);
      }
    }
  }

  /** These polls are the others' end. */
  predicate IsEnd(polls: seq<Poll>, left: seq<Poll>) {
    ReadIn(polls, left) + left == polls
  }

  lemma WholeIsEnd(polls: seq<Poll>)
    ensures IsEnd(polls, polls) && (polls != [] ==> IsEnd(polls[1..], polls[1..]))
  {
  }

  lemma EndOfRest(polls: seq<Poll>, left: seq<Poll>)
    requires polls != [] && |left| < |polls|
    ensures IsEnd(polls[1..], left) ==> IsEnd(polls, left)
  {
    ReadOneMore(polls, left);
  }

  lemma {:induction false} LeavesTheEnd(cid: Cid, cmd: byte, deadline: nat, timeout: nat, polls: seq<Poll>)
    ensures IsEnd(polls, RecvBy(cid, cmd, deadline, timeout, polls).polls)
    decreases |polls|
  {
    hide FromBE, RecvRest, IsEnd;
    var r := RecvBy(cid, cmd, deadline, timeout, polls);
    WholeIsEnd(polls);
    if polls != [] && GivesUp(polls[0], deadline).None? {
      var p, rest := polls[0], polls[1..];
      EndOfRest(polls, rest);
      if Noise(cid, p) {
        LeavesTheEnd(cid, cmd, deadline, timeout, rest);
        EndOfRest(polls, r.polls);
      } else if p.got.Report? {
        var f := p.got.frame;
        if f[4] == KEEPALIVE && !p.cancelLater {
          LeavesTheEnd(cid, cmd, p.later + timeout, timeout, rest);
          EndOfRest(polls, r.polls);
        } else if f[4] == cmd && f[4] != ERROR && FromBE(f[5..7]) <= MAX_PAYLOAD {
          var bcnt := FromBE(f[5..7]);
          RestLeavesTheEnd(cid, deadline, bcnt, f[7..7 + Min(bcnt, INIT_DATA)], 0, rest);
          EndOfRest(polls, r.polls);
        }
      }
    }
  }

  lemma OnChannelOfEnd(cid: Cid, first: seq<Poll>, end: seq<Poll>)
    requires NoKeepalivesOn(cid, first + end)
    ensures NoKeepalivesOn(cid, end)
  {
    hide OnChannel;
    OnChannelConcat(cid, first, end);
  }

  // ----- The bound

  /** Nothing but the pause, and at most `lag`, lies between a busy answer and the next receive. */
  ghost predicate Prompt(started: nat, around: nat -> Attempt, last: nat, lag: nat) {
    forall i :: 1 <= i < last ==> around(i + 1).start <= started + around(i).elapsed + BUSY_RETRY_DELAY + lag
  }

  /**
   Without keepalives no receive of a command has a deadline at or past the
   first one by as much as the retry budget: every attempt's receive starts
   before the budget is spent, give or take how late it starts after its pause.
   */
  lemma DeadlinesAreBounded(
      bus: Bus, cid: Cid, cmd: byte, payload: bytes, timeout: nat, started: nat, around: nat -> Attempt, lag: nat)
    requires OneClock(bus, cid, cmd, payload, timeout, started, around, 1)
    requires Prompt(started, around, TransactFrom(bus, cid, cmd, payload, timeout, around, 1).attempt, lag)
    ensures var t := TransactFrom(bus, cid, cmd, payload, timeout, around, 1);
            forall i :: 1 <= i <= t.attempt ==>
              around(i).start + timeout < around(1).start + BUSY_TOTAL_BUDGET + lag + timeout
  {
    hide TransactFrom, Exchange;
    var last := RetriesAreBounded(bus, cid, cmd, payload, timeout, around, 1);
    var t := TransactFrom(bus, cid, cmd, payload, timeout, around, 1);
    assert started <= around(1).start;
    forall i | 1 <= i <= t.attempt
      ensures around(i).start < around(1).start + BUSY_TOTAL_BUDGET + lag
    {
      if i > 1 {
        assert around(i - 1).elapsed + BUSY_RETRY_DELAY < BUSY_TOTAL_BUDGET;
        assert around(i - 1 + 1).start <= started + around(i - 1).elapsed + BUSY_RETRY_DELAY + lag;
      }
    }
  }

  /** So everything it reads comes before that. */
  lemma {:induction false} EverythingIsReadInTime(
      bus: Bus, cid: Cid, cmd: byte, payload: bytes, timeout: nat, around: nat -> Attempt, attempt: nat, limit: nat)
    requires NoKeepalivesOn(cid, bus.polls)
    requires forall i :: attempt <= i <= TransactFrom(bus, cid, cmd, payload, timeout, around, attempt).attempt ==>
               around(i).start + timeout <= limit
    requires attempt <= TransactFrom(bus, cid, cmd, payload, timeout, around, attempt).attempt
    ensures var t := TransactFrom(bus, cid, cmd, payload, timeout, around, attempt);
            forall p :: p in ReadIn(bus.polls, t.bus.polls) ==> p.now < limit
    decreases BUSY_MAX_ATTEMPTS - attempt
  {
    hide RecvBy, Send, OnChannel, NoKeepalivesOn, ReadIn;
    var at := around(attempt);
    var t := TransactFrom(bus, cid, cmd, payload, timeout, around, attempt);
    var (outcome, after) := Exchange(bus, cid, cmd, payload, at.start, timeout);
    ExchangeReads(bus, cid, cmd, payload, at.start, timeout);
    if Retried(outcome, attempt, at) {
      AttemptGrows(after, cid, cmd, payload, timeout, around, attempt + 1);
      OnChannelOfEnd(cid, ReadIn(bus.polls, after.polls), after.polls);
      EverythingIsReadInTime(after, cid, cmd, payload, timeout, around, attempt + 1, limit);
      ReadTwice(bus.polls, after.polls, t.bus.polls);
    }
  }

  lemma {:induction false} AttemptGrows(
      bus: Bus, cid: Cid, cmd: byte, payload: bytes, timeout: nat, around: nat -> Attempt, attempt: nat)
    ensures attempt <= TransactFrom(bus, cid, cmd, payload, timeout, around, attempt).attempt
    decreases BUSY_MAX_ATTEMPTS - attempt
  {
    hide Exchange;
    var at := around(attempt);
    var (outcome, after) := Exchange(bus, cid, cmd, payload, at.start, timeout);
    if Retried(outcome, attempt, at) {
      AttemptGrows(after, cid, cmd, payload, timeout, around, attempt + 1);
    }
  }

  lemma ReadTwice(polls: seq<Poll>, middle: seq<Poll>, left: seq<Poll>)
    requires ReadIn(polls, middle) + middle == polls && |left| <= |middle|
    ensures ReadIn(polls, left) == ReadIn(polls, middle) + ReadIn(middle, left)
  {
  }

  /** One exchange reads a beginning of the polls, all of it before its deadline. */
  lemma ExchangeReads(bus: Bus, cid: Cid, cmd: byte, payload: bytes, start: nat, timeout: nat)
    ensures var after := Exchange(bus, cid, cmd, payload, start, timeout).1;
            && ReadIn(bus.polls, after.polls) + after.polls == bus.polls
            && (NoKeepalivesOn(cid, bus.polls) ==>
                  forall p :: p in ReadIn(bus.polls, after.polls) ==> p.now < start + timeout)
  {
    hide RecvBy, Send, OnChannel, NoKeepalivesOn;
    LeavesTheEnd(cid, cmd, start + timeout, timeout, bus.polls);
    if NoKeepalivesOn(cid, bus.polls) {
      ReadsInTime(cid, cmd, start + timeout, timeout, bus.polls);
    }
  }

  // ----- Sitting longer than with a silent key

  /** A device error is decided by the polls up to it, whatever comes after. */
  lemma {:induction false} ErrorsNeedNoMore(
      cid: Cid, cmd: byte, deadline: nat, timeout: nat, polls: seq<Poll>, b: seq<Poll>)
    requires var outcome := RecvBy(cid, cmd, deadline, timeout, polls).outcome;
             outcome.Failed? && outcome.error.DeviceError?
    ensures var r := RecvBy(cid, cmd, deadline, timeout, polls);
            RecvBy(cid, cmd, deadline, timeout, ReadIn(polls, r.polls) + b) == Reply(r.outcome, b)
    decreases |polls|
  {
    hide FromBE;
    var r := RecvBy(cid, cmd, deadline, timeout, polls);
    var p, rest := polls[0], polls[1..];
    NoDeviceErrorLater(cid, cmd, deadline, timeout, polls);
    hide RecvRest;
    ReadOneMore(polls, r.polls);
    var read := ReadIn(rest, r.polls);
    assert ([p] + read + b)[0] == p && ([p] + read + b)[1..] == read + b;
    if Noise(cid, p) {
      ErrorsNeedNoMore(cid, cmd, deadline, timeout, rest, b);
    } else if p.got.frame[4] == KEEPALIVE {
      ErrorsNeedNoMore(cid, cmd, p.later + timeout, timeout, rest, b);
    } else {
      assert read == [];
    }
  }

  /** Device errors come from the first frame only. */
  lemma NoDeviceErrorLater(cid: Cid, cmd: byte, deadline: nat, timeout: nat, polls: seq<Poll>)
    requires var outcome := RecvBy(cid, cmd, deadline, timeout, polls).outcome;
             outcome.Failed? && outcome.error.DeviceError?
    ensures polls != [] && |RecvBy(cid, cmd, deadline, timeout, polls).polls| < |polls|
    ensures var p, r := polls[0], RecvBy(cid, cmd, deadline, timeout, polls);
            && GivesUp(p, deadline).None?
            && (Noise(cid, p) ==> r == RecvBy(cid, cmd, deadline, timeout, polls[1..]))
            && (!Noise(cid, p) ==>
                  && p.got.Report?
                  && (p.got.frame[4] == KEEPALIVE ==>
                        !p.cancelLater && r == RecvBy(cid, cmd, p.later + timeout, timeout, polls[1..]))
                  && (p.got.frame[4] != KEEPALIVE ==>
                        p.got.frame[4] == ERROR && r == Reply(Failed(DeviceError(p.got.frame[7])), polls[1..])))
  {
    hide FromBE, RecvRest;
    var p := polls[0];
    if p.got.Report? && CidOf(p.got.frame) == cid && p.got.frame[4] == cmd {
      var f := p.got.frame;
      var bcnt := FromBE(f[5..7]);
      if bcnt <= MAX_PAYLOAD {
        RestHasNoDeviceError(cid, deadline, bcnt, f[7..7 + Min(bcnt, INIT_DATA)], 0, polls[1..]);
      }
    }
  }

  lemma {:induction false} RestHasNoDeviceError(
      cid: Cid, deadline: nat, bcnt: nat, payload: bytes, count: byte, polls: seq<Poll>)
    ensures var outcome := RecvRest(cid, deadline, bcnt, payload, count, polls).outcome;
            !(outcome.Failed? && outcome.error.DeviceError?)
    decreases |polls|
  {
    hide FromBE;
    if polls != [] && |payload| < bcnt && GivesUp(polls[0], deadline).None? {
      var p, rest := polls[0], polls[1..];
      if Noise(cid, p) {
        RestHasNoDeviceError(cid, deadline, bcnt, payload, count, rest);
      } else if p.got.Report? && p.got.frame[4] == count < 0x80 {
        var chunk := p.got.frame[5..5 + Min(bcnt - |payload|, CONT_DATA)];
        RestHasNoDeviceError(cid, deadline, bcnt, payload + chunk, Next(count), rest);
      }
    }
  }

  /** A poll that finds nothing at a time before the deadline is read, and the receive waits on. */
  lemma OneQuietPoll(cid: Cid, cmd: byte, deadline: nat, timeout: nat, now: nat)
    requires now < deadline
    ensures RecvBy(cid, cmd, deadline, timeout, [Poll(now, false, Nothing, 0, false)]) == Reply(StillWaiting, [])
  {
    assert [Poll(now, false, Nothing, 0, false)][1..] == [];
  }

  /**
   A command can sit longer than with a silent key exactly when it is retried.
   If its first answer is not retried, everything it reads comes before the
   deadline a silent key would have had. If it is retried, then with the same
   polls up to that answer and one quiet poll after them, all on one clock, it
   is still reading at that deadline or later.
   */
  lemma SitsLongerExactlyWhenRetried(
      bus: Bus, cid: Cid, cmd: byte, payload: bytes, timeout: nat, started: nat, around: nat -> Attempt)
    returns (bus': Bus, late: Poll)
    requires OneClock(bus, cid, cmd, payload, timeout, started, around, 1)
    requires NoKeepalivesOn(cid, bus.polls) && bus.writes == [] && |payload| <= MAX_PAYLOAD && timeout > 0
    ensures var (outcome, after) := Exchange(bus, cid, cmd, payload, around(1).start, timeout);
            var silent := around(1).start + timeout;
            && (!Retried(outcome, 1, around(1)) ==>
                  var t := TransactFrom(bus, cid, cmd, payload, timeout, around, 1);
                  forall p :: p in ReadIn(bus.polls, t.bus.polls) ==> p.now < silent)
            && (Retried(outcome, 1, around(1)) ==>
                  var t := TransactFrom(bus', cid, cmd, payload, timeout, around, 1);
                  && bus' == bus.(polls := ReadIn(bus.polls, after.polls) + [late])
                  && OneClock(bus', cid, cmd, payload, timeout, started, around, 1)
                  && late in ReadIn(bus'.polls, t.bus.polls) && late.now >= silent)
  {
    hide RecvBy, Send, OnChannel, NoKeepalivesOn, ReadIn;
    var at, next := around(1), around(2);
    var (outcome, after) := Exchange(bus, cid, cmd, payload, at.start, timeout);
    ExchangeReads(bus, cid, cmd, payload, at.start, timeout);
    late := Poll(Max(next.start, at.start + timeout), false, Nothing, 0, false);
    bus' := bus.(polls := ReadIn(bus.polls, after.polls) + [late]);
    if Retried(outcome, 1, at) {
      SendWorks(bus, cid, cmd, payload);
      SendWorks(bus', cid, cmd, payload);
      ErrorsNeedNoMore(cid, cmd, at.start + timeout, timeout, bus.polls, [late]);
      var (outcome', after') := Exchange(bus', cid, cmd, payload, at.start, timeout);
      assert outcome' == outcome && after'.polls == [late];
      ReadFirst(ReadIn(bus.polls, after.polls), [late]);
      SendWorks(after', cid, cmd, payload);
      OneQuietPoll(cid, cmd, next.start + timeout, timeout, late.now);
      var (outcome2, after2) := Exchange(after', cid, cmd, payload, next.start, timeout);
      assert outcome2 == StillWaiting && after2.polls == [];
      assert TransactFrom(after', cid, cmd, payload, timeout, around, 2) == Transacted(StillWaiting, after2, 2);
      ReadFirst([late], []);
      assert [late] + [] == [late];
      assert OneClock(after', cid, cmd, payload, timeout, started, around, 2);
      ReadFirst(bus'.polls, []);
      assert bus'.polls + [] == bus'.polls;
    }
  }

  lemma ReadFirst(a: seq<Poll>, b: seq<Poll>)
    ensures ReadIn(a + b, b) == a
  {
  }

  /** With no write fault and a payload that fits, a send works and leaves the polls and the writes. */
  lemma SendWorks(bus: Bus, cid: Cid, cmd: byte, payload: bytes)
    requires bus.writes == [] && |payload| <= MAX_PAYLOAD
    ensures var (after, fault) := Send(bus, cid, cmd, payload);
            fault == None && after.polls == bus.polls && after.writes == []
  {
    hide Frames, Wire;
    SendWritesAllOrReports(bus, cid, cmd, payload);
  }

  /**
   The last receive of a command has the deadline of the first exactly when the
   first answer was not retried: each retry starts at least the pause later.
   */
  lemma {:induction false} OneDeadlineExactlyWhenNotRetried(
      bus: Bus, cid: Cid, cmd: byte, payload: bytes, timeout: nat, started: nat, around: nat -> Attempt)
    requires OneClock(bus, cid, cmd, payload, timeout, started, around, 1)
    ensures var t := TransactFrom(bus, cid, cmd, payload, timeout, around, 1);
            var outcome := Exchange(bus, cid, cmd, payload, around(1).start, timeout).0;
            && (around(t.attempt).start + timeout <= around(1).start + timeout <==> !Retried(outcome, 1, around(1)))
            && (Retried(outcome, 1, around(1)) ==>
                  around(t.attempt).start >= started + around(1).elapsed + BUSY_RETRY_DELAY)
  {
    hide Exchange;
    var (outcome, after) := Exchange(bus, cid, cmd, payload, around(1).start, timeout);
    if Retried(outcome, 1, around(1)) {
      StartsGrow(after, cid, cmd, payload, timeout, started, around, 2);
    }
  }

  lemma {:induction false} StartsGrow(
      bus: Bus, cid: Cid, cmd: byte, payload: bytes, timeout: nat, started: nat, around: nat -> Attempt, attempt: nat)
    requires OneClock(bus, cid, cmd, payload, timeout, started, around, attempt)
    ensures var t := TransactFrom(bus, cid, cmd, payload, timeout, around, attempt);
            around(t.attempt).start >= around(attempt).start
    decreases BUSY_MAX_ATTEMPTS - attempt
  {
    hide Exchange;
    var (outcome, after) := Exchange(bus, cid, cmd, payload, around(attempt).start, timeout);
    if Retried(outcome, attempt, around(attempt)) {
      StartsGrow(after, cid, cmd, payload, timeout, started, around, attempt + 1);
    }
  }

  // ----- One such run

  /** The error frame a busy channel is answered with. */
  function BusyFrame(cid: Cid): Frame {
    Padded(BE(cid, 4) + [ERROR, 0, 1] + [ERR_CHANNEL_BUSY])
  }

  /** A receive that starts at 0, an answer 1299 ms later, and a second receive 200 ms after it. */
  function BusyAt1299(i: nat): Attempt {
    if i == 1 then Attempt(0, 1299, false, false) else Attempt(1499, 1499, false, false)
  }

  function BusyThenSilent(cid: Cid): Bus {
    Bus([], [], [Poll(1299, false, Report(BusyFrame(cid)), 0, false), Poll(3498, false, Nothing, 0, false),
                 Poll(3499, false, Nothing, 0, false)])
  }

  /**
   With the default timeout of two seconds, a key that answers busy after 1299
   ms and then nothing keeps any command reading at 3498 ms; with a silent key
   it ends at 2000 ms.
   */
  lemma ABusyKeyCanTakeLonger(cid: Cid, cmd: byte, payload: bytes)
    requires |payload| <= MAX_PAYLOAD
    ensures var t := TransactFrom(BusyThenSilent(cid), cid, cmd, payload, 2000, BusyAt1299, 1);
            && OneClock(BusyThenSilent(cid), cid, cmd, payload, 2000, 0, BusyAt1299, 1)
            && t.attempt == 2 && t.outcome == Failed(Timeout)
            && t.bus.polls == [Poll(3499, false, Nothing, 0, false)]
            && BusyAt1299(1).start + 2000 == 2000 && BusyAt1299(2).start + 2000 == 3499
  {
    hide RecvBy, Send, ReadIn, BusyFrame;
    var bus := BusyThenSilent(cid);
    var busy, quiet, late := bus.polls[0], Poll(3498, false, Nothing, 0, false), Poll(3499, false, Nothing, 0, false);
    SendWorks(bus, cid, cmd, payload);
    AnsweredBusy(cid, cmd, busy, [quiet, late]);
    assert bus.polls == [busy] + [quiet, late];
    var (outcome, after) := Exchange(bus, cid, cmd, payload, 0, 2000);
    assert after.polls == [quiet, late];
    ReadFirst([busy], [quiet, late]);
    SendWorks(after, cid, cmd, payload);
    ThenSilent(cid, cmd, quiet, late);
    var (outcome2, after2) := Exchange(after, cid, cmd, payload, 1499, 2000);
    assert after2.polls == [late];
    assert [quiet, late] == [quiet] + [late];
    ReadFirst([quiet], [late]);
    assert TransactFrom(after, cid, cmd, payload, 2000, BusyAt1299, 2) == Transacted(Failed(Timeout), after2, 2);
    assert OneClock(after, cid, cmd, payload, 2000, 0, BusyAt1299, 2);
  }

  lemma AnsweredBusy(cid: Cid, cmd: byte, busy: Poll, rest: seq<Poll>)
    requires busy == Poll(1299, false, Report(BusyFrame(cid)), 0, false)
    ensures RecvBy(cid, cmd, 2000, 2000, [busy] + rest) == Reply(Failed(DeviceError(ERR_CHANNEL_BUSY)), rest)
  {
    hide BE, FromBE, Padded, RecvRest;
    FrameFields(cid, [ERROR, 0, 1], [ERR_CHANNEL_BUSY]);
    var f := BusyFrame(cid);
    assert f[4] == f[4..7][0] && f[7] == f[7..8][0];
    assert ([busy] + rest)[1..] == rest;
  }

  lemma ThenSilent(cid: Cid, cmd: byte, quiet: Poll, late: Poll)
    requires quiet == Poll(3498, false, Nothing, 0, false) && late == Poll(3499, false, Nothing, 0, false)
    ensures RecvBy(cid, cmd, 3499, 2000, [quiet, late]) == Reply(Failed(Timeout), [late])
  {
    hide RecvRest, FromBE;
    assert [quiet, late][1..] == [late];
  }
}
