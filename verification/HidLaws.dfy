/**
 What framing promises: a message arrives exactly as it was sent, whatever
 else the bus carries; a received message is spelled by the frames that
 arrived; and the message limit is where the sequence number would wrap.
 */
module HidLaws {
  import opened Prelude
  import opened Bytes
  import opened Hid

  // ----- What arrived on a channel

  /** The frames on a channel among what the polls find. */
  function OnChannel(cid: Cid, polls: seq<Poll>): seq<Frame> {
    if polls == [] then []
    else (if polls[0].got.Report? && CidOf(polls[0].got.frame) == cid then [polls[0].got.frame] else [])
         + OnChannel(cid, polls[1..])
  }

  /** Continuation frames spelling `data` from a counter on, whatever pads the last. */
  predicate Spells(fs: seq<Frame>, data: bytes, count: byte)
    decreases |data|
  {
    if data == [] then fs == [] else
    var n := Min(|data|, CONT_DATA);
    && fs != []
    && fs[0][4] == count < 0x80
    && fs[0][5..5 + n] == data[..n]
    && Spells(fs[1..], data[n..], Next(count))
  }

  /** Frames that carry a message: the initiation frame, then continuation frames spelling the rest. */
  predicate Carries(fs: seq<Frame>, cmd: byte, payload: bytes) {
    var n := Min(|payload|, INIT_DATA);
    && fs != []
    && fs[0][4] == cmd
    && FromBE(fs[0][5..7]) == |payload|
    && fs[0][7..7 + n] == payload[..n]
    && Spells(fs[1..], payload[n..], 0)
  }

  predicate Keepalives(fs: seq<Frame>) {
    forall i :: 0 <= i < |fs| ==> fs[i][4] == KEEPALIVE
  }

  /** Every read works, in time and not cancelled; a keepalive on the channel pushes the deadline out. */
  predicate InTime(cid: Cid, deadline: nat, timeout: nat, polls: seq<Poll>)
    decreases |polls|
  {
    if polls == [] then true else
    var p := polls[0];
    && p.now < deadline && !p.cancel && !p.got.Broken?
    && if p.got.Report? && CidOf(p.got.frame) == cid && p.got.frame[4] == KEEPALIVE
       then !p.cancelLater && InTime(cid, p.later + timeout, timeout, polls[1..])
       else InTime(cid, deadline, timeout, polls[1..])
  }

  // ----- What is sent carries the message

  /** Where a frame's fields are. */
  lemma FrameFields(cid: Cid, head: bytes, chunk: bytes)
    requires |head| + |chunk| <= 60
    ensures var f := Padded(BE(cid, 4) + head + chunk);
            && CidOf(f) == cid && f[4..4 + |head|] == head && f[4 + |head|..4 + |head| + |chunk|] == chunk
  {
    var f := Padded(BE(cid, 4) + head + chunk);
    Pow256Values();
    FromBEOfBE(cid, 4);
    assert f[..4] == BE(cid, 4);
  }

  /**
   The masked sequence number is the receiver's counter for every frame of a
   message if and only if the counter does not reach 128: from counter `count`
   that is (128 - count) * 59 more bytes.
   */
  lemma {:induction false} ContFramesSpell(cid: Cid, data: bytes, count: byte)
    requires count <= 128
    ensures Spells(ContFrames(cid, data, count), data, count) <==> |data| <= (128 - count) * CONT_DATA
    ensures forall f :: f in ContFrames(cid, data, count) ==> CidOf(f) == cid && f[4] < 0x80
    decreases |data|
  {
    hide BE, FromBE, Padded;
    if data != [] {
      var n := Min(|data|, CONT_DATA);
      var f := ContFrame(cid, count, data[..n]);
      FrameFields(cid, [count % 128], data[..n]);
      assert f[4] == f[4..5][0];
      var rest := ContFrames(cid, data[n..], Next(count));
      assert ContFrames(cid, data, count)[1..] == rest;
      if count < 128 {
        ContFramesSpell(cid, data[n..], Next(count));
      } else {
        AnyContFrames(cid, data[n..], Next(count));
      }
    }
  }

  lemma {:induction false} AnyContFrames(cid: Cid, data: bytes, count: byte)
    ensures forall f :: f in ContFrames(cid, data, count) ==> CidOf(f) == cid && f[4] < 0x80
    decreases |data|
  {
    hide BE, FromBE, Padded;
    if data != [] {
      var n := Min(|data|, CONT_DATA);
      var f := ContFrame(cid, count, data[..n]);
      FrameFields(cid, [count % 128], data[..n]);
      assert f[4] == f[4..5][0];
      AnyContFrames(cid, data[n..], Next(count));
    }
  }

  /**
   The frames of a message carry it if and only if it is at most 7609 bytes
   long: one byte more, and a sequence number wraps to 0 where the receiver
   expects 128.
   */
  lemma FramesCarryTheMessage(cid: Cid, cmd: byte, payload: bytes)
    requires |payload| < 0x1_0000
    ensures Carries(Frames(cid, cmd, payload), cmd, payload) <==> |payload| <= MAX_PAYLOAD
    ensures forall f :: f in Frames(cid, cmd, payload) ==> CidOf(f) == cid && (f[4] == cmd || f[4] < 0x80)
  {
    hide BE, FromBE, Padded, Spells, ContFrames;
    var n := Min(|payload|, INIT_DATA);
    var head := [cmd] + BE(|payload|, 2);
    FrameFields(cid, head, payload[..n]);
    var f := InitFrame(cid, cmd, payload);
    assert BE(cid, 4) + [cmd] + BE(|payload|, 2) + payload[..n] == BE(cid, 4) + head + payload[..n];
    assert f[4..7] == head;
    assert f[4] == head[0] && f[5..7] == head[1..];
    Pow256Values();
    FromBEOfBE(|payload|, 2);
    ContFramesSpell(cid, payload[n..], 0);
    assert Frames(cid, cmd, payload)[1..] == ContFrames(cid, payload[n..], 0);
  }

  // ----- What arrives

  lemma {:induction false} OnChannelConcat(cid: Cid, a: seq<Poll>, b: seq<Poll>)
    ensures OnChannel(cid, a + b) == OnChannel(cid, a) + OnChannel(cid, b)
    decreases |a|
  {
    if a == [] {
      assert a + b == b;
    } else {
      assert (a + b)[1..] == a[1..] + b;
      OnChannelConcat(cid, a[1..], b);
    }
  }

  lemma Behead(f: Frame, x: seq<Frame>, fs: seq<Frame>, more: seq<Frame>)
    requires [f] + x == fs + more && fs != []
    ensures fs[0] == f && x == fs[1..] + more
  {
    assert ([f] + x)[0] == f && ([f] + x)[1..] == x;
    assert (fs + more)[1..] == fs[1..] + more;
  }

  /** One poll that is not for this channel changes nothing. */
  predicate Noise(cid: Cid, p: Poll) {
    p.got.Nothing? || (p.got.Report? && CidOf(p.got.frame) != cid)
  }

  /** The continuation frames of a message, with anything else between them. */
  lemma {:induction false} RestArrives(
      cid: Cid, deadline: nat, timeout: nat, payload: bytes, data: bytes, count: byte,
      a: seq<Poll>, b: seq<Poll>, fs: seq<Frame>, more: seq<Frame>)
    returns (j: nat)
    requires InTime(cid, deadline, timeout, a) && OnChannel(cid, a) == fs + more && Spells(fs, data, count)
    ensures j <= |a|
    ensures RecvRest(cid, deadline, |payload| + |data|, payload, count, a + b)
         == Reply(Received(payload + data), a[j..] + b)
    ensures OnChannel(cid, a[j..]) == more
    ensures (forall f :: f in fs + more ==> f[4] != KEEPALIVE) ==> InTime(cid, deadline, timeout, a[j..])
    decreases |a|
  {
    hide FromBE, Spells, InTime, OnChannel, Noise, RecvRest;
    NothingLeft(cid, deadline, timeout, payload, data, count, a, fs, more, b);
    if data == [] {
      assert payload + data == payload && a[0..] + b == a + b && a[0..] == a;
      j := 0;
    } else {
      var p, rest := a[0], a[1..];
      var k;
      if Noise(cid, p) {
        OneOther(cid, deadline, timeout, payload, |payload| + |data|, count, a, b);
        k := RestArrives(cid, deadline, timeout, payload, data, count, rest, b, fs, more);
      } else {
        var n := Min(|data|, CONT_DATA);
        OneChunk(cid, deadline, timeout, payload, data, count, a, fs, more, b);
        k := RestArrives(cid, deadline, timeout, payload + data[..n], data[n..], Next(count), rest, b, fs[1..], more);
        assert payload + data[..n] + data[n..] == payload + data;
      }
      j := k + 1;
      assert a[j..] == rest[k..];
    }
  }

  /** A message with no bytes left is received as it stands; one with some left has a poll to come. */
  lemma NothingLeft(
      cid: Cid, deadline: nat, timeout: nat, payload: bytes, data: bytes, count: byte,
      a: seq<Poll>, fs: seq<Frame>, more: seq<Frame>, b: seq<Poll>)
    requires OnChannel(cid, a) == fs + more && Spells(fs, data, count)
    ensures data == [] ==>
              RecvRest(cid, deadline, |payload|, payload, count, a + b) == Reply(Received(payload), a + b)
              && fs == []
    ensures data != [] ==> a != []
  {
    hide FromBE;
  }

  /** A poll that is not for this channel is passed over. */
  lemma OneOther(
      cid: Cid, deadline: nat, timeout: nat, payload: bytes, bcnt: nat, count: byte, a: seq<Poll>, b: seq<Poll>)
    requires InTime(cid, deadline, timeout, a) && |payload| < bcnt && a != [] && Noise(cid, a[0])
    ensures OnChannel(cid, a[1..]) == OnChannel(cid, a) && InTime(cid, deadline, timeout, a[1..])
    ensures RecvRest(cid, deadline, bcnt, payload, count, a + b)
         == RecvRest(cid, deadline, bcnt, payload, count, a[1..] + b)
  {
    hide FromBE;
    assert (a + b)[0] == a[0] && (a + b)[1..] == a[1..] + b;
  }

  /** The first frame on the channel is the next of the message: its bytes are taken, and the rest is left. */
  lemma OneChunk(
      cid: Cid, deadline: nat, timeout: nat, payload: bytes, data: bytes, count: byte,
      a: seq<Poll>, fs: seq<Frame>, more: seq<Frame>, b: seq<Poll>)
    requires InTime(cid, deadline, timeout, a) && OnChannel(cid, a) == fs + more && Spells(fs, data, count)
    requires data != [] && a != [] && !Noise(cid, a[0])
    ensures var n := Min(|data|, CONT_DATA);
            && fs != [] && OnChannel(cid, a[1..]) == fs[1..] + more && Spells(fs[1..], data[n..], Next(count))
            && a[0].got.Report? && a[0].got.frame == fs[0] && InTime(cid, deadline, timeout, a[1..])
            && RecvRest(cid, deadline, |payload| + |data|, payload, count, a + b)
            == RecvRest(cid, deadline, |payload| + |data|, payload + data[..n], Next(count), a[1..] + b)
  {
    hide FromBE;
    var p, rest := a[0], a[1..];
    assert (a + b)[0] == p && (a + b)[1..] == rest + b;
    Behead(p.got.frame, OnChannel(cid, rest), fs, more);
  }

  /**
   Reassembly: if the frames on a channel are keepalives, then frames carrying
   a message, then others, all in time, a receive returns exactly the message,
   whatever empty polls and frames on other channels lie between, and leaves
   the others where they were.
   */
  lemma {:induction false} MessageArrives(
      cid: Cid, cmd: byte, deadline: nat, timeout: nat, payload: bytes,
      a: seq<Poll>, b: seq<Poll>, keep: seq<Frame>, fs: seq<Frame>, more: seq<Frame>)
    returns (j: nat)
    requires cmd != KEEPALIVE && cmd != ERROR && |payload| <= MAX_PAYLOAD
    requires InTime(cid, deadline, timeout, a) && OnChannel(cid, a) == keep + fs + more
    requires Keepalives(keep) && Carries(fs, cmd, payload)
    ensures j <= |a|
    ensures RecvBy(cid, cmd, deadline, timeout, a + b) == Reply(Received(payload), a[j..] + b)
    ensures OnChannel(cid, a[j..]) == more
    ensures keep == [] && (forall f :: f in more ==> f[4] != KEEPALIVE) ==> InTime(cid, deadline, timeout, a[j..])
    decreases |a|
  {
    hide FromBE, RecvRest, Spells;
    assert a != [];
    var p, rest := a[0], a[1..];
    assert (a + b)[0] == p && (a + b)[1..] == rest + b;
    var k;
    if Noise(cid, p) {
      k := MessageArrives(cid, cmd, deadline, timeout, payload, rest, b, keep, fs, more);
    } else if keep != [] {
      assert keep + fs + more == keep + (fs + more);
      Behead(p.got.frame, OnChannel(cid, rest), keep, fs + more);
      assert keep[1..] + (fs + more) == keep[1..] + fs + more;
      k := MessageArrives(cid, cmd, p.later + timeout, timeout, payload, rest, b, keep[1..], fs, more);
    } else {
      assert keep + fs + more == fs + more;
      Behead(p.got.frame, OnChannel(cid, rest), fs, more);
      var n := Min(|payload|, INIT_DATA);
      SpelledFramesAreSmall(fs[1..], payload[n..], 0);
      k := RestArrives(cid, deadline, timeout, payload[..n], payload[n..], 0, rest, b, fs[1..], more);
      assert payload[..n] + payload[n..] == payload;
    }
    j := k + 1;
    assert a[j..] == rest[k..];
  }

  lemma {:induction false} SpelledFramesAreSmall(fs: seq<Frame>, data: bytes, count: byte)
    requires Spells(fs, data, count)
    ensures forall f :: f in fs ==> f[4] < 0x80
    decreases |data|
  {
    if data != [] {
      SpelledFramesAreSmall(fs[1..], data[Min(|data|, CONT_DATA)..], Next(count));
    }
  }

  /** What one side sends, the other receives: for every payload the sender accepts. */
  lemma WhatIsSentArrives(
      cid: Cid, cmd: byte, payload: bytes, deadline: nat, timeout: nat, polls: seq<Poll>, keep: seq<Frame>)
    requires cmd != KEEPALIVE && cmd != ERROR && |payload| <= MAX_PAYLOAD
    requires Keepalives(keep) && OnChannel(cid, polls) == keep + Frames(cid, cmd, payload)
    requires InTime(cid, deadline, timeout, polls)
    ensures RecvBy(cid, cmd, deadline, timeout, polls).outcome == Received(payload)
  {
    hide RecvBy, InTime, Carries, Frames;
    FramesCarryTheMessage(cid, cmd, payload);
    var fs := Frames(cid, cmd, payload);
    assert polls + [] == polls && keep + fs + [] == keep + fs;
    var j := MessageArrives(cid, cmd, deadline, timeout, payload, polls, [], keep, fs, []);
  }

  // ----- When nothing of its own arrives

  /**
   Frames on other channels cannot hold a receive open: with nothing on its
   own channel, the first poll past the deadline, cancelled or broken ends it.
   */
  lemma {:induction false} OthersCannotHoldItOpen(cid: Cid, cmd: byte, deadline: nat, timeout: nat, polls: seq<Poll>)
    requires OnChannel(cid, polls) == []
    ensures var r := RecvBy(cid, cmd, deadline, timeout, polls);
            && (r.outcome == StillWaiting || r.outcome == Failed(Timeout) || r.outcome == Failed(Cancelled)
                || r.outcome == Failed(Io))
            && (r.outcome == StillWaiting <==>
                  forall p :: p in polls ==> p.now < deadline && !p.cancel && !p.got.Broken?)
    decreases |polls|
  {
    hide FromBE, RecvRest;
    if polls != [] {
      OthersCannotHoldItOpen(cid, cmd, deadline, timeout, polls[1..]);
      assert polls == [polls[0]] + polls[1..];
    }
  }

  /** Nor between the frames of a message. */
  lemma {:induction false} OthersCannotHoldTheRestOpen(
      cid: Cid, deadline: nat, bcnt: nat, payload: bytes, count: byte, polls: seq<Poll>)
    requires OnChannel(cid, polls) == [] && |payload| < bcnt
    ensures var r := RecvRest(cid, deadline, bcnt, payload, count, polls);
            && (r.outcome == StillWaiting || r.outcome == Failed(Timeout) || r.outcome == Failed(Cancelled)
                || r.outcome == Failed(Io))
            && (r.outcome == StillWaiting <==>
                  forall p :: p in polls ==> p.now < deadline && !p.cancel && !p.got.Broken?)
    decreases |polls|
  {
    hide FromBE;
    if polls != [] {
      OthersCannotHoldTheRestOpen(cid, deadline, bcnt, payload, count, polls[1..]);
      assert polls == [polls[0]] + polls[1..];
    }
  }

  /** What a first frame that does not start the awaited message is answered with. */
  function Complaint(cmd: byte, f: Frame): Option<HidError> {
    if f[4] == ERROR then Some(DeviceError(f[7]))
    else if f[4] != cmd then Some(UnexpectedCommand(cmd, f[4]))
    else if FromBE(f[5..7]) > MAX_PAYLOAD then Some(PayloadTooLarge(FromBE(f[5..7])))
    else None
  }

  /**
   The first frame on the channel that is no keepalive decides, whatever came
   between: an error is reported as that error.
   */
  lemma {:induction false} FirstFrameDecides(
      cid: Cid, cmd: byte, deadline: nat, timeout: nat, a: seq<Poll>, keep: seq<Frame>, f: Frame, more: seq<Frame>)
    requires InTime(cid, deadline, timeout, a) && OnChannel(cid, a) == keep + [f] + more
    requires Keepalives(keep) && f[4] != KEEPALIVE && Complaint(cmd, f).Some?
    ensures RecvBy(cid, cmd, deadline, timeout, a).outcome == Failed(Complaint(cmd, f).value)
    decreases |a|
  {
    hide FromBE, RecvRest;
    var p, rest := a[0], a[1..];
    assert keep + [f] + more == keep + ([f] + more);
    if Noise(cid, p) {
      FirstFrameDecides(cid, cmd, deadline, timeout, rest, keep, f, more);
    } else if keep != [] {
      Behead(p.got.frame, OnChannel(cid, rest), keep, [f] + more);
      assert keep[1..] + ([f] + more) == keep[1..] + [f] + more;
      FirstFrameDecides(cid, cmd, p.later + timeout, timeout, rest, keep[1..], f, more);
    } else {
      assert keep + [f] + more == [f] + more;
      Behead(p.got.frame, OnChannel(cid, rest), [f], more);
    }
  }

  // ----- Two channels

  /** The reports in `polls` are `left` and `right` shuffled, each in its own order. */
  predicate Shuffles(polls: seq<Poll>, left: seq<Frame>, right: seq<Frame>)
    decreases |polls|
  {
    if polls == [] then left == [] && right == [] else
    match polls[0].got
    case Report(f) =>
      || (left != [] && left[0] == f && Shuffles(polls[1..], left[1..], right))
      || (right != [] && right[0] == f && Shuffles(polls[1..], left, right[1..]))
    case _ => Shuffles(polls[1..], left, right)
  }

  lemma {:induction false} ShuffledFramesStayInOrder(
      cid: Cid, other: Cid, polls: seq<Poll>, left: seq<Frame>, right: seq<Frame>)
    requires cid != other && Shuffles(polls, left, right)
    requires forall f :: f in left ==> CidOf(f) == cid
    requires forall f :: f in right ==> CidOf(f) == other
    ensures OnChannel(cid, polls) == left && OnChannel(other, polls) == right
    decreases |polls|
  {
    hide FromBE;
    if polls != [] {
      if polls[0].got.Report? {
        if left != [] && left[0] == polls[0].got.frame && Shuffles(polls[1..], left[1..], right) {
          ShuffledFramesStayInOrder(cid, other, polls[1..], left[1..], right);
          assert left == [left[0]] + left[1..];
        } else {
          ShuffledFramesStayInOrder(cid, other, polls[1..], left, right[1..]);
          assert right == [right[0]] + right[1..];
        }
      } else {
        ShuffledFramesStayInOrder(cid, other, polls[1..], left, right);
      }
    }
  }

  /** Two messages shuffled on two channels each reach their own receiver. */
  lemma EachReachesItsOwn(
      cid: Cid, other: Cid, cmd: byte, otherCmd: byte, payload: bytes, otherPayload: bytes,
      deadline: nat, timeout: nat, polls: seq<Poll>)
    requires cid != other && |payload| <= MAX_PAYLOAD && |otherPayload| <= MAX_PAYLOAD
    requires cmd != KEEPALIVE && cmd != ERROR && otherCmd != KEEPALIVE && otherCmd != ERROR
    requires Shuffles(polls, Frames(cid, cmd, payload), Frames(other, otherCmd, otherPayload))
    requires forall p :: p in polls ==> p.now < deadline && !p.cancel && !p.got.Broken?
    ensures RecvBy(cid, cmd, deadline, timeout, polls).outcome == Received(payload)
    ensures RecvBy(other, otherCmd, deadline, timeout, polls).outcome == Received(otherPayload)
  {
    hide RecvBy, Frames, Shuffles, Carries;
    var left, right := Frames(cid, cmd, payload), Frames(other, otherCmd, otherPayload);
    FramesCarryTheMessage(cid, cmd, payload);
    FramesCarryTheMessage(other, otherCmd, otherPayload);
    ShuffledFramesStayInOrder(cid, other, polls, left, right);
    NoKeepalives(cid, deadline, timeout, polls);
    NoKeepalives(other, deadline, timeout, polls);
    assert [] + left == left && [] + right == right;
    WhatIsSentArrives(cid, cmd, payload, deadline, timeout, polls, []);
    WhatIsSentArrives(other, otherCmd, otherPayload, deadline, timeout, polls, []);
  }

  /** Without keepalives there is one deadline to meet. */
  lemma {:induction false} NoKeepalives(cid: Cid, deadline: nat, timeout: nat, polls: seq<Poll>)
    requires forall p :: p in polls ==> p.now < deadline && !p.cancel && !p.got.Broken?
    requires forall f :: f in OnChannel(cid, polls) ==> f[4] != KEEPALIVE
    ensures InTime(cid, deadline, timeout, polls)
    decreases |polls|
  {
    hide FromBE;
    if polls != [] {
      var p, rest := polls[0], polls[1..];
      assert p in polls;
      if p.got.Report? && CidOf(p.got.frame) == cid {
        assert p.got.frame in OnChannel(cid, polls);
      }
      assert forall q :: q in rest ==> q in polls;
      NoKeepalives(cid, deadline, timeout, rest);
    }
  }

  // ----- Whatever is received arrived

  /** What the polls before the rest found on a channel. */
  function Taken(cid: Cid, polls: seq<Poll>, rest: seq<Poll>): seq<Frame>
    requires |rest| <= |polls|
  {
    OnChannel(cid, polls[..|polls| - |rest|])
  }

  lemma TakenOneMore(cid: Cid, polls: seq<Poll>, rest: seq<Poll>)
    requires polls != [] && |rest| < |polls|
    ensures Taken(cid, polls, rest) ==
              if polls[0].got.Report? && CidOf(polls[0].got.frame) == cid
              then [polls[0].got.frame] + Taken(cid, polls[1..], rest)
              else Taken(cid, polls[1..], rest)
  {
    hide FromBE;
    var k := |polls| - |rest|;
    assert polls[..k][1..] == polls[1..][..k - 1];
  }

  lemma SpellsFirst(fs: seq<Frame>, data: bytes, count: byte)
    requires data != []
    ensures var n := Min(|data|, CONT_DATA);
            Spells(fs, data, count) <==>
              && fs != [] && fs[0][4] == count < 0x80 && fs[0][5..5 + n] == data[..n]
              && Spells(fs[1..], data[n..], Next(count))
  {
  }

  lemma SpellsNothing(count: byte)
    ensures Spells([], [], count)
  {
  }

  lemma {:induction false} RestWasSpelled(
      cid: Cid, deadline: nat, bcnt: nat, payload: bytes, count: byte, polls: seq<Poll>)
    requires |payload| <= bcnt
    requires RecvRest(cid, deadline, bcnt, payload, count, polls).outcome.Received?
    ensures var r := RecvRest(cid, deadline, bcnt, payload, count, polls);
            var result := r.outcome.payload;
            && |result| == bcnt && payload <= result
            && Spells(Taken(cid, polls, r.polls), result[|payload|..], count)
            && polls[|polls| - |r.polls|..] == r.polls
    decreases |polls|
  {
    hide FromBE, Spells, OnChannel, Taken;
    var r := RecvRest(cid, deadline, bcnt, payload, count, polls);
    if |payload| >= bcnt {
      NothingTaken(cid, polls);
      SpellsNothing(count);
    } else {
      var p, rest := polls[0], polls[1..];
      TakenOneMore(cid, polls, r.polls);
      if Noise(cid, p) {
        RestWasSpelled(cid, deadline, bcnt, payload, count, rest);
      } else {
        var n := Min(bcnt - |payload|, CONT_DATA);
        var chunk := p.got.frame[5..5 + n];
        RestWasSpelled(cid, deadline, bcnt, payload + chunk, Next(count), rest);
        var result, fs := r.outcome.payload, Taken(cid, polls, r.polls);
        var data := result[|payload|..];
        assert fs[1..] == Taken(cid, rest, r.polls);
        assert data[..n] == chunk && data[n..] == result[|payload| + n..];
        SpellsFirst(fs, data, count);
      }
    }
  }

  lemma NothingTaken(cid: Cid, polls: seq<Poll>)
    ensures Taken(cid, polls, polls) == []
  {
  }

  /** How a receive that succeeds goes on after its first poll. */
  lemma ReceivedStep(cid: Cid, cmd: byte, deadline: nat, timeout: nat, polls: seq<Poll>)
    requires RecvBy(cid, cmd, deadline, timeout, polls).outcome.Received?
    ensures polls != [] && !polls[0].got.Broken?
    ensures var p, rest, r := polls[0], polls[1..], RecvBy(cid, cmd, deadline, timeout, polls);
            && |r.polls| < |polls|
            && (Noise(cid, p) ==> r == RecvBy(cid, cmd, deadline, timeout, rest))
            && (!Noise(cid, p) && p.got.frame[4] == KEEPALIVE ==>
                  r == RecvBy(cid, cmd, p.later + timeout, timeout, rest))
            && (!Noise(cid, p) && p.got.frame[4] != KEEPALIVE ==>
                  var f := p.got.frame;
                  var bcnt := FromBE(f[5..7]);
                  && f[4] == cmd && bcnt <= MAX_PAYLOAD
                  && r == RecvRest(cid, deadline, bcnt, f[7..7 + Min(bcnt, INIT_DATA)], 0, rest))
  {
    hide FromBE, RecvRest;
  }

  /** An initiation frame and continuation frames spelling the rest carry the message. */
  lemma CarriedFrom(f: Frame, rest: seq<Frame>, cmd: byte, payload: bytes)
    requires f[4] == cmd && FromBE(f[5..7]) == |payload|
    requires f[7..7 + Min(|payload|, INIT_DATA)] <= payload
    requires Spells(rest, payload[Min(|payload|, INIT_DATA)..], 0)
    ensures Carries([f] + rest, cmd, payload)
  {
    hide FromBE, Spells;
    assert ([f] + rest)[1..] == rest;
  }

  lemma KeepaliveFirst(f: Frame, keep: seq<Frame>)
    requires f[4] == KEEPALIVE && Keepalives(keep)
    ensures Keepalives([f] + keep)
  {
  }

  lemma NoFramesAreKeepalives()
    ensures Keepalives([])
  {
  }

  /**
   Nothing is received that did not arrive: the frames a receive took from its
   channel are keepalives, then frames carrying exactly what it returns.
   */
  lemma {:induction false} ReceivedWasCarried(cid: Cid, cmd: byte, deadline: nat, timeout: nat, polls: seq<Poll>)
    returns (keep: seq<Frame>, fs: seq<Frame>)
    requires RecvBy(cid, cmd, deadline, timeout, polls).outcome.Received?
    ensures var r := RecvBy(cid, cmd, deadline, timeout, polls);
            && Taken(cid, polls, r.polls) == keep + fs && Keepalives(keep)
            && Carries(fs, cmd, r.outcome.payload) && |r.outcome.payload| <= MAX_PAYLOAD
            && polls[|polls| - |r.polls|..] == r.polls
    decreases |polls|
  {
    hide FromBE, RecvBy, RecvRest, Spells, OnChannel, Taken, Carries, Keepalives;
    NoFramesAreKeepalives();
    ReceivedStep(cid, cmd, deadline, timeout, polls);
    var r := RecvBy(cid, cmd, deadline, timeout, polls);
    var p, rest := polls[0], polls[1..];
    TakenOneMore(cid, polls, r.polls);
    if Noise(cid, p) {
      keep, fs := ReceivedWasCarried(cid, cmd, deadline, timeout, rest);
    } else if p.got.frame[4] == KEEPALIVE {
      keep, fs := ReceivedWasCarried(cid, cmd, p.later + timeout, timeout, rest);
      assert [p.got.frame] + (keep + fs) == ([p.got.frame] + keep) + fs;
      KeepaliveFirst(p.got.frame, keep);
      keep := [p.got.frame] + keep;
    } else {
      var f := p.got.frame;
      var bcnt := FromBE(f[5..7]);
      RestWasSpelled(cid, deadline, bcnt, f[7..7 + Min(bcnt, INIT_DATA)], 0, rest);
      keep, fs := [], [f] + Taken(cid, rest, r.polls);
      CarriedFrom(f, Taken(cid, rest, r.polls), cmd, r.outcome.payload);
      assert [] + fs == fs;
    }
  }

  // ----- Past the limit

  /** A receiver that had no limit would lose its place at the 129th continuation frame. */
  lemma {:induction false} LongerMessagesLoseTheirPlace(
      cid: Cid, deadline: nat, timeout: nat, payload: bytes, data: bytes, count: byte, polls: seq<Poll>)
    requires count <= 128 && |data| > (128 - count) * CONT_DATA
    requires OnChannel(cid, polls) == ContFrames(cid, data, count) && InTime(cid, deadline, timeout, polls)
    ensures RecvRest(cid, deadline, |payload| + |data|, payload, count, polls).outcome == Failed(OutOfSequence(128, 0))
    decreases |polls|
  {
    hide BE, FromBE, Padded;
    var n := Min(|data|, CONT_DATA);
    var f := ContFrame(cid, count, data[..n]);
    FrameFields(cid, [count % 128], data[..n]);
    assert f[4] == f[4..5][0] && f[5..5 + n] == data[..n];
    var p, rest := polls[0], polls[1..];
    if Noise(cid, p) {
      LongerMessagesLoseTheirPlace(cid, deadline, timeout, payload, data, count, rest);
    } else {
      var more := ContFrames(cid, data[n..], Next(count));
      Behead(p.got.frame, OnChannel(cid, rest), [f], more);
      assert [f][1..] + more == more;
      if count < 128 {
        LongerMessagesLoseTheirPlace(cid, deadline, timeout, payload + data[..n], data[n..], Next(count), rest);
      }
    }
  }

  // ----- Allocating a channel on a shared bus

  /** Answers to INIT, one message after the other. */
  function Answers(resps: seq<bytes>): seq<Frame> {
    if resps == [] then [] else Frames(BROADCAST, INIT, resps[0]) + Answers(resps[1..])
  }

  lemma {:induction false} AnswersAreNoKeepalives(resps: seq<bytes>)
    requires forall r :: r in resps ==> |r| <= MAX_PAYLOAD
    ensures forall f :: f in Answers(resps) ==> f[4] != KEEPALIVE
  {
    hide Frames, Carries;
    if resps != [] {
      FramesCarryTheMessage(BROADCAST, INIT, resps[0]);
      AnswersAreNoKeepalives(resps[1..]);
    }
  }

  /**
   However many other programs' answers come first, and whatever is between
   their frames, a channel request gets the channel its own answer gives.
   */
  lemma {:induction false} OwnChannelIsFound(
      nonce: bytes, deadline: nat, timeout: nat, others: seq<bytes>, own: bytes, a: seq<Poll>, b: seq<Poll>)
    requires |nonce| == 8
    requires forall r :: r in others ==> 17 <= |r| <= MAX_PAYLOAD && r[..8] != nonce
    requires 17 <= |own| <= MAX_PAYLOAD && own[..8] == nonce
    requires OnChannel(BROADCAST, a) == Answers(others + [own]) && InTime(BROADCAST, deadline, timeout, a)
    ensures AwaitInit(nonce, deadline, timeout, a + b).outcome == Ok(ParseInit(own))
    decreases |others|
  {
    hide RecvBy, Frames, OnChannel, InTime, Carries, FromBE;
    var all := others + [own];
    var first := all[0];
    var fs, more := Frames(BROADCAST, INIT, first), Answers(all[1..]);
    FramesCarryTheMessage(BROADCAST, INIT, first);
    AnswersAreNoKeepalives(all[1..]);
    assert Answers(all) == [] + fs + more;
    var j := MessageArrives(BROADCAST, INIT, deadline, timeout, first, a, b, [], fs, more);
    if others != [] {
      assert first == others[0] && all[1..] == others[1..] + [own];
      assert forall r :: r in others[1..] ==> r in others;
      OwnChannelIsFound(nonce, deadline, timeout, others[1..], own, a[j..], b);
    }
  }

  /** A channel is only ever taken from an answer that carries our own nonce. */
  lemma {:induction false} ChannelComesFromOwnNonce(nonce: bytes, deadline: nat, timeout: nat, polls: seq<Poll>)
    returns (i: nat, keep: seq<Frame>, fs: seq<Frame>, own: bytes)
    requires |nonce| == 8 && AwaitInit(nonce, deadline, timeout, polls).outcome.Ok?
    ensures var r := AwaitInit(nonce, deadline, timeout, polls);
            && |own| >= 17 && own[..8] == nonce && r.outcome == Ok(ParseInit(own))
            && i <= |polls| && |r.polls| <= |polls| - i
            && Taken(BROADCAST, polls[i..], r.polls) == keep + fs && Keepalives(keep) && Carries(fs, INIT, own)
    decreases |polls|
  {
    hide RecvBy, FromBE, Carries, OnChannel;
    var r := RecvBy(BROADCAST, INIT, deadline, timeout, polls);
    keep, fs := ReceivedWasCarried(BROADCAST, INIT, deadline, timeout, polls);
    i, own := 0, r.outcome.payload;
    assert polls[0..] == polls;
    if own[..8] != nonce {
      var k;
      k, keep, fs, own := ChannelComesFromOwnNonce(nonce, deadline, timeout, r.polls);
      i := |polls| - |r.polls| + k;
      assert polls[i..] == r.polls[k..];
    }
  }

  // ----- Sending

  /** A message too long to frame is refused and nothing is written; otherwise the frames are written in order. */
  lemma SendWritesAllOrReports(bus: Bus, cid: Cid, cmd: byte, payload: bytes)
    ensures var (after, fault) := Send(bus, cid, cmd, payload);
            && after.polls == bus.polls
            && (|payload| > MAX_PAYLOAD ==> after == bus && fault == Some(PayloadTooLarge(|payload|)))
            && (|payload| <= MAX_PAYLOAD ==>
                  exists k :: 0 <= k <= |Frames(cid, cmd, payload)|
                    && after.sent == bus.sent + Wire(Frames(cid, cmd, payload)[..k])
                    && (fault == None <==> k == |Frames(cid, cmd, payload)|))
            && (bus.writes == [] && |payload| <= MAX_PAYLOAD ==> fault == None && after.writes == [])
  {
    hide Frames;
    if |payload| <= MAX_PAYLOAD {
      var k := WriteAllWrites(bus, Frames(cid, cmd, payload));
    }
  }

  /** Reports as written: each frame with the report id 0 before it. */
  function Wire(fs: seq<Frame>): (w: seq<bytes>)
    ensures |w| == |fs|
  {
    if fs == [] then [] else [[0] + fs[0]] + Wire(fs[1..])
  }

  lemma {:induction false} WriteAllWrites(bus: Bus, fs: seq<Frame>) returns (k: nat)
    ensures var (after, fault) := WriteAll(bus, fs);
            && after.polls == bus.polls
            && k <= |fs| && after.sent == bus.sent + Wire(fs[..k]) && (fault == None <==> k == |fs|)
            && (bus.writes == [] ==> fault == None && after.writes == [])
    decreases |fs|
  {
    if fs == [] {
      k := 0;
    } else {
      var (next, broken) := WriteReport(bus, fs[0]);
      if broken.Some? {
        k := 0;
      } else {
        var n := WriteAllWrites(next, fs[1..]);
        k := n + 1;
        assert fs[..k][1..] == fs[1..][..n];
        assert bus.sent + [[0] + fs[0]] + Wire(fs[1..][..n]) == bus.sent + ([[0] + fs[0]] + Wire(fs[1..][..n]));
      }
    }
  }

  // ----- Retrying

  function Repeat(w: seq<bytes>, k: nat): seq<bytes> {
    if k == 0 then [] else w + Repeat(w, k - 1)
  }

  /**
   A busy channel is retried at most three times, never when that could pass
   the budget, and every attempt writes the same frames. What is returned is
   the last attempt's own outcome, or Cancelled when that attempt was busy; a
   busy error is returned only when attempts or budget ran out.
   */
  lemma {:induction false} RetriesAreBounded(
      bus: Bus, cid: Cid, cmd: byte, payload: bytes, timeout: nat, around: nat -> Attempt, attempt: nat)
    returns (last: Bus)
    requires 1 <= attempt <= BUSY_MAX_ATTEMPTS
    ensures var t := TransactFrom(bus, cid, cmd, payload, timeout, around, attempt);
            var (answer, after) := Exchange(last, cid, cmd, payload, around(t.attempt).start, timeout);
            && t.bus == after
            && (t.outcome == answer
                || (t.outcome == Failed(Cancelled) && answer == Failed(DeviceError(ERR_CHANNEL_BUSY))))
            && attempt <= t.attempt <= BUSY_MAX_ATTEMPTS
            && (forall i :: attempt <= i < t.attempt ==>
                  && around(i).elapsed + BUSY_RETRY_DELAY < BUSY_TOTAL_BUDGET
                  && !around(i).cancelBefore && !around(i).cancelAfter)
            && (t.outcome == Failed(DeviceError(ERR_CHANNEL_BUSY)) ==>
                  || t.attempt == BUSY_MAX_ATTEMPTS
                  || around(t.attempt).elapsed + BUSY_RETRY_DELAY >= BUSY_TOTAL_BUDGET)
            && (bus.writes == [] && |payload| <= MAX_PAYLOAD ==>
                  t.bus.sent == bus.sent + Repeat(Wire(Frames(cid, cmd, payload)), t.attempt - attempt + 1))
    decreases BUSY_MAX_ATTEMPTS - attempt
  {
    hide Send, RecvBy, Frames, Wire;
    var at, wire := around(attempt), Wire(Frames(cid, cmd, payload));
    var t := TransactFrom(bus, cid, cmd, payload, timeout, around, attempt);
    var (outcome, after) := Exchange(bus, cid, cmd, payload, at.start, timeout);
    SendWritesAllOrReports(bus, cid, cmd, payload);
    var fs := Frames(cid, cmd, payload);
    assert fs[..|fs|] == fs;
    if bus.writes == [] && |payload| <= MAX_PAYLOAD {
      assert after.sent == bus.sent + wire && after.writes == [];
    }
    if Retried(outcome, attempt, at) {
      last := RetriesAreBounded(after, cid, cmd, payload, timeout, around, attempt + 1);
      var more := Repeat(wire, t.attempt - attempt);
      assert bus.sent + wire + more == bus.sent + (wire + more);
    } else {
      last := bus;
      assert Repeat(wire, 1) == wire + Repeat(wire, 0);
    }
  }

  /**
   End to end: when every write works and the key's answer arrives in time, a
   command writes its own frames once and returns exactly the answer.
   */
  lemma AnswerComesBack(
      bus: Bus, cid: Cid, cmd: byte, payload: bytes, timeout: nat, around: nat -> Attempt,
      keep: seq<Frame>, answer: bytes)
    requires cmd != KEEPALIVE && cmd != ERROR && |payload| <= MAX_PAYLOAD && |answer| <= MAX_PAYLOAD
    requires bus.writes == [] && InTime(cid, around(1).start + timeout, timeout, bus.polls)
    requires Keepalives(keep) && OnChannel(cid, bus.polls) == keep + Frames(cid, cmd, answer)
    ensures var t := TransactFrom(bus, cid, cmd, payload, timeout, around, 1);
            t.outcome == Received(answer) && t.bus.sent == bus.sent + Wire(Frames(cid, cmd, payload))
  {
    hide Send, RecvBy, Frames, Wire, InTime, OnChannel;
    SendWritesAllOrReports(bus, cid, cmd, payload);
    WhatIsSentArrives(cid, cmd, answer, around(1).start + timeout, timeout, bus.polls, keep);
    var fs := Frames(cid, cmd, payload);
    assert fs[..|fs|] == fs;
  }
}
