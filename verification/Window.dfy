/** The one-byte XOR checksum of the sliding-window laboratory, and what it detects. */
module XorChecksum {
  import opened Payloads

  /** The exclusive or of all bytes. */
  function Xor(m: Payload): bv8 {
    if m == [] then 0 else Xor(m[..|m| - 1]) ^ m[|m| - 1]
  }

  /** The routine of both sender and receiver: the last byte is reserved for the checksum. */
  method Checksum(msg: Payload) returns (result: bv8)
    requires |msg| >= 3
    ensures result == Xor(msg[..|msg| - 1])
  {
    result := msg[0] ^ msg[1];
    assert msg[..2][..1] == msg[..1] && msg[..1][..0] == [];
    assert Xor(msg[..1]) == Xor([]) ^ msg[0];
    for i := 2 to |msg| - 1
      invariant result == Xor(msg[..i])
    {
      assert msg[..i + 1][..i] == msg[..i];
      result := result ^ msg[i];
    }
  }

  /** How many bytes have bit `b` set. */
  function Ones(m: Payload, b: nat): nat
    requires b < 8
  {
    if m == [] then 0 else Ones(m[..|m| - 1], b) + if HasBit(m[|m| - 1], b) then 1 else 0
  }

  lemma XorBit(x: bv8, y: bv8, b: nat)
    requires b < 8
    ensures HasBit(x ^ y, b) <==> (HasBit(x, b) != HasBit(y, b))
  {
    assert ((x ^ y) >> b) & 1 == ((x >> b) & 1) ^ ((y >> b) & 1);
  }

  /** Each bit of the exclusive or is the parity of that bit over all bytes. */
  lemma {:induction false} XorIsParity(m: Payload, b: nat)
    requires b < 8
    ensures HasBit(Xor(m), b) <==> Ones(m, b) % 2 == 1
  {
    if m != [] {
      var (front, last) := (m[..|m| - 1], m[|m| - 1]);
      XorIsParity(front, b);
      XorBit(Xor(front), last, b);
      OneMore(Ones(front, b), HasBit(last, b));
    }
  }

  lemma OneMore(n: nat, more: bool)
    ensures (n + if more then 1 else 0) % 2 == 1 <==> ((n % 2 == 1) != more)
  {
  }

  /** The receiver's check. */
  predicate Intact(m: Payload) {
    m != [] && m[|m| - 1] == Xor(m[..|m| - 1])
  }

  lemma XorSwap(a: bv8, d: bv8, b: bv8)
    ensures (a ^ d) ^ b == (a ^ b) ^ d
  {
  }

  lemma XorCancel(a: bv8, d: bv8)
    ensures (a ^ d == a) <==> d == 0
    ensures a ^ (a ^ d) == d
  {
  }

  /** Replacing one byte changes the exclusive or by the difference. */
  lemma {:induction false} XorReplace(m: Payload, i: nat, b: bv8)
    requires i < |m|
    ensures Xor(m[i := b]) == Xor(m) ^ (m[i] ^ b)
  {
    var n := |m| - 1;
    var front := m[..n];
    if i == n {
      assert m[i := b][..n] == front;
      XorReplaceLast(Xor(front), m[n], b);
    } else {
      XorReplace(front, i, b);
      assert m[i := b][..n] == front[i := b];
      XorSwap(Xor(front), m[i] ^ b, m[n]);
    }
  }

  lemma XorReplaceLast(x: bv8, old': bv8, b: bv8)
    ensures x ^ b == (x ^ old') ^ (old' ^ b)
  {
  }

  lemma XorChanges(front: Payload, i: nat, b: bv8)
    requires i < |front|
    ensures Xor(front[i := b]) == Xor(front) <==> b == front[i]
  {
    XorReplace(front, i, b);
    XorKept(Xor(front), Xor(front[i := b]), front[i], b);
  }

  lemma XorKept(x: bv8, y: bv8, a: bv8, b: bv8)
    requires y == x ^ (a ^ b)
    ensures y == x <==> b == a
  {
  }

  /** An intact payload with one byte replaced is intact only if the byte is the same. */
  lemma ReplacementCaught(m: Payload, i: nat, b: bv8)
    requires i < |m| && Intact(m)
    ensures Intact(m[i := b]) <==> b == m[i]
  {
    var n := |m| - 1;
    if i == n {
      assert m[i := b][..n] == m[..n];
    } else {
      XorChanges(m[..n], i, b);
      assert m[i := b][..n] == m[..n][i := b];
    }
  }

  /** Every single-bit flip of an intact payload is caught, one in the checksum byte included. */
  lemma SingleFlipsCaught(m: Payload, f: Flip)
    requires Intact(m) && FlipOk(f, m)
    ensures Intact(Corrupt(m, f)) <==> f == NoFlip
  {
    if f.FlipAt? {
      ReplacementCaught(m, f.index, m[f.index] ^ Bit(f.bit));
      XorCancel(m[f.index], Bit(f.bit));
    }
  }
}

/**
  The sliding-window sender and receiver over two FIFO channels. Frames may each get one
  bit flipped on the way; replies travel back unchanged.
 */
module WindowSpec {
  import opened Payloads
  import opened XorChecksum

  /** COUNT, the window size the sender computed, and MSGSIZE. */
  datatype Params = Params(count: nat, window: int, size: nat)

  ghost predicate ParamsOk(p: Params) {
    p.size >= 5
  }

  /** `memset` to zero, then the checksum in the last byte. */
  function EmptyFrame(size: nat): (m: Payload)
    requires size >= 5
    ensures |m| == size
  {
    var zeros := seq(size, _ => 0 as bv8);
    zeros[size - 1 := Xor(zeros[..size - 1])]
  }

  const ACK: Payload := [65, 67, 75, 0]
  const NACK: Payload := [78, 65, 67, 75, 0]

  /** `sprintf` into the received frame's payload. */
  function Written(m: Payload, text: Payload): Payload
    requires |text| <= |m|
  {
    text + m[|text|..]
  }

  /** `!strcmp(response, text)`, `text` including its terminator. */
  predicate Says(response: Payload, text: Payload) {
    text <= response
  }

  /** The three loops of the sender, by their counters. */
  datatype Sender = Filling(i: nat) | Awaiting(i: nat) | Sending(i: nat) | Collecting(i: nat) | Done

  datatype Receiver = Waiting | Holding(frame: Payload)

  datatype State = State(
    sender: Sender, inQueue: int, acks: nat, nacks: nat,
    forward: seq<Payload>, backward: seq<Payload>,
    receiver: Receiver, received: nat,
    corrupted: nat)

  const START := State(Filling(0), 0, 0, 0, [], [], Waiting, 0, 0)

  datatype Step = SendFrame(flip: Flip) | LeaveLoop | TakeReply | TakeFrame | Reply

  function LoopBound(p: Params, s: Sender): int {
    if s.Awaiting? then p.count - p.window else p.window
  }

  predicate Enabled(p: Params, s: State, step: Step) {
    match step
    case SendFrame(flip) =>
      && ((s.sender.Filling? && s.sender.i < p.window) || s.sender.Sending?)
      && (flip.FlipAt? ==> flip.index < p.size && flip.bit < 8)
    case LeaveLoop => !s.sender.Sending? && !s.sender.Done? && s.sender.i >= LoopBound(p, s.sender)
    case TakeReply =>
      (s.sender.Awaiting? || s.sender.Collecting?) && s.sender.i < LoopBound(p, s.sender) && s.backward != []
    case TakeFrame => s.receiver.Waiting? && s.received < p.count && s.forward != []
    case Reply => s.receiver.Holding?
  }

  /** `handle_response`. */
  function Counted(s: State, response: Payload): State {
    if Says(response, NACK) then s.(nacks := s.nacks + 1)
    else if Says(response, ACK) then s.(acks := s.acks + 1)
    else s
  }

  ghost function Apply(p: Params, s: State, step: Step): State
    requires ParamsOk(p) && Enabled(p, s, step)
    requires s.receiver.Holding? ==> |s.receiver.frame| == p.size
  {
    match step
    case SendFrame(flip) =>
      s.(sender := if s.sender.Filling? then Filling(s.sender.i + 1) else Awaiting(s.sender.i + 1),
         inQueue := s.inQueue + 1,
         forward := s.forward + [Corrupt(EmptyFrame(p.size), flip)],
         corrupted := s.corrupted + if flip == NoFlip then 0 else 1)
    case LeaveLoop =>
      s.(sender := match s.sender case Filling(_) => Awaiting(0) case Awaiting(_) => Collecting(0) case _ => Done)
    case TakeReply =>
      Counted(s.(sender := if s.sender.Awaiting? then Sending(s.sender.i) else Collecting(s.sender.i + 1),
                 inQueue := s.inQueue - 1, backward := s.backward[1..]), s.backward[0])
    case TakeFrame => s.(receiver := Holding(s.forward[0]), forward := s.forward[1..])
    case Reply =>
      var frame := s.receiver.frame;
      s.(receiver := Waiting, received := s.received + 1,
         backward := s.backward + [Written(frame, if Intact(frame) then ACK else NACK)])
  }
}

/** The sliding window in every run. */
module WindowRuns {
  import opened Payloads
  import opened XorChecksum
  import opened WindowSpec

  // ---------- Counting what is in transit ----------

  /** Frames that will fail the check. */
  function Bad(frames: seq<Payload>): nat {
    if frames == [] then 0 else Bad(frames[1..]) + if Intact(frames[0]) then 0 else 1
  }

  function Nacks(replies: seq<Payload>): nat {
    if replies == [] then 0 else Nacks(replies[1..]) + if Says(replies[0], NACK) then 1 else 0
  }

  lemma {:induction false} BadAppend(frames: seq<Payload>, f: Payload)
    ensures Bad(frames + [f]) == Bad(frames) + if Intact(f) then 0 else 1
  {
    if frames == [] {
      assert [f][1..] == [];
    } else {
      BadAppend(frames[1..], f);
      assert (frames + [f])[1..] == frames[1..] + [f];
    }
  }

  lemma {:induction false} NacksAppend(replies: seq<Payload>, r: Payload)
    ensures Nacks(replies + [r]) == Nacks(replies) + if Says(r, NACK) then 1 else 0
  {
    if replies == [] {
      assert [r][1..] == [];
    } else {
      NacksAppend(replies[1..], r);
      assert (replies + [r])[1..] == replies[1..] + [r];
    }
  }

  function Held(s: State): nat {
    if s.receiver.Holding? then 1 else 0
  }

  function HeldBad(s: State): nat {
    if s.receiver.Holding? && !Intact(s.receiver.frame) then 1 else 0
  }

  function Clip(x: int): nat {
    if x < 0 then 0 else x
  }

  /** Frames sent so far, as the sender's loop counters give it. */
  function SentSoFar(p: Params, s: Sender): nat {
    match s
    case Filling(i) => i
    case Awaiting(i) => Clip(p.window) + i
    case Sending(i) => Clip(p.window) + i
    case _ => Clip(p.window) + Clip(p.count - p.window)
  }

  /** Replies taken so far. */
  function TakenSoFar(p: Params, s: Sender): nat {
    match s
    case Filling(i) => 0
    case Awaiting(i) => i
    case Sending(i) => i + 1
    case Collecting(i) => Clip(p.count - p.window) + i
    case Done => Clip(p.count - p.window) + Clip(p.window)
  }

  // ---------- The invariant ----------

  ghost predicate CountersOk(p: Params, s: State) {
    && (s.sender.Filling? || s.sender.Collecting? ==> s.sender.i <= Clip(p.window))
    && (s.sender.Awaiting? ==> s.sender.i <= Clip(p.count - p.window))
    && (s.sender.Sending? ==> s.sender.i < p.count - p.window)
    && s.received + Held(s) <= p.count
    && SentSoFar(p, s.sender) == s.received + Held(s) + |s.forward|
    && s.received == TakenSoFar(p, s.sender) + |s.backward|
    && s.inQueue == SentSoFar(p, s.sender) - TakenSoFar(p, s.sender)
    // without a window the sender waits for a reply to nothing
    && (p.window <= 0 && p.count > p.window ==> s.sender == Filling(0) || s.sender == Awaiting(0))
  }

  ghost predicate RepliesOk(p: Params, s: State) {
    && (forall f :: f in s.forward ==> |f| == p.size)
    && (s.receiver.Holding? ==> |s.receiver.frame| == p.size)
    && (forall r :: r in s.backward ==> Says(r, ACK) || Says(r, NACK))
    && s.acks + s.nacks == TakenSoFar(p, s.sender)
    && s.corrupted == s.nacks + Nacks(s.backward) + HeldBad(s) + Bad(s.forward)
  }

  ghost predicate Inv(p: Params, s: State) {
    CountersOk(p, s) && RepliesOk(p, s)
  }

  lemma {:induction false} ZerosXor(m: Payload)
    requires forall i :: 0 <= i < |m| ==> m[i] == 0
    ensures Xor(m) == 0
  {
    if m != [] {
      ZerosXor(m[..|m| - 1]);
    }
  }

  /** The frames sent are all zero, checksum and all. */
  lemma EmptyFrameIsZero(size: nat)
    requires size >= 5
    ensures EmptyFrame(size) == seq(size, _ => 0 as bv8)
  {
    ZerosXor(seq(size, _ => 0 as bv8)[..size - 1]);
  }

  lemma FlippedFrameCaught(size: nat, f: Flip)
    requires size >= 5 && FlipOk(f, EmptyFrame(size))
    ensures Intact(Corrupt(EmptyFrame(size), f)) <==> f == NoFlip
  {
    var m := EmptyFrame(size);
    assert m[..size - 1] == seq(size, _ => 0 as bv8)[..size - 1];
    SingleFlipsCaught(m, f);
  }

  /** A reply is the frame received, its first bytes overwritten. */
  lemma WrittenOver(m: Payload, text: Payload)
    requires |text| <= |m|
    ensures |Written(m, text)| == |m|
    ensures forall i :: 0 <= i < |m| ==> Written(m, text)[i] == if i < |text| then text[i] else m[i]
  {
  }

  lemma ReplySays(frame: Payload, ok: bool)
    requires |frame| >= 5
    ensures var r := Written(frame, if ok then ACK else NACK);
            (Says(r, ACK) <==> ok) && (Says(r, NACK) <==> !ok)
  {
    var r := Written(frame, if ok then ACK else NACK);
    assert r[0] == if ok then 65 else 78;
  }

  lemma NotBoth(response: Payload)
    ensures !(Says(response, ACK) && Says(response, NACK))
  {
    assert ACK[0] == 65 && NACK[0] == 78;
  }

  lemma SendKeepsInv(p: Params, s: State, flip: Flip)
    requires ParamsOk(p) && Inv(p, s) && Enabled(p, s, SendFrame(flip))
    ensures Inv(p, Apply(p, s, SendFrame(flip)))
  {
    FlippedFrameCaught(p.size, flip);
    BadAppend(s.forward, Corrupt(EmptyFrame(p.size), flip));
  }

  lemma TakeReplyKeepsInv(p: Params, s: State)
    requires ParamsOk(p) && Inv(p, s) && Enabled(p, s, TakeReply)
    ensures Inv(p, Apply(p, s, TakeReply))
  {
    assert s.backward[0] in s.backward;
    NotBoth(s.backward[0]);
  }

  lemma ReplyKeepsInv(p: Params, s: State)
    requires ParamsOk(p) && Inv(p, s) && Enabled(p, s, Reply)
    ensures Inv(p, Apply(p, s, Reply))
  {
    var frame := s.receiver.frame;
    var ok := Intact(frame);
    ReplySays(frame, ok);
    NacksAppend(s.backward, Written(frame, if ok then ACK else NACK));
  }

  lemma LeaveKeepsInv(p: Params, s: State)
    requires ParamsOk(p) && Inv(p, s) && Enabled(p, s, LeaveLoop)
    ensures Inv(p, Apply(p, s, LeaveLoop))
  {
  }

  lemma TakeFrameKeepsInv(p: Params, s: State)
    requires ParamsOk(p) && Inv(p, s) && Enabled(p, s, TakeFrame)
    ensures Inv(p, Apply(p, s, TakeFrame))
  {
    assert s.forward[0] in s.forward;
  }

  lemma StepKeepsInv(p: Params, s: State, step: Step)
    requires ParamsOk(p) && Inv(p, s) && Enabled(p, s, step)
    ensures Inv(p, Apply(p, s, step))
  {
    match step
    case SendFrame(flip) => SendKeepsInv(p, s, flip);
    case LeaveLoop => LeaveKeepsInv(p, s);
    case TakeReply => TakeReplyKeepsInv(p, s);
    case TakeFrame => TakeFrameKeepsInv(p, s);
    case Reply => ReplyKeepsInv(p, s);
  }

  // ---------- Runs ----------

  ghost predicate Leads(p: Params, s: State, steps: seq<Step>, s': State)
    requires ParamsOk(p) && Inv(p, s)
    decreases |steps|
  {
    if steps == [] then s' == s
    else
      && Enabled(p, s, steps[0])
      && (StepKeepsInv(p, s, steps[0]); Leads(p, Apply(p, s, steps[0]), steps[1..], s'))
  }

  /** Every run keeps the invariant. */
  lemma {:induction false} EveryRun(p: Params, s: State, steps: seq<Step>, s': State)
    requires ParamsOk(p) && Inv(p, s) && Leads(p, s, steps, s')
    ensures Inv(p, s')
    decreases |steps|
  {
    if steps != [] {
      StepKeepsInv(p, s, steps[0]);
      EveryRun(p, Apply(p, s, steps[0]), steps[1..], s');
    }
  }

  lemma StartInv(p: Params)
    requires ParamsOk(p)
    ensures Inv(p, START)
  {
  }

  ghost predicate Reachable(p: Params, s: State)
    requires ParamsOk(p)
  {
    StartInv(p);
    exists steps :: Leads(p, START, steps, s)
  }

  lemma ReachableInv(p: Params, s: State)
    requires ParamsOk(p) && Reachable(p, s)
    ensures Inv(p, s)
  {
    StartInv(p);
    var steps :| Leads(p, START, steps, s);
    EveryRun(p, START, steps, s);
  }

  /** `in_queue` is what is in transit, in either direction, and never exceeds the window. */
  lemma WindowHolds(p: Params, s: State)
    requires ParamsOk(p) && Reachable(p, s)
    ensures s.inQueue == |s.forward| + Held(s) + |s.backward|
    ensures s.inQueue <= Clip(p.window)
  {
    ReachableInv(p, s);
  }

  ghost predicate Usable(p: Params) {
    1 <= p.window <= p.count
  }

  ghost predicate Finished(p: Params, s: State) {
    s.sender.Done? && s.receiver.Waiting? && s.received == p.count
  }

  /**
    When the sender is done, every frame was answered: ACKs and NACKs add up to COUNT,
    and there is one NACK for each corrupted frame.
   */
  lemma VerdictsExact(p: Params, s: State)
    requires ParamsOk(p) && Usable(p) && Reachable(p, s) && s.sender.Done?
    ensures Finished(p, s) && s.forward == [] && s.backward == []
    ensures s.acks + s.nacks == p.count && s.nacks == s.corrupted
  {
    ReachableInv(p, s);
  }

  /** Unless both sides have finished, some step can be taken. */
  lemma NoDeadlock(p: Params, s: State) returns (step: Step)
    requires ParamsOk(p) && Usable(p) && Inv(p, s) && !Finished(p, s)
    ensures Enabled(p, s, step)
  {
    if s.receiver.Holding? {
      step := Reply;
    } else if s.forward != [] {
      step := TakeFrame;
    } else if s.sender.Sending? || (s.sender.Filling? && s.sender.i < p.window) {
      step := SendFrame(NoFlip);
    } else if s.sender.i >= LoopBound(p, s.sender) {
      step := LeaveLoop;
    } else {
      step := TakeReply;
    }
  }

  /** Every reply under way is spelled "ACK" or "NACK", zero byte included. */
  lemma RepliesSpelled(p: Params, s: State, r: Payload)
    requires ParamsOk(p) && Reachable(p, s) && r in s.backward
    ensures [65, 67, 75, 0] <= r || [78, 65, 67, 75, 0] <= r
  {
    ReachableInv(p, s);
  }

  function Rank(s: Sender): nat {
    match s
    case Filling(_) => 3
    case Awaiting(_) => 2
    case Sending(_) => 2
    case Collecting(_) => 1
    case Done => 0
  }

  /** A bound on the steps that remain. */
  function Remaining(p: Params, s: State): int {
    4 * (p.count - SentSoFar(p, s.sender)) + 3 * |s.forward| + 2 * Held(s) + |s.backward| + Rank(s.sender)
  }

  lemma StepsRunOut(p: Params, s: State, step: Step)
    requires ParamsOk(p) && Usable(p) && Inv(p, s) && Enabled(p, s, step)
    ensures Remaining(p, Apply(p, s, step)) < Remaining(p, s)
  {
    match step
    case SendFrame(_) =>
    case LeaveLoop =>
    case TakeReply =>
    case TakeFrame =>
    case Reply =>
  }

  lemma RemainingNat(p: Params, s: State)
    requires Usable(p) && Inv(p, s)
    ensures Remaining(p, s) >= 0
  {
  }

  /** A run is no longer than the bound on the steps that remain; one that cannot go on has finished. */
  lemma {:induction false} RunsFinish(p: Params, s: State, steps: seq<Step>, s': State)
    requires ParamsOk(p) && Usable(p) && Inv(p, s) && Leads(p, s, steps, s')
    ensures |steps| <= Remaining(p, s)
    ensures (forall step :: !Enabled(p, s', step)) ==> Finished(p, s')
    decreases |steps|
  {
    RemainingNat(p, s);
    if steps == [] {
      if !Finished(p, s) {
        var step := NoDeadlock(p, s);
      }
    } else {
      StepKeepsInv(p, s, steps[0]);
      StepsRunOut(p, s, steps[0]);
      RunsFinish(p, Apply(p, s, steps[0]), steps[1..], s');
    }
  }

  /** No run is longer than 4 * COUNT + 3 steps; a run that cannot go on has finished. */
  lemma EveryRunFinishes(p: Params, steps: seq<Step>, s: State)
    requires ParamsOk(p) && Usable(p) && (StartInv(p); Leads(p, START, steps, s))
    ensures |steps| <= 4 * p.count + 3
    ensures (forall step :: !Enabled(p, s, step)) ==> Finished(p, s)
  {
    StartInv(p);
    RunsFinish(p, START, steps, s);
  }

  /** From every state of a usable window both sides can finish. */
  lemma {:induction false} CanFinish(p: Params, s: State) returns (steps: seq<Step>, s': State)
    requires ParamsOk(p) && Usable(p) && Inv(p, s)
    ensures Leads(p, s, steps, s') && Finished(p, s')
    decreases Remaining(p, s)
  {
    if Finished(p, s) {
      return [], s;
    }
    var step := NoDeadlock(p, s);
    StepKeepsInv(p, s, step);
    StepsRunOut(p, s, step);
    RemainingNat(p, Apply(p, s, step));
    var rest;
    rest, s' := CanFinish(p, Apply(p, s, step));
    steps := [step] + rest;
    assert steps[1..] == rest;
  }

  /** The sender can finish exactly with a window between 1 and COUNT (or with nothing to send at all). */
  lemma FinishesIff(p: Params)
    requires ParamsOk(p)
    ensures (exists s :: Reachable(p, s) && s.sender.Done?) <==> Usable(p) || (p.window == 0 && p.count == 0)
  {
    StartInv(p);
    if Usable(p) {
      var steps, s := CanFinish(p, START);
      assert Reachable(p, s) && s.sender.Done?;
    } else if p.window == 0 && p.count == 0 {
      var s := FinishEmpty(p);
    } else {
      forall s | Reachable(p, s)
        ensures !s.sender.Done?
      {
        ReachableInv(p, s);
      }
    }
  }

  lemma FinishEmpty(p: Params) returns (s: State)
    requires ParamsOk(p) && p.window == 0 && p.count == 0
    ensures Reachable(p, s) && s.sender.Done?
  {
    StartInv(p);
    var a := START.(sender := Awaiting(0));
    var c := START.(sender := Collecting(0));
    s := START.(sender := Done);
    assert Leads(p, s, [], s);
    assert [LeaveLoop][1..] == [];
    assert Leads(p, c, [LeaveLoop], s);
    assert [LeaveLoop, LeaveLoop][1..] == [LeaveLoop];
    assert Leads(p, a, [LeaveLoop, LeaveLoop], s);
    assert [LeaveLoop, LeaveLoop, LeaveLoop][1..] == [LeaveLoop, LeaveLoop];
    assert Leads(p, START, [LeaveLoop, LeaveLoop, LeaveLoop], s);
  }
}
