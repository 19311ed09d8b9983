/** When a wait expires the send routine returns before its frame is on the wire, and the loop gives
    buffers back regardless. This module says exactly when that spoils what the wire carries. */
module Timeouts {
  import opened Bytes
  import opened Rings
  import opened Machine

  /** One device moving alone. */
  function Devices(n: Nic, steps: seq<DeviceStep>): (r: Nic)
    requires Shape(n)
    ensures Shape(r)
    decreases steps
  {
    if steps == [] then n else Devices(Device(n, steps[0]), steps[1..])
  }

  function Moves(i: nat, steps: seq<DeviceStep>): (r: seq<Label>)
    ensures |r| == |steps|
  {
    if steps == [] then [] else [Dev(i, steps[0])] + Moves(i, steps[1..])
  }

  lemma {:induction false} DevicesAppend(n: Nic, a: seq<DeviceStep>, b: seq<DeviceStep>)
    requires Shape(n)
    ensures Devices(n, a + b) == Devices(Devices(n, a), b)
    decreases a
  {
    hide Device;
    if a == [] {
      assert a + b == b;
    } else {
      assert (a + b)[1..] == a[1..] + b;
      DevicesAppend(Device(n, a[0]), a[1..], b);
    }
  }

  lemma {:induction false} ExecMoves<S>(cb: Callback<S>, s: Sys<S>, i: nat, steps: seq<DeviceStep>)
    requires Sound(s) && i < |s.nics|
    ensures Shape(s.nics[i])
    ensures Exec(cb, s, Moves(i, steps)) == s.(nics := s.nics[i := Devices(s.nics[i], steps)])
    decreases steps
  {
    hide Device;
    if steps == [] {
      assert s.nics[i := s.nics[i]] == s.nics;
    } else {
      var t := Step(cb, s, Dev(i, steps[0]));
      ExecMoves(cb, t, i, steps[1..]);
      assert Moves(i, steps)[1..] == Moves(i, steps[1..]);
      var n := Devices(t.nics[i], steps[1..]);
      assert t.nics[i := n] == s.nics[i := n];
    }
  }

  /** The bytes of a received frame. */
  type Data = d: seq<u8> | 0 < |d| <= BUFFER witness [0]

  /** The same frame `k` times, as far as the ring has room. */
  function Rounds(k: nat, d: Data): seq<DeviceStep> {
    if k == 0 then [] else [RxDma(d), RxWriteback, RxBump] + Rounds(k - 1, d)
  }

  /** What is under way is finished, then the receive ring is filled, then one frame is sent. */
  function Flood(d: Data): seq<DeviceStep> {
    ([RxWriteback, RxBump] + Rounds(RING, d)) + [TxWriteback, TxBump, TxTransmit]
  }

  /** Nothing that concerns transmission has changed. */
  ghost predicate SameTx(n: Nic, r: Nic) {
    && r.tx == n.tx && r.tdh == n.tdh && r.tdt == n.tdt && r.txCur == n.txCur && r.txUnit == n.txUnit
    && r.queued == n.queued && r.sent == n.sent && r.delivered == n.delivered && r.origin == n.origin
  }

  lemma Three(n: Nic, a: DeviceStep, b: DeviceStep, c: DeviceStep)
    requires Shape(n)
    ensures Devices(n, [a, b, c]) == Device(Device(Device(n, a), b), c)
  {
    hide Device;
    assert [a, b, c][1..] == [b, c] && [b, c][1..] == [c] && [c][1..] == [];
    assert Devices(Device(Device(n, a), b), [c]) == Device(Device(Device(n, a), b), c);
    assert Devices(Device(n, a), [b, c]) == Devices(Device(Device(n, a), b), [c]);
  }

  /** A round receives a frame if the ring has room, and nothing otherwise. */
  lemma Round(n: Nic, base: int, limit: int, cleared: int, d: Data)
    requires Reception(n, base, limit, cleared) && n.rxUnit.RxIdle?
    ensures Shape(n)
    ensures var r := Device(Device(Device(n, RxDma(d)), RxWriteback), RxBump);
            && Reception(r, base, limit, cleared) && r.rxUnit.RxIdle? && SameTx(n, r)
            && (|n.accepted| == limit ==> r == n)
            && (|n.accepted| < limit ==>
                  && |r.accepted| == |n.accepted| + 1 && r.arrived == n.arrived + [d]
                  && r.mem[Slot(|n.accepted|)][..|d|] == d)
  {
    hide Slot, RxDone, RxData, RxArrived;
    var a := Device(n, RxDma(d));
    DeviceKeepsReception(n, base, limit, cleared, RxDma(d));
    DeviceKeepsReception(a, base, limit, cleared, RxWriteback);
    DeviceKeepsReception(Device(a, RxWriteback), base, limit, cleared, RxBump);
    if |n.accepted| < limit {
      SlotsApart(|n.accepted|, limit);
    }
  }

  /** Enough rounds write the last buffer the device may fill. */
  lemma {:induction false} RoundsFill(n: Nic, base: int, limit: int, cleared: int, d: Data, k: nat)
    requires Reception(n, base, limit, cleared) && n.rxUnit.RxIdle?
    requires limit > 0
    ensures Shape(n)
    ensures var r := Devices(n, Rounds(k, d));
            && Reception(r, base, limit, cleared) && r.rxUnit.RxIdle? && SameTx(n, r)
            && |r.accepted| == (if |n.accepted| + k < limit then |n.accepted| + k else limit)
            && (|n.accepted| == limit ==> r == n)
            && (|n.accepted| < limit == |r.accepted| ==> r.mem[Slot(limit - 1)][..|d|] == d)
    decreases k
  {
    hide Slot, RxDone, RxData, RxArrived, Device;
    if k > 0 {
      Round(n, base, limit, cleared, d);
      var m := Device(Device(Device(n, RxDma(d)), RxWriteback), RxBump);
      DevicesAppend(n, [RxDma(d), RxWriteback, RxBump], Rounds(k - 1, d));
      Three(n, RxDma(d), RxWriteback, RxBump);
      RoundsFill(m, base, limit, cleared, d, k - 1);
    }
  }

  /** The transmitter finishes what it is doing and takes the next frame from where it lies now. */
  lemma NextSent(n: Nic, ahead: int)
    requires Shape(n) && TxRegs(n, ahead) && |n.sent| < |n.queued| <= |n.sent| + 2 && n.tx[Slot(|n.sent|)].buf < RING
    ensures var r := Devices(n, [TxWriteback, TxBump, TxTransmit]);
            |r.sent| == |n.sent| + 1 && r.sent[|n.sent|].buf == n.mem[n.tx[Slot(|n.sent|)].buf]
  {
    hide Slot, Next;
    Three(n, TxWriteback, TxBump, TxTransmit);
    if !n.txUnit.TxIdle? {
      SlotNext(|n.sent| - 1);
      SlotsApart(|n.sent| - 1, |n.sent|);
    }
    SlotsApart(|n.sent|, |n.queued|);
  }

  lemma UnderWayFinished(n: Nic, base: int, limit: int, cleared: int)
    requires Reception(n, base, limit, cleared)
    ensures Shape(n)
    ensures var r := Devices(n, [RxWriteback, RxBump]);
            && Reception(r, base, limit, cleared) && r.rxUnit.RxIdle? && SameTx(n, r)
            && |r.accepted| == |n.accepted| + if n.rxUnit.RxLoaded? then 1 else 0
  {
    hide Slot, Next, RxDone, RxData, RxArrived;
    DeviceKeepsReception(n, base, limit, cleared, RxWriteback);
    var m := Device(n, RxWriteback);
    DeviceKeepsReception(m, base, limit, cleared, RxBump);
    assert [RxWriteback, RxBump][1..] == [RxBump] && [RxBump][1..] == [];
    assert Devices(n, [RxWriteback, RxBump]) == Devices(m, [RxBump]) == Device(m, RxBump);
  }

  /** After a hasty tail write a flood overwrites the frame to be sent next. */
  lemma FloodSpoils(n: Nic, d: Data)
    requires RxInv(n, Tail) && TxInv(n, Tail) && Hasty(n)
    ensures Shape(n)
    ensures var r := Devices(DriverStep(n, Tail).0, Flood(d));
            |r.sent| == |n.sent| + 1 && r.sent[|n.sent|].buf[..|d|] == d
  {
    hide Slot, Next, RxDone, RxData, RxArrived, Device;
    var m, base, x := DriverStep(n, Tail).0, Base(n, Tail), |n.sent|;
    assert Intact(n, x) && n.origin[x] == base - 1;
    TailKeepsRx(n);
    var limit, cleared := base + RING, base + 1;
    UnderWayFinished(m, base, limit, cleared);
    var m1 := Devices(m, [RxWriteback, RxBump]);
    RoundsFill(m1, base, limit, cleared, d, RING);
    var m2 := Devices(m1, Rounds(RING, d));
    SlotWraps(base - 1);
    NextSent(m2, 0);
    DevicesAppend(m, [RxWriteback, RxBump], Rounds(RING, d));
    DevicesAppend(m, [RxWriteback, RxBump] + Rounds(RING, d), [TxWriteback, TxBump, TxTransmit]);
  }

  /** The wire of interface i still agrees with what is due. */
  ghost predicate InStep<S>(cb: Callback<S>, s: Sys<S>, t: Sys<S>, i: nat)
    requires i < |s.nics| == |t.nics|
  {
    t.nics[i].sent <= Due(cb, s, t.trace, i)
  }

  /** The exact condition. While no tail write was hasty so far, the driver may write the tail, and
      whatever its device does before the next statement the wire agrees with the sequential run,
      if and only if no frame of an earlier iteration is still unsent. */
  lemma SafeToGiveBack<S>(cb: Callback<S>, s: Sys<S>, labels: seq<Label>)
    requires Booted(s)
    ensures Sound(s)
    ensures var t := Exec(cb, s, labels); var n := t.nics[t.cur];
            t.pc == Tail && !n.late ==>
              ((forall steps :: InStep(cb, s, Exec(cb, Step(cb, t, Driver), Moves(t.cur, steps)), t.cur)) <==> !Hasty(n))
  {
    BootedInv(cb, s);
    InvSound(cb, s, s);
    var t := Exec(cb, s, labels);
    var n := t.nics[t.cur];
    if t.pc == Tail && !n.late {
      if Hasty(n) {
        var d: Data := if n.queued[|n.sent|].buf[0] == 0 then [1] else [0];
        HastyFails(cb, s, labels, d);
        assert !InStep(cb, s, Exec(cb, Step(cb, t, Driver), Moves(t.cur, Flood(d))), t.cur);
      } else {
        forall steps
          ensures InStep(cb, s, Exec(cb, Step(cb, t, Driver), Moves(t.cur, steps)), t.cur)
        {
          CalmHolds(cb, s, labels, steps);
        }
      }
    }
  }

  /** What a driver can read before it writes the tail: among the last two descriptors queued, those
      of earlier iterations are done. */
  predicate DoneBefore(n: Nic)
    requires Shape(n)
  {
    forall k | 0 <= k && |n.queued| - 2 <= k < |n.queued| && k < |n.origin| && n.origin[k] + 1 < |n.delivered| ::
      n.tx[Slot(k)].dd
  }

  lemma DoneNotHasty(n: Nic)
    requires NicInv(n, Tail) && !n.late
    ensures Shape(n) && (DoneBefore(n) ==> !Hasty(n))
  {
    hide Slot, RxInv;
    if Hasty(n) {
      assert Intact(n, |n.sent|);
    }
  }

  /** With that guard before every tail write expired waits would do no harm. */
  lemma GuardSuffices<S>(cb: Callback<S>, s: Sys<S>, labels: seq<Label>, steps: seq<DeviceStep>)
    requires Booted(s)
    ensures Sound(s)
    ensures var t := Exec(cb, s, labels); var n := t.nics[t.cur];
            t.pc == Tail && !n.late && DoneBefore(n) ==>
              && !Step(cb, t, Driver).nics[t.cur].late
              && InStep(cb, s, Exec(cb, Step(cb, t, Driver), Moves(t.cur, steps)), t.cur)
  {
    BootedInv(cb, s);
    InvSound(cb, s, s);
    hide Booted, Exec, Step, InStep, NicInv, Logged, DoneBefore, Hasty;
    var t := Exec(cb, s, labels);
    var n := t.nics[t.cur];
    if t.pc == Tail && !n.late && DoneBefore(n) {
      Reached(cb, s, labels, t.cur);
      DoneNotHasty(n);
      StaysInTime(cb, t);
      CalmHolds(cb, s, labels, steps);
    }
  }

  lemma StaysInTime<S>(cb: Callback<S>, s: Sys<S>)
    requires Sound(s) && s.pc == Tail
    ensures Step(cb, s, Driver).nics[s.cur].late == (s.nics[s.cur].late || Hasty(s.nics[s.cur]))
  {
    hide Hasty;
  }

  lemma CalmHolds<S>(cb: Callback<S>, s: Sys<S>, labels: seq<Label>, steps: seq<DeviceStep>)
    requires Booted(s) && Sound(s)
    ensures var t := Exec(cb, s, labels); var n := t.nics[t.cur];
            t.pc == Tail && !n.late && !Hasty(n) ==>
              InStep(cb, s, Exec(cb, Step(cb, t, Driver), Moves(t.cur, steps)), t.cur)
  {
    hide Booted;
    var t := Exec(cb, s, labels);
    var n := t.nics[t.cur];
    if t.pc == Tail && !n.late && !Hasty(n) {
      var after := Step(cb, t, Driver);
      assert !after.nics[t.cur].late;
      hide Step, Hasty;
      ExecMoves(cb, after, t.cur, steps);
      NotLate(after.nics[t.cur], steps);
      ExecAppend(cb, s, labels, [Driver]);
      assert Exec(cb, t, [Driver]) == after by { OneStep(cb, t, Driver); }
      ExecAppend(cb, s, labels + [Driver], Moves(t.cur, steps));
      SentAsDecided(cb, s, labels + [Driver] + Moves(t.cur, steps), t.cur);
    }
  }

  lemma OneStep<S>(cb: Callback<S>, s: Sys<S>, l: Label)
    requires Sound(s)
    ensures Exec(cb, s, [l]) == Step(cb, s, l)
  {
    hide Step;
    assert [l][1..] == [];
  }

  lemma {:induction false} NotLate(n: Nic, steps: seq<DeviceStep>)
    requires Shape(n)
    ensures Devices(n, steps).late == n.late
    decreases steps
  {
    if steps != [] {
      NotLate(Device(n, steps[0]), steps[1..]);
    }
  }

  /** Any frame that starts with another byte will do. */
  lemma HastyFails<S>(cb: Callback<S>, s: Sys<S>, labels: seq<Label>, d: Data)
    requires Booted(s) && Sound(s)
    ensures var t := Exec(cb, s, labels); var n := t.nics[t.cur];
            t.pc == Tail && !n.late && Hasty(n) && n.queued[|n.sent|].buf[0] != d[0] ==>
              !InStep(cb, s, Exec(cb, Step(cb, t, Driver), Moves(t.cur, Flood(d))), t.cur)
  {
    hide Booted, Exec, Flood, Intact;
    var t := Exec(cb, s, labels);
    var n, x := t.nics[t.cur], |t.nics[t.cur].sent|;
    if t.pc == Tail && !n.late && Hasty(n) && n.queued[x].buf[0] != d[0] {
      Reached(cb, s, labels, t.cur);
      hide RxInv;
      FloodSpoils(n, d);
      ExecMoves(cb, Step(cb, t, Driver), t.cur, Flood(d));
      var r := Devices(DriverStep(n, Tail).0, Flood(d));
      assert r.sent[x].buf[0] == r.sent[x].buf[..|d|][0] == d[0];
    }
  }

  // ----- the condition does occur

  /** The callback sends a frame with these bytes back when interface 0 receives it. */
  ghost predicate Replies<S(!new)>(cb: Callback<S>, d: Data) {
    forall app: S, f: Frame | Carries(f, d) :: cb(app, 0, f).send
  }

  /** Nothing has arrived yet. */
  ghost predicate Quiet(n: Nic) { Idle(n) && n.accepted == [] && n.rxUnit.RxIdle? }

  function Drivers(k: nat): seq<Label> {
    if k == 0 then [] else [Driver] + Drivers(k - 1)
  }

  /** From the loop test to the clearing of the descriptor, the wait given up at once. */
  function Attempt(): seq<Label> { [Driver, Driver] + Drivers(5) + [GiveUp, Driver] }

  /** How far the send routine is from its wait. */
  function Left(pc: Pc): nat
    requires Sending(pc)
  {
    if pc.TxAddr? then 5 else if pc.TxLength? then 4 else if pc.TxStatus? then 3 else if pc.TxAdvance? then 2 else 1
  }

  /** What the statements of one attempt leave alone. */
  ghost predicate Same(n: Nic, m: Nic) {
    m.arrived == n.arrived && m.accepted == n.accepted && m.sent == n.sent && m.late == n.late
  }

  lemma SendStatement<S>(cb: Callback<S>, s: Sys<S>)
    requires Sound(s) && Sending(s.pc) && |s.nics[s.cur].delivered| > 0
    ensures var t := Step(cb, s, Driver); var n, m := s.nics[s.cur], t.nics[s.cur];
            && t.cur == s.cur && Same(n, m) && m.delivered == n.delivered
            && (if s.pc.TxTail?
                then t.pc.TxWait? && |m.queued| == |n.queued| + 1 && m.origin == n.origin + [|n.delivered| - 1]
                else Sending(t.pc) && Left(t.pc) == Left(s.pc) - 1 && m.queued == n.queued && m.origin == n.origin)
  {
    hide Next, Fetched;
  }

  lemma {:induction false} SendQueues<S>(cb: Callback<S>, s: Sys<S>)
    requires Sound(s) && Sending(s.pc) && |s.nics[s.cur].delivered| > 0
    ensures var t := Exec(cb, s, Drivers(Left(s.pc)));
            var n, m := s.nics[s.cur], t.nics[s.cur];
            && t.pc.TxWait? && t.cur == s.cur && Same(n, m) && m.delivered == n.delivered
            && |m.queued| == |n.queued| + 1 && m.origin == n.origin + [|n.delivered| - 1]
    decreases Left(s.pc)
  {
    hide Step;
    SendStatement(cb, s);
    var t, k := Step(cb, s, Driver), Left(s.pc);
    assert Drivers(k)[0] == Driver && Drivers(k)[1..] == Drivers(k - 1);
    assert Exec(cb, s, Drivers(k)) == Exec(cb, t, Drivers(k - 1));
    if k > 1 {
      SendQueues(cb, t);
    } else {
      assert Exec(cb, t, Drivers(0)) == t;
    }
  }

  lemma TwoSteps<S>(cb: Callback<S>, s: Sys<S>, a: Label, b: Label)
    requires Sound(s)
    ensures Exec(cb, s, [a, b]) == Step(cb, Step(cb, s, a), b)
  {
    hide Step;
    assert [a, b][1..] == [b];
    OneStep(cb, Step(cb, s, a), b);
  }

  /** At the loop test the frame under the cursor is the next one that arrived. */
  lemma NextFrame(n: Nic)
    requires NicInv(n, Check) && |n.delivered| < |n.accepted|
    ensures Shape(n) && n.rx[n.rxCur].dd && |n.delivered| < |n.arrived| && Carries(Current(n), n.arrived[|n.delivered|])
  {
    hide Slot, TxInv, Carries;
    assert n.rx[Slot(|n.delivered|)].dd;
  }

  /** Interface 0 is at the loop test, and its next frame carries these bytes. */
  ghost predicate Ready<S>(s: Sys<S>, d: Data) {
    && Sound(s) && s.pc.Check? && s.cur == 0
    && var n := s.nics[0];
    && NicInv(n, Check) && |n.delivered| < |n.accepted| && |n.delivered| < |n.arrived| && n.arrived[|n.delivered|] == d
  }

  lemma CallbackReplies<S(!new)>(cb: Callback<S>, s: Sys<S>, d: Data)
    requires Ready(s, d) && Replies(cb, d)
    ensures var t := Step(cb, Step(cb, s, Driver), Driver); var n, m := s.nics[0], t.nics[0];
            && t.pc == TxAddr && t.cur == 0 && Same(n, m) && |m.delivered| == |n.delivered| + 1
            && m.queued == n.queued && m.origin == n.origin
  {
    NextFrame(s.nics[0]);
    hide NicInv, Carries;
    var t := Step(cb, s, Driver);
    assert t.pc.Callback? && t.cur == 0 && t.nics == s.nics;
    assert cb(t.app, 0, Current(t.nics[0])).send;
  }

  lemma WaitGivenUp<S>(cb: Callback<S>, s: Sys<S>)
    requires Sound(s) && s.pc.TxWait?
    ensures var t := Step(cb, Step(cb, s, GiveUp), Driver); var n, m := s.nics[s.cur], t.nics[s.cur];
            && t.pc == Tail && t.cur == s.cur && Same(n, m)
            && m.delivered == n.delivered && m.queued == n.queued && m.origin == n.origin
  {
    var t := Step(cb, s, GiveUp);
    assert t.pc == Clear && t.cur == s.cur && t.nics[t.cur] == s.nics[s.cur].(timedOut := true);
  }

  lemma TailWritten<S>(cb: Callback<S>, s: Sys<S>)
    requires Sound(s) && s.pc.Tail?
    ensures var t := Step(cb, Step(cb, s, Driver), Driver); var n, m := s.nics[s.cur], t.nics[s.cur];
            && t.pc == Check && t.cur == s.cur && m.sent == n.sent && m.accepted == n.accepted && m.arrived == n.arrived
            && m.late == (n.late || Hasty(n))
            && m.delivered == n.delivered && m.queued == n.queued && m.origin == n.origin
  {
    hide Next;
    var t := Step(cb, s, Driver);
    assert t.pc == Advance && t.cur == s.cur;
  }

  lemma AttemptQueues<S(!new)>(cb: Callback<S>, s: Sys<S>, d: Data)
    requires Ready(s, d) && Replies(cb, d)
    ensures var t := Exec(cb, s, Attempt()); var n, m := s.nics[0], t.nics[0];
            && t.pc == Tail && t.cur == 0 && Same(n, m) && |m.delivered| == |n.delivered| + 1
            && |m.queued| == |n.queued| + 1 && m.origin == n.origin + [|n.delivered|]
  {
    CallbackReplies(cb, s, d);
    hide Step, Exec, Ready, Replies;
    assert Sound(s) by { ReadySound(s, d); }
    TwoSteps(cb, s, Driver, Driver);
    var a := Exec(cb, s, [Driver, Driver]);
    SendQueues(cb, a);
    var b := Exec(cb, a, Drivers(5));
    ExecAppend(cb, s, [Driver, Driver], Drivers(5));
    WaitGivenUp(cb, b);
    TwoSteps(cb, b, GiveUp, Driver);
    ExecAppend(cb, s, [Driver, Driver] + Drivers(5), [GiveUp, Driver]);
  }

  lemma ReadySound<S>(s: Sys<S>, d: Data)
    requires Ready(s, d)
    ensures Sound(s)
  {
    hide NicInv;
  }

  /** The frame arrives twice, the wait for the first is given up, and the loop comes round. */
  function FirstHalf(d: Data): seq<Label> { Moves(0, Rounds(2, d)) + Attempt() + [Driver, Driver] }

  /** Then the wait for the second is given up, and the tail is about to be written. */
  function Impatience(d: Data): seq<Label> { FirstHalf(d) + Attempt() }

  lemma TwoRounds(n: Nic, d: Data)
    requires Quiet(n)
    ensures Shape(n) && !n.late
    ensures var r := Devices(n, Rounds(2, d));
            && r.delivered == [] && |r.accepted| == 2 && r.arrived == [d, d] && |r.sent| == |r.queued| == |r.origin|
  {
    hide RxDone, RxData, Intact, Device;
    var steps := [RxDma(d), RxWriteback, RxBump];
    Round(n, 0, RING - 1, 0, d);
    Three(n, RxDma(d), RxWriteback, RxBump);
    var m := Devices(n, steps);
    Round(m, 0, RING - 1, 0, d);
    Three(m, RxDma(d), RxWriteback, RxBump);
    DevicesAppend(n, steps, steps);
    assert Rounds(2, d) == steps + Rounds(1, d) && Rounds(1, d) == steps + Rounds(0, d) == steps;
  }

  lemma TwoArrive<S>(cb: Callback<S>, s: Sys<S>, d: Data)
    requires Booted(s) && Sound(s) && Quiet(s.nics[0])
    ensures var t := Exec(cb, s, Moves(0, Rounds(2, d))); var n := t.nics[0];
            && Ready(t, d) && n.delivered == [] && |n.accepted| == 2 && n.arrived == [d, d] && !n.late
            && |n.sent| == |n.queued| == |n.origin|
  {
    assert s.pc == Check && s.cur == 0;
    hide Booted, Quiet, NicInv, Logged, Step, Exec, Devices, Rounds, Moves;
    TwoRounds(s.nics[0], d);
    ExecMoves(cb, s, 0, Rounds(2, d));
    NotLate(s.nics[0], Rounds(2, d));
    Reached(cb, s, Moves(0, Rounds(2, d)), 0);
  }

  lemma FirstUnsent<S(!new)>(cb: Callback<S>, s: Sys<S>, d: Data)
    requires Booted(s) && Sound(s) && Quiet(s.nics[0]) && Replies(cb, d)
    ensures var t := Exec(cb, s, FirstHalf(d)); var n := t.nics[0];
            && Ready(t, d) && !n.late && |n.delivered| == 1
            && |n.queued| == |n.origin| == |n.sent| + 1 && n.origin[|n.sent|] == 0
  {
    hide Booted, Exec, Step, Attempt, Moves, Rounds, Replies, NicInv, Quiet;
    var l1 := Moves(0, Rounds(2, d));
    TwoArrive(cb, s, d);
    AttemptQueues(cb, Exec(cb, s, l1), d);
    var t := Exec(cb, Exec(cb, s, l1), Attempt());
    ExecAppend(cb, s, l1, Attempt());
    TailWritten(cb, t);
    TwoSteps(cb, t, Driver, Driver);
    ExecAppend(cb, s, l1 + Attempt(), [Driver, Driver]);
    Reached(cb, s, FirstHalf(d), 0);
  }

  /** Whatever the callback, if it sends some frame back, that frame twice and two expired waits
      lead to a hasty tail write. */
  lemma ImpatienceIsHasty<S(!new)>(cb: Callback<S>, s: Sys<S>, d: Data)
    requires Booted(s) && Sound(s) && Quiet(s.nics[0]) && Replies(cb, d)
    ensures var t := Exec(cb, s, Impatience(d));
            t.pc == Tail && t.cur == 0 && !t.nics[0].late && Hasty(t.nics[0])
  {
    hide Booted, Exec, FirstHalf, Attempt, Replies, Quiet;
    FirstUnsent(cb, s, d);
    AttemptQueues(cb, Exec(cb, s, FirstHalf(d)), d);
    ExecAppend(cb, s, FirstHalf(d), Attempt());
  }

  /** From there a flood with the same frame, but for its first byte, puts on the wire what the
      callback never decided to send there. */
  lemma ImpatienceSpoils<S(!new)>(cb: Callback<S>, s: Sys<S>, d: Data) returns (b: u8)
    requires Booted(s) && Sound(s) && Quiet(s.nics[0]) && Replies(cb, d)
    ensures !InStep(cb, s, Exec(cb, s, Impatience(d) + [Driver] + Moves(0, Flood(d[0 := b]))), 0)
  {
    hide Booted, Impatience, Flood, InStep, Replies, Quiet;
    ImpatienceIsHasty(cb, s, d);
    var t := Exec(cb, s, Impatience(d));
    var n := t.nics[0];
    b := if n.queued[|n.sent|].buf[0] == 0 then 1 else 0;
    HastyFails(cb, s, Impatience(d), d[0 := b]);
    hide Hasty;
    OneStep(cb, t, Driver);
    ExecAppend(cb, s, Impatience(d), [Driver]);
    ExecAppend(cb, s, Impatience(d) + [Driver], Moves(0, Flood(d[0 := b])));
  }
}
