/** All interfaces together with the one driver that polls them, over arbitrary interleavings. */
module Machine {
  import opened Bytes
  import opened Rings

  /** What the callback does: from its own state, the interface and the frame, to a reaction. */
  type Callback<!S> = (S, nat, Frame) -> Reaction<S>

  /** The poll loop of `kmain`: `cur` is the interface being polled, `app` the state behind the
      callback, `trace` the frames handed to it so far. */
  datatype Sys<S> = Sys(nics: seq<Nic>, cur: nat, pc: Pc, app: S, trace: seq<(nat, Frame)>)

  /** Who moves next: the device of one interface, the driver, or the expiry of its wait. */
  datatype Label = Dev(i: nat, step: DeviceStep) | Driver | GiveUp

  /** The driver is at its loop head for every interface but the current one. */
  function PcOf<S>(s: Sys<S>, i: nat): Pc { if i == s.cur then s.pc else Check }

  ghost predicate Sound<S>(s: Sys<S>) {
    && s.cur < |s.nics|
    && forall i | 0 <= i < |s.nics| :: Shape(s.nics[i]) && SlotInRing(PcOf(s, i))
  }

  function Step<S>(cb: Callback<S>, s: Sys<S>, l: Label): (t: Sys<S>)
    requires Sound(s)
    ensures Sound(t) && |t.nics| == |s.nics|
  {
    match l
    case Dev(i, step) =>
      if i < |s.nics| then s.(nics := s.nics[i := Device(s.nics[i], step)]) else s
    case Driver =>
      var n := s.nics[s.cur];
      if s.pc.Callback? then Called(s, cb(s.app, s.cur, Current(n)))
      else if s.pc.Check? && !n.rx[n.rxCur].dd then s.(cur := (s.cur + 1) % |s.nics|)
      else s.(nics := s.nics[s.cur := DriverStep(n, s.pc).0], pc := DriverStep(n, s.pc).1)
    case GiveUp =>
      if s.pc.TxWait? then s.(nics := s.nics[s.cur := s.nics[s.cur].(timedOut := true)], pc := Clear) else s
  }

  function Called<S>(s: Sys<S>, r: Reaction<S>): (t: Sys<S>)
    requires Sound(s)
    ensures Sound(t) && |t.nics| == |s.nics|
  {
    var n := s.nics[s.cur];
    Sys(s.nics[s.cur := AfterCallback(n, r)], s.cur, if r.send then TxAddr else Clear, r.app,
        s.trace + [(s.cur, Current(n))])
  }

  // ----- the sequential reading of a trace

  /** The state behind the callback after it has been given the frames of the trace one by one. */
  function Replay<S>(cb: Callback<S>, start: S, trace: seq<(nat, Frame)>): S {
    if trace == [] then start else
    var last := trace[|trace| - 1];
    cb(Replay(cb, start, trace[..|trace| - 1]), last.0, last.1).app
  }

  /** The frames that interface i should transmit. */
  function Output<S>(cb: Callback<S>, start: S, trace: seq<(nat, Frame)>, i: nat): seq<Frame> {
    if trace == [] then [] else
    var before, last := trace[..|trace| - 1], trace[|trace| - 1];
    var r := cb(Replay(cb, start, before), last.0, last.1);
    Output(cb, start, before, i) + if last.0 == i && r.send then [Frame(r.buf, last.1.len)] else []
  }

  /** The frames of interface i. */
  function From(trace: seq<(nat, Frame)>, i: nat): seq<Frame> {
    if trace == [] then [] else
    var last := trace[|trace| - 1];
    From(trace[..|trace| - 1], i) + if last.0 == i then [last.1] else []
  }

  // ----- the invariant

  ghost predicate NicInv(n: Nic, pc: Pc) {
    RxInv(n, pc) && (n.late || TxInv(n, pc)) && (n.late ==> n.timedOut)
  }

  /** What interface i has to send since the start `s0`, after what it had sent before. */
  function Due<S>(cb: Callback<S>, s0: Sys<S>, trace: seq<(nat, Frame)>, i: nat): seq<Frame>
    requires i < |s0.nics|
  {
    s0.nics[i].decided + Output(cb, s0.app, trace, i)
  }

  ghost predicate Logged<S>(cb: Callback<S>, s0: Sys<S>, s: Sys<S>, i: nat)
    requires i < |s.nics| == |s0.nics|
  {
    s.nics[i].delivered == From(s.trace, i) && s.nics[i].decided == Due(cb, s0, s.trace, i)
  }

  ghost predicate Inv<S>(cb: Callback<S>, s0: Sys<S>, s: Sys<S>) {
    && s.cur < |s.nics| == |s0.nics|
    && s.app == Replay(cb, s0.app, s.trace)
    && (forall i | 0 <= i < |s.nics| :: NicInv(s.nics[i], PcOf(s, i)))
    && (forall i | 0 <= i < |s.nics| :: Logged(cb, s0, s, i))
  }

  lemma InvSound<S>(cb: Callback<S>, s0: Sys<S>, s: Sys<S>)
    requires Inv(cb, s0, s)
    ensures Sound(s)
  {
    hide Logged;
    forall i | 0 <= i < |s.nics|
      ensures Shape(s.nics[i]) && SlotInRing(PcOf(s, i))
    {
      assert NicInv(s.nics[i], PcOf(s, i));
    }
  }

  lemma DeviceStepKeeps(n: Nic, pc: Pc, step: DeviceStep)
    requires NicInv(n, pc)
    ensures Shape(n) && NicInv(Device(n, step), pc)
    ensures Device(n, step).delivered == n.delivered && Device(n, step).decided == n.decided
    ensures Device(n, step).late == n.late
  {
    hide RxInv, TxInv;
    DeviceKeepsRx(n, pc, step);
    if !n.late {
      DeviceKeepsTx(n, pc, step);
    }
  }

  lemma DriverStepKeeps(n: Nic, pc: Pc)
    requires NicInv(n, pc) && !pc.Callback?
    ensures Shape(n) && SlotInRing(pc) && NicInv(DriverStep(n, pc).0, DriverStep(n, pc).1)
    ensures DriverStep(n, pc).0.delivered == n.delivered && DriverStep(n, pc).0.decided == n.decided
  {
    hide Reception, TxInv, Hasty;
    DriverKeepsRx(n, pc);
    if !n.late {
      DriverKeepsTx(n, pc);
    }
  }

  lemma CallbackStepKeeps<S>(n: Nic, r: Reaction<S>)
    requires NicInv(n, Callback)
    ensures Shape(n) && NicInv(AfterCallback(n, r), if r.send then TxAddr else Clear)
  {
    hide RxInv, TxInv;
    CallbackKeepsRx(n, r);
    if !n.late {
      CallbackKeepsTx(n, r);
    }
  }

  /** The sequential reading after one more frame. */
  lemma TraceGrows<S>(cb: Callback<S>, start: S, trace: seq<(nat, Frame)>, dev: nat, f: Frame)
    ensures var r, more := cb(Replay(cb, start, trace), dev, f), trace + [(dev, f)];
            && Replay(cb, start, more) == r.app
            && forall i | 0 <= i ::
                 && From(more, i) == From(trace, i) + (if i == dev then [f] else [])
                 && Output(cb, start, more, i)
                    == Output(cb, start, trace, i) + if i == dev && r.send then [Frame(r.buf, f.len)] else []
  {
    var more := trace + [(dev, f)];
    assert more[..|more| - 1] == trace;
  }

  lemma CalledKeeps<S>(cb: Callback<S>, s0: Sys<S>, s: Sys<S>)
    requires Inv(cb, s0, s) && s.pc.Callback?
    ensures Sound(s) && Inv(cb, s0, Step(cb, s, Driver))
  {
    hide NicInv, Replay, Output, From;
    InvSound(cb, s0, s);
    var n := s.nics[s.cur];
    assert NicInv(n, PcOf(s, s.cur));
    var r := cb(s.app, s.cur, Current(n));
    CallbackStepKeeps(n, r);
    TraceGrows(cb, s0.app, s.trace, s.cur, Current(n));
    var t := Step(cb, s, Driver);
    forall i | 0 <= i < |t.nics|
      ensures NicInv(t.nics[i], PcOf(t, i)) && Logged(cb, s0, t, i)
    {
      assert NicInv(s.nics[i], PcOf(s, i)) && Logged(cb, s0, s, i);
    }
  }

  /** Replacing one interface, with the driver at another statement of it. */
  lemma NicReplaced<S>(cb: Callback<S>, s0: Sys<S>, s: Sys<S>, i: nat, n: Nic, pc: Pc)
    requires Inv(cb, s0, s) && i < |s.nics| && (pc == s.pc || i == s.cur)
    requires NicInv(n, if i == s.cur then pc else Check)
    requires n.delivered == s.nics[i].delivered && n.decided == s.nics[i].decided
    ensures Inv(cb, s0, s.(nics := s.nics[i := n], pc := pc))
  {
    hide NicInv;
    var t := s.(nics := s.nics[i := n], pc := pc);
    forall j | 0 <= j < |t.nics|
      ensures NicInv(t.nics[j], PcOf(t, j)) && Logged(cb, s0, t, j)
    {
      assert NicInv(s.nics[j], PcOf(s, j)) && Logged(cb, s0, s, j);
    }
  }

  lemma StepKeeps<S>(cb: Callback<S>, s0: Sys<S>, s: Sys<S>, l: Label)
    requires Inv(cb, s0, s)
    ensures Sound(s) && Inv(cb, s0, Step(cb, s, l))
  {
    InvSound(cb, s0, s);
    hide NicInv, Logged, Device, DriverStep;
    var t := Step(cb, s, l);
    assert NicInv(s.nics[s.cur], PcOf(s, s.cur));
    if l.Dev? && l.i < |s.nics| {
      assert NicInv(s.nics[l.i], PcOf(s, l.i));
      DeviceStepKeeps(s.nics[l.i], PcOf(s, l.i), l.step);
      NicReplaced(cb, s0, s, l.i, t.nics[l.i], s.pc);
    } else if l.Driver? && s.pc.Callback? {
      CalledKeeps(cb, s0, s);
    } else if l.Driver? {
      PolledKeeps(cb, s0, s);
    } else if l.GiveUp? && s.pc.TxWait? {
      GaveUpKeeps(s.nics[s.cur], s.pc);
      NicReplaced(cb, s0, s, s.cur, t.nics[s.cur], t.pc);
    }
  }

  lemma GaveUpKeeps(n: Nic, pc: Pc)
    requires NicInv(n, pc) && pc.TxWait?
    ensures NicInv(n.(timedOut := true), Clear)
  {
    hide RxInv, TxInv;
    GiveUpKeepsRx(n, pc);
    if !n.late {
      GiveUpKeepsTx(n, pc);
    }
  }

  lemma PolledKeeps<S>(cb: Callback<S>, s0: Sys<S>, s: Sys<S>)
    requires Inv(cb, s0, s) && !s.pc.Callback?
    ensures Sound(s) && Inv(cb, s0, Step(cb, s, Driver))
  {
    InvSound(cb, s0, s);
    hide NicInv, DriverStep;
    var n, t := s.nics[s.cur], Step(cb, s, Driver);
    assert NicInv(n, PcOf(s, s.cur));
    if s.pc.Check? && !n.rx[n.rxCur].dd {
      forall j | 0 <= j < |t.nics|
        ensures NicInv(t.nics[j], PcOf(t, j)) && Logged(cb, s0, t, j)
      {
        assert NicInv(s.nics[j], PcOf(s, j)) && Logged(cb, s0, s, j);
      }
    } else {
      DriverStepKeeps(n, s.pc);
      NicReplaced(cb, s0, s, s.cur, t.nics[s.cur], t.pc);
    }
  }

  // ----- whole runs

  /** An interface as `e1000_init` leaves it, after `k` sends of other memory that were waited for. */
  predicate Fresh(n: Nic, k: nat) {
    && |n.rx| == |n.mem| == |n.tx| == RING
    && (forall i | 0 <= i < RING :: !n.rx[i].dd && n.tx[i].dd)
    && n.rdh == 0 && n.rdt == RING - 1 && n.rxCur == 0 && n.rxUnit == RxIdle
    && n.tdh == n.tdt == n.txCur == k % RING && n.txUnit == TxIdle && !n.timedOut && !n.late
    && n.arrived == [] && n.accepted == n.delivered == []
    && n.decided == n.queued == n.sent && |n.sent| == |n.origin| == k
  }

  /** An interface before its first poll: frames may have arrived, and earlier sends are over. */
  ghost predicate Idle(n: Nic) { NicInv(n, Check) && !n.timedOut && n.delivered == [] }

  lemma FreshIdle(n: Nic, k: nat)
    requires Fresh(n, k)
    ensures Idle(n)
  {
  }

  /** The first poll of `kmain`. */
  ghost predicate Booted<S>(s: Sys<S>) {
    && 0 == s.cur < |s.nics| && s.pc == Check && s.trace == []
    && forall i | 0 <= i < |s.nics| :: Idle(s.nics[i])
  }

  /** The state after any sequence of labels, the first of which happens first. */
  function Exec<S>(cb: Callback<S>, s: Sys<S>, labels: seq<Label>): (t: Sys<S>)
    requires Sound(s)
    ensures Sound(t) && |t.nics| == |s.nics|
    decreases labels
  {
    if labels == [] then s else Exec(cb, Step(cb, s, labels[0]), labels[1..])
  }

  lemma {:induction false} ExecKeeps<S>(cb: Callback<S>, s0: Sys<S>, s: Sys<S>, labels: seq<Label>)
    requires Inv(cb, s0, s)
    ensures Sound(s) && Inv(cb, s0, Exec(cb, s, labels))
    decreases labels
  {
    InvSound(cb, s0, s);
    hide Inv, Step;
    if labels != [] {
      StepKeeps(cb, s0, s, labels[0]);
      ExecKeeps(cb, s0, Step(cb, s, labels[0]), labels[1..]);
    }
  }

  lemma {:induction false} ExecAppend<S>(cb: Callback<S>, s: Sys<S>, a: seq<Label>, b: seq<Label>)
    requires Sound(s)
    ensures Exec(cb, s, a + b) == Exec(cb, Exec(cb, s, a), b)
    decreases a
  {
    hide Step;
    if a == [] {
      assert a + b == b;
    } else {
      assert (a + b)[1..] == a[1..] + b;
      ExecAppend(cb, Step(cb, s, a[0]), a[1..], b);
    }
  }

  lemma BootedInv<S>(cb: Callback<S>, s: Sys<S>)
    requires Booted(s)
    ensures Inv(cb, s, s)
  {
    hide NicInv;
    forall i | 0 <= i < |s.nics|
      ensures NicInv(s.nics[i], PcOf(s, i)) && Logged(cb, s, s, i)
    {
      assert Idle(s.nics[i]);
    }
  }

  // ----- what every run guarantees

  /** The ring of interface i in the state reached by any run. */
  lemma Reached<S>(cb: Callback<S>, s: Sys<S>, labels: seq<Label>, i: nat)
    requires Booted(s) && i < |s.nics|
    ensures Sound(s)
    ensures var t := Exec(cb, s, labels);
            && NicInv(t.nics[i], PcOf(t, i)) && Logged(cb, s, t, i) && t.app == Replay(cb, s.app, t.trace)
  {
    BootedInv(cb, s);
    ExecKeeps(cb, s, s, labels);
    hide NicInv, Logged;
  }

  /** Exactly once and in order, whatever the interleaving and even if waits time out: the frames
      handed to the callback are the first accepted ones, each with the bytes that arrived and their
      number, at most 31 are pending, and the state behind the callback is that of a
      sequential run over them. */
  lemma DeliveredInOrder<S>(cb: Callback<S>, s: Sys<S>, labels: seq<Label>, i: nat)
    requires Booted(s) && i < |s.nics|
    ensures Sound(s)
    ensures var t := Exec(cb, s, labels); var n := t.nics[i];
            && n.delivered <= n.accepted && |n.accepted| <= |n.delivered| + RING - 1
            && |n.accepted| <= |n.arrived| && (forall k | 0 <= k < |n.delivered| :: Carries(n.delivered[k], n.arrived[k]))
            && n.delivered == From(t.trace, i)
            && t.app == Replay(cb, s.app, t.trace)
  {
    Reached(cb, s, labels, i);
    hide Exec, RxDone, RxData;
  }

  /** No frame is lost but for want of room: when the receive unit is free, one that fits a buffer
      is taken in unless 31 accepted frames have not been given back. */
  lemma LostWhenFull<S>(cb: Callback<S>, s: Sys<S>, labels: seq<Label>, i: nat, data: seq<u8>)
    requires Booted(s) && i < |s.nics| && |data| <= BUFFER
    ensures Sound(s)
    ensures var t := Exec(cb, s, labels); var n, pc := t.nics[i], PcOf(t, i);
            n.rxUnit.RxIdle? ==>
              && (n.rdh == n.rdt <==> |n.accepted| == Limit(n, pc))
              && (Device(n, RxDma(data)).arrived == n.arrived + if |n.accepted| < Limit(n, pc) then [data] else [])
              && (pc.Check? ==> Limit(n, pc) == |n.delivered| + RING - 1)
  {
    Reached(cb, s, labels, i);
    hide NicInv, Exec;
    RoomLeft(Exec(cb, s, labels).nics[i], PcOf(Exec(cb, s, labels), i));
  }

  lemma RoomLeft(n: Nic, pc: Pc)
    requires NicInv(n, pc)
    ensures Shape(n) && |n.accepted| <= Limit(n, pc)
    ensures n.rxUnit.RxIdle? ==> (n.rdh == n.rdt <==> |n.accepted| == Limit(n, pc))
  {
    hide Slot, RxDone, RxData, RxArrived, TxInv;
    if |n.accepted| < Limit(n, pc) {
      SlotsApart(|n.accepted|, Limit(n, pc));
    }
  }

  /** The k-th descriptor from the cursor, cyclically. */
  function Ahead(cursor: nat, k: nat): (r: nat)
    ensures r < RING
  {
    (cursor + k) % RING
  }

  /** Between iterations the tail is one behind the cursor, the done bits are set on exactly the
      pending descriptors, cyclically from the cursor, and the head is behind the last of them, or
      on it until the device has moved on. */
  lemma RingBetweenIterations<S>(cb: Callback<S>, s: Sys<S>, labels: seq<Label>, i: nat)
    requires Booted(s) && i < |s.nics|
    ensures Sound(s)
    ensures var t := Exec(cb, s, labels); var n := t.nics[i];
            PcOf(t, i).Check? ==>
              && n.rxCur == |n.delivered| % RING && n.rdt == Ahead(n.rxCur, RING - 1)
              && (forall k | 0 <= k < RING :: n.rx[Ahead(n.rxCur, k)].dd <==> k < |n.accepted| - |n.delivered|)
              && HeadBehind(n)
  {
    Reached(cb, s, labels, i);
    hide NicInv, Exec, Ahead, HeadBehind;
    var t := Exec(cb, s, labels);
    if PcOf(t, i).Check? {
      AtLoopHead(t.nics[i]);
    }
  }

  /** The head is behind the pending descriptors, or on the last of them until the device moves on. */
  predicate HeadBehind(n: Nic) {
    && |n.delivered| <= |n.accepted|
    && (if n.rxUnit.RxPosted? then Next(n.rdh) else n.rdh) == Ahead(n.rxCur, |n.accepted| - |n.delivered|)
  }

  lemma AtLoopHead(n: Nic)
    requires NicInv(n, Check)
    ensures Shape(n) && HeadBehind(n)
    ensures n.rxCur == |n.delivered| % RING && n.rdt == Ahead(n.rxCur, RING - 1)
    ensures forall k | 0 <= k < RING :: n.rx[Ahead(n.rxCur, k)].dd <==> k < |n.accepted| - |n.delivered|
  {
    hide RxData, RxArrived, TxInv, Ahead;
    var d := |n.delivered|;
    SlotOffset(d, RING - 1);
    SlotOffset(d, |n.accepted| - d);
    if n.rxUnit.RxPosted? {
      SlotNext(Head(n));
    }
    forall k | 0 <= k < RING
      ensures n.rx[Ahead(n.rxCur, k)].dd <==> k < |n.accepted| - d
    {
      SlotOffset(d, k);
      hide Slot;
      assert n.rx[Slot(d + k)].dd <==> d + k < |n.accepted|;
    }
  }

  lemma SlotOffset(d: nat, k: nat)
    ensures Ahead(Slot(d), k) == Slot(d + k)
  {
  }

  /** What the wire carries. As long as no tail write was hasty: in order and each once, the frames
      a sequential run of the callback decides to send, all but the last two at least. As long as
      no wait has expired: all but the one under way, and all at the loop head. */
  lemma SentAsDecided<S>(cb: Callback<S>, s: Sys<S>, labels: seq<Label>, i: nat)
    requires Booted(s) && i < |s.nics|
    ensures Sound(s)
    ensures var t := Exec(cb, s, labels); var n := t.nics[i]; var due := Due(cb, s, t.trace, i);
            && (!n.late ==> n.sent <= due && |due| <= |n.sent| + 2)
            && (!n.timedOut ==>
                  && n.sent <= due && |due| <= |n.sent| + 1
                  && (PcOf(t, i).Check? ==> n.sent == due && n.tdt == n.txCur == |n.sent| % RING))
  {
    Reached(cb, s, labels, i);
    hide NicInv, Exec;
    var t := Exec(cb, s, labels);
    WireSoFar(t.nics[i], PcOf(t, i));
  }

  lemma WireSoFar(n: Nic, pc: Pc)
    requires NicInv(n, pc)
    ensures !n.late ==> n.sent <= n.decided && |n.decided| <= |n.sent| + 2
    ensures !n.timedOut ==>
              && n.sent <= n.decided && |n.decided| <= |n.sent| + 1
              && (pc.Check? ==> n.sent == n.decided && n.tdt == n.txCur == |n.sent| % RING)
  {
    hide RxInv, Intact;
  }

  /** Zero copy, reception: no step of the device ever writes the buffer at the tail, which is the
      one given back last; and from the status check on none writes the buffer under the cursor. */
  lemma BufferOwned<S>(cb: Callback<S>, s: Sys<S>, labels: seq<Label>, i: nat, step: DeviceStep)
    requires Booted(s) && i < |s.nics|
    ensures Sound(s)
    ensures var t := Exec(cb, s, labels); var n, pc := t.nics[i], PcOf(t, i);
            && Device(n, step).mem[n.rdt] == n.mem[n.rdt]
            && (!pc.Check? ==> Device(n, step).mem[n.rxCur] == n.mem[n.rxCur])
  {
    Reached(cb, s, labels, i);
    hide NicInv, Exec;
    var t := Exec(cb, s, labels);
    BufferKept(t.nics[i], PcOf(t, i), step);
  }

  lemma BufferKept(n: Nic, pc: Pc, step: DeviceStep)
    requires NicInv(n, pc)
    ensures Shape(n)
    ensures Device(n, step).mem[n.rdt] == n.mem[n.rdt]
    ensures !pc.Check? ==> Device(n, step).mem[n.rxCur] == n.mem[n.rxCur]
  {
    hide RxDone, RxData, RxArrived, TxInv, Slot, Next;
    if n.rxUnit.RxIdle? && n.rdh != n.rdt {
      SlotsApart(|n.accepted|, Limit(n, pc));
      SlotWraps(Base(n, pc));
      if !pc.Check? && !pc.Advance? {
        SlotsApart(Base(n, pc), |n.accepted|);
      }
    }
  }

  /** Zero copy, transmission: as long as no tail write was hasty, every frame that is queued and
      unsent is still, byte for byte, where its descriptor points; and as long as no wait has
      expired, the transmitter is done with a buffer before its status is cleared. */
  lemma UnsentIntact<S>(cb: Callback<S>, s: Sys<S>, labels: seq<Label>, i: nat)
    requires Booted(s) && i < |s.nics|
    ensures Sound(s)
    ensures var t := Exec(cb, s, labels); var n, pc := t.nics[i], PcOf(t, i);
            && (!n.late ==> forall k | |n.sent| <= k < |n.queued| :: Fetched(n, Slot(k)) == n.queued[k])
            && (!n.timedOut && (pc.Clear? || pc.Tail?) ==> n.sent == n.queued == n.decided && !n.txUnit.TxSent?)
  {
    Reached(cb, s, labels, i);
    hide NicInv, Exec;
    var t := Exec(cb, s, labels);
    UnsentFetched(t.nics[i], PcOf(t, i));
  }

  lemma UnsentFetched(n: Nic, pc: Pc)
    requires NicInv(n, pc)
    ensures Shape(n)
    ensures !n.late ==> forall k | |n.sent| <= k < |n.queued| :: Fetched(n, Slot(k)) == n.queued[k]
    ensures !n.timedOut && (pc.Clear? || pc.Tail?) ==> n.sent == n.queued == n.decided && !n.txUnit.TxSent?
  {
    hide RxDone, RxData, RxArrived, Slot;
    if !n.late {
      forall k | |n.sent| <= k < |n.queued|
        ensures Fetched(n, Slot(k)) == n.queued[k]
      {
        assert Intact(n, k);
      }
    }
  }
}
