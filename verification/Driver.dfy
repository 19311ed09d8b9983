/** The poll loop and the send routine as loops over the shared state, with the devices acting
    between any two of their statements. */
module Driver {
  import opened Rings
  import opened Machine
  import opened Waits

  const TIMEOUT := 1_000_000

  class E1000<S> {
    const cb: Callback<S>
    /** Shared memory, registers and driver variables. */
    var sys: Sys<S>
    /** The steps the devices are still going to take, in this order. */
    var pending: seq<(nat, DeviceStep)>
    /** How often a wait has found the done bit clear. */
    var turns: nat
    /** The state at the first poll, and the run since then. */
    ghost const boot: Sys<S>
    ghost var history: seq<Label>

    ghost predicate Valid()
      reads this
    {
      Booted(boot) && Sound(boot) && sys == Exec(cb, boot, history)
    }

    constructor (cb: Callback<S>, boot: Sys<S>, pending: seq<(nat, DeviceStep)>)
      requires Booted(boot)
      ensures Valid() && this.cb == cb && this.boot == boot && sys == boot && this.pending == pending && turns == 0
    {
      this.cb, this.boot, sys, this.pending, turns, history := cb, boot, boot, pending, 0, [];
      new;
      BootedInv(cb, boot);
      InvSound(cb, boot, boot);
    }

    ghost function Now(): Moment<S>
      reads this
    {
      Moment(sys, pending, turns)
    }

    /** An upper bound on the frames interface i can still hand over. */
    ghost function Work(i: nat): int
      requires i < |sys.nics|
      reads this
    {
      |pending| + |sys.nics[i].accepted| - |sys.nics[i].delivered|
    }

    ghost method Record(l: Label, before: Sys<S>)
      requires Booted(boot) && Sound(boot) && before == Exec(cb, boot, history) && sys == Step(cb, before, l)
      modifies this`history
      ensures Valid() && history == old(history) + [l]
    {
      ExecAppend(cb, boot, history, [l]);
      history := history + [l];
    }

    /** Any number of device steps, at least as many as asked for if there are so many. */
    method Interfere(least: nat)
      requires Valid()
      modifies this`sys, this`pending, this`history
      ensures Valid() && old(history) <= history
      ensures Elapsed(cb, old(sys), old(pending), sys, pending) && (|pending| + least <= |old(pending)| || pending == [])
    {
      var k :| 0 <= k <= |pending| && (k >= least || k == |pending|);
      SoundNow();
      hide Step, Exec, Booted, Sound, Elapsed;
      ElapsedNone(cb, sys, pending);
      while k > 0
        invariant 0 <= k <= |pending| <= |old(pending)| && Valid() && old(history) <= history
        invariant |pending| - k + least <= |old(pending)| || k == |pending|
        invariant Elapsed(cb, old(sys), old(pending), sys, pending)
      {
        var move := Dev(pending[0].0, pending[0].1);
        ElapsedOne(cb, old(sys), old(pending), sys, pending);
        ghost var before := sys;
        sys := Step(cb, sys, move);
        Record(move, before);
        pending := pending[1..];
        k := k - 1;
      }
    }

    lemma SoundNow()
      requires Valid()
      ensures Sound(sys)
    {
    }

    /** One statement of the driver, then the devices. */
    method Tick()
      requires Valid()
      modifies this`sys, this`pending, this`history
      ensures Valid() && old(history) <= history
      ensures var next := Step(cb, old(sys), Label.Driver);
              && DeviceOnly(next, sys)
              && Progress(Moment(next, old(pending), turns), Now()) && SameFlags(Moment(next, old(pending), turns), Now())
    {
      SoundNow();
      hide Step, Exec, Booted, Sound, AfterSteps, Progress, SameFlags;
      ghost var before := sys;
      sys := Step(cb, sys, Label.Driver);
      Record(Label.Driver, before);
      ghost var next := Now();
      Interfere(0);
      DevicesProgress(cb, next, Now());
    }

    /** A statement other than the loop test and the call of the callback. */
    method Statement()
      requires Valid() && !sys.pc.Check? && !sys.pc.Callback?
      modifies this`sys, this`pending, this`history
      ensures Valid() && old(history) <= history && Successor(old(sys.pc), sys.pc)
      ensures sys.pc == Step(cb, old(sys), Label.Driver).pc
      ensures Progress(old(Now()), Now()) && SameFlags(old(Now()), Now())
      ensures sys.cur == old(sys.cur) < |old(sys.nics)| == |sys.nics|
      ensures Writes(old(sys.pc), old(sys.nics[sys.cur]), sys.nics[sys.cur])
      ensures old(sys.pc).TxAdvance? ==> sys.pc == TxTail(old(sys.nics[sys.cur].txCur))
      ensures old(sys.pc).TxWait? ==> DoneKept(old(sys.nics[sys.cur]), sys.nics[sys.cur])
    {
      SoundNow();
      StatementStep(cb, sys);
      ghost var before, next := Now(), Moment(Step(cb, sys, Label.Driver), pending, turns);
      StatementProgress(before, next);
      hide Exec, Booted, Step, Writes, Progress, SameFlags;
      Tick();
      WritesThenDevices(before.sys.pc, before.sys, next.sys, sys);
      ProgressJoin(before, next, Now());
      FlagsJoin(before, next, Now());
    }

    /** `e1000_send_packet` from its first store to the end of the wait: one frame is queued, and
        the cursor and the tail register move on by one; the frame is the one decided on, unless a
        tail write was hasty before; and it is waited for: the routine returns with its done bit set,
        or after a million turns, and then the wait is on record as expired. */
    method Send()
      requires Valid() && sys.pc == TxAddr
      modifies this
      ensures Valid() && old(history) <= history && sys.pc == Clear
      ensures Progress(old(Now()), Now()) && Patient(old(Now()), Now())
      ensures sys.cur == old(sys.cur) < |old(sys.nics)| == |sys.nics|
      ensures var o, n := old(sys.nics[sys.cur]), sys.nics[sys.cur];
              && n.tdt == n.txCur == Next(o.txCur) && |n.queued| == |o.queued| + 1 && o.queued <= n.queued
              && n.decided == o.decided && (!n.late ==> n.queued == n.decided)
              && o.txCur < |n.tx| && n.timedOut == (o.timedOut || !n.tx[o.txCur].dd)
              && (!n.tx[o.txCur].dd ==> turns == old(turns) + 1_000_000)
    {
      hide Valid, Exec, Booted, Step, Progress, Patient, SameFlags;
      ghost var start := Now();
      PrepareFrame();
      ghost var ready := Now();
      CurrentFlag(start, ready);
      AwaitDone();
      AllQueued();
      ProgressJoin(start, ready, Now());
      PatientSame(start, ready);
      PatientJoin(start, ready, Now());
    }

    /** The stores of the send routine. */
    method PrepareFrame()
      requires Valid() && sys.pc == TxAddr
      modifies this`sys, this`pending, this`history
      ensures Valid() && old(history) <= history
      ensures Progress(old(Now()), Now()) && SameFlags(old(Now()), Now())
      ensures sys.cur == old(sys.cur) < |old(sys.nics)| == |sys.nics|
      ensures var o, n := old(sys.nics[sys.cur]), sys.nics[sys.cur];
              && sys.pc == TxWait(o.txCur)
              && n.tdt == n.txCur == Next(o.txCur) && |n.queued| == |o.queued| + 1 && o.queued <= n.queued
              && n.decided == o.decided
    {
      hide Valid, Exec, Booted, Step, Progress, SameFlags;
      ghost var start := Now();
      Statement();
      ghost var a := Now();
      Statement();
      ghost var b := Now();
      Joined(start, a, b);
      Statement();
      ghost var c := Now();
      Joined(start, b, c);
      Statement();
      ghost var d := Now();
      Joined(start, c, d);
      Statement();
      Joined(start, d, Now());
    }

    /** After the send routine everything decided is queued. */
    lemma AllQueued()
      requires Valid() && sys.pc == Clear
      ensures var n := sys.nics[sys.cur]; !n.late ==> n.queued == n.decided
    {
      Reached(cb, boot, history, sys.cur);
    }

    /** The loop test that succeeds, and the call of the callback. */
    method HandOver()
      requires Valid() && sys.pc.Check? && sys.nics[sys.cur].rx[sys.nics[sys.cur].rxCur].dd
      modifies this`sys, this`pending, this`history
      ensures Valid() && old(history) <= history && (sys.pc == TxAddr || sys.pc == Clear)
      ensures Consumed(old(Now()), Now()) && SameFlags(old(Now()), Now())
    {
      SoundNow();
      hide Exec, Booted, Step, Progress, SameFlags, Consumed;
      ghost var before := Now();
      CheckStep(cb, sys);
      ghost var next := Moment(Step(cb, sys, Label.Driver), pending, turns);
      CheckProgress(before, next);
      Tick();
      ghost var tested := Now();
      Joined(before, next, tested);
      CallbackStep(cb, sys);
      ghost var called := Moment(Step(cb, sys, Label.Driver), pending, turns);
      CallbackConsumes(before, tested, called);
      Tick();
      ConsumedThen(before, called, Now());
      FlagsJoin(before, called, Now());
    }

    /** Clears the descriptor, writes the tail and advances the cursor. */
    method GiveBack()
      requires Valid() && sys.pc == Clear
      modifies this`sys, this`pending, this`history
      ensures Valid() && old(history) <= history && sys.pc.Check?
      ensures Progress(old(Now()), Now()) && SameFlags(old(Now()), Now())
    {
      hide Valid, Exec, Booted, Step, Progress, SameFlags;
      ghost var start := Now();
      Statement();
      ghost var a := Now();
      Statement();
      ghost var b := Now();
      Joined(start, a, b);
      Statement();
      Joined(start, b, Now());
    }

    /** One iteration of the poll loop, from a set done bit to the advanced cursor. */
    method Consume()
      requires Valid() && sys.pc.Check? && sys.nics[sys.cur].rx[sys.nics[sys.cur].rxCur].dd
      modifies this
      ensures Valid() && old(history) <= history && sys.pc.Check?
      ensures Consumed(old(Now()), Now()) && Patient(old(Now()), Now())
    {
      ghost var start := Now();
      HandOver();
      hide Valid, Exec, Booted, Step, Progress, SameFlags, Consumed, Patient;
      ghost var handed := Now();
      PatientSame(start, handed);
      if sys.pc == TxAddr {
        Send();
        ConsumedThen(start, handed, Now());
        PatientJoin(start, handed, Now());
      }
      ghost var done := Now();
      GiveBack();
      ConsumedThen(start, done, Now());
      PatientSame(done, Now());
      PatientJoin(start, done, Now());
    }

    /** `e1000_poll`: terminates whatever the devices do, since they take finitely many steps; hands
        over everything that was accepted when it started, and when the devices are quiet leaves
        nothing; and as long as no wait has expired, everything decided on is on the wire. */
    method Poll()
      requires Valid() && sys.pc.Check? && sys.cur == 0
      modifies this
      ensures Valid() && old(history) <= history && sys.pc.Check? && sys.cur == 0 && |sys.nics| == |old(sys.nics)|
      ensures Patient(old(Now()), Now())
      ensures forall i | 0 <= i < |sys.nics| :: old(sys.nics[i].accepted) <= sys.nics[i].delivered
      ensures forall i | 0 <= i < |sys.nics| && !sys.nics[i].timedOut :: sys.nics[i].sent == sys.nics[i].decided
      ensures old(pending) == [] ==> forall i | 0 <= i < |sys.nics| ::
                sys.nics[i].delivered == sys.nics[i].accepted == old(sys.nics[i].accepted)
    {
      hide Exec, Booted, Step, NicInv, Logged, Patient, Handed, Progress, SameFlags, Consumed;
      ghost var start := Now();
      FlagsNone(start);
      PatientSame(start, start);
      HandedNone(start);
      SoundNow();
      var count := |sys.nics|;
      var idx := 0;
      while idx < count
        invariant Valid() && old(history) <= history && sys.pc.Check? && |sys.nics| == count && start == old(Now())
        invariant 0 <= idx <= count && sys.cur == if idx < count then idx else 0
        invariant Patient(start, Now()) && Handed(idx, start, Now())
      {
        while sys.nics[idx].rx[sys.nics[idx].rxCur].dd
          invariant Valid() && old(history) <= history && sys.pc.Check? && |sys.nics| == count && sys.cur == idx
          invariant Patient(start, Now()) && Handed(idx, start, Now())
          decreases Work(idx)
        {
          Drained();
          ghost var before := Now();
          Consume();
          PatientJoin(start, before, Now());
          HandedKept(idx, start, before, Now());
          LessWork(before, Now());
        }
        Drained();
        ghost var before := Now();
        CheckStep(cb, sys);
        ghost var next := Moment(Step(cb, sys, Label.Driver), pending, turns);
        Moves(before, next);
        Tick();
        FlagsJoin(before, next, Now());
        PatientSame(before, Now());
        PatientJoin(start, before, Now());
        MovedOn(idx, start, before, next, Now());
        PcStays(next.sys, sys);
        idx := idx + 1;
      }
      AllSent();
      AllHanded(start, Now());
      forall i | 0 <= i < count
        ensures sys.nics[i].delivered <= sys.nics[i].accepted
      {
        Reached(cb, boot, history, i);
        LoopHead(sys.nics[i]);
      }
    }

    lemma AllSent()
      requires Valid() && sys.pc.Check?
      ensures forall i | 0 <= i < |sys.nics| && !sys.nics[i].timedOut :: sys.nics[i].sent == sys.nics[i].decided
    {
      forall i | 0 <= i < |sys.nics| && !sys.nics[i].timedOut
        ensures sys.nics[i].sent == sys.nics[i].decided
      {
        Reached(cb, boot, history, i);
        WireSoFar(sys.nics[i], PcOf(sys, i));
      }
    }

    /** At the loop head a clear done bit means that nothing is left. */
    lemma Drained()
      requires Valid() && sys.pc.Check?
      ensures var n := sys.nics[sys.cur];
              && n.delivered <= n.accepted
              && (!n.rx[n.rxCur].dd ==> n.delivered == n.accepted)
    {
      Reached(cb, boot, history, sys.cur);
      LoopHead(sys.nics[sys.cur]);
    }

    /** The wait for the done bit with its counter. It ends with the bit set, at once if it was set
        before; or after a million turns with the bit clear, and then only is the wait on record as
        expired. In each turn the devices take at least one of their steps, so if one of the first
        million of them sets the bit the wait does not expire. */
    method AwaitDone()
      requires Valid() && sys.pc.TxWait?
      modifies this
      ensures Valid() && old(history) <= history && sys.pc == Clear
      ensures Progress(old(Now()), Now()) && Patient(old(Now()), Now())
      ensures Awaited(cb, old(Now()), Now())
    {
      SoundNow();
      hide Exec, Booted, Step, Elapsed, Patient, Progress, SameFlags, Sound, Awaited, BitSet, DoneAfter;
      ghost var start := Now();
      TakeTurns();
      ghost var waited := Now();
      DevicesProgress(cb, start, waited);
      PcStays(start.sys, sys);
      if BitSet(sys) {
        BitIsSet(cb, sys);
        Statement();
        Joined(start, waited, Now());
        PatientSame(start, Now());
        AwaitedWell(cb, start, waited, Now());
      } else {
        Reached(cb, boot, old(history), start.sys.cur);
        GiveUpStep(cb, sys);
        sys := Step(cb, sys, GiveUp);
        Record(GiveUp, waited.sys);
        AwaitedInVain(cb, start, waited, Now());
      }
    }

    /** The loop of the wait. */
    method TakeTurns()
      requires Valid() && sys.pc.TxWait?
      modifies this
      ensures Valid() && old(history) <= history && Elapsed(cb, old(sys), old(pending), sys, pending)
      ensures old(turns) <= turns <= old(turns) + 1_000_000
      ensures !BitSet(sys) ==>
                turns == old(turns) + 1_000_000 && (|old(pending)| >= |pending| + 1_000_000 || pending == [])
      ensures forall j | 0 <= j <= |old(pending)| && DoneAfter(cb, old(Now()), old(sys).pc.slot, j) :: turns <= old(turns) + j
    {
      SoundNow();
      hide Valid, Elapsed, Sound, BitSet, DoneAfter;
      ghost var start := Now();
      var timeout := TIMEOUT;
      ElapsedNone(cb, sys, pending);
      while !BitSet(sys) && timeout > 0
        invariant Valid() && old(history) <= history && 0 <= timeout <= TIMEOUT
        invariant Elapsed(cb, old(sys), old(pending), sys, pending)
        invariant turns == old(turns) + TIMEOUT - timeout && (|old(pending)| >= |pending| + TIMEOUT - timeout || pending == [])
        invariant forall j | 0 <= j <= |start.ahead| && DoneAfter(cb, start, start.sys.pc.slot, j) :: turns <= start.turns + j
        decreases timeout
      {
        ghost var before, left := sys, pending;
        forall j | 0 <= j <= |start.ahead| && DoneAfter(cb, start, start.sys.pc.slot, j)
          ensures turns + 1 <= start.turns + j
        {
          NotDoneYet(cb, start, sys, pending, j);
        }
        Interfere(1);
        ElapsedJoin(cb, old(sys), old(pending), before, left, sys, pending);
        turns := turns + 1;
        timeout := timeout - 1;
      }
    }
  }

  /** What the statements other than the call of the callback do to them. */
  ghost predicate Writes(pc: Pc, n: Nic, m: Nic) {
    if pc.TxAdvance? then m.txCur == Next(n.txCur) && SameQueue(n, m.(txCur := n.txCur))
    else if pc.TxTail? then
      m.tdt == m.txCur == n.txCur && m.decided == n.decided && |m.queued| == |n.queued| + 1 && n.queued <= m.queued
    else SameQueue(n, m)
  }

  lemma WritesThenDevices<S>(pc: Pc, s: Sys<S>, t: Sys<S>, u: Sys<S>)
    requires s.cur < |s.nics| == |t.nics| && t.cur == s.cur
    requires Writes(pc, s.nics[s.cur], t.nics[s.cur]) && DeviceOnly(t, u)
    ensures u.cur < |u.nics| && Writes(pc, s.nics[s.cur], u.nics[u.cur])
  {
    assert SameQueue(t.nics[s.cur], u.nics[s.cur]);
  }

  /** The statement that follows, for all but the loop test. */
  predicate Successor(pc: Pc, next: Pc) {
    match pc
    case Check => true
    case Callback => true
    case TxAddr => next == TxLength
    case TxLength => next == TxStatus
    case TxStatus => next == TxAdvance
    case TxAdvance => next.TxTail?
    case TxTail(slot) => next == TxWait(slot)
    case TxWait(_) => next == pc || next == Clear
    case Clear => next == Tail
    case Tail => next == Advance
    case Advance => next == Check
  }

  lemma StatementStep<S>(cb: Callback<S>, s: Sys<S>)
    requires Sound(s) && !s.pc.Check? && !s.pc.Callback?
    ensures var t := Step(cb, s, Label.Driver);
            && t.cur == s.cur && |t.nics| == |s.nics| && Successor(s.pc, t.pc)
            && Writes(s.pc, s.nics[s.cur], t.nics[s.cur]) && (s.pc.TxWait? ==> t.nics == s.nics)
            && (s.pc.TxAdvance? ==> t.pc == TxTail(s.nics[s.cur].txCur))
            && forall i | 0 <= i < |s.nics| ::
                 && t.nics[i].delivered == s.nics[i].delivered && t.nics[i].accepted == s.nics[i].accepted
                 && t.nics[i].timedOut == s.nics[i].timedOut
  {
  }

  lemma LoopHead(n: Nic)
    requires NicInv(n, Check)
    ensures n.delivered <= n.accepted && Shape(n)
    ensures !n.rx[n.rxCur].dd ==> n.delivered == n.accepted
  {
    hide TxInv, Slot, RxData, RxArrived;
    assert n.rx[Slot(|n.delivered|)].dd <==> |n.delivered| < |n.accepted|;
  }

  lemma CheckStep<S>(cb: Callback<S>, s: Sys<S>)
    requires Sound(s) && s.pc.Check?
    ensures var n, t := s.nics[s.cur], Step(cb, s, Label.Driver);
            && t.nics == s.nics
            && (n.rx[n.rxCur].dd ==> t.pc.Callback? && t.cur == s.cur)
            && (!n.rx[n.rxCur].dd ==> t.pc.Check? && t.cur == if s.cur + 1 < |s.nics| then s.cur + 1 else 0)
  {
  }

  lemma CallbackStep<S>(cb: Callback<S>, s: Sys<S>)
    requires Sound(s) && s.pc.Callback?
    ensures var t := Step(cb, s, Label.Driver);
            && (t.pc == TxAddr || t.pc == Clear) && t.cur == s.cur && |t.nics| == |s.nics|
            && forall i | 0 <= i < |s.nics| ::
                 && t.nics[i].accepted == s.nics[i].accepted && t.nics[i].timedOut == s.nics[i].timedOut
                 && |t.nics[i].delivered| == |s.nics[i].delivered| + (if i == s.cur then 1 else 0)
                 && (i != s.cur ==> t.nics[i].delivered == s.nics[i].delivered)
  {
  }

  lemma GiveUpStep<S>(cb: Callback<S>, s: Sys<S>)
    requires Sound(s) && s.pc.TxWait?
    ensures var t := Step(cb, s, GiveUp);
            && t.cur == s.cur && |t.nics| == |s.nics| && t.pc == Clear && SameQueue(s.nics[s.cur], t.nics[s.cur])
            && forall i | 0 <= i < |s.nics| ::
                 && t.nics[i].delivered == s.nics[i].delivered && t.nics[i].accepted == s.nics[i].accepted
                 && t.nics[i].tx == s.nics[i].tx
                 && t.nics[i].timedOut == (s.nics[i].timedOut || i == s.cur)
  {
  }

  // ----- the moments before and after a statement

  lemma Joined<S>(a: Moment<S>, b: Moment<S>, c: Moment<S>)
    requires Progress(a, b) && SameFlags(a, b) && Progress(b, c) && SameFlags(b, c)
    ensures Progress(a, c) && SameFlags(a, c)
  {
    hide Progress, SameFlags;
    ProgressJoin(a, b, c);
    FlagsJoin(a, b, c);
  }

  lemma StatementProgress<S>(a: Moment<S>, b: Moment<S>)
    requires b.ahead == a.ahead && b.turns == a.turns && b.sys.cur == a.sys.cur && |b.sys.nics| == |a.sys.nics|
    requires forall i | 0 <= i < |a.sys.nics| ::
               && b.sys.nics[i].delivered == a.sys.nics[i].delivered && b.sys.nics[i].accepted == a.sys.nics[i].accepted
               && b.sys.nics[i].timedOut == a.sys.nics[i].timedOut
    ensures Progress(a, b) && SameFlags(a, b)
  {
  }

  lemma CheckProgress<S>(a: Moment<S>, b: Moment<S>)
    requires b.ahead == a.ahead && b.turns == a.turns && b.sys.cur == a.sys.cur && b.sys.nics == a.sys.nics
    ensures Progress(a, b) && SameFlags(a, b)
  {
  }

  lemma CallbackConsumes<S>(a: Moment<S>, b: Moment<S>, c: Moment<S>)
    requires Progress(a, b) && SameFlags(a, b) && b.sys.cur < |b.sys.nics|
    requires c.ahead == b.ahead && c.turns == b.turns && c.sys.cur == b.sys.cur && |c.sys.nics| == |b.sys.nics|
    requires forall i | 0 <= i < |b.sys.nics| ::
               && c.sys.nics[i].accepted == b.sys.nics[i].accepted && c.sys.nics[i].timedOut == b.sys.nics[i].timedOut
               && |c.sys.nics[i].delivered| == |b.sys.nics[i].delivered| + (if i == b.sys.cur then 1 else 0)
               && (i != b.sys.cur ==> c.sys.nics[i].delivered == b.sys.nics[i].delivered)
    ensures Consumed(a, c) && SameFlags(a, c)
  {
  }

  lemma CurrentFlag<S>(a: Moment<S>, b: Moment<S>)
    ensures SameFlags(a, b) && a.sys.cur < |a.sys.nics| ==>
              |b.sys.nics| == |a.sys.nics| && b.sys.nics[a.sys.cur].timedOut == a.sys.nics[a.sys.cur].timedOut
  {
  }

  lemma CurrentMoved<S>(s: Sys<S>, t: Sys<S>)
    requires DeviceOnly(s, t) && s.cur < |s.nics|
    ensures t.cur == s.cur < |t.nics| == |s.nics| && Moved(s.nics[s.cur], t.nics[s.cur])
  {
  }

  lemma SlotShape<S>(s: Sys<S>)
    requires Sound(s)
    ensures s.cur < |s.nics| && (s.pc.TxWait? ==> s.pc.slot < |s.nics[s.cur].tx|)
  {
    assert Shape(s.nics[s.cur]) && SlotInRing(PcOf(s, s.cur));
  }

  lemma FlagsNone<S>(a: Moment<S>)
    ensures SameFlags(a, a)
  {
  }

  lemma LessWork<S>(a: Moment<S>, b: Moment<S>)
    requires Consumed(a, b)
    ensures var i := a.sys.cur;
            && i < |a.sys.nics| == |b.sys.nics| && b.sys.cur == i
            && |b.ahead| + |b.sys.nics[i].accepted| - |b.sys.nics[i].delivered|
               < |a.ahead| + |a.sys.nics[i].accepted| - |a.sys.nics[i].delivered|
  {
  }

  /** The loop test that fails changes no interface. */
  lemma Moves<S>(a: Moment<S>, b: Moment<S>)
    requires b.ahead == a.ahead && b.turns == a.turns && b.sys.nics == a.sys.nics
    ensures SameFlags(a, b)
  {
  }

  lemma MovedOn<S>(count: nat, a: Moment<S>, b: Moment<S>, c: Moment<S>, d: Moment<S>)
    requires Handed(count, a, b) && count < |b.sys.nics| && b.sys.nics[count].delivered == b.sys.nics[count].accepted
    requires c.ahead == b.ahead && c.sys.nics == b.sys.nics && Progress(c, d)
    ensures Handed(count + 1, a, d)
  {
    HandedMore(count, a, b, d);
  }

  lemma AllHanded<S>(a: Moment<S>, b: Moment<S>)
    requires Handed(|a.sys.nics|, a, b)
    ensures |a.sys.nics| == |b.sys.nics|
    ensures forall i | 0 <= i < |a.sys.nics| :: a.sys.nics[i].accepted <= b.sys.nics[i].delivered
    ensures a.ahead == [] ==> forall i | 0 <= i < |a.sys.nics| :: b.sys.nics[i].accepted == a.sys.nics[i].accepted
  {
  }

  // ----- how a wait ends

  lemma BitIsSet<S>(cb: Callback<S>, s: Sys<S>)
    requires Sound(s) && BitSet(s)
    ensures s.pc.TxWait? && Step(cb, s, Label.Driver).pc == Clear
  {
  }

  lemma AwaitedWell<S>(cb: Callback<S>, a: Moment<S>, b: Moment<S>, c: Moment<S>)
    requires Elapsed(cb, a.sys, a.ahead, b.sys, b.ahead) && a.sys.pc.TxWait? && BitSet(b.sys)
    requires SameFlags(a, c) && a.turns <= c.turns == b.turns <= a.turns + 1_000_000
    requires forall j | 0 <= j <= |a.ahead| && DoneAfter(cb, a, a.sys.pc.slot, j) :: b.turns <= a.turns + j
    requires c.sys.cur == b.sys.cur < |b.sys.nics| == |c.sys.nics|
    requires Writes(b.sys.pc, b.sys.nics[b.sys.cur], c.sys.nics[b.sys.cur]) && DoneKept(b.sys.nics[b.sys.cur], c.sys.nics[b.sys.cur])
    ensures Awaited(cb, a, c)
  {
    hide AfterSteps, Sound;
    AfterOnly(cb, a.sys, a.ahead[..|a.ahead| - |b.ahead|]);
    SlotShape(a.sys);
    assert Moved(a.sys.nics[a.sys.cur], b.sys.nics[a.sys.cur]);
  }

  lemma AwaitedInVain<S>(cb: Callback<S>, a: Moment<S>, b: Moment<S>, c: Moment<S>)
    requires Elapsed(cb, a.sys, a.ahead, b.sys, b.ahead) && a.sys.pc.TxWait? && !BitSet(b.sys)
    requires Progress(a, b) && SameFlags(a, b) && NicInv(a.sys.nics[a.sys.cur], a.sys.pc)
    requires |a.ahead| >= |b.ahead| + 1_000_000 || b.ahead == []
    requires c.ahead == b.ahead && c.turns == b.turns == a.turns + 1_000_000
    requires forall j | 0 <= j <= |a.ahead| && DoneAfter(cb, a, a.sys.pc.slot, j) :: b.turns <= a.turns + j
    requires b.sys.cur < |b.sys.nics| && c.sys == Step(cb, b.sys, GiveUp) && b.sys.pc == a.sys.pc
    ensures Progress(a, c) && Patient(a, c) && Awaited(cb, a, c)
  {
    hide AfterSteps, NicInv, Prompt, Step, Patient, Progress, SameFlags, Moved;
    AfterOnly(cb, a.sys, a.ahead[..|a.ahead| - |b.ahead|]);
    SlotShape(a.sys);
    SlotShape(b.sys);
    MovedQueue(a.sys.nics[a.sys.cur], b.sys.nics[a.sys.cur]);
    GiveUpStep(cb, b.sys);
    NeverDone(cb, a, b, a.sys.pc.slot);
    CurrentFlag(a, b);
    GaveUp(cb, a, b, c);
  }

  lemma MovedQueue(n: Nic, m: Nic)
    requires Moved(n, m)
    ensures SameQueue(n, m) && |n.tx| == |m.tx|
  {
  }

  /** The bit is clear after a million turns, so no step taken by then set it. */
  lemma NeverDone<S>(cb: Callback<S>, a: Moment<S>, b: Moment<S>, slot: nat)
    requires Sound(a.sys) && a.sys.pc == TxWait(slot) && slot < RING && a.sys.cur < |a.sys.nics|
    requires Elapsed(cb, a.sys, a.ahead, b.sys, b.ahead)
    requires |a.ahead| >= |b.ahead| + 1_000_000 || b.ahead == []
    requires !b.sys.nics[a.sys.cur].tx[slot].dd
    requires NicInv(a.sys.nics[a.sys.cur], a.sys.pc)
    ensures forall j | 0 <= j <= 1_000_000 && j <= |a.ahead| :: !AfterSteps(cb, a.sys, a.ahead[..j]).nics[a.sys.cur].tx[slot].dd
    ensures a.sys.nics[a.sys.cur].timedOut || b.ahead == []
            || (|a.ahead| >= |b.ahead| + 1_000_000 && !Prompt(a.ahead, |a.sys.nics|))
  {
    hide NicInv, AfterSteps;
    var m := |a.ahead| - |b.ahead|;
    forall j | 0 <= j <= 1_000_000 && j <= |a.ahead|
      ensures !AfterSteps(cb, a.sys, a.ahead[..j]).nics[a.sys.cur].tx[slot].dd
    {
      assert a.ahead[..j] == a.ahead[..m][..j];
      DoneStays(cb, a.sys, a.ahead[..m], j, slot);
    }
    UnservedWait(cb, a.sys, a.ahead, m);
  }

  lemma GaveUp<S>(cb: Callback<S>, a: Moment<S>, b: Moment<S>, c: Moment<S>)
    requires Progress(a, b) && SameFlags(a, b) && c.ahead == b.ahead && c.turns == b.turns == a.turns + 1_000_000
    requires a.sys.cur < |a.sys.nics| && c.sys.cur == a.sys.cur && |c.sys.nics| == |b.sys.nics|
    requires a.sys.nics[a.sys.cur].timedOut || b.ahead == []
             || (|a.ahead| >= |b.ahead| + 1_000_000 && !Prompt(a.ahead, |a.sys.nics|))
    requires forall i | 0 <= i < |b.sys.nics| ::
               && c.sys.nics[i].delivered == b.sys.nics[i].delivered && c.sys.nics[i].accepted == b.sys.nics[i].accepted
               && c.sys.nics[i].timedOut == (b.sys.nics[i].timedOut || i == b.sys.cur)
    ensures Progress(a, c) && Patient(a, c)
  {
    hide Prompt;
  }
}
