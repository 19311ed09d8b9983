/** How the devices act while the driver waits for one of them, and how long it waits. */
module Waits {
  import opened Rings
  import opened Machine

  // ----- the steps of the devices

  /** Nothing of the driver's own has changed. */
  ghost predicate DeviceOnly<S>(s: Sys<S>, t: Sys<S>) {
    && t.cur == s.cur && t.pc == s.pc && t.trace == s.trace && t.app == s.app && |t.nics| == |s.nics|
    && forall i | 0 <= i < |s.nics| :: Moved(s.nics[i], t.nics[i])
  }

  /** What a device does to its interface, as far as the driver is concerned. */
  ghost predicate Moved(n: Nic, m: Nic) {
    m.delivered == n.delivered && n.accepted <= m.accepted && SameQueue(n, m) && m.timedOut == n.timedOut && DoneKept(n, m)
  }

  lemma PcStays<S>(s: Sys<S>, t: Sys<S>)
    requires DeviceOnly(s, t)
    ensures t.pc == s.pc && t.cur == s.cur
  {
  }

  /** Done bits of the transmit ring that were set are set. */
  ghost predicate DoneKept(n: Nic, m: Nic) {
    |n.tx| == |m.tx| && forall k | 0 <= k < |n.tx| && n.tx[k].dd :: m.tx[k].dd
  }

  /** Cursor, tail and queue of the transmit ring are as before. */
  ghost predicate SameQueue(n: Nic, m: Nic) {
    m.txCur == n.txCur && m.tdt == n.tdt && m.queued == n.queued && m.decided == n.decided
  }

  lemma DeviceMoves(n: Nic, step: DeviceStep)
    requires Shape(n)
    ensures Moved(n, Device(n, step)) && |Device(n, step).accepted| <= |n.accepted| + 1
  {
    hide Next, Fetched;
  }

  lemma DeviceWork<S>(cb: Callback<S>, s: Sys<S>, l: Label)
    requires Sound(s) && l.Dev?
    ensures var t := Step(cb, s, l);
            && DeviceOnly(s, t)
            && forall i | 0 <= i < |s.nics| :: |t.nics[i].accepted| <= |s.nics[i].accepted| + 1
  {
    hide Device, Moved;
    forall i | 0 <= i < |s.nics|
      ensures Moved(s.nics[i], s.nics[i])
    {
      MovedNot(s.nics[i]);
    }
    if l.i < |s.nics| {
      DeviceMoves(s.nics[l.i], l.step);
    }
  }

  /** The done bit that the driver waits for is set. */
  predicate BitSet<S>(s: Sys<S>) {
    s.cur < |s.nics| && s.pc.TxWait? && s.pc.slot < |s.nics[s.cur].tx| && s.nics[s.cur].tx[s.pc.slot].dd
  }

  /** What is left of a list. */
  predicate Suffix<T(==)>(rest: seq<T>, all: seq<T>) { |rest| <= |all| && rest == all[|all| - |rest|..] }

  function AfterSteps<S>(cb: Callback<S>, s: Sys<S>, steps: seq<(nat, DeviceStep)>): (t: Sys<S>)
    requires Sound(s)
    ensures Sound(t) && |t.nics| == |s.nics|
  {
    if steps == [] then s else
    var last := steps[|steps| - 1];
    Step(cb, AfterSteps(cb, s, steps[..|steps| - 1]), Dev(last.0, last.1))
  }

  lemma AfterNone<S>(cb: Callback<S>, s: Sys<S>)
    requires Sound(s)
    ensures AfterSteps(cb, s, []) == s
  {
  }

  lemma {:induction false} AfterAppend<S>(cb: Callback<S>, s: Sys<S>, a: seq<(nat, DeviceStep)>, b: seq<(nat, DeviceStep)>)
    requires Sound(s)
    ensures AfterSteps(cb, s, a + b) == AfterSteps(cb, AfterSteps(cb, s, a), b)
  {
    hide Step;
    if b == [] {
      assert a + b == a;
    } else {
      AfterAppend(cb, s, a, b[..|b| - 1]);
      assert (a + b)[..|a + b| - 1] == a + b[..|b| - 1];
    }
  }

  lemma {:induction false} AfterOnly<S>(cb: Callback<S>, s: Sys<S>, steps: seq<(nat, DeviceStep)>)
    requires Sound(s)
    ensures DeviceOnly(s, AfterSteps(cb, s, steps))
    ensures forall i | 0 <= i < |s.nics| :: |AfterSteps(cb, s, steps).nics[i].accepted| <= |s.nics[i].accepted| + |steps|
  {
    hide Step, Moved;
    forall i | 0 <= i < |s.nics|
      ensures Moved(s.nics[i], s.nics[i])
    {
      MovedNot(s.nics[i]);
    }
    if steps != [] {
      var before, last := steps[..|steps| - 1], steps[|steps| - 1];
      AfterOnly(cb, s, before);
      var m, t := AfterSteps(cb, s, before), AfterSteps(cb, s, steps);
      DeviceWork(cb, m, Dev(last.0, last.1));
      forall i | 0 <= i < |s.nics|
        ensures Moved(s.nics[i], t.nics[i])
      {
        MovedTwice(s.nics[i], m.nics[i], t.nics[i]);
      }
    }
  }

  lemma MovedNot(n: Nic)
    ensures Moved(n, n)
  {
  }

  lemma MovedTwice(n: Nic, m: Nic, r: Nic)
    requires Moved(n, m) && Moved(m, r)
    ensures Moved(n, r)
  {
  }

  /** A done bit that is set stays set. */
  lemma DoneStays<S>(cb: Callback<S>, s: Sys<S>, steps: seq<(nat, DeviceStep)>, j: nat, slot: nat)
    requires Sound(s) && j <= |steps| && slot < RING
    ensures s.cur < |s.nics|
    ensures AfterSteps(cb, s, steps[..j]).nics[s.cur].tx[slot].dd ==> AfterSteps(cb, s, steps).nics[s.cur].tx[slot].dd
  {
    hide Step, AfterSteps;
    AfterAppend(cb, s, steps[..j], steps[j..]);
    assert steps[..j] + steps[j..] == steps;
    AfterOnly(cb, AfterSteps(cb, s, steps[..j]), steps[j..]);
  }

  lemma AfterMore<S>(cb: Callback<S>, s: Sys<S>, steps: seq<(nat, DeviceStep)>, m: nat)
    requires Sound(s) && m < |steps|
    ensures AfterSteps(cb, s, steps[..m + 1]) == Step(cb, AfterSteps(cb, s, steps[..m]), Dev(steps[m].0, steps[m].1))
  {
    hide Step;
    assert steps[..m + 1][..m] == steps[..m];
  }

  /** The devices have taken the steps between the two lists. */
  ghost predicate Elapsed<S>(cb: Callback<S>, s: Sys<S>, all: seq<(nat, DeviceStep)>, t: Sys<S>, rest: seq<(nat, DeviceStep)>) {
    Sound(s) && Suffix(rest, all) && t == AfterSteps(cb, s, all[..|all| - |rest|])
  }

  lemma ElapsedNone<S>(cb: Callback<S>, s: Sys<S>, all: seq<(nat, DeviceStep)>)
    requires Sound(s)
    ensures Elapsed(cb, s, all, s, all)
  {
    assert all[..0] == [];
  }

  lemma ElapsedOne<S>(cb: Callback<S>, s: Sys<S>, all: seq<(nat, DeviceStep)>, t: Sys<S>, rest: seq<(nat, DeviceStep)>)
    requires Elapsed(cb, s, all, t, rest) && rest != []
    ensures Sound(t) && Elapsed(cb, s, all, Step(cb, t, Dev(rest[0].0, rest[0].1)), rest[1..])
  {
    hide Step, AfterSteps;
    AfterMore(cb, s, all, |all| - |rest|);
  }

  lemma ElapsedJoin<S>(cb: Callback<S>, s: Sys<S>, all: seq<(nat, DeviceStep)>, t: Sys<S>, left: seq<(nat, DeviceStep)>,
                       u: Sys<S>, rest: seq<(nat, DeviceStep)>)
    requires Elapsed(cb, s, all, t, left) && Elapsed(cb, t, left, u, rest)
    ensures |rest| <= |left| <= |all| && Elapsed(cb, s, all, u, rest)
  {
    hide AfterSteps;
    AfterAppend(cb, s, all[..|all| - |left|], left[..|left| - |rest|]);
    assert all[..|all| - |left|] + left[..|left| - |rest|] == all[..|all| - |rest|];
  }

  // ----- devices that serve every wait

  /** The transmitter of interface i finishes what it is doing, takes the next frame and reports it. */
  ghost predicate Serves(steps: seq<(nat, DeviceStep)>, i: nat) {
    exists x, y, z | 0 <= x < y < z < |steps| ::
      steps[x] == (i, TxBump) && steps[y] == (i, TxTransmit) && steps[z] == (i, TxWriteback)
  }

  /** Within each million consecutive steps every interface does so. */
  ghost predicate Prompt(steps: seq<(nat, DeviceStep)>, count: nat) {
    forall a: nat, i | a + 1_000_000 <= |steps| && 0 <= i < count :: ServesFrom(steps, a, i)
  }

  ghost predicate ServesFrom(steps: seq<(nat, DeviceStep)>, a: nat, i: nat) {
    a + 1_000_000 <= |steps| && Serves(steps[a..a + 1_000_000], i)
  }

  lemma PromptSuffix(all: seq<(nat, DeviceStep)>, rest: seq<(nat, DeviceStep)>, count: nat)
    requires Suffix(rest, all)
    ensures Prompt(all, count) ==> Prompt(rest, count)
  {
    if Prompt(all, count) {
      var m := |all| - |rest|;
      forall a: nat, i | a + 1_000_000 <= |rest| && 0 <= i < count
        ensures ServesFrom(rest, a, i)
      {
        assert ServesFrom(all, m + a, i);
        assert rest[a..a + 1_000_000] == all[m + a..m + a + 1_000_000];
      }
    }
  }

  /** How far the frame that is waited for has come. */
  function Phase(n: Nic): nat {
    if |n.sent| < |n.queued| then (if n.txUnit.TxPosted? then 0 else 1)
    else if n.txUnit.TxSent? then 2 else 3
  }

  /** While the driver waits it only gets further, and each of the three steps advances it. */
  lemma PhaseStep(n: Nic, pc: Pc, step: DeviceStep)
    requires NicInv(n, pc) && pc.TxWait? && !n.timedOut
    ensures Shape(n)
    ensures var r := Device(n, step);
            && NicInv(r, pc) && !r.timedOut && Phase(r) >= Phase(n)
            && (step.TxBump? ==> Phase(r) >= 1)
            && (step.TxTransmit? && Phase(n) >= 1 ==> Phase(r) >= 2)
            && (step.TxWriteback? && Phase(n) >= 2 ==> Phase(r) >= 3)
  {
    DeviceStepKeeps(n, pc, step);
    hide RxInv, Slot, Intact, Next, Fetched;
    SlotsApart(|n.sent|, |n.sent| + 1);
  }

  lemma {:induction false} PhaseGrows<S>(cb: Callback<S>, s: Sys<S>, steps: seq<(nat, DeviceStep)>)
    requires Sound(s) && s.pc.TxWait? && NicInv(s.nics[s.cur], s.pc) && !s.nics[s.cur].timedOut
    ensures var t := AfterSteps(cb, s, steps);
            && t.cur == s.cur && t.pc == s.pc && NicInv(t.nics[s.cur], s.pc) && !t.nics[s.cur].timedOut
            && Phase(t.nics[s.cur]) >= Phase(s.nics[s.cur])
  {
    hide NicInv, Device, Phase;
    if steps != [] {
      var before, last := steps[..|steps| - 1], steps[|steps| - 1];
      PhaseGrows(cb, s, before);
      PhaseStep(AfterSteps(cb, s, before).nics[s.cur], s.pc, last.1);
    }
  }

  lemma PhaseReached<S>(cb: Callback<S>, s: Sys<S>, steps: seq<(nat, DeviceStep)>, j: nat, least: nat)
    requires Sound(s) && s.pc.TxWait? && NicInv(s.nics[s.cur], s.pc) && !s.nics[s.cur].timedOut
    requires j < |steps| && steps[j].0 == s.cur
    requires Phase(AfterSteps(cb, s, steps[..j]).nics[s.cur]) >= least
    ensures var n := AfterSteps(cb, s, steps[..j + 1]).nics[s.cur];
            && (steps[j].1.TxBump? ==> Phase(n) >= 1)
            && (steps[j].1.TxTransmit? && least >= 1 ==> Phase(n) >= 2)
            && (steps[j].1.TxWriteback? && least >= 2 ==> Phase(n) >= 3)
  {
    hide NicInv, Device, Phase;
    PhaseGrows(cb, s, steps[..j]);
    assert steps[..j + 1][..j] == steps[..j];
    PhaseStep(AfterSteps(cb, s, steps[..j]).nics[s.cur], s.pc, steps[j].1);
  }

  lemma PhaseKept<S>(cb: Callback<S>, s: Sys<S>, steps: seq<(nat, DeviceStep)>, j: nat, k: nat)
    requires Sound(s) && s.pc.TxWait? && NicInv(s.nics[s.cur], s.pc) && !s.nics[s.cur].timedOut
    requires j <= k <= |steps|
    ensures Phase(AfterSteps(cb, s, steps[..k]).nics[s.cur]) >= Phase(AfterSteps(cb, s, steps[..j]).nics[s.cur])
  {
    hide NicInv, Phase, AfterSteps;
    PhaseGrows(cb, s, steps[..j]);
    AfterAppend(cb, s, steps[..j], steps[j..k]);
    assert steps[..j] + steps[j..k] == steps[..k];
    PhaseGrows(cb, AfterSteps(cb, s, steps[..j]), steps[j..k]);
  }

  /** Steps that serve the interface end its wait. */
  lemma ServedWait<S>(cb: Callback<S>, s: Sys<S>, steps: seq<(nat, DeviceStep)>)
    requires Sound(s) && s.pc.TxWait? && NicInv(s.nics[s.cur], s.pc) && !s.nics[s.cur].timedOut
    requires Serves(steps, s.cur)
    ensures AfterSteps(cb, s, steps).nics[s.cur].tx[s.pc.slot].dd
  {
    hide NicInv, Phase, AfterSteps;
    var i := s.cur;
    var x, y, z :| 0 <= x < y < z < |steps| && steps[x] == (i, TxBump) && steps[y] == (i, TxTransmit) && steps[z] == (i, TxWriteback);
    PhaseReached(cb, s, steps, x, 0);
    PhaseKept(cb, s, steps, x + 1, y);
    PhaseReached(cb, s, steps, y, 1);
    PhaseKept(cb, s, steps, y + 1, z);
    PhaseReached(cb, s, steps, z, 2);
    PhaseKept(cb, s, steps, z + 1, |steps|);
    assert steps[..|steps|] == steps;
    PhaseGrows(cb, s, steps);
    LastPhase(AfterSteps(cb, s, steps).nics[i], s.pc);
  }

  lemma LastPhase(n: Nic, pc: Pc)
    requires NicInv(n, pc) && pc.TxWait? && !n.timedOut && Phase(n) >= 3
    ensures Shape(n) && pc.slot < RING && n.tx[pc.slot].dd
  {
    hide RxInv, Slot, Intact;
  }

  /** A wait still unserved after a million steps was not promptly served. */
  lemma UnservedWait<S>(cb: Callback<S>, s: Sys<S>, steps: seq<(nat, DeviceStep)>, m: nat)
    requires Sound(s) && s.pc.TxWait? && NicInv(s.nics[s.cur], s.pc) && m <= |steps|
    ensures !s.nics[s.cur].timedOut && m >= 1_000_000 && Prompt(steps, |s.nics|) ==>
              AfterSteps(cb, s, steps[..m]).nics[s.cur].tx[s.pc.slot].dd
  {
    hide NicInv, AfterSteps, Serves;
    if !s.nics[s.cur].timedOut && m >= 1_000_000 && Prompt(steps, |s.nics|) {
      assert ServesFrom(steps, 0, s.cur);
      ServedWait(cb, s, steps[0..1_000_000]);
      assert steps[..m][..1_000_000] == steps[0..1_000_000];
      DoneStays(cb, s, steps[..m], 1_000_000, s.pc.slot);
    }
  }

  // ----- from one moment to another

  /** The shared state, the steps that the devices are still going to take, and how often a wait has
      found the done bit clear. */
  datatype Moment<S> = Moment(sys: Sys<S>, ahead: seq<(nat, DeviceStep)>, turns: nat)

  /** Nothing accepted is forgotten, and no more is accepted than the devices have taken steps. */
  ghost predicate Accepts(n: Nic, m: Nic, taken: int) {
    n.accepted <= m.accepted && |m.accepted| <= |n.accepted| + taken
  }

  /** Same interface, and nothing delivered. */
  ghost predicate Progress<S>(a: Moment<S>, b: Moment<S>) {
    && b.sys.cur == a.sys.cur && |b.sys.nics| == |a.sys.nics| && Suffix(b.ahead, a.ahead)
    && forall i | 0 <= i < |a.sys.nics| ::
         && b.sys.nics[i].delivered == a.sys.nics[i].delivered
         && Accepts(a.sys.nics[i], b.sys.nics[i], |a.ahead| - |b.ahead|)
  }

  /** The same, but that the current interface has delivered one frame. */
  ghost predicate Consumed<S>(a: Moment<S>, b: Moment<S>) {
    && b.sys.cur == a.sys.cur < |b.sys.nics| == |a.sys.nics| && Suffix(b.ahead, a.ahead)
    && forall i | 0 <= i < |a.sys.nics| ::
         && (if i == a.sys.cur then |b.sys.nics[i].delivered| == |a.sys.nics[i].delivered| + 1
             else b.sys.nics[i].delivered == a.sys.nics[i].delivered)
         && Accepts(a.sys.nics[i], b.sys.nics[i], |a.ahead| - |b.ahead|)
  }

  /** No wait has been put on record as expired. */
  ghost predicate SameFlags<S>(a: Moment<S>, b: Moment<S>) {
    && |b.sys.nics| == |a.sys.nics| && Suffix(b.ahead, a.ahead) && b.turns >= a.turns
    && forall i | 0 <= i < |a.sys.nics| :: b.sys.nics[i].timedOut == a.sys.nics[i].timedOut
  }

  /** A wait expires only after a million turns; and by then either the devices have nothing left to
      do, or they have taken a million steps more and do not serve every wait in time. */
  ghost predicate Patient<S>(a: Moment<S>, b: Moment<S>) {
    && b.turns >= a.turns && Suffix(b.ahead, a.ahead) && |b.sys.nics| == |a.sys.nics|
    && forall i | 0 <= i < |a.sys.nics| && b.sys.nics[i].timedOut != a.sys.nics[i].timedOut ::
         && b.turns >= a.turns + 1_000_000
         && (b.ahead == [] || (|a.ahead| >= |b.ahead| + 1_000_000 && !Prompt(a.ahead, |a.sys.nics|)))
  }

  /** How the wait for a frame ends: with its done bit set, or after a million turns with the bit
      clear, and only then is the wait on record as expired. If the bit is set after j more steps of
      the devices, it takes no more than j turns, so none if it was set before; and if that is within
      a million steps, it ends with the bit set. */
  ghost predicate Awaited<S>(cb: Callback<S>, a: Moment<S>, b: Moment<S>) {
    && Sound(a.sys) && a.sys.pc.TxWait? && b.sys.cur == a.sys.cur < |a.sys.nics| == |b.sys.nics|
    && var slot, o, n := a.sys.pc.slot, a.sys.nics[a.sys.cur], b.sys.nics[a.sys.cur];
    && slot < |o.tx| == |n.tx| && SameQueue(o, n)
    && n.timedOut == (o.timedOut || !n.tx[slot].dd)
    && a.turns <= b.turns <= a.turns + 1_000_000
    && (!n.tx[slot].dd ==> b.turns == a.turns + 1_000_000)
    && forall j | 0 <= j <= |a.ahead| && DoneAfter(cb, a, slot, j) ::
         b.turns <= a.turns + j && (j <= 1_000_000 ==> n.tx[slot].dd)
  }

  /** The done bit of the slot is set after so many steps of the devices. */
  ghost predicate DoneAfter<S>(cb: Callback<S>, a: Moment<S>, slot: nat, j: nat)
    requires Sound(a.sys) && j <= |a.ahead|
  {
    var t := AfterSteps(cb, a.sys, a.ahead[..j]);
    a.sys.cur < |t.nics| && slot < |t.nics[a.sys.cur].tx| && t.nics[a.sys.cur].tx[slot].dd
  }

  /** As long as the driver finds the bit clear, so many steps were not enough. */
  lemma NotDoneYet<S>(cb: Callback<S>, a: Moment<S>, t: Sys<S>, rest: seq<(nat, DeviceStep)>, j: nat)
    requires Elapsed(cb, a.sys, a.ahead, t, rest) && a.sys.pc.TxWait? && !BitSet(t)
    requires j <= |a.ahead| && DoneAfter(cb, a, a.sys.pc.slot, j)
    ensures |rest| <= |a.ahead| && j > |a.ahead| - |rest|
  {
    var m, slot := |a.ahead| - |rest|, a.sys.pc.slot;
    hide AfterSteps;
    AfterOnly(cb, a.sys, a.ahead[..m]);
    assert Shape(a.sys.nics[a.sys.cur]) && SlotInRing(PcOf(a.sys, a.sys.cur));
    assert Shape(t.nics[t.cur]);
    if j <= m {
      assert a.ahead[..j] == a.ahead[..m][..j];
      DoneStays(cb, a.sys, a.ahead[..m], j, slot);
    }
  }

  lemma ProgressJoin<S>(a: Moment<S>, b: Moment<S>, c: Moment<S>)
    requires Progress(a, b) && Progress(b, c)
    ensures Progress(a, c)
  {
  }

  lemma ConsumedThen<S>(a: Moment<S>, b: Moment<S>, c: Moment<S>)
    requires Consumed(a, b) && Progress(b, c)
    ensures Consumed(a, c)
  {
  }

  lemma FlagsJoin<S>(a: Moment<S>, b: Moment<S>, c: Moment<S>)
    requires SameFlags(a, b) && SameFlags(b, c)
    ensures SameFlags(a, c)
  {
  }

  lemma PatientSame<S>(a: Moment<S>, b: Moment<S>)
    requires SameFlags(a, b)
    ensures Patient(a, b)
  {
  }

  lemma PatientJoin<S>(a: Moment<S>, b: Moment<S>, c: Moment<S>)
    requires Patient(a, b) && Patient(b, c)
    ensures Patient(a, c)
  {
    hide Prompt;
    PromptSuffix(a.ahead, b.ahead, |a.sys.nics|);
  }

  /** What the devices do on their own. */
  lemma DevicesProgress<S>(cb: Callback<S>, a: Moment<S>, b: Moment<S>)
    requires Elapsed(cb, a.sys, a.ahead, b.sys, b.ahead) && b.turns >= a.turns
    ensures Progress(a, b) && SameFlags(a, b) && DeviceOnly(a.sys, b.sys)
  {
    AfterOnly(cb, a.sys, a.ahead[..|a.ahead| - |b.ahead|]);
    hide AfterSteps;
  }

  /** The first interfaces have handed over what they had accepted at the earlier moment, and no
      interface has lost any of it; and without steps of the devices nothing has been accepted. */
  ghost predicate Handed<S>(count: nat, a: Moment<S>, b: Moment<S>) {
    && |b.sys.nics| == |a.sys.nics| && Suffix(b.ahead, a.ahead)
    && forall i | 0 <= i < |a.sys.nics| ::
         && Accepts(a.sys.nics[i], b.sys.nics[i], |a.ahead| - |b.ahead|)
         && (i < count ==> a.sys.nics[i].accepted <= b.sys.nics[i].delivered)
  }

  lemma HandedNone<S>(a: Moment<S>)
    ensures Handed(0, a, a)
  {
  }

  lemma HandedKept<S>(count: nat, a: Moment<S>, b: Moment<S>, c: Moment<S>)
    requires Handed(count, a, b) && Consumed(b, c) && b.sys.cur == count
    ensures Handed(count, a, c)
  {
  }

  lemma HandedMore<S>(count: nat, a: Moment<S>, b: Moment<S>, c: Moment<S>)
    requires Handed(count, a, b) && count < |b.sys.nics| && b.sys.nics[count].delivered == b.sys.nics[count].accepted
    requires |c.sys.nics| == |b.sys.nics| && Suffix(c.ahead, b.ahead)
    requires forall i | 0 <= i < |b.sys.nics| ::
               && c.sys.nics[i].delivered == b.sys.nics[i].delivered
               && Accepts(b.sys.nics[i], c.sys.nics[i], |b.ahead| - |c.ahead|)
    ensures Handed(count + 1, a, c)
  {
  }
}
