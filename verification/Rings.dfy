/** The E1000 descriptor rings as a protocol between the driver and the device. Every statement of
    the poll loop and of the send routine, and every memory or register write of the device, is a
    step of its own, and a run interleaves them in any order. The device follows sections 3.2.6
    and 3.4 of Intel's 8254x Software Developer's Manual: head equal to tail means that no
    descriptor is available to it. */
module Rings {
  import opened Bytes

  const RING := 32
  const BUFFER := 2048

  type Buffer = b: seq<u8> | |b| == BUFFER witness seq(BUFFER, _ => 0)

  /** A received frame: the whole buffer, and how much of it the device wrote. */
  datatype Frame = Frame(buf: Buffer, len: u16)

  datatype RxDesc = RxDesc(length: u16, dd: bool)
  datatype TxDesc = TxDesc(buf: nat, length: u16, dd: bool)

  /** What the receive unit is in the middle of: nothing, a frame whose bytes are in memory, or a
      descriptor written back whose head increment is outstanding. */
  datatype RxUnit = RxIdle | RxLoaded(length: u16) | RxPosted

  /** The same for the transmit unit: nothing, a frame put on the wire, or a descriptor written back. */
  datatype TxUnit = TxIdle | TxSent | TxPosted

  /** One interface: shared memory, registers, driver cursors, and the history of the run, which no
      step depends on. The receive descriptor k always points to buffer k; `other` is what lies at
      addresses outside the buffers. `origin[k]` says which delivered frame lent its buffer to the
      k-th queued one; `timedOut` records an expired wait, `late` a tail write that was `Hasty`. */
  datatype Nic = Nic(
    rx: seq<RxDesc>, mem: seq<Buffer>, other: Buffer, rdh: nat, rdt: nat, rxCur: nat, rxUnit: RxUnit,
    tx: seq<TxDesc>, tdh: nat, tdt: nat, txCur: nat, txUnit: TxUnit, len: u16,
    arrived: seq<seq<u8>>, accepted: seq<Frame>, delivered: seq<Frame>,
    decided: seq<Frame>, queued: seq<Frame>, origin: seq<nat>, sent: seq<Frame>, timedOut: bool, late: bool)

  /** The next statement of the driver. */
  datatype Pc =
    | Check | Callback
    | TxAddr | TxLength | TxStatus | TxAdvance | TxTail(slot: nat) | TxWait(slot: nat)
    | Clear | Tail | Advance

  predicate Shape(n: Nic) {
    && |n.rx| == |n.mem| == |n.tx| == RING
    && n.rdh < RING && n.rdt < RING && n.rxCur < RING && n.tdh < RING && n.tdt < RING && n.txCur < RING
  }

  predicate SlotInRing(pc: Pc) { pc.TxTail? || pc.TxWait? ==> pc.slot < RING }

  // ----- steps of the device

  datatype DeviceStep = RxDma(data: seq<u8>) | RxWriteback | RxBump | TxTransmit | TxWriteback | TxBump

  function Next(k: nat): (r: nat)
    ensures r < RING
  {
    (k + 1) % RING
  }

  /** A step that is not enabled changes nothing; a frame that finds no descriptor is lost. */
  function Device(n: Nic, step: DeviceStep): (r: Nic)
    requires Shape(n)
    ensures Shape(r)
  {
    match step
    case RxDma(data) => if n.rxUnit.RxIdle? && n.rdh != n.rdt && |data| <= BUFFER then Dma(n, data) else n
    case RxWriteback => if n.rxUnit.RxLoaded? then Writeback(n) else n
    case RxBump => if n.rxUnit.RxPosted? then n.(rdh := Next(n.rdh), rxUnit := RxIdle) else n
    case TxTransmit => if n.txUnit.TxIdle? && n.tdh != n.tdt then Emit(n) else n
    case TxWriteback => if n.txUnit.TxSent? then Done(n) else n
    case TxBump => if n.txUnit.TxPosted? then n.(tdh := Next(n.tdh), txUnit := TxIdle) else n
  }

  function Dma(n: Nic, data: seq<u8>): Nic
    requires Shape(n) && |data| <= BUFFER
  {
    n.(mem := n.mem[n.rdh := data + n.mem[n.rdh][|data|..]], rxUnit := RxLoaded(|data|), arrived := n.arrived + [data])
  }

  function Writeback(n: Nic): Nic
    requires Shape(n) && n.rxUnit.RxLoaded?
  {
    n.(rx := n.rx[n.rdh := RxDesc(n.rxUnit.length, true)], rxUnit := RxPosted,
       accepted := n.accepted + [Frame(n.mem[n.rdh], n.rxUnit.length)])
  }

  /** The frame a transmit descriptor points to. */
  function Fetched(n: Nic, k: nat): Frame
    requires Shape(n) && k < RING
  {
    Frame(if n.tx[k].buf < RING then n.mem[n.tx[k].buf] else n.other, n.tx[k].length)
  }

  function Emit(n: Nic): Nic
    requires Shape(n)
  {
    n.(sent := n.sent + [Fetched(n, n.tdh)], txUnit := TxSent)
  }

  function Done(n: Nic): Nic
    requires Shape(n)
  {
    n.(tx := n.tx[n.tdh := n.tx[n.tdh].(dd := true)], txUnit := TxPosted)
  }

  // ----- steps of the driver

  /** The callback sees the buffer and its length, and leaves a buffer and a decision to send it. */
  datatype Reaction<S> = Reaction(app: S, buf: Buffer, send: bool)

  /** All statements but the call of the callback. */
  function DriverStep(n: Nic, pc: Pc): (r: (Nic, Pc))
    requires Shape(n) && SlotInRing(pc) && !pc.Callback?
    ensures Shape(r.0) && SlotInRing(r.1)
  {
    match pc
    case Check => (n, if n.rx[n.rxCur].dd then Callback else Check)
    case TxAddr => (n.(tx := n.tx[n.txCur := n.tx[n.txCur].(buf := n.rxCur)]), TxLength)
    case TxLength => (n.(tx := n.tx[n.txCur := n.tx[n.txCur].(length := n.len)]), TxStatus)
    case TxStatus => (n.(tx := n.tx[n.txCur := n.tx[n.txCur].(dd := false)]), TxAdvance)
    case TxAdvance => (n.(txCur := Next(n.txCur)), TxTail(n.txCur))
    case TxTail(slot) =>
      (n.(tdt := n.txCur, queued := n.queued + [Fetched(n, slot)],
          origin := n.origin + [if |n.delivered| > 0 then |n.delivered| - 1 else 0]), TxWait(slot))
    case TxWait(slot) => (n, if n.tx[slot].dd then Clear else pc)
    case Clear => (n.(rx := n.rx[n.rxCur := n.rx[n.rxCur].(dd := false)]), Tail)
    case Tail => (n.(rdt := n.rxCur, late := n.late || Hasty(n)), Advance)
    case Advance => (n.(rxCur := Next(n.rxCur)), Check)
  }

  /** Some queued frame of an earlier iteration is still unsent. */
  predicate Hasty(n: Nic) {
    |n.sent| < |n.queued| && |n.sent| < |n.origin| && n.origin[|n.sent|] + 1 < |n.delivered|
  }

  function Current(n: Nic): Frame
    requires Shape(n)
  {
    Frame(n.mem[n.rxCur], n.rx[n.rxCur].length)
  }

  function AfterCallback<S>(n: Nic, r: Reaction<S>): Nic
    requires Shape(n)
  {
    var f := Current(n);
    n.(mem := n.mem[n.rxCur := r.buf], len := f.len, delivered := n.delivered + [f],
       decided := if r.send then n.decided + [Frame(r.buf, f.len)] else n.decided)
  }

  // ----- ring positions as counts

  function Slot(n: nat): (r: nat)
    ensures r < RING
  {
    n % RING
  }

  lemma SlotNext(n: nat)
    ensures Next(Slot(n)) == Slot(n + 1)
  {
  }

  lemma SlotsApart(a: nat, b: nat)
    requires a < b < a + RING
    ensures Slot(a) != Slot(b)
  {
  }

  lemma SlotWraps(a: nat)
    ensures Slot(a) == Slot(a + RING)
  {
  }

  /** The callback has run and its descriptor has not been passed yet. */
  predicate Holding(pc: Pc) { !pc.Check? && !pc.Callback? }

  /** How many descriptors the driver has passed. */
  function Base(n: Nic, pc: Pc): int { |n.delivered| - if Holding(pc) then 1 else 0 }

  /** Up to which count the device may fill: one descriptor always stays with the driver. */
  function Limit(n: Nic, pc: Pc): int { Base(n, pc) + RING - 1 + if pc.Advance? then 1 else 0 }

  /** The first descriptor whose done bit the driver has not cleared. */
  function Cleared(n: Nic, pc: Pc): int { Base(n, pc) + if pc.Tail? || pc.Advance? then 1 else 0 }

  function Head(n: Nic): int { |n.accepted| - if n.rxUnit.RxPosted? then 1 else 0 }

  /** The receive ring: registers and cursors are the counts modulo 32; the driver is 31 behind in
      giving descriptors back; done bits are set exactly on the accepted frames it has not
      cleared; and every frame not yet delivered is intact in its buffer. */
  ghost predicate RxInv(n: Nic, pc: Pc) {
    && SlotInRing(pc)
    && Reception(n, Base(n, pc), Limit(n, pc), Cleared(n, pc))
    && (pc.Callback? ==> |n.delivered| < |n.accepted|)
  }

  ghost predicate Reception(n: Nic, base: int, limit: int, cleared: int) {
    Shape(n) && RxCounts(n, base, limit, cleared) && RxDone(n, cleared) && RxData(n) && RxArrived(n)
  }

  ghost predicate RxCounts(n: Nic, base: int, limit: int, cleared: int) {
    && 0 <= base <= cleared <= |n.delivered| <= |n.accepted| <= limit < cleared + RING
    && 0 <= Head(n)
    && n.delivered <= n.accepted
    && (n.rxUnit.RxLoaded? ==> |n.accepted| < limit)
    && n.rxCur == Slot(base) && n.rdh == Slot(Head(n)) && n.rdt == Slot(limit)
  }

  ghost predicate RxDone(n: Nic, cleared: int) {
    && |n.rx| == RING && 0 <= cleared
    && forall k | cleared <= k < cleared + RING :: n.rx[Slot(k)].dd <==> k < |n.accepted|
  }

  ghost predicate RxData(n: Nic) {
    && |n.rx| == |n.mem| == RING
    && forall k | |n.delivered| <= k < |n.accepted| ::
         Frame(n.mem[Slot(k)], n.rx[Slot(k)].length) == n.accepted[k]
  }

  /** The frame starts with these bytes, and its length says so. */
  predicate Carries(f: Frame, data: seq<u8>) { |data| == f.len <= BUFFER && f.buf[..f.len] == data }

  /** Every accepted frame carries the bytes that arrived, the one being loaded included. */
  ghost predicate RxArrived(n: Nic) {
    && |n.arrived| == |n.accepted| + (if n.rxUnit.RxLoaded? then 1 else 0)
    && (forall k | 0 <= k < |n.accepted| :: Carries(n.accepted[k], n.arrived[k]))
    && |n.mem| == RING && n.rdh < RING
    && (n.rxUnit.RxLoaded? ==> Carries(Frame(n.mem[n.rdh], n.rxUnit.length), n.arrived[|n.accepted|]))
  }

  /** Between the callback and the tail write the frame to send is decided but not queued. */
  predicate Sending(pc: Pc) { pc.TxAddr? || pc.TxLength? || pc.TxStatus? || pc.TxAdvance? || pc.TxTail? }

  /** An unsent frame: its descriptor is intact, and its buffer still holds what was queued. */
  ghost predicate Intact(n: Nic, k: nat)
    requires Shape(n) && k < |n.queued| == |n.origin|
  {
    && n.tx[Slot(k)] == TxDesc(Slot(n.origin[k]), n.queued[k].len, false)
    && n.mem[Slot(n.origin[k])] == n.queued[k].buf
  }

  /** At most `room` frames are unsent; all are intact, and lie in the buffers of the frames
      delivered from `earliest` up to `latest`. */
  ghost predicate Unsent(n: Nic, room: int, earliest: int, latest: int) {
    && Shape(n) && |n.origin| == |n.queued| && n.sent <= n.queued
    && |n.queued| <= |n.sent| + room
    && (|n.queued| == |n.sent| + 2 ==> n.origin[|n.sent|] < n.origin[|n.sent| + 1])
    && forall k | |n.sent| <= k < |n.queued| :: Intact(n, k) && earliest <= n.origin[k] < latest
  }

  /** Two frames from the end of the send routine to the tail write, otherwise one. */
  function Room(pc: Pc): int { if pc.TxWait? || pc.Clear? || pc.Tail? then 2 else 1 }

  /** The previous frame, and after the tail write the current one. */
  function Earliest(n: Nic, pc: Pc): int { Base(n, pc) - 1 + if pc.Advance? then 1 else 0 }

  function Latest(n: Nic, pc: Pc): int { |n.delivered| - if Sending(pc) then 1 else 0 }

  /** As long as no wait has expired, only the current frame can be under way, and only while the
      driver waits for it. */
  ghost predicate Calm(n: Nic, waiting: bool) {
    |n.sent| < |n.queued| || n.txUnit.TxSent? ==>
      waiting && |n.queued| <= |n.sent| + 1 && !(|n.sent| < |n.queued| && n.txUnit.TxSent?)
  }

  /** The descriptor under construction, and the one waited for. */
  ghost predicate Filling(n: Nic, pc: Pc)
    requires Shape(n) && SlotInRing(pc)
  {
    && (pc.TxLength? || pc.TxStatus? || pc.TxAdvance? ==> n.tx[n.txCur].buf == n.rxCur)
    && (pc.TxStatus? || pc.TxAdvance? ==> n.tx[n.txCur].length == n.len)
    && (pc.TxAdvance? ==> !n.tx[n.txCur].dd)
    && (pc.TxTail? ==> pc.slot == Slot(|n.queued|) && n.tx[pc.slot] == TxDesc(n.rxCur, n.len, false))
    && (pc.TxWait? ==>
          && |n.queued| > 0 && pc.slot == Slot(|n.queued| - 1)
          && (n.tx[pc.slot].dd <==> |n.sent| == |n.queued| && !n.txUnit.TxSent?))
  }

  /** Registers and cursor are counts modulo 32. */
  ghost predicate TxRegs(n: Nic, ahead: int) {
    && Shape(n) && 0 <= ahead
    && (n.txUnit.TxIdle? || |n.sent| > 0)
    && n.tdt == Slot(|n.queued|)
    && n.txCur == Slot(|n.queued| + ahead)
    && n.tdh == Slot(if n.txUnit.TxIdle? then |n.sent| else |n.sent| - 1)
    && (n.txUnit.TxSent? ==> !n.tx[n.tdh].dd)
  }

  /** The transmit ring while no tail write was hasty: what is queued is what was decided, and the
      unsent frames are intact. */
  ghost predicate TxInv(n: Nic, pc: Pc) {
    && SlotInRing(pc)
    && TxRegs(n, if pc.TxTail? then 1 else 0)
    && n.decided == (if Sending(pc) then n.queued + [Frame(n.mem[n.rxCur], n.len)] else n.queued)
    && Unsent(n, Room(pc), Earliest(n, pc), Latest(n, pc)) && Filling(n, pc)
    && (!n.timedOut ==> Calm(n, pc.TxWait?))
  }

  // ----- every step of the device keeps the invariants of its interface

  lemma DmaKeepsRx(n: Nic, base: int, limit: int, cleared: int, data: seq<u8>)
    requires Reception(n, base, limit, cleared) && n.rxUnit.RxIdle? && n.rdh != n.rdt && |data| <= BUFFER
    ensures Reception(Dma(n, data), base, limit, cleared)
  {
    hide Slot;
    var a := |n.accepted|;
    forall k | |n.delivered| <= k < a
      ensures Slot(k) != Slot(a)
    {
      SlotsApart(k, a);
    }
  }

  lemma WritebackKeepsRx(n: Nic, base: int, limit: int, cleared: int)
    requires Reception(n, base, limit, cleared) && n.rxUnit.RxLoaded?
    ensures Reception(Writeback(n), base, limit, cleared)
  {
    hide Slot;
    var a := |n.accepted|;
    forall k | cleared <= k < cleared + RING && k != a
      ensures Slot(k) != Slot(a)
    {
      SlotsApart(if k < a then k else a, if k < a then a else k);
    }
  }

  lemma BumpKeepsRx(n: Nic, base: int, limit: int, cleared: int)
    requires Reception(n, base, limit, cleared) && n.rxUnit.RxPosted?
    ensures Reception(n.(rdh := Next(n.rdh), rxUnit := RxIdle), base, limit, cleared)
  {
    hide Slot, Next;
    SlotNext(Head(n));
  }

  /** Reception depends on nothing that transmission changes. */
  lemma SameReception(n: Nic, m: Nic, base: int, limit: int, cleared: int)
    requires Reception(n, base, limit, cleared) && Shape(m)
    requires m.rx == n.rx && m.mem == n.mem && m.rdh == n.rdh && m.rdt == n.rdt && m.rxCur == n.rxCur
    requires m.rxUnit == n.rxUnit && m.arrived == n.arrived && m.accepted == n.accepted && m.delivered == n.delivered
    ensures Reception(m, base, limit, cleared)
  {
    hide Slot;
  }

  lemma DeviceKeepsReception(n: Nic, base: int, limit: int, cleared: int, step: DeviceStep)
    requires Reception(n, base, limit, cleared)
    ensures Shape(n) && Reception(Device(n, step), base, limit, cleared)
    ensures Device(n, step).delivered == n.delivered && n.accepted <= Device(n, step).accepted
  {
    hide RxCounts, RxDone, RxData, RxArrived, Slot, Next;
    if Device(n, step) != n {
      match step
      case RxDma(data) => DmaKeepsRx(n, base, limit, cleared, data);
      case RxWriteback => WritebackKeepsRx(n, base, limit, cleared);
      case RxBump => BumpKeepsRx(n, base, limit, cleared);
      case _ => SameReception(n, Device(n, step), base, limit, cleared);
    }
  }

  lemma DeviceKeepsRx(n: Nic, pc: Pc, step: DeviceStep)
    requires RxInv(n, pc)
    ensures Shape(n) && RxInv(Device(n, step), pc)
  {
    hide Reception, Device;
    DeviceKeepsReception(n, Base(n, pc), Limit(n, pc), Cleared(n, pc), step);
  }

  /** Unsent frames stay intact when their descriptors and buffers do. */
  lemma UnsentKept(n: Nic, m: Nic, room: int, earliest: int, latest: int)
    requires Unsent(n, room, earliest, latest) && Shape(m)
    requires m.sent == n.sent && m.queued == n.queued && m.origin == n.origin
    requires forall k | |n.sent| <= k < |n.queued| ::
               m.tx[Slot(k)] == n.tx[Slot(k)] && m.mem[Slot(n.origin[k])] == n.mem[Slot(n.origin[k])]
    ensures Unsent(m, room, earliest, latest)
  {
    hide Slot;
    forall k | |m.sent| <= k < |m.queued|
      ensures Intact(m, k)
    {
      assert Intact(n, k);
    }
  }

  lemma FillingSame(n: Nic, m: Nic, pc: Pc)
    requires Shape(n) && Shape(m) && SlotInRing(pc) && Filling(n, pc)
    requires m.tx == n.tx && m.txCur == n.txCur && m.rxCur == n.rxCur && m.len == n.len
    requires m.queued == n.queued && m.sent == n.sent && m.txUnit.TxSent? == n.txUnit.TxSent?
    ensures Filling(m, pc)
  {
    hide Slot;
  }

  /** The buffers of unsent frames are not free for reception. */
  lemma UnsentApart(n: Nic, pc: Pc)
    requires RxInv(n, pc) && n.rxUnit.RxIdle? && n.rdh != n.rdt
    requires Unsent(n, Room(pc), Earliest(n, pc), Latest(n, pc))
    ensures |n.origin| == |n.queued|
    ensures forall k | |n.sent| <= k < |n.queued| :: Slot(n.origin[k]) != n.rdh
  {
    hide Slot, Shape, RxDone, RxData, RxArrived, Intact;
    forall k | |n.sent| <= k < |n.queued|
      ensures Slot(n.origin[k]) != n.rdh
    {
      SlotsApart(n.origin[k], |n.accepted|);
    }
  }

  /** Nor is the one under the cursor while the driver holds it. */
  lemma CursorApart(n: Nic, pc: Pc)
    requires RxInv(n, pc) && n.rxUnit.RxIdle? && n.rdh != n.rdt && Sending(pc)
    ensures n.rxCur != n.rdh
  {
    hide Slot, Shape, RxDone, RxData, RxArrived;
    SlotsApart(Base(n, pc), |n.accepted|);
  }

  lemma DmaKeepsTx(n: Nic, pc: Pc, data: seq<u8>)
    requires RxInv(n, pc) && TxInv(n, pc) && n.rxUnit.RxIdle? && n.rdh != n.rdt && |data| <= BUFFER
    ensures TxInv(Dma(n, data), pc)
  {
    hide RxInv, Slot, Filling, Unsent;
    var r := Dma(n, data);
    if Sending(pc) {
      CursorApart(n, pc);
    }
    UnsentApart(n, pc);
    FillingSame(n, r, pc);
    UnsentKept(n, r, Room(pc), Earliest(n, pc), Latest(n, pc));
  }

  lemma EmitKeepsUnsent(n: Nic, room: int, ahead: int, earliest: int, latest: int)
    requires Unsent(n, room, earliest, latest) && TxRegs(n, ahead) && n.txUnit.TxIdle? && n.tdh != n.tdt && room <= 2
    ensures Unsent(Emit(n), room, earliest, latest) && TxRegs(Emit(n), ahead)
  {
    hide Slot;
    var r := Emit(n);
    assert Intact(n, |n.sent|);
    forall k | |r.sent| <= k < |r.queued|
      ensures Intact(r, k)
    {
      assert Intact(n, k);
    }
  }

  lemma EmitKeepsTx(n: Nic, pc: Pc)
    requires TxInv(n, pc) && n.txUnit.TxIdle? && n.tdh != n.tdt
    ensures TxInv(Emit(n), pc)
  {
    hide Slot, Fetched;
    EmitKeepsUnsent(n, Room(pc), if pc.TxTail? then 1 else 0, Earliest(n, pc), Latest(n, pc));
    hide Intact;
  }

  lemma DoneKeepsTx(n: Nic, pc: Pc)
    requires TxInv(n, pc) && n.txUnit.TxSent?
    ensures TxInv(Done(n), pc)
  {
    hide Slot, Intact;
    var r, w := Done(n), |n.sent| - 1;
    forall k | w < k <= |n.queued|
      ensures Slot(w) != Slot(k)
    {
      SlotsApart(w, k);
    }
    assert Filling(r, pc) by { DoneFills(n, pc); }
    hide Unsent, Filling;
    UnsentKept(n, r, Room(pc), Earliest(n, pc), Latest(n, pc));
  }

  lemma DoneFills(n: Nic, pc: Pc)
    requires TxInv(n, pc) && n.txUnit.TxSent?
    ensures Filling(Done(n), pc)
  {
    hide Slot, Intact;
    var w := |n.sent| - 1;
    SlotsApart(w, |n.queued|);
    if w < |n.queued| - 1 {
      SlotsApart(w, |n.queued| - 1);
    }
  }

  /** Transmission depends on nothing that the other reception steps change. */
  lemma SameTransmission(n: Nic, m: Nic, pc: Pc)
    requires TxInv(n, pc) && Shape(m)
    requires m.tx == n.tx && m.mem == n.mem && m.tdh == n.tdh && m.tdt == n.tdt && m.txCur == n.txCur && m.rxCur == n.rxCur
    requires m.txUnit == n.txUnit && m.len == n.len && m.decided == n.decided && m.queued == n.queued && m.sent == n.sent
    requires m.origin == n.origin && m.delivered == n.delivered && m.timedOut == n.timedOut
    ensures TxInv(m, pc)
  {
    hide Slot, Filling, Unsent;
    FillingSame(n, m, pc);
    UnsentKept(n, m, Room(pc), Earliest(n, pc), Latest(n, pc));
  }

  lemma TxBumpKeepsTx(n: Nic, pc: Pc)
    requires TxInv(n, pc) && n.txUnit.TxPosted?
    ensures TxInv(n.(tdh := Next(n.tdh), txUnit := TxIdle), pc)
  {
    hide Slot, Next, Filling, Unsent;
    SlotNext(|n.sent| - 1);
    var r := n.(tdh := Next(n.tdh), txUnit := TxIdle);
    FillingSame(n, r, pc);
    UnsentKept(n, r, Room(pc), Earliest(n, pc), Latest(n, pc));
  }

  lemma DeviceKeepsTx(n: Nic, pc: Pc, step: DeviceStep)
    requires Shape(n) && RxInv(n, pc) && TxInv(n, pc)
    ensures TxInv(Device(n, step), pc)
  {
    hide RxInv, TxInv, Slot, Next, Fetched;
    if Device(n, step) != n {
      match step
      case RxDma(data) => DmaKeepsTx(n, pc, data);
      case TxTransmit => EmitKeepsTx(n, pc);
      case TxWriteback => DoneKeepsTx(n, pc);
      case TxBump => TxBumpKeepsTx(n, pc);
      case _ => SameTransmission(n, Device(n, step), pc);
    }
  }

  // ----- every step of the driver keeps them

  lemma ClearKeepsRx(n: Nic)
    requires RxInv(n, Clear)
    ensures RxInv(DriverStep(n, Clear).0, Tail)
  {
    hide Slot;
    var b := Base(n, Clear);
    SlotWraps(b);
    forall k | b < k < b + RING
      ensures Slot(k) != Slot(b)
    {
      SlotsApart(b, k);
    }
  }

  lemma TailKeepsRx(n: Nic)
    requires RxInv(n, Tail)
    ensures RxInv(DriverStep(n, Tail).0, Advance)
  {
    hide Slot;
    SlotWraps(Base(n, Tail));
  }

  lemma AdvanceKeepsRx(n: Nic)
    requires RxInv(n, Advance)
    ensures RxInv(DriverStep(n, Advance).0, Check)
  {
    hide Slot, Next;
    SlotNext(Base(n, Advance));
  }

  lemma CheckKeepsRx(n: Nic)
    requires RxInv(n, Check)
    ensures Shape(n) && RxInv(n, DriverStep(n, Check).1)
    ensures DriverStep(n, Check).1.Callback? <==> |n.delivered| < |n.accepted|
  {
    hide Slot;
    assert n.rx[Slot(|n.delivered|)].dd <==> |n.delivered| < |n.accepted|;
  }

  lemma DriverKeepsRx(n: Nic, pc: Pc)
    requires RxInv(n, pc) && !pc.Callback?
    ensures Shape(n) && RxInv(DriverStep(n, pc).0, DriverStep(n, pc).1)
  {
    hide Slot, Next, RxCounts, RxDone, RxData, RxArrived;
    if pc.Check? {
      CheckKeepsRx(n);
    } else if pc.Clear? {
      ClearKeepsRx(n);
    } else if pc.Tail? {
      TailKeepsRx(n);
    } else if pc.Advance? {
      AdvanceKeepsRx(n);
    } else {
      SameReception(n, DriverStep(n, pc).0, Base(n, pc), Limit(n, pc), Cleared(n, pc));
    }
  }

  /** Writing the descriptor under construction disturbs no unsent frame. */
  lemma DescriptorKeepsTx(n: Nic, pc: Pc)
    requires TxInv(n, pc) && (pc.TxAddr? || pc.TxLength? || pc.TxStatus?)
    ensures TxInv(DriverStep(n, pc).0, DriverStep(n, pc).1)
  {
    hide Slot, Intact;
    var r := DriverStep(n, pc).0;
    forall k | |n.sent| - 1 <= k < |n.queued| && 0 <= k
      ensures Slot(k) != Slot(|n.queued|)
    {
      SlotsApart(k, |n.queued|);
    }
    UnsentKept(n, r, Room(pc), Earliest(n, pc), Latest(n, pc));
    hide Unsent;
  }

  lemma AdvanceCursorKeepsTx(n: Nic)
    requires TxInv(n, TxAdvance)
    ensures TxInv(DriverStep(n, TxAdvance).0, DriverStep(n, TxAdvance).1)
  {
    hide Slot, Next, Unsent;
    SlotNext(|n.queued|);
    UnsentKept(n, DriverStep(n, TxAdvance).0, 1, Earliest(n, TxAdvance), Latest(n, TxAdvance));
  }

  lemma TailRegisterKeepsTx(n: Nic, slot: nat)
    requires RxInv(n, TxTail(slot)) && TxInv(n, TxTail(slot))
    ensures TxInv(DriverStep(n, TxTail(slot)).0, TxWait(slot))
  {
    hide Slot, RxDone, RxData, RxArrived;
    var r := DriverStep(n, TxTail(slot)).0;
    forall k | |r.sent| <= k < |r.queued|
      ensures Intact(r, k)
    {
      assert k < |n.queued| ==> Intact(n, k);
    }
  }

  /** The statements that leave the transmit ring alone. */
  lemma OtherKeepsTx(n: Nic, pc: Pc)
    requires RxInv(n, pc) && TxInv(n, pc) && (pc.Check? || pc.TxWait? || pc.Clear? || pc.Advance?)
    ensures Shape(n)
    ensures TxInv(DriverStep(n, pc).0, DriverStep(n, pc).1)
  {
    hide Slot, Next, RxDone, RxData, RxArrived, Intact;
    var r := DriverStep(n, pc).0;
    UnsentKept(n, r, Room(pc), Earliest(n, pc), Latest(n, pc));
  }

  /** The tail write gives a buffer back: the one of the frame before. */
  lemma TailKeepsTx(n: Nic)
    requires RxInv(n, Tail) && TxInv(n, Tail)
    ensures Shape(n)
    ensures Hasty(n) || TxInv(DriverStep(n, Tail).0, Advance)
    ensures n.timedOut || !Hasty(n)
  {
    hide Slot, Next, RxDone, RxData, RxArrived, Intact;
    var r := DriverStep(n, Tail).0;
    UnsentKept(n, r, Room(Tail), Earliest(n, Tail), Latest(n, Tail));
  }

  lemma DriverKeepsTx(n: Nic, pc: Pc)
    requires RxInv(n, pc) && TxInv(n, pc) && !pc.Callback?
    ensures Shape(n)
    ensures var (r, next) := DriverStep(n, pc); r.late || TxInv(r, next)
    ensures n.timedOut || !Hasty(n) || !pc.Tail?
  {
    if pc.TxAddr? || pc.TxLength? || pc.TxStatus? {
      DescriptorKeepsTx(n, pc);
    } else if pc.TxAdvance? {
      AdvanceCursorKeepsTx(n);
    } else if pc.TxTail? {
      TailRegisterKeepsTx(n, pc.slot);
    } else if pc.Tail? {
      TailKeepsTx(n);
    } else {
      OtherKeepsTx(n, pc);
    }
    hide RxInv, TxInv, Hasty;
  }

  /** The callback is given the next accepted frame, intact. */
  lemma CallbackKeepsRx<S>(n: Nic, r: Reaction<S>)
    requires RxInv(n, Callback)
    ensures Shape(n) && Current(n) == n.accepted[|n.delivered|]
    ensures RxInv(AfterCallback(n, r), if r.send then TxAddr else Clear)
  {
    hide Slot, RxArrived;
    CallbackKeepsArrived(n, r);
    var d := |n.delivered|;
    forall k | d < k < |n.accepted|
      ensures Slot(k) != Slot(d)
    {
      SlotsApart(d, k);
    }
    assert n.rx[Slot(d)].dd;
  }

  /** A frame that is being loaded meanwhile lies in another buffer. */
  lemma CallbackKeepsArrived<S>(n: Nic, r: Reaction<S>)
    requires RxInv(n, Callback)
    ensures Shape(n) && RxArrived(AfterCallback(n, r))
  {
    hide Slot, RxDone, RxData;
    if n.rxUnit.RxLoaded? {
      SlotsApart(|n.delivered|, |n.accepted|);
    }
  }

  lemma CallbackKeepsTx<S>(n: Nic, r: Reaction<S>)
    requires RxInv(n, Callback) && TxInv(n, Callback)
    ensures TxInv(AfterCallback(n, r), if r.send then TxAddr else Clear)
  {
    hide Slot, RxDone, RxData, RxArrived, Intact;
    var m := AfterCallback(n, r);
    forall k | |m.sent| <= k < |m.queued|
      ensures Slot(n.origin[k]) != Slot(|n.delivered|)
    {
      SlotsApart(n.origin[k], |n.delivered|);
    }
    UnsentKept(n, m, 1, Earliest(n, Callback), Latest(n, Callback));
  }

  lemma GiveUpKeepsRx(n: Nic, pc: Pc)
    requires RxInv(n, pc) && pc.TxWait?
    ensures RxInv(n.(timedOut := true), Clear)
  {
    hide RxCounts, RxDone, RxData, RxArrived;
    SameReception(n, n.(timedOut := true), Base(n, pc), Limit(n, pc), Cleared(n, pc));
  }

  lemma GiveUpKeepsTx(n: Nic, pc: Pc)
    requires TxInv(n, pc) && pc.TxWait?
    ensures TxInv(n.(timedOut := true), Clear)
  {
    hide Slot, Unsent;
    UnsentKept(n, n.(timedOut := true), 2, Earliest(n, pc), Latest(n, pc));
  }
}
