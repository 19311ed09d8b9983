/** The NAT table over whole runs: every theorem is about the state reached from `Initial` by an
    arbitrary sequence of outbound and inbound calls. */
module NatRuns {
  import opened Bytes
  import opened Packet
  import opened NatTable

  datatype Call = Out(pkt: Buf, len: u16) | In(pkt: Buf, len: u16)

  function Do(st: State, c: Call): Reply {
    match c
    case Out(pkt, len) => Outbound(st, pkt, len)
    case In(pkt, len) => Inbound(st, pkt, len)
  }

  function Run(st: State, calls: seq<Call>): State {
    if calls == [] then st else Do(Run(st, calls[..|calls| - 1]), calls[|calls| - 1]).st
  }

  // ----- which keys are mapped

  function LearnOne(keys: seq<Key>, c: Call): seq<Key> {
    if c.Out? then LearnFrom(keys, c.pkt, c.len) else keys
  }

  function LearnAll(keys: seq<Key>, calls: seq<Call>): seq<Key> {
    if calls == [] then keys else LearnOne(LearnAll(keys, calls[..|calls| - 1]), calls[|calls| - 1])
  }

  /** The distinct keys of the translatable outbound calls, in order of first appearance and
      without any bound. */
  function Offered(calls: seq<Call>): seq<Key> {
    if calls == [] then [] else
    var before, c := Offered(calls[..|calls| - 1]), calls[|calls| - 1];
    if c.Out? && c.len >= 34 && HasPorts(c.pkt) && SourceKey(c.pkt) !in before
    then before + [SourceKey(c.pkt)] else before
  }

  function Cap(keys: seq<Key>): seq<Key> {
    if |keys| <= MAX_ENTRIES then keys else keys[..MAX_ENTRIES]
  }

  lemma StepRepresents(st: State, keys: seq<Key>, c: Call)
    requires Represents(st, keys)
    ensures Represents(Do(st, c).st, LearnOne(keys, c))
  {
    hide Outbound, Inbound, LearnFrom, Represents;
    match c
    case Out(pkt, len) => OutboundStep(st, keys, pkt, len);
    case In(pkt, len) => InboundStep(st, keys, pkt, len);
  }

  /** From any represented state a run keeps every mapping it finds: the key list only grows at
      its end, so slots and ports never change. */
  lemma {:induction false} RunRepresents(st: State, keys: seq<Key>, calls: seq<Call>)
    requires Represents(st, keys)
    ensures Represents(Run(st, calls), LearnAll(keys, calls))
    ensures keys <= LearnAll(keys, calls)
  {
    if calls != [] {
      var before := calls[..|calls| - 1];
      RunRepresents(st, keys, before);
      StepRepresents(Run(st, before), LearnAll(keys, before), calls[|calls| - 1]);
    }
  }

  /** Exactly the first 2048 distinct keys are mapped, in order. */
  lemma {:induction false} FirstKeysMapped(calls: seq<Call>)
    ensures Represents(Run(Initial, calls), Cap(Offered(calls)))
  {
    if calls == [] {
      InitialRepresents();
    } else {
      var before, c := calls[..|calls| - 1], calls[|calls| - 1];
      FirstKeysMapped(before);
      StepRepresents(Run(Initial, before), Cap(Offered(before)), c);
      assert LearnOne(Cap(Offered(before)), c) == Cap(Offered(calls));
    }
  }

  /** Over every run ports and keys stay distinct, the port counter never wraps, and the table
      holds as many sessions as it can. */
  lemma PortsNeverCollide(calls: seq<Call>)
    ensures var st := Run(Initial, calls);
            && 50000 <= st.nextPort <= 52048 && |st.table| == 2048
            && forall i, j | 0 <= i < j < 2048 && st.table[i].inUse && st.table[j].inUse ::
                 st.table[i].Session() != st.table[j].Session() && st.table[i].externalPort != st.table[j].externalPort
  {
    hide Swap;
    FirstKeysMapped(calls);
    var st := Run(Initial, calls);
    forall i, j | 0 <= i < j < MAX_ENTRIES && st.table[i].inUse && st.table[j].inUse
      ensures st.table[i].externalPort != st.table[j].externalPort
    {
      ExternalPortsDiffer(i, j);
    }
  }

  /** Two translated packets, any number of calls apart, leave with the same port if and only if
      they come from the same endpoint with the same protocol, wherever they go. */
  lemma EndpointIndependent(st: State, keys: seq<Key>, p: Buf, len: u16, others: seq<Call>, q: Buf, len': u16)
    requires Represents(st, keys) && FullHeader(p) && FullHeader(q)
    ensures var first := Outbound(st, p, len); var second := Outbound(Run(first.st, others), q, len');
            first.ok && second.ok ==>
              && |first.pkt| == |p| && |second.pkt| == |q|
              && (Get16(first.pkt, L4(p)) == Get16(second.pkt, L4(q)) <==> SourceKey(p) == SourceKey(q))
    ensures var first := Outbound(st, p, len); var second := Outbound(Run(first.st, others), q, len');
            first.ok && len' >= 34 && HasPorts(q) && SourceKey(p) == SourceKey(q) ==> second.ok
  {
    hide Get16, Get32, Rewrite, Swap, Outbound, Represents, LearnAll, Run;
    var first, known := Outbound(st, p, len), LearnFrom(keys, p, len);
    OutboundStep(st, keys, p, len);
    if first.ok {
      RunRepresents(first.st, known, others);
      var later, more := Run(first.st, others), LearnAll(known, others);
      OutboundStep(later, more, q, len');
      var i :| 0 <= i < |known| && known[i] == SourceKey(p);
      assert more[i] == SourceKey(p);
      if Outbound(later, q, len').ok {
        var all := LearnFrom(more, q, len');
        var j :| 0 <= j < |all| && all[j] == SourceKey(q);
        RewriteFields(p, Source, WAN_IP, ExternalPort(i));
        RewriteFields(q, Source, WAN_IP, ExternalPort(j));
        SamePortSameKey(Outbound(later, q, len').st, all, i, j);
      }
    }
  }

  lemma SamePortSameKey(st: State, keys: seq<Key>, i: nat, j: nat)
    requires Represents(st, keys) && i < |keys| && j < |keys|
    ensures i < MAX_ENTRIES && j < MAX_ENTRIES
    ensures ExternalPort(i) == ExternalPort(j) <==> keys[i] == keys[j]
  {
    hide Swap;
    if i != j {
      ExternalPortsDiffer(i, j);
    }
  }

  // ----- demultiplexing

  /** The translated packet r of pkt goes to an offered endpoint, which the lookup names too. */
  predicate GoesHome(st: State, offered: seq<Key>, pkt: Buf, r: seq<u8>)
    requires |r| == |pkt|
  {
    && Key(Get32(r, DST_IP), Get16(r, L4(pkt) + 2), Protocol(pkt)) in offered
    && InternalIp(st, DstPort(pkt), Protocol(pkt)) == Get32(r, DST_IP)
    && FIRST_PORT <= Swap(DstPort(pkt)) < FIRST_PORT + MAX_ENTRIES
  }

  /** Over every run an inbound packet is translated only to an endpoint that was offered before
      with that protocol, `nat_get_internal_ip` names the same address, and the destination port
      lies in the range of allocated ports. */
  lemma Demultiplexes(calls: seq<Call>, pkt: Buf, len: u16)
    requires FullHeader(pkt)
    ensures var st := Run(Initial, calls);
            var r := Inbound(st, pkt, len).pkt;
            && |r| == |pkt|
            && (Inbound(st, pkt, len).ok ==> GoesHome(st, Offered(calls), pkt, r))
  {
    hide Swap, Get16, Get32, Rewrite;
    FirstKeysMapped(calls);
    var st, keys := Run(Initial, calls), Cap(Offered(calls));
    InboundStep(st, keys, pkt, len);
    if Inbound(st, pkt, len).ok {
      var i :| 0 <= i < |keys| && Owns(keys, i, DstPort(pkt), Protocol(pkt));
      FindsPort(st, keys, DstPort(pkt), Protocol(pkt), i);
      RewriteFields(pkt, Destination, keys[i].ip, keys[i].port);
      SwapTwice(FIRST_PORT + i);
      assert keys[i] == Offered(calls)[i];
    }
  }

  /** No session ever takes a port outside the range that is allocated in order. */
  lemma OtherPortsRefused(calls: seq<Call>, pkt: Buf, len: u16)
    requires !(FIRST_PORT <= Swap(DstPort(pkt)) < FIRST_PORT + MAX_ENTRIES)
    ensures Inbound(Run(Initial, calls), pkt, len) == Reply(Run(Initial, calls), pkt, false)
  {
    FirstKeysMapped(calls);
    var st, keys := Run(Initial, calls), Cap(Offered(calls));
    hide Swap, Rewrite, Run, Represents, Cap, Offered;
    InboundStep(st, keys, pkt, len);
    forall i | 0 <= i < |keys|
      ensures !Owns(keys, i, DstPort(pkt), Protocol(pkt))
    {
      SwapTwice(if i < MAX_ENTRIES then FIRST_PORT + i else 0);
    }
  }

  // ----- recency

  /** The slot a successful call translates through. */
  function SlotOf(st: State, c: Call): nat {
    if c.Out? then SourceSlot(st.table, SourceKey(c.pkt))
    else First(st.table, ByExternal(DstPort(c.pkt), Protocol(c.pkt)))
  }

  /** The slots used by the successful calls of a run, in order. */
  function Uses(start: State, calls: seq<Call>): seq<nat> {
    if calls == [] then [] else
    var before, c := calls[..|calls| - 1], calls[|calls| - 1];
    var st := Run(start, before);
    if Do(st, c).ok then Uses(start, before) + [SlotOf(st, c)] else Uses(start, before)
  }

  predicate LastUse(log: seq<nat>, slot: nat, at: nat) {
    at < |log| && log[at] == slot && forall j | at < j < |log| :: log[j] != slot
  }

  ghost predicate Recent(st: State, log: seq<nat>) {
    && st.ticks == |log|
    && forall i | 0 <= i < |st.table| && st.table[i].inUse :: LastUse(log, i, st.table[i].lastActive)
  }

  lemma StepRecent(st: State, log: seq<nat>, c: Call)
    requires Recent(st, log)
    requires Do(st, c).ok ==> |log| + 1 < 0x1_0000_0000
    ensures Recent(Do(st, c).st, if Do(st, c).ok then log + [SlotOf(st, c)] else log)
  {
    hide Rewrite, Swap, Get16, Get32;
    if Do(st, c).ok {
      var after, slot := Do(st, c).st, SlotOf(st, c);
      forall i | 0 <= i < |after.table| && after.table[i].inUse
        ensures LastUse(log + [slot], i, after.table[i].lastActive)
      {
        assert i != slot ==> LastUse(log, i, st.table[i].lastActive);
      }
    }
  }

  /** In runs of fewer than 2^32 translations `last_active` is the time of the last use of the
      session: all below the clock, pairwise distinct, and ordered by recency. */
  lemma {:induction false} LastActiveOrdersSessions(calls: seq<Call>)
    requires |Uses(Initial, calls)| < 0x1_0000_0000
    ensures Recent(Run(Initial, calls), Uses(Initial, calls))
    ensures var st := Run(Initial, calls);
            forall i, j | 0 <= i < j < |st.table| && st.table[i].inUse && st.table[j].inUse ::
              st.table[i].lastActive != st.table[j].lastActive
  {
    if calls != [] {
      var before, c := calls[..|calls| - 1], calls[|calls| - 1];
      LastActiveOrdersSessions(before);
      StepRecent(Run(Initial, before), Uses(Initial, before), c);
    }
    LastUsesDiffer(Run(Initial, calls), Uses(Initial, calls));
  }

  lemma LastUsesDiffer(st: State, log: seq<nat>)
    requires Recent(st, log)
    ensures forall i, j | 0 <= i < j < |st.table| && st.table[i].inUse && st.table[j].inUse ::
              st.table[i].lastActive != st.table[j].lastActive
  {
  }
}
