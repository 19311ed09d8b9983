/** The NAT engine as the program keeps it: one table, one port counter and one tick counter,
    updated in place together with the packet memory. */
module NatEngine {
  import opened Bytes
  import opened Packet
  import opened NatTable

  class Nat {
    const table: array<Entry>
    var nextPort: u16
    var ticks: u32
    /** The accepted keys in the order in which they were accepted. */
    ghost var keys: seq<Key>

    ghost function View(): State
      reads this, table
    {
      State(table[..], nextPort, ticks)
    }

    ghost predicate Valid()
      reads this, table
    {
      Represents(View(), keys)
    }

    constructor ()
      ensures Valid() && fresh(table) && View() == Initial && keys == []
    {
      table := new Entry[MAX_ENTRIES](_ => Empty);
      nextPort, ticks := FIRST_PORT, 0;
      keys := [];
      new;
      assert table[..] == Initial.table;
    }

    /** `nat_init` */
    method Reset()
      requires table.Length == MAX_ENTRIES
      modifies this, table
      ensures Valid() && View() == Initial && keys == []
    {
      for i := 0 to MAX_ENTRIES
        invariant forall j | 0 <= j < i :: table[j] == Empty
      {
        table[i] := Empty;
      }
      nextPort, ticks := FIRST_PORT, 0;
      keys := [];
      assert table[..] == Initial.table;
    }

    /** The linear scan that every operation starts with. */
    method Scan(q: Query) returns (i: nat)
      ensures i == First(table[..], q)
    {
      i := 0;
      while i < table.Length && !Matches(q, table[i])
        invariant 0 <= i <= table.Length
        invariant First(table[..], q) == First(table[..], q, i)
      {
        i := i + 1;
      }
    }

    method AllocatePort() returns (p: u16)
      modifies this`nextPort
      ensures p == old(nextPort) && nextPort == NextPort(p)
      ensures nextPort == if p == 65535 then 0 else if p >= 65000 then 50000 else p + 1
    {
      p := nextPort;
      nextPort := (nextPort + 1) % 0x1_0000;
      if nextPort > LAST_PORT {
        nextPort := FIRST_PORT;
      }
    }

    /** `nat_outbound` */
    method TranslateOut(pkt: array<u8>, len: u16) returns (ok: bool)
      requires Valid() && Buffered(pkt[..])
      modifies this, table, pkt
      ensures Valid() && keys == LearnFrom(old(keys), old(pkt[..]), len)
      ensures Reply(View(), pkt[..], ok) == Outbound(old(View()), old(pkt[..]), len)
    {
      hide Rewrite, Swap, Get16, Get32, Represents, LearnFrom, First;
      OutboundStep(View(), keys, pkt[..], len);
      ghost var before := View();
      keys := LearnFrom(keys, pkt[..], len);
      if len < 34 || (pkt[23] != TCP && pkt[23] != UDP) {
        return false;
      }
      var key := SourceKey(pkt[..]);
      var slot := Scan(BySource(key));
      if slot == table.Length {
        slot := Scan(Unused);
        if slot == table.Length {
          return false;
        }
        var port := AllocatePort();
        table[slot] := table[slot].(internalIp := key.ip, internalPort := key.port, externalPort := Swap(port),
                                    protocol := key.protocol, inUse := true);
        assert View() == Open(before, slot, key);
      }
      ghost var held := View();
      table[slot] := table[slot].(lastActive := ticks);
      ticks := (ticks + 1) % 0x1_0000_0000;
      assert View() == Touch(held, slot);
      RewriteInPlace(pkt, Source, WAN_IP, table[slot].externalPort);
      ok := true;
    }

    /** `nat_inbound` */
    method TranslateIn(pkt: array<u8>, len: u16) returns (ok: bool)
      requires Valid() && Buffered(pkt[..])
      modifies this, table, pkt
      ensures Valid() && keys == old(keys)
      ensures Reply(View(), pkt[..], ok) == Inbound(old(View()), old(pkt[..]), len)
    {
      hide Rewrite, Swap, Get16, Get32;
      InboundStep(View(), keys, pkt[..], len);
      ghost var before := View();
      if len < 34 || (pkt[23] != TCP && pkt[23] != UDP) || DstIp(pkt[..]) != WAN_IP {
        return false;
      }
      var slot := Scan(ByExternal(DstPort(pkt[..]), pkt[23]));
      if slot == table.Length {
        return false;
      }
      table[slot] := table[slot].(lastActive := ticks);
      ticks := (ticks + 1) % 0x1_0000_0000;
      assert View() == Touch(before, slot);
      RewriteInPlace(pkt, Destination, table[slot].internalIp, table[slot].internalPort);
      ok := true;
    }

    /** `nat_get_internal_ip` */
    method Lookup(port: u16, protocol: u8) returns (ip: u32)
      ensures ip == InternalIp(View(), port, protocol)
      ensures Valid() ==>
                && (forall i | 0 <= i < |keys| && Owns(keys, i, port, protocol) :: ip == keys[i].ip)
                && ((forall i | 0 <= i < |keys| :: !Owns(keys, i, port, protocol)) ==> ip == 0)
    {
      hide Swap, Represents;
      if Valid() {
        InternalIpFound(View(), keys, port, protocol);
      }
      var slot := Scan(ByExternal(port, protocol));
      ip := if slot == table.Length then 0 else table[slot].internalIp;
    }
  }
}
