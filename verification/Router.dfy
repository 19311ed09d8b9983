/** The forwarding state of the kernel: the routing table with its count, the NAT engine, and the
    callback that edits a receive buffer in place. */
module Router {
  import opened Bytes
  import opened Checksum
  import opened Packet
  import opened Validity
  import opened Routing
  import opened FastPath
  import NatEngine
  import Table = NatTable

  class Kernel {
    const table: array<Route>
    var numRoutes: int
    const engine: NatEngine.Nat
    /** The MAC address of each interface. */
    const macs: seq<Mac>

    ghost predicate Valid()
      reads this, table, engine, engine.table
    {
      table.Length == MAX_ROUTES && 0 <= numRoutes <= MAX_ROUTES && engine.Valid()
    }

    ghost function Routes(): seq<Route>
      requires table.Length == MAX_ROUTES && 0 <= numRoutes <= MAX_ROUTES
      reads this, table
    {
      table[..numRoutes]
    }

    constructor (macs: seq<Mac>)
      ensures Valid() && fresh(table) && fresh(engine) && fresh(engine.table)
      ensures Routes() == [] && engine.View() == Table.Initial && this.macs == macs
    {
      this.macs := macs;
      table := new Route[MAX_ROUTES](_ => Route(0, 0, [0, 0, 0, 0, 0, 0], 0));
      numRoutes := 0;
      engine := new NatEngine.Nat();
    }

    /** `add_route`: appended while there is room, ignored otherwise. */
    method AddRoute(dest: u32, mask: u32, mac: Mac)
      requires Valid()
      modifies this`numRoutes, table
      ensures Valid()
      ensures table[..] == Appended(old(table[..]), old(numRoutes), dest, mask, mac)
      ensures numRoutes == old(numRoutes) + |StoredAt(old(numRoutes))|
      ensures Routes() == if |old(Routes())| < MAX_ROUTES
                          then old(Routes()) + [Route(dest, mask, mac, old(table[numRoutes].pad))]
                          else old(Routes())
    {
      if numRoutes < MAX_ROUTES {
        table[numRoutes] := table[numRoutes].(dest := dest, mask := mask, mac := mac);
        numRoutes := numRoutes + 1;
      }
    }

    /** `route_lookup` */
    method RouteLookup(ip: u32) returns (i: nat)
      requires Valid()
      ensures FirstRoute(Routes(), ip, i) && i == Lookup(Routes(), ip)
    {
      hide Covers, FirstRoute;
      i := 0;
      while i < numRoutes && !Covers(table[i], ip)
        invariant 0 <= i <= numRoutes
        invariant Lookup(Routes(), ip) == Lookup(Routes(), ip, i)
      {
        i := i + 1;
      }
      LookupIsFirst(Routes(), ip, i);
    }

    /** The stores of the forwarding branch. */
    method ForwardInPlace(pkt: array<u8>, hop: Mac, own: Mac)
      requires Accessible(pkt[..]) && pkt[TTL] > 1
      modifies pkt
      ensures pkt[..] == Forward(old(pkt[..]), hop, own)
    {
      hide IpChecksum, Get16;
      ghost var p0 := pkt[..];
      pkt[TTL] := pkt[TTL] - 1;
      ghost var p1 := pkt[..];
      assert p1 == p0[TTL := p0[TTL] - 1];
      pkt[IP_CSUM], pkt[IP_CSUM + 1] := 0, 0;
      assert pkt[..] == Put16(p1, IP_CSUM, 0);
      var csum := ComputeIpChecksum(pkt, 14, pkt[14] as int % 0x10 * 4);
      assert csum == HeaderChecksum(p1);
      Store16(pkt, IP_CSUM, csum);
      ghost var p2 := pkt[..];
      assert p2 == Put16(p1, IP_CSUM, csum);
      for i := 0 to 6
        invariant forall k | 0 <= k < i :: pkt[k] == hop[k] && pkt[k + 6] == own[k]
        invariant forall k | 12 <= k < pkt.Length :: pkt[k] == p2[k]
      {
        pkt[i] := hop[i];
        pkt[i + 6] := own[i];
      }
      assert pkt[..] == hop + own + p2[12..];
    }

    /** `nk_fastpath_rx_callback`; the verdict says whether the frame, as it now is in the buffer,
        went to `e1000_send_packet`, to `ethernetif_input`, or nowhere. */
    method RxCallback(dev: nat, pkt: array<u8>, len: u16) returns (verdict: Verdict)
      requires Valid() && dev < |macs| && Accessible(pkt[..])
      modifies engine, engine.table, pkt
      ensures Valid() && Routes() == old(Routes())
      ensures Outcome(engine.View(), pkt[..], verdict)
              == Receive(old(engine.View()), old(Routes()), macs[dev], dev, old(pkt[..]), len)
    {
      hide Forward, Get16, Get32, Rewrite, Lookup, Table.Inbound, Table.Outbound, Table.Represents, Table.LearnFrom;
      if len < 34 {
        return TooShort;
      }
      if !(pkt[12] == 0x08 && pkt[13] == 0x00) {
        return ToLwip;
      }
      ghost var inward := Inward(engine.View(), dev, pkt[..], len);
      var dest := DstIp(pkt[..]);
      if dev == 0 && dest == WAN_IP {
        Table.InboundStep(engine.View(), engine.keys, pkt[..], len);
        var ok := engine.TranslateIn(pkt, len);
        if !ok {
          return ToLwip;
        }
        dest := Get32(pkt[..], DST_IP);
      } else if dest == WAN_IP {
        return ToLwip;
      }
      assert pkt[..] == inward.pkt && engine.View() == inward.st;
      if dev == 1 {
        var _ := engine.TranslateOut(pkt, len);
      }
      assert pkt[..] == Outward(inward.st, dev, inward.pkt, len).pkt;
      var route := RouteLookup(dest);
      if route < numRoutes {
        if pkt[TTL] <= 1 {
          return TtlDrop;
        }
        ForwardInPlace(pkt, table[route].mac, macs[dev]);
        return Transmit;
      }
      verdict := ToLwip;
    }
  }
}
