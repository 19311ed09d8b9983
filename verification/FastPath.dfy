/** The fast path: what becomes of one received frame. */
module FastPath {
  import opened Bytes
  import opened Checksum
  import opened Packet
  import opened Validity
  import opened Routing
  import Nat = NatTable

  const TTL := 22

  /** Whatever the header length nibble, the accesses of the fast path stay inside the buffer. */
  predicate Accessible(pkt: seq<u8>) {
    Buffered(pkt) && (FullHeader(pkt) || |pkt| >= 92)
  }

  type Frame = pkt: seq<u8> | Accessible(pkt) witness seq(92, _ => 0)

  datatype Verdict = TooShort | TtlDrop | ToLwip | Transmit

  datatype Outcome = Outcome(st: Nat.State, pkt: seq<u8>, verdict: Verdict)

  predicate IsIpv4(pkt: Frame) { pkt[12] == 0x08 && pkt[13] == 0x00 }

  lemma RewriteAccessible(pkt: Frame, side: Side, ip: u32, port: u16)
    ensures Accessible(Rewrite(pkt, side, ip, port))
  {
    hide Rewrite;
    if FullHeader(pkt) {
      RewriteFields(pkt, side, ip, port);
    }
  }

  /** Translation on arrival: inbound for the WAN address on the first interface. */
  function Inward(st: Nat.State, dev: nat, pkt: Frame, len: u16): (r: Nat.Reply)
    ensures Accessible(r.pkt) && |r.pkt| == |pkt|
  {
    if dev == 0 && DstIp(pkt) == WAN_IP then
      var r := Nat.Inbound(st, pkt, len);
      if r.ok then
        var e := st.table[Nat.First(st.table, Nat.ByExternal(DstPort(pkt), Protocol(pkt)))];
        RewriteAccessible(pkt, Destination, e.internalIp, e.internalPort);
        r
      else r
    else Nat.Reply(st, pkt, false)
  }

  /** Translation before routing: outbound on the second interface. */
  function Outward(st: Nat.State, dev: nat, pkt: Frame, len: u16): (r: Nat.Reply)
    ensures Accessible(r.pkt) && |r.pkt| == |pkt|
  {
    if dev == 1 then
      var r := Nat.Outbound(st, pkt, len);
      if r.ok then
        RewriteAccessible(pkt, Source, WAN_IP, r.st.table[Nat.SourceSlot(st.table, Nat.SourceKey(pkt))].externalPort);
        r
      else r
    else Nat.Reply(st, pkt, false)
  }

  /** Decrements TTL, recomputes the header checksum in full, and sets both MAC addresses. */
  function Forward(pkt: Frame, hop: Mac, own: Mac): (r: seq<u8>)
    requires pkt[TTL] > 1
    ensures |r| == |pkt|
  {
    var p1 := pkt[TTL := pkt[TTL] - 1];
    var p2 := Put16(p1, IP_CSUM, HeaderChecksum(p1));
    hop + own + p2[12..]
  }

  /** `nk_fastpath_rx_callback` */
  function Receive(st: Nat.State, routes: seq<Route>, own: Mac, dev: nat, pkt: Frame, len: u16): (o: Outcome)
    ensures |o.pkt| == |pkt|
  {
    if len < 34 then Outcome(st, pkt, TooShort)
    else if !IsIpv4(pkt) then Outcome(st, pkt, ToLwip)
    else
      var inward := Inward(st, dev, pkt, len);
      if DstIp(pkt) == WAN_IP && !inward.ok then Outcome(st, pkt, ToLwip) else
      var outward := Outward(inward.st, dev, inward.pkt, len);
      var route := Lookup(routes, DstIp(inward.pkt));
      if route == |routes| then Outcome(outward.st, outward.pkt, ToLwip)
      else if outward.pkt[TTL] <= 1 then Outcome(outward.st, outward.pkt, TtlDrop)
      else Outcome(outward.st, Forward(outward.pkt, routes[route].mac, own), Transmit)
  }

  // ----- forwarding

  lemma {:induction false} ForwardedFrame(pkt: Frame, hop: Mac, own: Mac)
    requires FullHeader(pkt) && pkt[TTL] > 1
    ensures var r := Forward(pkt, hop, own);
            && Accessible(r) && FullHeader(r) && L4(r) == L4(pkt)
            && r[TTL] == pkt[TTL] - 1 && r[..6] == hop && r[6..12] == own
            && (forall k | 12 <= k < |pkt| && k != TTL && !(IP_CSUM <= k < IP_CSUM + 2) :: r[k] == pkt[k])
            && HeaderValid(r) && HeaderVerifies(r)
  {
    hide Get16, IpChecksum, HeaderVerifies;
    var p1 := pkt[TTL := pkt[TTL] - 1];
    var r := Forward(pkt, hop, own);
    assert forall k | 14 <= k < |pkt| :: Put16(r, IP_CSUM, 0)[k] == Put16(p1, IP_CSUM, 0)[k];
    SameIpChecksum(Put16(r, IP_CSUM, 0), Put16(p1, IP_CSUM, 0), 14, L4(pkt) - 14);
    SameWordSameBytes(r, Put16(p1, IP_CSUM, HeaderChecksum(p1)), IP_CSUM);
    ValidVerifies(r);
  }

  lemma SameIpChecksum(a: seq<u8>, b: seq<u8>, from: nat, len: nat)
    requires from + len <= |a| && from + len <= |b|
    requires forall k | from <= k < from + len :: a[k] == b[k]
    ensures IpChecksum(a, from, len) == IpChecksum(b, from, len)
  {
    WordSumSame(a, b, from, len / 2);
  }

  /** On a valid header the full recomputation equals `csum_replace2` on the TTL word. */
  lemma IncrementalWouldDo(pkt: Frame, hop: Mac, own: Mac)
    requires FullHeader(pkt) && pkt[TTL] > 1 && HeaderValid(pkt)
    ensures Get16(Forward(pkt, hop, own), IP_CSUM)
            == Csum2(Get16(pkt, IP_CSUM), Get16(pkt, TTL), Get16(pkt, TTL) - 1)
  {
    hide Csum2, IpChecksum, HeaderChecksum, HeaderSum, Fold;
    var word := Get16(pkt, TTL);
    var p1 := pkt[TTL := pkt[TTL] - 1];
    assert p1 == Put16(pkt, TTL, word - 1);
    HeaderSumPut(pkt, 4, word - 1);
    HeaderChecksumSum(pkt);
    HeaderChecksumSum(p1);
    SumAboveTtl(pkt);
    Csum2Recomputes(HeaderSum(pkt), word, word - 1);
  }

  lemma SumAboveTtl(pkt: Frame)
    requires FullHeader(pkt)
    ensures Get16(pkt, TTL) <= HeaderSum(pkt)
  {
    hide Get16;
    HeaderSumPut(pkt, 4, 0);
    HeaderChecksumSum(Put16(pkt, TTL, 0));
  }

  // ----- the whole fast path

  /** What a translation leaves alone, on either side. */
  ghost predicate Kept(pkt: Frame, r: seq<u8>) {
    && Accessible(r) && |r| == |pkt| && L4(r) == L4(pkt) && Protocol(r) == Protocol(pkt)
    && (HeaderValid(pkt) ==> HeaderValid(r))
    && forall k | 0 <= k < |pkt| && !Translated(pkt, k) :: r[k] == pkt[k]
  }

  /** The bytes a translation of either side may change. */
  predicate Translated(pkt: Frame, k: nat) { Touched(pkt, Source, k) || Touched(pkt, Destination, k) }

  lemma TranslationKeeps(st: Nat.State, dev: nat, pkt: Frame, len: u16)
    requires FullHeader(pkt)
    ensures Kept(pkt, Inward(st, dev, pkt, len).pkt)
    ensures Kept(pkt, Outward(st, dev, pkt, len).pkt) && DstIp(Outward(st, dev, pkt, len).pkt) == DstIp(pkt)
  {
    hide Rewrite, HeaderValid, Get16, Get32;
    if Nat.Inbound(st, pkt, len).ok {
      var e := st.table[Nat.First(st.table, Nat.ByExternal(DstPort(pkt), Protocol(pkt)))];
      RewriteKeeps(pkt, Destination, e.internalIp, e.internalPort);
    }
    if Nat.Outbound(st, pkt, len).ok {
      var slot := Nat.SourceSlot(st.table, Nat.SourceKey(pkt));
      RewriteKeeps(pkt, Source, WAN_IP, Nat.Outbound(st, pkt, len).st.table[slot].externalPort);
    }
  }

  lemma KeepsTtl(st: Nat.State, dev: nat, pkt: Frame, len: u16)
    requires FullHeader(pkt)
    ensures FullHeader(Inward(st, dev, pkt, len).pkt) && FullHeader(Outward(st, dev, pkt, len).pkt)
    ensures Inward(st, dev, pkt, len).pkt[TTL] == pkt[TTL] == Outward(st, dev, pkt, len).pkt[TTL]
  {
    hide Inward, Outward;
    TranslationKeeps(st, dev, pkt, len);
  }

  lemma RewriteKeeps(pkt: Frame, side: Side, ip: u32, port: u16)
    requires FullHeader(pkt)
    ensures Kept(pkt, Rewrite(pkt, side, ip, port))
    ensures side == Source ==> DstIp(Rewrite(pkt, side, ip, port)) == DstIp(pkt)
  {
    hide Rewrite, HeaderValid, NewL4Csum, Csum4, Get16;
    RewriteFields(pkt, side, ip, port);
    RewriteKeepsHeaderValid(pkt, side, ip, port);
    if side == Source {
      SameDoubleWordSameBytes(pkt, Rewrite(pkt, side, ip, port), DST_IP);
    }
  }

  /** One hop further: TTL exactly one lower and at least 1, a header that verifies, the MAC
      addresses of the first route that covers the destination, and outside the translated fields
      every byte from the EtherType on as it arrived. */
  ghost predicate Hopped(pkt: Frame, r: seq<u8>, routes: seq<Route>, own: Mac) {
    && Accessible(r) && FullHeader(r) && |r| == |pkt|
    && 1 <= r[TTL] && r[TTL] as int + 1 == pkt[TTL] as int
    && HeaderVerifies(r)
    && (forall k | 12 <= k < |pkt| && k != TTL && !Translated(pkt, k) :: r[k] == pkt[k])
    && r[6..12] == own
    && exists i | 0 <= i < |routes| && FirstRoute(routes, DstIp(r), i) :: r[..6] == routes[i].mac
  }

  /** Every transmitted frame has made one hop, whatever checksum it arrived with. */
  lemma Transmitted(st: Nat.State, routes: seq<Route>, own: Mac, dev: nat, pkt: Frame, len: u16)
    requires FullHeader(pkt) && Receive(st, routes, own, dev, pkt, len).verdict == Transmit
    ensures Hopped(pkt, Receive(st, routes, own, dev, pkt, len).pkt, routes, own)
  {
    hide Rewrite, Get16, HeaderValid, HeaderVerifies, Forward, Lookup, FirstRoute, Inward, Outward;
    var inward := Inward(st, dev, pkt, len);
    TranslationKeeps(st, dev, pkt, len);
    var outward := Outward(inward.st, dev, inward.pkt, len);
    TranslationKeeps(inward.st, dev, inward.pkt, len);
    var route := Lookup(routes, DstIp(inward.pkt));
    ForwardedFrame(outward.pkt, routes[route].mac, own);
    SameDoubleWordSameBytes(outward.pkt, Forward(outward.pkt, routes[route].mac, own), DST_IP);
    LookupIsFirst(routes, DstIp(inward.pkt), route);
  }

  /** The session that an arriving packet belongs to, if any. */
  predicate BelongsTo(keys: seq<Nat.Key>, i: nat, dev: nat, pkt: Frame)
    requires i < |keys|
  {
    dev == 0 && HasPorts(pkt) && DstIp(pkt) == WAN_IP && Nat.Owns(keys, i, DstPort(pkt), Protocol(pkt))
  }

  /** Where the frame is routed to: the owner of the session, or the address it carries. */
  predicate RoutedTo(keys: seq<Nat.Key>, dev: nat, pkt: Frame, ip: u32) {
    if DstIp(pkt) == WAN_IP then exists i | 0 <= i < |keys| :: BelongsTo(keys, i, dev, pkt) && keys[i].ip == ip
    else DstIp(pkt) == ip
  }

  /** Conservation: which of the three ends every frame of at least 34 bytes comes to, in terms of
      the accepted sessions, the routes and its TTL. */
  lemma EveryFrameEnds(st: Nat.State, keys: seq<Nat.Key>, routes: seq<Route>, own: Mac, dev: nat, pkt: Frame, len: u16)
    requires Nat.Represents(st, keys) && FullHeader(pkt) && len >= 34
    ensures var verdict := Receive(st, routes, own, dev, pkt, len).verdict;
            var routed := pkt[12] == 8 && pkt[13] == 0 && exists ip: u32 :: RoutedTo(keys, dev, pkt, ip) && HasRoute(routes, ip);
            && (verdict == Transmit <==> routed && pkt[TTL] > 1)
            && (verdict == TtlDrop <==> routed && pkt[TTL] <= 1)
            && (verdict == ToLwip <==> !routed)
  {
    hide Rewrite, Get16, Get32, Forward, Swap, Nat.Represents, Nat.Inbound, Nat.Outbound, Lookup, HasRoute;
    var inward := Inward(st, dev, pkt, len);
    KeepsTtl(st, dev, pkt, len);
    KeepsTtl(inward.st, dev, inward.pkt, len);
    InwardDestination(st, keys, dev, pkt, len);
    LookupIsFirst(routes, DstIp(inward.pkt), 0);
    if IsIpv4(pkt) && (DstIp(pkt) != WAN_IP || inward.ok) {
      assert RoutedTo(keys, dev, pkt, DstIp(inward.pkt));
    }
  }

  lemma InwardDestination(st: Nat.State, keys: seq<Nat.Key>, dev: nat, pkt: Frame, len: u16)
    requires Nat.Represents(st, keys) && FullHeader(pkt) && len >= 34
    ensures var inward := Inward(st, dev, pkt, len);
            if DstIp(pkt) == WAN_IP && !inward.ok then forall ip: u32 :: !RoutedTo(keys, dev, pkt, ip)
            else forall ip: u32 :: RoutedTo(keys, dev, pkt, ip) <==> ip == DstIp(inward.pkt)
  {
    hide Rewrite, Get16, Swap;
    if dev == 0 && DstIp(pkt) == WAN_IP {
      Nat.InboundStep(st, keys, pkt, len);
      forall i | 0 <= i < |keys| && BelongsTo(keys, i, dev, pkt)
        ensures DstIp(Inward(st, dev, pkt, len).pkt) == keys[i].ip
      {
        RewriteFields(pkt, Destination, keys[i].ip, keys[i].port);
      }
    }
  }

  // ----- re-injection

  datatype Hop = Hop(st: Nat.State, routes: seq<Route>, own: Mac, dev: nat, len: u16)

  /** How many hops in a row forward the frame, each receiving what the previous one sent. */
  function Travel(hops: seq<Hop>, pkt: Frame): nat {
    if hops == [] then 0 else
    var o := Receive(hops[0].st, hops[0].routes, hops[0].own, hops[0].dev, pkt, hops[0].len);
    if o.verdict == Transmit && Accessible(o.pkt) then 1 + Travel(hops[1..], o.pkt) else 0
  }

  /** Whatever the tables along the way, a frame is forwarded at most (TTL - 1) times. */
  lemma {:induction false} NoEndlessForwarding(hops: seq<Hop>, pkt: Frame)
    requires FullHeader(pkt)
    ensures Travel(hops, pkt) <= if pkt[TTL] == 0 then 0 else pkt[TTL] - 1
  {
    hide Receive, HeaderVerifies, Lookup;
    if hops != [] {
      var h := hops[0];
      var o := Receive(h.st, h.routes, h.own, h.dev, pkt, h.len);
      if o.verdict == Transmit {
        Transmitted(h.st, h.routes, h.own, h.dev, pkt, h.len);
        NoEndlessForwarding(hops[1..], o.pkt);
      }
    }
  }
}
