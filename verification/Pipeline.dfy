/** The fast path as a whole: what NAT, routing and forwarding together do to endpoints, transport
    checksums and the frames that stay local. */
module Pipeline {
  import opened Bytes
  import opened Checksum
  import opened Packet
  import opened Validity
  import opened Transport
  import opened Routing
  import opened FastPath
  import Nat = NatTable
  import Runs = NatRuns

  /** Both translations in the order of the callback; at most one of them acts. */
  function Translate(st: Nat.State, dev: nat, pkt: Frame, len: u16): Nat.Reply {
    var inward := Inward(st, dev, pkt, len);
    Outward(inward.st, dev, inward.pkt, len)
  }

  /** A translation either leaves the frame alone or rewrites one of its endpoints. */
  lemma TranslateRewrites(st: Nat.State, dev: nat, pkt: Frame, len: u16) returns (side: Side, ip: u32, port: u16)
    ensures var r := Translate(st, dev, pkt, len);
            r.pkt == pkt || r.pkt == Rewrite(pkt, side, ip, port)
    ensures var r := Translate(st, dev, pkt, len);
            r.st == st ==> r.pkt == pkt
  {
    hide Rewrite, Get16, Get32;
    side, ip, port := Source, 0, 0;
    if dev == 0 && Nat.Inbound(st, pkt, len).ok {
      var e := st.table[Nat.First(st.table, Nat.ByExternal(DstPort(pkt), Protocol(pkt)))];
      side, ip, port := Destination, e.internalIp, e.internalPort;
    }
    if dev == 1 && Nat.Outbound(st, pkt, len).ok {
      var slot := Nat.SourceSlot(st.table, Nat.SourceKey(pkt));
      side, ip, port := Source, WAN_IP, Nat.Outbound(st, pkt, len).st.table[slot].externalPort;
    }
  }

  /** Forwarding touches neither the pseudo-header nor the segment. */
  lemma ForwardKeepsSegment(pkt: Frame, hop: Mac, own: Mac, n: nat)
    requires Holds(pkt, n) && pkt[TTL] > 1
    ensures var r := Forward(pkt, hop, own);
            Buffered(r) && Holds(r, n) && SegmentSum(r, n) == SegmentSum(pkt, n)
  {
    hide HeaderValid, HeaderVerifies, NetworkSum, Forward, Get16;
    var r := Forward(pkt, hop, own);
    ForwardedFrame(pkt, hop, own);
    NetworkSumSame(pkt, r, SRC_IP, 4);
    NetworkSumSame(pkt, r, L4(pkt), n / 2);
  }

  lemma {:induction false} NetworkSumSame(a: seq<u8>, b: seq<u8>, from: nat, n: nat)
    requires from + 2 * n <= |a| && from + 2 * n <= |b|
    requires forall k | from <= k < from + 2 * n :: a[k] == b[k]
    ensures NetworkSum(a, from, n) == NetworkSum(b, from, n)
  {
    if n > 0 {
      NetworkSumSame(a, b, from, n - 1);
    }
  }

  /** The transport checksum of a transmitted frame is right for the receiver exactly when it was
      right on arrival: for every TCP or UDP segment with a nonzero checksum, of any length. */
  lemma SegmentSurvives(st: Nat.State, routes: seq<Route>, own: Mac, dev: nat, pkt: Frame, len: u16, n: nat)
    requires Holds(pkt, n) && L4Csum(pkt) != 0
    ensures var o := Receive(st, routes, own, dev, pkt, len);
            o.verdict == Transmit ==>
              Buffered(o.pkt) && Holds(o.pkt, n) && (SegmentVerifies(o.pkt, n) <==> SegmentVerifies(pkt, n))
  {
    hide Rewrite, Get16, HeaderValid, HeaderVerifies, Forward, SegmentSum, Fold, Lookup, Inward, Outward;
    if Receive(st, routes, own, dev, pkt, len).verdict == Transmit {
      var side, ip, port := TranslateRewrites(st, dev, pkt, len);
      var m := Translate(st, dev, pkt, len).pkt;
      if m != pkt {
        RewriteKeepsSegmentValid(pkt, side, ip, port, n);
      }
      var route := Lookup(routes, DstIp(Inward(st, dev, pkt, len).pkt));
      ForwardKeepsSegment(m, routes[route].mac, own, n);
    }
  }

  /** An IPv4 frame of at least 34 bytes, which is what the fast path looks at. */
  predicate Examined(pkt: Frame, len: u16) { len >= 34 && pkt[12] == 8 && pkt[13] == 0 }

  /** A frame from the LAN side that is not for the router itself ends up, sent, dropped or given to
      lwIP, under the WAN address and the port of its session, exactly when its session is held;
      otherwise with the source it came with. */
  lemma SourceTranslated(st: Nat.State, keys: seq<Nat.Key>, routes: seq<Route>, own: Mac, pkt: Frame, len: u16)
    requires Nat.Represents(st, keys) && FullHeader(pkt)
    ensures var o := Receive(st, routes, own, 1, pkt, len); var known := Nat.LearnFrom(keys, pkt, len);
            && (o.verdict == Transmit ==> Examined(pkt, len) && DstIp(pkt) != WAN_IP)
            && (Examined(pkt, len) && DstIp(pkt) != WAN_IP ==>
                  && Accessible(o.pkt)
                  && Nat.Represents(o.st, known)
                  && (forall i | 0 <= i < |known| && HasPorts(pkt) && known[i] == Nat.SourceKey(pkt) ::
                        i < Nat.MAX_ENTRIES && SrcIp(o.pkt) == WAN_IP && SrcPort(o.pkt) == Nat.ExternalPort(i))
                  && (!HasPorts(pkt) || Nat.SourceKey(pkt) !in known ==>
                        SrcIp(o.pkt) == SrcIp(pkt) && SrcPort(o.pkt) == SrcPort(pkt)))
  {
    hide Rewrite, Get16, Get32, HeaderValid, HeaderVerifies, Forward, Lookup, Nat.Outbound, NewL4Csum, Csum4, Nat.Represents;
    if Examined(pkt, len) && DstIp(pkt) != WAN_IP {
      var outward := Outward(st, 1, pkt, len);
      OutwardSource(st, keys, pkt, len);
      TranslationKeeps(st, 1, pkt, len);
      var route := Lookup(routes, DstIp(pkt));
      if route < |routes| && outward.pkt[TTL] > 1 {
        ForwardKeepsEndpoints(outward.pkt, routes[route].mac, own);
      }
    }
  }

  lemma OutwardSource(st: Nat.State, keys: seq<Nat.Key>, pkt: Frame, len: u16)
    requires Nat.Represents(st, keys) && FullHeader(pkt) && len >= 34
    ensures var o := Outward(st, 1, pkt, len); var known := Nat.LearnFrom(keys, pkt, len);
            && Nat.Represents(o.st, known)
            && (forall i | 0 <= i < |known| && HasPorts(pkt) && known[i] == Nat.SourceKey(pkt) ::
                  i < Nat.MAX_ENTRIES && SrcIp(o.pkt) == WAN_IP && SrcPort(o.pkt) == Nat.ExternalPort(i))
            && (!HasPorts(pkt) || Nat.SourceKey(pkt) !in known ==> o.pkt == pkt)
  {
    hide Rewrite, Get16, Get32, Nat.Outbound, NewL4Csum, Csum4;
    Nat.OutboundStep(st, keys, pkt, len);
    var known := Nat.LearnFrom(keys, pkt, len);
    forall i | 0 <= i < |known| && HasPorts(pkt) && known[i] == Nat.SourceKey(pkt)
      ensures i < Nat.MAX_ENTRIES
              && SrcIp(Outward(st, 1, pkt, len).pkt) == WAN_IP && SrcPort(Outward(st, 1, pkt, len).pkt) == Nat.ExternalPort(i)
    {
      RewriteFields(pkt, Source, WAN_IP, Nat.ExternalPort(i));
    }
  }

  /** A frame from the WAN side for the WAN address ends up, sent or dropped or given to lwIP, with
      the endpoint of the session that owns its port, if one does, and only then is it sent; any
      other with the destination it came with. The source stays. */
  lemma DestinationTranslated(st: Nat.State, keys: seq<Nat.Key>, routes: seq<Route>, own: Mac, pkt: Frame, len: u16)
    requires Nat.Represents(st, keys) && FullHeader(pkt)
    ensures var o := Receive(st, routes, own, 0, pkt, len);
            && Accessible(o.pkt) && Nat.Represents(o.st, keys)
            && (o.verdict == Transmit ==> Examined(pkt, len))
            && (o.verdict == Transmit && DstIp(pkt) == WAN_IP ==> exists i | 0 <= i < |keys| :: BelongsTo(keys, i, 0, pkt))
            && (forall i | 0 <= i < |keys| && BelongsTo(keys, i, 0, pkt) && Examined(pkt, len) ::
                  DstIp(o.pkt) == keys[i].ip && DstPort(o.pkt) == keys[i].port)
            && (DstIp(pkt) != WAN_IP || !Examined(pkt, len) ==> DstIp(o.pkt) == DstIp(pkt) && DstPort(o.pkt) == DstPort(pkt))
            && SrcIp(o.pkt) == SrcIp(pkt) && SrcPort(o.pkt) == SrcPort(pkt)
  {
    hide Rewrite, Get16, Get32, HeaderValid, HeaderVerifies, Forward, Lookup, Nat.Inbound, Inward, BelongsTo, Nat.Represents;
    if Examined(pkt, len) {
      var inward := Inward(st, 0, pkt, len);
      InwardEndpoints(st, keys, pkt, len);
      TranslationKeeps(st, 0, pkt, len);
      NotTranslated(st, 0, pkt, len);
      var route := Lookup(routes, DstIp(inward.pkt));
      if route < |routes| && inward.pkt[TTL] > 1 {
        ForwardKeepsEndpoints(inward.pkt, routes[route].mac, own);
      }
    }
  }

  lemma ForwardKeepsEndpoints(pkt: Frame, hop: Mac, own: Mac)
    requires FullHeader(pkt) && pkt[TTL] > 1
    ensures var r := Forward(pkt, hop, own);
            && Accessible(r)
            && SrcIp(r) == SrcIp(pkt) && DstIp(r) == DstIp(pkt) && SrcPort(r) == SrcPort(pkt) && DstPort(r) == DstPort(pkt)
  {
    hide Get16, Get32, HeaderValid, HeaderVerifies, Forward;
    var r := Forward(pkt, hop, own);
    ForwardedFrame(pkt, hop, own);
    SameDoubleWordSameBytes(pkt, r, SRC_IP);
    SameDoubleWordSameBytes(pkt, r, DST_IP);
    SameWordSameBytes(pkt, r, L4(pkt));
    SameWordSameBytes(pkt, r, L4(pkt) + 2);
  }

  lemma InwardEndpoints(st: Nat.State, keys: seq<Nat.Key>, pkt: Frame, len: u16)
    requires Nat.Represents(st, keys) && FullHeader(pkt) && len >= 34
    ensures var o := Inward(st, 0, pkt, len);
            && Nat.Represents(o.st, keys) && L4(o.pkt) == L4(pkt)
            && (o.ok ==> exists i | 0 <= i < |keys| :: BelongsTo(keys, i, 0, pkt))
            && (forall i | 0 <= i < |keys| && BelongsTo(keys, i, 0, pkt) ::
                  DstIp(o.pkt) == keys[i].ip && DstPort(o.pkt) == keys[i].port)
            && (DstIp(pkt) != WAN_IP ==> o.pkt == pkt)
            && SrcIp(o.pkt) == SrcIp(pkt) && SrcPort(o.pkt) == SrcPort(pkt)
  {
    hide Rewrite, Get16, Get32, Nat.Inbound, NewL4Csum, Csum4, Nat.Represents, Swap;
    if DstIp(pkt) == WAN_IP {
      Nat.InboundStep(st, keys, pkt, len);
      if Nat.Inbound(st, pkt, len).ok {
        var i :| 0 <= i < |keys| && Nat.Owns(keys, i, DstPort(pkt), Protocol(pkt));
        assert BelongsTo(keys, i, 0, pkt);
        forall j | 0 <= j < |keys| && BelongsTo(keys, j, 0, pkt)
          ensures DstIp(Inward(st, 0, pkt, len).pkt) == keys[j].ip && DstPort(Inward(st, 0, pkt, len).pkt) == keys[j].port
        {
          RewriteFields(pkt, Destination, keys[j].ip, keys[j].port);
        }
        RewriteFields(pkt, Destination, keys[i].ip, keys[i].port);
        SameDoubleWordSameBytes(pkt, Inward(st, 0, pkt, len).pkt, SRC_IP);
        SameWordSameBytes(pkt, Inward(st, 0, pkt, len).pkt, L4(pkt));
      }
    }
  }

  /** The packet is addressed to the endpoint that this one came from, with the same protocol. */
  predicate Answers(pkt: Frame, to: Frame) {
    DstIp(pkt) == SrcIp(to) && DstPort(pkt) == SrcPort(to) && Protocol(pkt) == Protocol(to)
  }

  /** A conversation through the whole fast path: once a frame received on interface 1 has been
      transmitted under a session, then whatever is translated in between, any answer received on
      interface 0 is transmitted exactly when there is a route to the host and the TTL lasts; and it
      is then addressed to the address and port of the host, with the source it came with, a header
      that verifies and a transport checksum that is as right as it was. Both are transmitted on the
      interface they were received on. */
  lemma AnswerReaddressed(st: Nat.State, keys: seq<Nat.Key>, routes: seq<Route>, own: Mac, pkt: Frame, len: u16,
                          others: seq<Runs.Call>, routes': seq<Route>, own': Mac, answer: Frame, len': u16, n: nat)
    requires Nat.Represents(st, keys) && FullHeader(pkt) && FullHeader(answer)
    ensures var out := Receive(st, routes, own, 1, pkt, len);
            out.verdict == Transmit && HasPorts(pkt) && Nat.SourceKey(pkt) in Nat.LearnFrom(keys, pkt, len) ==>
            && Accessible(out.pkt)
            && (Answers(answer, out.pkt) ==>
                  Readdressed(answer, Receive(Runs.Run(out.st, others), routes', own', 0, answer, len'), routes',
                          SrcIp(pkt), SrcPort(pkt), len', n))
  {
    hide Receive, Nat.Represents, Nat.LearnFrom, Readdressed, Runs.Run, Runs.LearnAll, Get16, Get32;
    var out, known := Receive(st, routes, own, 1, pkt, len), Nat.LearnFrom(keys, pkt, len);
    if out.verdict == Transmit && HasPorts(pkt) && Nat.SourceKey(pkt) in known {
      SourceTranslated(st, keys, routes, own, pkt, len);
      Transmitted(st, routes, own, 1, pkt, len);
      var i :| 0 <= i < |known| && known[i] == Nat.SourceKey(pkt);
      if Answers(answer, out.pkt) {
        Runs.RunRepresents(out.st, known, others);
        var more := Runs.LearnAll(known, others);
        assert more[i] == known[i];
        assert out.pkt[23] == pkt[23];
        SessionReaddressed(Runs.Run(out.st, others), more, i, routes', own', answer, len', n);
      }
    }
  }

  /** What becomes of a packet for a session of that endpoint. */
  ghost predicate Readdressed(pkt: Frame, o: Outcome, routes: seq<Route>, ip: u32, port: u16, len: u16, n: nat) {
    && (o.verdict == Transmit <==> len >= 34 && IsIpv4(pkt) && HasRoute(routes, ip) && pkt[TTL] > 1)
    && (o.verdict == Transmit ==>
          && Accessible(o.pkt) && HeaderVerifies(o.pkt)
          && DstIp(o.pkt) == ip && DstPort(o.pkt) == port && SrcIp(o.pkt) == SrcIp(pkt) && SrcPort(o.pkt) == SrcPort(pkt)
          && (Holds(pkt, n) && L4Csum(pkt) != 0 ==> Holds(o.pkt, n) && (SegmentVerifies(o.pkt, n) <==> SegmentVerifies(pkt, n))))
  }

  lemma SessionReaddressed(st: Nat.State, keys: seq<Nat.Key>, i: nat, routes: seq<Route>, own: Mac, pkt: Frame, len: u16, n: nat)
    requires Nat.Represents(st, keys) && FullHeader(pkt) && i < |keys| && BelongsTo(keys, i, 0, pkt)
    ensures Readdressed(pkt, Receive(st, routes, own, 0, pkt, len), routes, keys[i].ip, keys[i].port, len, n)
  {
    hide Receive, Nat.Represents, Get16, Get32, HeaderVerifies, HeaderValid, SegmentSum, Fold, L4Csum, HasRoute;
    var o := Receive(st, routes, own, 0, pkt, len);
    DestinationTranslated(st, keys, routes, own, pkt, len);
    SessionEnds(st, keys, i, routes, own, pkt, len);
    if o.verdict == Transmit {
      Transmitted(st, routes, own, 0, pkt, len);
      if Holds(pkt, n) && L4Csum(pkt) != 0 {
        SegmentSurvives(st, routes, own, 0, pkt, len, n);
      }
    }
  }

  lemma SessionEnds(st: Nat.State, keys: seq<Nat.Key>, i: nat, routes: seq<Route>, own: Mac, pkt: Frame, len: u16)
    requires Nat.Represents(st, keys) && FullHeader(pkt) && i < |keys| && BelongsTo(keys, i, 0, pkt)
    ensures Receive(st, routes, own, 0, pkt, len).verdict == Transmit
            <==> len >= 34 && IsIpv4(pkt) && HasRoute(routes, keys[i].ip) && pkt[TTL] > 1
  {
    hide Receive, HasRoute, Get16, Get32, Nat.Represents;
    if len >= 34 {
      EveryFrameEnds(st, keys, routes, own, 0, pkt, len);
      assert RoutedTo(keys, 0, pkt, keys[i].ip);
      forall ip: u32 | RoutedTo(keys, 0, pkt, ip)
        ensures ip == keys[i].ip
      {
        OneOwner(st, keys, i, pkt);
      }
    } else {
      ShortFrame(st, routes, own, 0, pkt, len);
    }
  }

  lemma ShortFrame(st: Nat.State, routes: seq<Route>, own: Mac, dev: nat, pkt: Frame, len: u16)
    requires len < 34
    ensures Receive(st, routes, own, dev, pkt, len).verdict == TooShort
  {
  }

  lemma OneOwner(st: Nat.State, keys: seq<Nat.Key>, i: nat, pkt: Frame)
    requires Nat.Represents(st, keys) && i < |keys| && BelongsTo(keys, i, 0, pkt)
    ensures forall j | 0 <= j < |keys| && BelongsTo(keys, j, 0, pkt) :: j == i
  {
    hide Get16, Get32, Swap;
    forall j | 0 <= j < |keys| && BelongsTo(keys, j, 0, pkt)
      ensures j == i
    {
      Nat.FindsPort(st, keys, DstPort(pkt), Protocol(pkt), i);
      Nat.FindsPort(st, keys, DstPort(pkt), Protocol(pkt), j);
    }
  }

  /** Over every run of the NAT engine the telnet port of the WAN address reaches the kernel: on
      whatever interface such a packet comes in, it goes to lwIP as it arrived. */
  lemma TelnetReachesTheKernel(calls: seq<Runs.Call>, routes: seq<Route>, own: Mac, dev: nat, pkt: Frame, len: u16)
    requires len >= 34 && DstIp(pkt) == WAN_IP && Swap(DstPort(pkt)) == 23
    ensures var st := Runs.Run(Nat.Initial, calls);
            Receive(st, routes, own, dev, pkt, len) == Outcome(st, pkt, ToLwip)
  {
    hide Runs.Run, Swap, Get16, Get32, Nat.Inbound, Outward;
    Runs.OtherPortsRefused(calls, pkt, len);
  }

  /** A frame that is dropped or handed to lwIP is as it arrived unless a session was used for it,
      and then outside the translated fields. */
  lemma LocalFrame(st: Nat.State, routes: seq<Route>, own: Mac, dev: nat, pkt: Frame, len: u16)
    requires FullHeader(pkt) && Receive(st, routes, own, dev, pkt, len).verdict != Transmit
    ensures var o := Receive(st, routes, own, dev, pkt, len);
            Kept(pkt, o.pkt) && (o.st == st ==> o.pkt == pkt)
  {
    hide Get16, Get32, Rewrite, Kept, Inward, Outward, Lookup, Forward, HeaderValid;
    KeptItself(pkt);
    var inward := Inward(st, dev, pkt, len);
    var side, ip, port := TranslateRewrites(st, dev, pkt, len);
    RewriteKeeps(pkt, side, ip, port);
    NotTranslated(st, dev, pkt, len);
  }

  /** The frame belongs to session i, on its way out or in. */
  predicate Leaves(known: seq<Nat.Key>, i: nat, dev: nat, pkt: Frame, len: u16)
    requires i < |known|
  {
    Examined(pkt, len) && dev == 1 && DstIp(pkt) != WAN_IP && HasPorts(pkt) && known[i] == Nat.SourceKey(pkt)
  }

  predicate Enters(keys: seq<Nat.Key>, i: nat, dev: nat, pkt: Frame, len: u16)
    requires i < |keys|
  {
    Examined(pkt, len) && BelongsTo(keys, i, dev, pkt)
  }

  /** The keys after the frame. */
  function Known(keys: seq<Nat.Key>, dev: nat, pkt: Frame, len: u16): seq<Nat.Key> {
    if Examined(pkt, len) && dev == 1 && DstIp(pkt) != WAN_IP then Nat.LearnFrom(keys, pkt, len) else keys
  }

  /** What the session table makes of the frame. */
  ghost predicate Readdress(keys: seq<Nat.Key>, dev: nat, pkt: Frame, len: u16, r: seq<u8>) {
    var known := Known(keys, dev, pkt, len);
    && (forall i | 0 <= i < |known| && Leaves(known, i, dev, pkt, len) ::
          i < Nat.MAX_ENTRIES && r == Rewrite(pkt, Source, WAN_IP, Nat.ExternalPort(i)))
    && (forall i | 0 <= i < |keys| && Enters(keys, i, dev, pkt, len) ::
          r == Rewrite(pkt, Destination, keys[i].ip, keys[i].port))
    && (r == pkt || (exists i | 0 <= i < |known| :: Leaves(known, i, dev, pkt, len))
        || exists i | 0 <= i < |keys| :: Enters(keys, i, dev, pkt, len))
  }

  /** Frame r is t one hop further, by the first route for that address. */
  ghost predicate Passed(t: Frame, r: seq<u8>, routes: seq<Route>, ip: u32, own: Mac) {
    && |r| == |t| && t[22] > 1 && r[22] as int == t[22] as int - 1
    && r[6..12] == own && (exists i | 0 <= i < |routes| && FirstRoute(routes, ip, i) :: r[..6] == routes[i].mac)
    && (forall k | 12 <= k < |t| && k != 22 && k != 24 && k != 25 :: r[k] == t[k])
    && Get16(r, 24) == IpChecksum(t[22 := t[22] - 1][24 := 0][25 := 0], 14, 4 * (t[14] % 16))
  }

  /** The end of a frame, given what the session table has made of it. */
  ghost predicate Ends(t: Frame, o: Outcome, routes: seq<Route>, ip: u32, own: Mac, routed: bool) {
    && (o.verdict == Transmit <==> routed && HasRoute(routes, ip) && t[22] > 1)
    && (o.verdict == TtlDrop <==> routed && HasRoute(routes, ip) && t[22] <= 1)
    && (if o.verdict == Transmit then Passed(t, o.pkt, routes, ip, own) else o.pkt == t)
  }

  /** The frame is looked up in the routing table. */
  ghost predicate IsRouted(keys: seq<Nat.Key>, dev: nat, pkt: Frame, len: u16) {
    Examined(pkt, len) && (DstIp(pkt) == WAN_IP ==> exists i | 0 <= i < |keys| :: Enters(keys, i, dev, pkt, len))
  }

  /** Every byte and the end of every frame, whatever its header: the session table decides whether
      it is rewritten; and that is what lwIP is given, or what is dropped, or what is passed on with
      one hop less, by session, route and TTL. */
  lemma FrameMade(st: Nat.State, keys: seq<Nat.Key>, routes: seq<Route>, own: Mac, dev: nat, pkt: Frame, len: u16)
    returns (t: Frame)
    requires Nat.Represents(st, keys)
    ensures var o := Receive(st, routes, own, dev, pkt, len);
            && Readdress(keys, dev, pkt, len, t) && Nat.Represents(o.st, Known(keys, dev, pkt, len))
            && Ends(t, o, routes, if dev == 1 then DstIp(pkt) else DstIp(t), own, IsRouted(keys, dev, pkt, len))
            && (o.verdict == TooShort <==> len < 34)
  {
    hide Rewrite, Get16, Get32, Lookup, Nat.Represents, Inward, Outward, Readdress, Known, Receive, Passed, HasRoute;
    t := pkt;
    if Examined(pkt, len) && dev == 1 && DstIp(pkt) != WAN_IP {
      t := Outward(st, 1, pkt, len).pkt;
      ReaddressOut(st, keys, pkt, len);
      OutIsPassed(st, routes, own, pkt, len);
    } else if Examined(pkt, len) && dev == 0 && DstIp(pkt) == WAN_IP {
      t := Inward(st, 0, pkt, len).pkt;
      ReaddressIn(st, keys, pkt, len);
      InIsPassed(st, routes, own, pkt, len);
    } else {
      ReaddressNone(keys, dev, pkt, len);
      OtherIsPassed(st, routes, own, dev, pkt, len);
    }
  }

  lemma OutIsPassed(st: Nat.State, routes: seq<Route>, own: Mac, pkt: Frame, len: u16)
    requires Examined(pkt, len) && DstIp(pkt) != WAN_IP
    ensures var o, r := Receive(st, routes, own, 1, pkt, len), Outward(st, 1, pkt, len);
            Accessible(r.pkt) && o.st == r.st && Ends(r.pkt, o, routes, DstIp(pkt), own, true) && o.verdict != TooShort
  {
    hide Rewrite, Get16, Get32, Lookup, HasRoute, Passed, Forward, Outward;
    RouteIsPassed(Outward(st, 1, pkt, len).pkt, routes, DstIp(pkt), own);
  }

  lemma InIsPassed(st: Nat.State, routes: seq<Route>, own: Mac, pkt: Frame, len: u16)
    requires Examined(pkt, len) && DstIp(pkt) == WAN_IP
    ensures var o, r := Receive(st, routes, own, 0, pkt, len), Inward(st, 0, pkt, len);
            Accessible(r.pkt) && o.st == r.st && Ends(r.pkt, o, routes, DstIp(r.pkt), own, r.ok) && o.verdict != TooShort
  {
    hide Rewrite, Get16, Get32, Lookup, HasRoute, Passed, Forward, Inward;
    NotTranslated(st, 0, pkt, len);
    RouteIsPassed(Inward(st, 0, pkt, len).pkt, routes, DstIp(Inward(st, 0, pkt, len).pkt), own);
  }

  lemma OtherIsPassed(st: Nat.State, routes: seq<Route>, own: Mac, dev: nat, pkt: Frame, len: u16)
    requires Examined(pkt, len) ==> (DstIp(pkt) == WAN_IP && dev != 0) || (DstIp(pkt) != WAN_IP && dev != 1)
    ensures var o := Receive(st, routes, own, dev, pkt, len);
            && o.st == st && Ends(pkt, o, routes, DstIp(pkt), own, Examined(pkt, len) && DstIp(pkt) != WAN_IP)
            && (o.verdict == TooShort <==> len < 34)
  {
    hide Rewrite, Get16, Get32, Lookup, HasRoute, Passed, Forward;
    RouteIsPassed(pkt, routes, DstIp(pkt), own);
  }

  lemma RouteIsPassed(t: Frame, routes: seq<Route>, ip: u32, own: Mac)
    ensures var route := Lookup(routes, ip);
            && (route < |routes| <==> HasRoute(routes, ip))
            && (route < |routes| && t[TTL] > 1 ==> Passed(t, Forward(t, routes[route].mac, own), routes, ip, own))
  {
    hide Get16, HasRoute, Lookup, FirstRoute, Forward;
    var route := Lookup(routes, ip);
    LookupIsFirst(routes, ip, route);
    if route < |routes| && t[TTL] > 1 {
      ForwardBytes(t, routes[route].mac, own);
    }
  }

  lemma ForwardBytes(t: Frame, hop: Mac, own: Mac)
    requires t[TTL] > 1
    ensures var r := Forward(t, hop, own);
            && r[22] as int == t[22] as int - 1 && r[..6] == hop && r[6..12] == own
            && (forall k | 12 <= k < |t| && k != 22 && k != 24 && k != 25 :: r[k] == t[k])
            && Get16(r, 24) == IpChecksum(t[22 := t[22] - 1][24 := 0][25 := 0], 14, 4 * (t[14] % 16))
  {
    hide IpChecksum;
    var p1 := t[TTL := t[TTL] - 1];
    var r, p2 := Forward(t, hop, own), Put16(p1, IP_CSUM, HeaderChecksum(p1));
    SameWordSameBytes(r, p2, IP_CSUM);
  }

  lemma ReaddressOut(st: Nat.State, keys: seq<Nat.Key>, pkt: Frame, len: u16)
    requires Nat.Represents(st, keys) && Examined(pkt, len) && DstIp(pkt) != WAN_IP
    ensures var r := Outward(st, 1, pkt, len);
            Readdress(keys, 1, pkt, len, r.pkt) && Nat.Represents(r.st, Known(keys, 1, pkt, len))
  {
    hide Rewrite, Get16, Get32, Nat.Outbound, Nat.Represents, Nat.ExternalPort;
    Nat.OutboundStep(st, keys, pkt, len);
    var known := Known(keys, 1, pkt, len);
    KnownBounded(Nat.Outbound(st, pkt, len).st, known);
    if Nat.Outbound(st, pkt, len).ok {
      var i :| 0 <= i < |known| && known[i] == Nat.SourceKey(pkt);
      assert Leaves(known, i, 1, pkt, len);
    }
  }

  lemma KnownBounded(st: Nat.State, keys: seq<Nat.Key>)
    requires Nat.Represents(st, keys)
    ensures |keys| <= Nat.MAX_ENTRIES
  {
  }

  lemma ReaddressIn(st: Nat.State, keys: seq<Nat.Key>, pkt: Frame, len: u16)
    requires Nat.Represents(st, keys) && Examined(pkt, len) && DstIp(pkt) == WAN_IP
    ensures var r := Inward(st, 0, pkt, len);
            && Readdress(keys, 0, pkt, len, r.pkt) && Nat.Represents(r.st, Known(keys, 0, pkt, len))
            && (r.ok <==> IsRouted(keys, 0, pkt, len))
  {
    hide Rewrite, Get16, Get32, Nat.Inbound, Nat.Represents, Nat.ExternalPort;
    Nat.InboundStep(st, keys, pkt, len);
    if Nat.Inbound(st, pkt, len).ok {
      var i :| 0 <= i < |keys| && Nat.Owns(keys, i, DstPort(pkt), Protocol(pkt));
      assert Enters(keys, i, 0, pkt, len);
    }
  }

  lemma ReaddressNone(keys: seq<Nat.Key>, dev: nat, pkt: Frame, len: u16)
    requires Examined(pkt, len) ==> (DstIp(pkt) == WAN_IP && dev != 0) || (DstIp(pkt) != WAN_IP && dev != 1)
    ensures Readdress(keys, dev, pkt, len, pkt) && Known(keys, dev, pkt, len) == keys
    ensures IsRouted(keys, dev, pkt, len) <==> Examined(pkt, len) && DstIp(pkt) != WAN_IP
  {
    hide Rewrite, Get32;
  }

  lemma KeptItself(pkt: Frame)
    ensures Kept(pkt, pkt)
  {
  }

  lemma NotTranslated(st: Nat.State, dev: nat, pkt: Frame, len: u16)
    ensures var r := Inward(st, dev, pkt, len);
            !r.ok ==> r.st == st && r.pkt == pkt
  {
    hide Rewrite;
  }
}
