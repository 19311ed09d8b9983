/** Packets for which the translation of transport checksums goes wrong, and a run of the router in
    which a frame is overwritten before it is sent. */
module Counterexamples {
  import opened Bytes
  import opened Checksum
  import opened Packet
  import opened NatTable
  import opened NatRuns
  import opened Validity
  import opened Transport
  import opened RoundTrip
  import opened Routing
  import opened FastPath
  import opened Machine
  import opened Timeouts
  import opened EndToEnd
  import Rings

  /** From 192.168.1.10, with the addresses and the word of the IPv4 header that depends on them. */
  function Ip(protocol: u8, length: u8, csumHigh: u8, csumLow: u8): seq<u8> {
    [0, 0, 0, 0, 0, 0, 0, 0, 0, 0, 0, 0, 0x08, 0x00,
     0x45, 0, 0, length, 0, 0, 0, 0, 64, protocol, csumHigh, csumLow, 192, 168, 1, 10, 8, 8, 8, 8]
  }

  /** A UDP datagram from port 12345 to 8.8.8.8, port 8303, without data. */
  function Datagram(): (r: seq<u8>)
    ensures Buffered(r) && FullHeader(r)
  {
    Ip(UDP, 28, 0xA9, 0x0F) + [0x30, 0x39, 0x20, 0x6F, 0, 8, 0xDD, 0x73] + [0, 0, 0, 0, 0, 0, 0, 0, 0, 0]
  }

  /** A TCP segment from port 12345 to 8.8.8.8, port 80, whose checksum happens to be 0. */
  function Segment(): (r: seq<u8>)
    ensures Buffered(r) && FullHeader(r)
  {
    Ip(TCP, 40, 0xA9, 0x0E) + [0x30, 0x39, 0, 80, 0, 0, 0x8D, 0x81, 0, 0, 0, 0, 0x50, 0x18, 0x20, 0, 0, 0, 0, 0]
  }

  /** A half-word in network byte order. */
  function Be(b: seq<u8>, at: nat): nat
    requires at + 2 <= |b|
  {
    0x100 * b[at] as int + b[at + 1] as int
  }

  lemma NextWord(b: seq<u8>, from: nat, n: nat)
    requires from + 2 * n + 2 <= |b|
    ensures NetworkSum(b, from, n + 1) == NetworkSum(b, from, n) + Be(b, from + 2 * n)
  {
    hide Swap;
    SwapBytes(b[from + 2 * n], b[from + 2 * n + 1]);
  }

  lemma FourWords(b: seq<u8>, from: nat)
    requires from + 8 <= |b|
    ensures NetworkSum(b, from, 4) == Be(b, from) + Be(b, from + 2) + Be(b, from + 4) + Be(b, from + 6)
  {
    hide Be;
    NextWord(b, from, 0);
    NextWord(b, from, 1);
    NextWord(b, from, 2);
    NextWord(b, from, 3);
  }

  lemma TenWords(b: seq<u8>, from: nat)
    requires from + 20 <= |b|
    ensures NetworkSum(b, from, 10)
            == Be(b, from) + Be(b, from + 2) + Be(b, from + 4) + Be(b, from + 6) + Be(b, from + 8)
               + Be(b, from + 10) + Be(b, from + 12) + Be(b, from + 14) + Be(b, from + 16) + Be(b, from + 18)
  {
    hide Be;
    FourWords(b, from);
    NextWord(b, from, 4);
    NextWord(b, from, 5);
    NextWord(b, from, 6);
    NextWord(b, from, 7);
    NextWord(b, from, 8);
    NextWord(b, from, 9);
  }

  lemma TwiceOnes()
    ensures Fold(2 * M) == 0xFFFF
  {
    FoldUnique(0xFFFF, 2 * M, -1);
  }

  /** Both packets are what a receiver accepts. */
  lemma HeadersValid()
    ensures HeaderVerifies(Datagram()) && HeaderVerifies(Segment())
  {
    hide NetworkSum, Fold;
    TenWords(Datagram(), 14);
    TenWords(Segment(), 14);
    TwiceOnes();
  }

  lemma DatagramValid()
    ensures Holds(Datagram(), 8) && SegmentVerifies(Datagram(), 8)
  {
    hide NetworkSum, Fold;
    FourWords(Datagram(), SRC_IP);
    FourWords(Datagram(), 34);
    TwiceOnes();
  }

  lemma SegmentValid()
    ensures Holds(Segment(), 20) && SegmentVerifies(Segment(), 20)
  {
    hide NetworkSum, Fold;
    FourWords(Segment(), SRC_IP);
    TenWords(Segment(), 34);
    TwiceOnes();
  }

  /** The fields that decide, from the bytes. */
  lemma Fields(pkt: Buf)
    requires pkt[14] == 0x45 && pkt[26] == 192 && pkt[27] == 168 && pkt[28] == 1 && pkt[29] == 10
    requires pkt[34] == 0x30 && pkt[35] == 0x39 && pkt[24] == 0xA9
    ensures FullHeader(pkt) && Get16(pkt, IP_CSUM) != 0xFFFF
    ensures Endpoint(pkt, Source) == 0xEBF1
  {
    assert Get32(pkt, SRC_IP) == 0x0A01A8C0 && Get16(pkt, 34) == 0x3930;
  }

  lemma DatagramFields()
    ensures FullHeader(Datagram()) && HasPorts(Datagram()) && Get16(Datagram(), IP_CSUM) != 0xFFFF
    ensures Endpoint(Datagram(), Source) == 0xEBF1 && L4Csum(Datagram()) == 0x73DD
  {
    hide Endpoint;
    Fields(Datagram());
  }

  lemma SegmentFields()
    ensures FullHeader(Segment()) && HasPorts(Segment())
    ensures Endpoint(Segment(), Source) == 0xEBF1 && L4Csum(Segment()) == 0
  {
    hide Endpoint;
    Fields(Segment());
  }

  lemma FirstPort()
    ensures ExternalPort(0) == 0x50C3 && EndpointSum(WAN_IP, 0x50C3) == 0x5FCF
  {
  }

  /** The first session of all gets the first port. */
  lemma FirstTranslation(pkt: Buf, len: u16)
    requires len >= 34 && HasPorts(pkt)
    ensures Outbound(Initial, pkt, len).ok && Outbound(Initial, pkt, len).pkt == Rewrite(pkt, Source, WAN_IP, 0x50C3)
  {
    FirstPort();
    InitialRepresents();
    hide Get16, Get32, Rewrite, Outbound, ExternalPort, Represents;
    OutboundStep(Initial, [], pkt, len);
    assert LearnFrom([], pkt, len)[0] == SourceKey(pkt);
  }

  /** A valid datagram that the first translation gives the checksum 0, the mark of its absence: the
      answer to it, however much later, comes back without the original checksum. */
  lemma ChecksumLost(others: seq<Call>, answerLen: u16)
    ensures HeaderVerifies(Datagram()) && Holds(Datagram(), 8) && SegmentVerifies(Datagram(), 8)
    ensures var out := Outbound(Initial, Datagram(), 42);
            && out.ok && Buffered(out.pkt) && L4Csum(out.pkt) == 0 && Buffered(Mirror(out.pkt))
            && var back := Inbound(Run(out.st, others), Mirror(out.pkt), answerLen);
            Buffered(back.pkt) && (answerLen >= 34 ==> back.ok && Mirror(back.pkt) != Datagram())
  {
    HeadersValid();
    DatagramValid();
    DatagramFields();
    FirstPort();
    FirstTranslation(Datagram(), 42);
    InitialRepresents();
    hide Datagram, Get16, Get32, Rewrite, Outbound, Inbound, Run, Mirror, HeaderVerifies, SegmentVerifies, EndpointSum,
         NewL4Csum, Csum4, ExternalPort, L4Csum, Represents;
    AnswerReturns(Initial, [], Datagram(), 42, others, answerLen);
    RewriteFields(Datagram(), Source, WAN_IP, 0x50C3);
    var k := NewL4CsumShift(0x73DD, SrcIp(Datagram()), WAN_IP, SrcPort(Datagram()), 0x50C3);
    ZeroIffMultiple(L4Csum(Outbound(Initial, Datagram(), 42).pkt), M, k);
  }

  /** A valid segment whose checksum field is 0 is translated without touching that field, and its
      receiver then rejects it. */
  lemma ZeroChecksumSpoiled()
    ensures HeaderVerifies(Segment()) && Holds(Segment(), 20) && SegmentVerifies(Segment(), 20)
    ensures var out := Outbound(Initial, Segment(), 54);
            out.ok && Buffered(out.pkt) && Holds(out.pkt, 20) && !SegmentVerifies(out.pkt, 20)
  {
    HeadersValid();
    SegmentValid();
    SegmentFields();
    hide Segment, Outbound, Rewrite, HeaderVerifies, SegmentVerifies, Holds, Endpoint, L4Csum;
    FirstTranslation(Segment(), 54);
    ZeroSpoils(Segment(), 20);
  }

  lemma ZeroSpoils(pkt: Buf, n: nat)
    requires Holds(pkt, n) && SegmentVerifies(pkt, n) && L4Csum(pkt) == 0 && Endpoint(pkt, Source) == 0xEBF1
    ensures var r := Rewrite(pkt, Source, WAN_IP, 0x50C3);
            Buffered(r) && Holds(r, n) && !SegmentVerifies(r, n)
  {
    FirstPort();
    hide Rewrite, SegmentVerifies, Holds, Endpoint, EndpointSum, L4Csum;
    RewriteKeepsSegmentValid(pkt, Source, WAN_IP, 0x50C3, n);
  }

  // ----- a frame overwritten before it is sent

  /** The packet that `kmain` tries the fast path with, from 10.0.2.2 to 192.168.1.10. */
  function Trial(): (d: Data)
    ensures |d| == 64
  {
    [0x52, 0x54, 0x00, 0x12, 0x34, 0x56, 0x52, 0x54, 0x00, 0xAA, 0xBB, 0xCC, 0x08, 0x00,
     0x45, 0, 0, 0x2E, 0, 0, 0, 0, 64, 1, 0, 0, 10, 0, 2, 2, 192, 168, 1, 10,
     0, 1, 2, 3] + seq(26, _ => 0)
  }

  /** 192.168.1.10 as loaded. */
  const HOST: u32 := 0x0A01_A8C0

  /** Every routing table used has a route to the host. */
  ghost predicate Routed(c: Setup) { forall j: nat :: HasRoute(c.tables(j), HOST) }

  lemma KernelReplies(c: Setup)
    requires Routed(c)
    ensures Replies(Kernel(c), Trial())
  {
    forall app: App, f: Rings.Frame | Rings.Carries(f, Trial())
      ensures Kernel(c)(app, 0, f).send
    {
      CarriesTrial(f);
      Forwarded(c, app, f);
    }
  }

  lemma CarriesTrial(f: Rings.Frame)
    requires Rings.Carries(f, Trial())
    ensures f.len == 64 && IsIpv4(f.buf) && f.buf[TTL] == 64 && DstIp(f.buf) == HOST
  {
    var d := Trial();
    assert d[12] == 0x08 && d[13] == 0 && d[22] == 64 && d[30] == 192 && d[31] == 168 && d[32] == 1 && d[33] == 10;
    hide Trial;
    assert forall k | 0 <= k < 64 :: f.buf[k] == f.buf[..f.len][k] == d[k];
  }

  lemma Forwarded(c: Setup, app: App, f: Rings.Frame)
    requires Routed(c) && f.len == 64 && IsIpv4(f.buf) && f.buf[TTL] == 64 && DstIp(f.buf) == HOST
    ensures Handle(c, app, 0, f).verdict == Transmit
  {
    hide Lookup, Forward, Get32, HasRoute;
    assert HasRoute(c.tables(app.seen), HOST);
    LookupIsFirst(c.tables(app.seen), HOST, 0);
  }

  /** A run of the router itself: the packet is received twice, both waits expire, and then the same
      packet but for its first byte fills the ring. With any routing tables that have a route to
      the host, the wire of interface 0 ends up carrying a frame that the fast path did not make. */
  lemma FrameOverwritten(c: Setup, s: Sys<App>) returns (b: u8)
    requires Booted(s) && Sound(s) && Quiet(s.nics[0]) && Routed(c)
    ensures !InStep(Kernel(c), s, Exec(Kernel(c), s, Impatience(Trial()) + [Driver] + Moves(0, Flood(Trial()[0 := b]))), 0)
  {
    KernelReplies(c);
    hide Booted, Sound, Quiet, Routed, Replies, Kernel, Trial, InStep, Exec, Impatience, Flood;
    b := ImpatienceSpoils(Kernel(c), s, Trial());
  }

  /** With the routes the router boots with, for example. */
  lemma BootedIsRouted(macs: seq<Mac>)
    ensures Routed(Setup(_ => [BootRoute], macs))
  {
    var routes := [BootRoute];
    BootRouteReaches([192, 168, 1, 10], 0);
    assert Get32([192, 168, 1, 10], 0) == HOST;
    hide Reaches;
    assert Reaches(routes[0], HOST);
  }
}
