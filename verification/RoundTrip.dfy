/** A packet sent out, answered by its mirror image and translated back. */
module RoundTrip {
  import opened Bytes
  import opened Checksum
  import opened Packet
  import opened NatTable
  import opened NatRuns
  import opened Transport

  /** Exchanges the two endpoints, as the peer does in its answer. */
  function Mirror(pkt: Buf): (r: seq<u8>)
    ensures |r| == |pkt|
  {
    var p1 := Put32(Put32(pkt, SRC_IP, DstIp(pkt)), DST_IP, SrcIp(pkt));
    Put16(Put16(p1, L4(pkt), DstPort(pkt)), L4(pkt) + 2, SrcPort(pkt))
  }

  predicate IsEndpointByte(pkt: Buf, k: nat) {
    SRC_IP <= k < SRC_IP + 8 || L4(pkt) <= k < L4(pkt) + 4
  }

  lemma MirrorFields(pkt: Buf)
    requires FullHeader(pkt)
    ensures var r := Mirror(pkt);
            && Buffered(r) && L4(r) == L4(pkt) && Protocol(r) == Protocol(pkt)
            && SrcIp(r) == DstIp(pkt) && DstIp(r) == SrcIp(pkt)
            && SrcPort(r) == DstPort(pkt) && DstPort(r) == SrcPort(pkt)
            && Get16(r, IP_CSUM) == Get16(pkt, IP_CSUM) && L4Csum(r) == L4Csum(pkt)
            && forall k | 0 <= k < |pkt| && !IsEndpointByte(pkt, k) :: r[k] == pkt[k]
  {
  }

  /** Two packets that agree on all fields and on all other bytes are equal. */
  lemma SameFieldsSamePacket(a: Buf, b: Buf)
    requires FullHeader(a) && |a| == |b| && L4(a) == L4(b) && Protocol(a) == Protocol(b)
    requires SrcIp(a) == SrcIp(b) && DstIp(a) == DstIp(b) && SrcPort(a) == SrcPort(b) && DstPort(a) == DstPort(b)
    requires forall k | 0 <= k < |a| && !IsEndpointByte(a, k) && !Touched(a, Source, k) :: a[k] == b[k]
    ensures a == b <==> Get16(a, IP_CSUM) == Get16(b, IP_CSUM) && L4Csum(a) == L4Csum(b)
  {
    SameDoubleWordSameBytes(a, b, SRC_IP);
    SameDoubleWordSameBytes(a, b, DST_IP);
    SameWordSameBytes(a, b, L4(a));
    SameWordSameBytes(a, b, L4(a) + 2);
    SameWordSameBytes(a, b, IP_CSUM);
    SameWordSameBytes(a, b, L4CsumAt(a));
    hide Get16, Get32;
    if Get16(a, IP_CSUM) == Get16(b, IP_CSUM) && L4Csum(a) == L4Csum(b) {
      forall k | 0 <= k < |a|
        ensures a[k] == b[k]
      {
      }
    }
  }

  /** What a sender can check beforehand: the stored checksums are not the two values that the
      arithmetic cannot tell apart from another, and the transport checksum, if there is one, is
      not translated to 0, the mark of its absence. */
  predicate Reversible(pkt: Buf, ip: u32, port: u16) {
    && Get16(pkt, IP_CSUM) != 0xFFFF
    && (L4Csum(pkt) == 0
        || (L4Csum(pkt) != 0xFFFF && !Multiple(L4Csum(pkt) + Endpoint(pkt, Source) - EndpointSum(ip, port))))
  }

  /** There and back again for the transport checksum. */
  lemma NewL4CsumUndo(c: u16, ip: u32, port: u16, ip': u32, port': u16)
    ensures NewL4Csum(NewL4Csum(c, ip, ip', port, port'), ip', ip, port', port) == c
            <==> c == 0 || (c != 0xFFFF && !Multiple(c + EndpointSum(ip, port) - EndpointSum(ip', port')))
  {
    hide NewL4Csum, EndpointSum, Multiple;
    ZeroStays(ip, port, ip', port');
    ZeroStays(ip', port', ip, port);
    if c != 0 {
      var d := NewL4Csum(c, ip, ip', port, port');
      var k := NewL4CsumShift(c, ip, ip', port, port');
      if d == 0 || c != 0xFFFF {
        ZeroIffMultiple(d, c + EndpointSum(ip, port) - EndpointSum(ip', port'), k);
      }
      if d != 0 {
        var l := NewL4CsumShift(d, ip', ip, port', port);
      }
    }
  }

  lemma ZeroStays(ip: u32, port: u16, ip': u32, port': u16)
    ensures NewL4Csum(0, ip, ip', port, port') == 0
  {
  }

  lemma ZeroIffMultiple(d: u16, x: int, k: int)
    requires d == x + M * k && d != 0xFFFF
    ensures d == 0 <==> Multiple(x)
  {
  }

  /** Where the key is, or would be added. */
  function Position(keys: seq<Key>, key: Key): (i: nat)
    ensures i <= |keys|
    ensures i < |keys| <==> key in keys
    ensures i < |keys| ==> keys[i] == key
  {
    if keys == [] || keys[0] == key then 0 else 1 + Position(keys[1..], key)
  }

  /** A packet is translated exactly when its key has a slot or there is room for one. The answer to
      it, arriving after any number of other calls, is translated back unless it is too short; and
      it mirrors the original byte for byte exactly when the original is reversible, which the
      table before the call decides. */
  lemma AnswerReturns(st: State, keys: seq<Key>, pkt: Buf, len: u16, others: seq<Call>, answerLen: u16)
    requires Represents(st, keys) && FullHeader(pkt)
    ensures var out, i := Outbound(st, pkt, len), Position(keys, SourceKey(pkt));
            && (out.ok <==> len >= 34 && HasPorts(pkt) && i < MAX_ENTRIES)
            && (out.ok ==>
                  && Buffered(out.pkt) && Buffered(Mirror(out.pkt))
                  && var back := Inbound(Run(out.st, others), Mirror(out.pkt), answerLen);
                  && (back.ok <==> answerLen >= 34)
                  && Buffered(back.pkt)
                  && (back.ok ==> (Mirror(back.pkt) == pkt <==> Reversible(pkt, WAN_IP, ExternalPort(i)))))
  {
    hide Get16, Get32, Rewrite, NewL4Csum, Mirror, EndpointSum, Swap, L4Csum, Csum4, Multiple, Run, LearnAll, First, Reversible;
    OutboundStep(st, keys, pkt, len);
    var out, known, i := Outbound(st, pkt, len), LearnFrom(keys, pkt, len), Position(keys, SourceKey(pkt));
    if out.ok {
      assert known[i] == SourceKey(pkt);
      BackIsOriginal(pkt, ExternalPort(i));
      RewriteFields(pkt, Source, WAN_IP, ExternalPort(i));
      var m := Mirror(out.pkt);
      MirrorFields(out.pkt);
      RunRepresents(out.st, known, others);
      InboundStep(Run(out.st, others), LearnAll(known, others), m, answerLen);
      assert Owns(LearnAll(known, others), i, DstPort(m), Protocol(m));
    }
  }

  /** The byte-level half: translating the answer to the original endpoint. */
  lemma BackIsOriginal(pkt: Buf, port: u16)
    requires FullHeader(pkt)
    ensures var out := Rewrite(pkt, Source, WAN_IP, port);
            && Buffered(out) && Buffered(Mirror(out))
            && var back := Rewrite(Mirror(out), Destination, SrcIp(pkt), SrcPort(pkt));
            Buffered(back) && (Mirror(back) == pkt <==> Reversible(pkt, WAN_IP, port))
  {
    hide Get16, Get32, Rewrite, NewL4Csum, Mirror, EndpointSum, Swap, Csum4, Multiple;
    var out := Rewrite(pkt, Source, WAN_IP, port);
    RewriteFields(pkt, Source, WAN_IP, port);
    MirrorFields(out);
    var m := Mirror(out);
    RewriteFields(m, Destination, SrcIp(pkt), SrcPort(pkt));
    var back := Rewrite(m, Destination, SrcIp(pkt), SrcPort(pkt));
    MirrorFields(back);
    Csum4Undo(Get16(pkt, IP_CSUM), SrcIp(pkt), WAN_IP);
    NewL4CsumUndo(L4Csum(pkt), SrcIp(pkt), SrcPort(pkt), WAN_IP, port);
    OtherEndpointKept(pkt, out, Source);
    OtherEndpointKept(m, back, Destination);
    SameFieldsSamePacket(Mirror(back), pkt);
  }

  /** A translation leaves the other endpoint alone. */
  lemma OtherEndpointKept(pkt: Buf, r: Buf, side: Side)
    requires FullHeader(pkt) && |r| == |pkt| && L4(r) == L4(pkt)
    requires forall k | 0 <= k < |pkt| && !Touched(pkt, side, k) :: r[k] == pkt[k]
    ensures side == Source ==> DstIp(r) == DstIp(pkt) && DstPort(r) == DstPort(pkt)
    ensures side == Destination ==> SrcIp(r) == SrcIp(pkt) && SrcPort(r) == SrcPort(pkt)
  {
  }
}
