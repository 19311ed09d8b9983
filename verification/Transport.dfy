/** What a translation does to the TCP or UDP checksum as the receiver sees it: over the
    pseudo-header and the whole segment, in network byte order. */
module Transport {
  import opened Bytes
  import opened Checksum
  import opened Packet

  /** The shortest transport header: 20 bytes for TCP, 8 for UDP. */
  function MinSegment(pkt: Buf): nat { if Protocol(pkt) == TCP then 20 else 8 }

  /** A segment of `n` bytes lies in the buffer and holds its own header. */
  predicate Holds(pkt: Buf, n: nat) {
    FullHeader(pkt) && HasPorts(pkt) && MinSegment(pkt) <= n && L4(pkt) + n <= |pkt|
  }

  /** Addresses, protocol and length (RFC 768, section 3.1 of RFC 9293), then the segment, a last
      odd byte being padded with zero. */
  function SegmentSum(pkt: Buf, n: nat): nat
    requires Holds(pkt, n)
  {
    NetworkSum(pkt, SRC_IP, 4) + Protocol(pkt) + n
    + NetworkSum(pkt, L4(pkt), n / 2) + if n % 2 == 1 then 0x100 * pkt[L4(pkt) + n - 1] as int else 0
  }

  predicate SegmentVerifies(pkt: Buf, n: nat)
    requires Holds(pkt, n)
  {
    Fold(SegmentSum(pkt, n)) == 0xFFFF
  }

  // ----- sums of two buffers that differ in two words

  function Word(b: seq<u8>, from: nat, w: nat): u16
    requires from + 2 * w + 2 <= |b|
  {
    Get16(b, from + 2 * w)
  }

  function Delta(a: seq<u8>, b: seq<u8>, from: nat, w: nat): int
    requires from + 2 * w + 2 <= |a| == |b|
  {
    Swap(Word(b, from, w)) - Swap(Word(a, from, w))
  }

  lemma {:induction false} NetworkSumDiffers(a: seq<u8>, b: seq<u8>, from: nat, n: nat, i: nat, j: nat)
    requires |a| == |b| && from + 2 * n <= |a| && i != j
    requires forall w | 0 <= w < n && w != i && w != j :: Word(a, from, w) == Word(b, from, w)
    ensures NetworkSum(b, from, n) - NetworkSum(a, from, n)
            == (if i < n then Delta(a, b, from, i) else 0) + if j < n then Delta(a, b, from, j) else 0
  {
    hide Swap, Get16;
    if n > 0 {
      NetworkSumDiffers(a, b, from, n - 1, i, j);
      assert Word(a, from, n - 1) == Word(b, from, n - 1) || n - 1 == i || n - 1 == j;
    }
  }

  lemma AddressDelta(pkt: Buf, r: Buf, side: Side)
    requires FullHeader(pkt) && |r| == |pkt|
    requires forall k | SRC_IP <= k < SRC_IP + 8 && !(IpAt(side) <= k < IpAt(side) + 4) :: r[k] == pkt[k]
    ensures var old32, new32 := Get32(pkt, IpAt(side)), Get32(r, IpAt(side));
            NetworkSum(r, SRC_IP, 4) - NetworkSum(pkt, SRC_IP, 4)
            == Swap(Low(new32)) - Swap(Low(old32)) + Swap(High(new32)) - Swap(High(old32))
  {
    hide Swap, NetworkSum;
    var i := if side == Source then 0 else 2;
    assert forall w | 0 <= w < 4 && w != i && w != i + 1 :: Word(pkt, SRC_IP, w) == Word(r, SRC_IP, w);
    NetworkSumDiffers(pkt, r, SRC_IP, 4, i, i + 1);
    Halves(pkt, IpAt(side));
    Halves(r, IpAt(side));
  }

  lemma PortDelta(pkt: Buf, r: Buf, side: Side, n: nat)
    requires Holds(pkt, n) && |r| == |pkt| && L4(r) == L4(pkt) && Protocol(r) == Protocol(pkt)
    requires forall k | L4(pkt) <= k < |pkt| && !Touched(pkt, side, k) :: r[k] == pkt[k]
    ensures var at := PortAt(pkt, side);
            NetworkSum(r, L4(pkt), n / 2) - NetworkSum(pkt, L4(pkt), n / 2)
            == Swap(Get16(r, at)) - Swap(Get16(pkt, at)) + Swap(L4Csum(r)) - Swap(L4Csum(pkt))
    ensures n % 2 == 1 ==> r[L4(pkt) + n - 1] == pkt[L4(pkt) + n - 1]
  {
    hide Swap, NetworkSum;
    var i := if side == Source then 0 else 1;
    var j := if Protocol(pkt) == TCP then 8 else 3;
    assert forall w | 0 <= w < n / 2 && w != i && w != j :: Word(pkt, L4(pkt), w) == Word(r, L4(pkt), w);
    NetworkSumDiffers(pkt, r, L4(pkt), n / 2, i, j);
  }

  /** Sum of the words of an endpoint. */
  function EndpointSum(ip: u32, port: u16): nat { High(ip) + Low(ip) + port }

  function Endpoint(pkt: Buf, side: Side): nat {
    EndpointSum(Get32(pkt, IpAt(side)), Get16(pkt, PortAt(pkt, side)))
  }

  /** The exchange of an endpoint moves the sum by 256 times the change of endpoint and checksum. */
  lemma SegmentSumMoves(pkt: Buf, side: Side, ip: u32, port: u16, n: nat) returns (q: int)
    requires Holds(pkt, n)
    ensures var r := Rewrite(pkt, side, ip, port);
            && Buffered(r) && Holds(r, n)
            && SegmentSum(r, n) == SegmentSum(pkt, n) + M * q
               + 0x100 * (EndpointSum(ip, port) + L4Csum(r) - Endpoint(pkt, side) - L4Csum(pkt))
  {
    hide Csum2, Csum4, NewL4Csum, Rewrite, Swap, Get16, Get32, NetworkSum, Low, High;
    var r := Rewrite(pkt, side, ip, port);
    RewriteFields(pkt, side, ip, port);
    AddressDelta(pkt, r, side);
    PortDelta(pkt, r, side, n);
    var oldIp, oldPort := Get32(pkt, IpAt(side)), Get16(pkt, PortAt(pkt, side));
    var q1 := SwapDifference(Low(oldIp), Low(ip));
    var q2 := SwapDifference(High(oldIp), High(ip));
    var q3 := SwapDifference(oldPort, port);
    var q4 := SwapDifference(L4Csum(pkt), L4Csum(r));
    q := q1 + q2 + q3 + q4;
  }

  lemma SwapDifference(a: u16, b: u16) returns (q: int)
    ensures Swap(b) - Swap(a) == 0x100 * (b - a) + M * q
  {
    SwapScales(a);
    SwapScales(b);
    q := a / 0x100 - b / 0x100;
  }

  /** A nonzero checksum absorbs the change of endpoint, modulo 65535. */
  lemma NewL4CsumShift(c: u16, oldIp: u32, ip: u32, oldPort: u16, port: u16) returns (k: int)
    requires c != 0
    ensures NewL4Csum(c, oldIp, ip, oldPort, port) + EndpointSum(ip, port) == c + EndpointSum(oldIp, oldPort) + M * k
    ensures NewL4Csum(c, oldIp, ip, oldPort, port) == 0xFFFF
            <==> c == 0xFFFF && oldIp == 0xFFFF_FFFF && ip == 0 && oldPort == 0xFFFF && port == 0
  {
    hide Csum2, Csum4, High, Low;
    var k1 := Csum4Shift(c, oldIp, ip);
    var k2 := Csum2Shift(Csum4(c, oldIp, ip), oldPort, port);
    k := k1 + k2 - 1;
  }

  /** Translation preserves the validity of every segment with a nonzero checksum, whatever its
      length; a zero checksum is left alone, and then validity survives exactly when the old and
      the new endpoint have the same sum modulo 65535. */
  lemma RewriteKeepsSegmentValid(pkt: Buf, side: Side, ip: u32, port: u16, n: nat)
    requires Holds(pkt, n)
    ensures var r := Rewrite(pkt, side, ip, port);
            && Buffered(r) && Holds(r, n)
            && (L4Csum(pkt) != 0 ==> (SegmentVerifies(r, n) <==> SegmentVerifies(pkt, n)))
            && (L4Csum(pkt) == 0 && SegmentVerifies(pkt, n) ==>
                  (SegmentVerifies(r, n) <==> Multiple(EndpointSum(ip, port) - Endpoint(pkt, side))))
  {
    hide Rewrite, NewL4Csum, EndpointSum, Endpoint, NetworkSum, Fold, L4Csum;
    var r := Rewrite(pkt, side, ip, port);
    var q := SegmentSumMoves(pkt, side, ip, port, n);
    var d := EndpointSum(ip, port) + L4Csum(r) - Endpoint(pkt, side) - L4Csum(pkt);
    var k := ChecksumMoves(pkt, side, ip, port);
    if L4Csum(pkt) != 0 {
      SameFold(SegmentSum(r, n), SegmentSum(pkt, n), 0x100 * k + q);
    } else if SegmentVerifies(pkt, n) {
      ShiftedFold(SegmentSum(r, n), SegmentSum(pkt, n), d, q);
    }
  }

  lemma ChecksumMoves(pkt: Buf, side: Side, ip: u32, port: u16) returns (k: int)
    requires FullHeader(pkt)
    ensures var r := Rewrite(pkt, side, ip, port);
            && Buffered(r)
            && (L4Csum(pkt) == 0 ==> L4Csum(r) == 0)
            && (L4Csum(pkt) != 0 ==>
                  EndpointSum(ip, port) + L4Csum(r) - Endpoint(pkt, side) - L4Csum(pkt) == M * k)
  {
    hide Rewrite, EndpointSum;
    RewriteFields(pkt, side, ip, port);
    k := 0;
    if L4Csum(pkt) != 0 {
      hide NewL4Csum;
      k := NewL4CsumShift(L4Csum(pkt), Get32(pkt, IpAt(side)), ip, Get16(pkt, PortAt(pkt, side)), port);
    }
  }

  predicate Multiple(d: int) { d % M == 0 }

  lemma SameFold(x: nat, y: nat, k: int)
    requires x == y + M * k && x > 0 && y > 0
    ensures Fold(x) == Fold(y)
  {
    FoldPreserves(y);
    var carries: int := Carries(y);
    FoldUnique(Fold(y), x, -carries - k);
  }

  /** 256 is invertible modulo 65535. */
  lemma ShiftedFold(x: nat, y: nat, d: int, q: int)
    requires x == y + 0x100 * d + M * q && x > 0 && y > 0 && Fold(y) == 0xFFFF
    ensures Fold(x) == 0xFFFF <==> Multiple(d)
  {
    FoldPreserves(x);
    FoldPreserves(y);
    if Multiple(d) {
      var k := d / M;
      SameFold(x, y, 0x100 * k + q);
    }
    if Fold(x) == 0xFFFF {
      var k := Carries(x) - Carries(y) - q;
      assert 0x100 * d == M * k;
      assert d == M * (0x100 * k - d);
    }
  }
}
