/** Fields of an Ethernet frame that carries IPv4, and the in-place rewriting that both directions
    of the NAT engine perform on it. Addresses and ports are the raw little-endian loads. */
module Packet {
  import opened Bytes
  import opened Checksum

  const TCP: u8 := 6
  const UDP: u8 := 17

  /** 10.0.2.15 as loaded on a little-endian machine. */
  const WAN_IP: u32 := 0x0F02000A

  const IP_CSUM := 24
  const SRC_IP := 26
  const DST_IP := 30

  /** Offset of the transport header: 14 plus four times the IHL nibble. */
  function L4(pkt: seq<u8>): nat
    requires |pkt| >= 34
  {
    14 + pkt[14] % 0x10 * 4
  }

  /** The memory behind the packet pointer covers every access of the NAT engine, which looks up
      to 18 bytes into the transport header whatever `len` says. */
  predicate Buffered(pkt: seq<u8>) {
    |pkt| >= 34 && |pkt| >= L4(pkt) + 18
  }

  type Buf = pkt: seq<u8> | Buffered(pkt) witness seq(34, _ => 0)

  /** Section 3.1 of RFC 791: a header is at least five words. Below that the transport fields
      alias the IP header. */
  predicate FullHeader(pkt: Buf) { L4(pkt) >= 34 }

  function Protocol(pkt: Buf): u8 { pkt[23] }

  predicate HasPorts(pkt: Buf) { Protocol(pkt) == TCP || Protocol(pkt) == UDP }

  function SrcIp(pkt: Buf): u32 { Get32(pkt, SRC_IP) }

  function DstIp(pkt: Buf): u32 { Get32(pkt, DST_IP) }

  function SrcPort(pkt: Buf): u16 { Get16(pkt, L4(pkt)) }

  function DstPort(pkt: Buf): u16 { Get16(pkt, L4(pkt) + 2) }

  /** Offset of the transport checksum. */
  function L4CsumAt(pkt: Buf): nat {
    L4(pkt) + if Protocol(pkt) == TCP then 16 else 6
  }

  function L4Csum(pkt: Buf): u16 { Get16(pkt, L4CsumAt(pkt)) }

  /** Which endpoint of the packet is translated. */
  datatype Side = Source | Destination

  function IpAt(side: Side): nat { if side == Source then SRC_IP else DST_IP }

  function PortAt(pkt: Buf, side: Side): nat { if side == Source then L4(pkt) else L4(pkt) + 2 }

  function NewL4Csum(c: u16, oldIp: u32, newIp: u32, oldPort: u16, newPort: u16): u16 {
    if c == 0 then 0 else Csum2(Csum4(c, oldIp, newIp), oldPort, newPort)
  }

  /** Replaces one endpoint and patches both checksums, in the order of the stores. */
  function Rewrite(pkt: Buf, side: Side, ip: u32, port: u16): (r: seq<u8>)
    ensures |r| == |pkt|
  {
    var oldIp, oldPort := Get32(pkt, IpAt(side)), Get16(pkt, PortAt(pkt, side));
    var p1 := Put16(pkt, IP_CSUM, Csum4(Get16(pkt, IP_CSUM), oldIp, ip));
    var p2 := Put32(p1, IpAt(side), ip);
    var c := Get16(p2, L4CsumAt(pkt));
    var p3 := if c == 0 then p2 else Put16(p2, L4CsumAt(pkt), NewL4Csum(c, oldIp, ip, oldPort, port));
    Put16(p3, PortAt(pkt, side), port)
  }

  /** What `Rewrite` does to every byte of a packet with a full header. */
  lemma RewriteFields(pkt: Buf, side: Side, ip: u32, port: u16)
    requires FullHeader(pkt)
    ensures var r := Rewrite(pkt, side, ip, port);
            && Buffered(r) && L4(r) == L4(pkt) && Protocol(r) == Protocol(pkt)
            && Get32(r, IpAt(side)) == ip
            && Get16(r, PortAt(pkt, side)) == port
            && Get16(r, IP_CSUM) == Csum4(Get16(pkt, IP_CSUM), Get32(pkt, IpAt(side)), ip)
            && L4Csum(r) == NewL4Csum(L4Csum(pkt), Get32(pkt, IpAt(side)), ip, Get16(pkt, PortAt(pkt, side)), port)
            && forall k | 0 <= k < |pkt| && !Touched(pkt, side, k) :: r[k] == pkt[k]
  {
    RewriteIsPatch(pkt, side, ip, port);
    PatchFields(pkt, side, Csum4(Get16(pkt, IP_CSUM), Get32(pkt, IpAt(side)), ip), ip,
                NewL4Csum(L4Csum(pkt), Get32(pkt, IpAt(side)), ip, Get16(pkt, PortAt(pkt, side)), port), port);
  }

  /** The four stores of a translation, given the values stored. */
  function Patch(pkt: Buf, side: Side, ipCsum: u16, ip: u32, l4Csum: u16, port: u16): seq<u8> {
    var p2 := Put32(Put16(pkt, IP_CSUM, ipCsum), IpAt(side), ip);
    Put16(Put16(p2, L4CsumAt(pkt), l4Csum), PortAt(pkt, side), port)
  }

  lemma PatchFields(pkt: Buf, side: Side, ipCsum: u16, ip: u32, l4Csum: u16, port: u16)
    requires FullHeader(pkt)
    ensures var r := Patch(pkt, side, ipCsum, ip, l4Csum, port);
            && |r| == |pkt| && Buffered(r) && L4(r) == L4(pkt) && Protocol(r) == Protocol(pkt)
            && Get32(r, IpAt(side)) == ip && Get16(r, PortAt(pkt, side)) == port
            && Get16(r, IP_CSUM) == ipCsum && L4Csum(r) == l4Csum
            && forall k | 0 <= k < |pkt| && !Touched(pkt, side, k) :: r[k] == pkt[k]
  {
  }

  lemma RewriteIsPatch(pkt: Buf, side: Side, ip: u32, port: u16)
    requires FullHeader(pkt)
    ensures Rewrite(pkt, side, ip, port)
            == Patch(pkt, side, Csum4(Get16(pkt, IP_CSUM), Get32(pkt, IpAt(side)), ip), ip,
                     NewL4Csum(L4Csum(pkt), Get32(pkt, IpAt(side)), ip, Get16(pkt, PortAt(pkt, side)), port), port)
  {
    hide Csum2, Csum4, High, Low;
    var p2 := Put32(Put16(pkt, IP_CSUM, Csum4(Get16(pkt, IP_CSUM), Get32(pkt, IpAt(side)), ip)), IpAt(side), ip);
    assert Get16(p2, L4CsumAt(pkt)) == L4Csum(pkt);
    if L4Csum(pkt) == 0 {
      assert Put16(p2, L4CsumAt(pkt), 0) == p2;
    }
  }

  // ----- every header, aliasing included

  /** Byte i of a number stored little-endian. */
  function ByteOf(v: nat, i: nat): u8 { if i == 0 then v % 0x100 else ByteOf(v / 0x100, i - 1) }

  /** Byte k after the stores of the IP checksum and the address. */
  function FirstStores(pkt: Buf, side: Side, ip: u32, k: nat): u8
    requires k < |pkt|
  {
    if IpAt(side) <= k < IpAt(side) + 4 then ByteOf(ip, k - IpAt(side))
    else if k == 24 || k == 25 then ByteOf(Csum4(Get16(pkt, 24), Get32(pkt, IpAt(side)), ip), k - 24)
    else pkt[k]
  }

  /** Every byte after a translation, whatever the header length: the port is stored last, before it
      the transport checksum, if what stands in its place by then is not zero. */
  lemma RewriteBytes(pkt: Buf, side: Side, ip: u32, port: u16)
    ensures var r, at, to := Rewrite(pkt, side, ip, port), L4CsumAt(pkt), PortAt(pkt, side);
            var c := FirstStores(pkt, side, ip, at) as int + 0x100 * FirstStores(pkt, side, ip, at + 1) as int;
            var new' := NewL4Csum(c, Get32(pkt, IpAt(side)), ip, Get16(pkt, to), port);
            forall k | 0 <= k < |pkt| ::
              r[k] == if to <= k < to + 2 then ByteOf(port, k - to)
                      else if c != 0 && at <= k < at + 2 then ByteOf(new', k - at)
                      else FirstStores(pkt, side, ip, k)
  {
    hide Csum2, Csum4, NewL4Csum;
    var oldIp, at, to := Get32(pkt, IpAt(side)), L4CsumAt(pkt), PortAt(pkt, side);
    var csum := Csum4(Get16(pkt, 24), oldIp, ip);
    var p1 := Put16(pkt, IP_CSUM, csum);
    var p2 := Put32(p1, IpAt(side), ip);
    StoredBytes(pkt, IP_CSUM, csum);
    StoredWord(p1, IpAt(side), ip);
    assert forall k | 0 <= k < |pkt| :: p2[k] == FirstStores(pkt, side, ip, k);
    var c := Get16(p2, at);
    var n := NewL4Csum(c, oldIp, ip, Get16(pkt, to), port);
    var p3 := if c == 0 then p2 else Put16(p2, at, n);
    StoredBytes(p2, at, n);
    StoredBytes(p3, to, port);
    hide Get16, Get32, Put16, Put32, ByteOf, FirstStores;
  }

  lemma StoredBytes(b: seq<u8>, at: nat, v: u16)
    requires at + 2 <= |b|
    ensures Put16(b, at, v)[at] == ByteOf(v, 0) && Put16(b, at, v)[at + 1] == ByteOf(v, 1)
  {
  }

  lemma StoredWord(b: seq<u8>, at: nat, v: u32)
    requires at + 4 <= |b|
    ensures forall k | 0 <= k < 4 :: Put32(b, at, v)[at + k] == ByteOf(v, k)
  {
    HalfBytes(v);
    hide ByteOf, Low, High;
    StoredBytes(b, at, Low(v));
    StoredBytes(Put16(b, at, Low(v)), at + 2, High(v));
    hide Put16;
  }

  lemma HalfBytes(v: u32)
    ensures ByteOf(v, 0) == ByteOf(Low(v), 0) && ByteOf(v, 1) == ByteOf(Low(v), 1)
    ensures ByteOf(v, 2) == ByteOf(High(v), 0) && ByteOf(v, 3) == ByteOf(High(v), 1)
  {
    var h, m, l := v / 0x1_0000, v / 0x100 % 0x100, v % 0x100;
    FirstByte(v, 0x100 * h + m, l);
    FirstByte(0x100 * h + m, h, m);
    FirstByte(Low(v), m, l);
    assert ByteOf(v, 1) == ByteOf(0x100 * h + m, 0) == m;
    assert ByteOf(Low(v), 1) == ByteOf(m, 0) == m;
    assert ByteOf(v, 2) == ByteOf(0x100 * h + m, 1) == ByteOf(h, 0);
    assert ByteOf(v, 3) == ByteOf(0x100 * h + m, 2) == ByteOf(h, 1);
  }

  lemma FirstByte(v: nat, rest: nat, low: u8)
    requires v == 0x100 * rest + low
    ensures v / 0x100 == rest && v % 0x100 == low
  {
  }

  /** Where the fields lie, sections 3.1 of RFC 791 and of RFC 9293 and RFC 768, after 14 bytes of
      Ethernet header; and the WAN address byte by byte. */
  lemma FieldPlaces(pkt: Buf)
    ensures L4(pkt) == 14 + 4 * (pkt[14] % 16)
    ensures (HasPorts(pkt) <==> pkt[23] == 6 || pkt[23] == 17)
    ensures SrcIp(pkt) == Get32(pkt, 26) && DstIp(pkt) == Get32(pkt, 30)
    ensures SrcPort(pkt) == Get16(pkt, L4(pkt)) && DstPort(pkt) == Get16(pkt, L4(pkt) + 2)
    ensures L4Csum(pkt) == Get16(pkt, L4(pkt) + if pkt[23] == 6 then 16 else 6)
    ensures Get32([10, 0, 2, 15], 0) == WAN_IP
  {
  }

  /** The bytes a translation may change: the IP checksum, one address, one port and the
      transport checksum. */
  predicate Touched(pkt: Buf, side: Side, k: nat) {
    || IP_CSUM <= k < IP_CSUM + 2
    || IpAt(side) <= k < IpAt(side) + 4
    || PortAt(pkt, side) <= k < PortAt(pkt, side) + 2
    || L4CsumAt(pkt) <= k < L4CsumAt(pkt) + 2
  }

  /** The stores of the two NAT directions, on the packet memory itself. */
  method RewriteInPlace(pkt: array<u8>, side: Side, ip: u32, port: u16)
    requires Buffered(pkt[..])
    modifies pkt
    ensures pkt[..] == Rewrite(old(pkt[..]), side, ip, port)
  {
    hide Csum2, Csum4, High, Low;
    hide Get16, Get32, Put32;
    var l4 := 14 + pkt[14] as int % 0x10 * 4;
    var ipAt := IpAt(side);
    var portAt := if side == Source then l4 else l4 + 2;
    var csumAt := l4 + if pkt[23] == TCP then 16 else 6;
    var oldIp, oldPort := Get32(pkt[..], ipAt), Get16(pkt[..], portAt);

    Store16(pkt, IP_CSUM, Csum4(Get16(pkt[..], IP_CSUM), oldIp, ip));
    Store32(pkt, ipAt, ip);
    var c := Get16(pkt[..], csumAt);
    if c != 0 {
      Store16(pkt, csumAt, Csum4(c, oldIp, ip));
      Store16(pkt, csumAt, Csum2(Get16(pkt[..], csumAt), oldPort, port));
    }
    Store16(pkt, portAt, port);
  }
}
