/** What a translation does to the two checksums of a packet as a receiver sees them. */
module Validity {
  import opened Bytes
  import opened Checksum
  import opened Packet

  // ----- the IPv4 header

  /** Half-words in the IPv4 header. */
  function HeaderWords(pkt: Buf): nat { (L4(pkt) - 14) / 2 }

  /** `ip_checksum` of the header with its checksum field cleared, as the fast path computes it. */
  function HeaderChecksum(pkt: Buf): u16
  {
    IpChecksum(Put16(pkt, IP_CSUM, 0), 14, L4(pkt) - 14)
  }

  predicate HeaderValid(pkt: Buf) { Get16(pkt, IP_CSUM) == HeaderChecksum(pkt) }

  /** The receiver's test of RFC 1071: the header, checksum included, adds up to all ones. */
  predicate HeaderVerifies(pkt: Buf) {
    Fold(NetworkSum(pkt, 14, HeaderWords(pkt))) == 0xFFFF
  }

  /** Sum of the header words other than the checksum. */
  function HeaderSum(pkt: Buf): int
  {
    WordSum(pkt, 14, HeaderWords(pkt)) - Get16(pkt, IP_CSUM)
  }

  /** The checksum is the complement of the folded sum of the other words, which is not zero. */
  lemma HeaderChecksumSum(pkt: Buf)
    requires FullHeader(pkt)
    ensures HeaderSum(pkt) > 0
    ensures HeaderChecksum(pkt) == 0xFFFF - Fold(HeaderSum(pkt))
  {
    var n := HeaderWords(pkt);
    hide Fold, Get16;
    WordSumPut(pkt, 14, n, 5, 0);
    WordSumBound(Put16(pkt, IP_CSUM, 0), 14, n);
    WordSumHasFirst(Put16(pkt, IP_CSUM, 0), 14, n);
    assert HeaderSum(pkt) == WordSum(Put16(pkt, IP_CSUM, 0), 14, n);
    VersionWord(Put16(pkt, IP_CSUM, 0));
  }

  lemma {:induction false} WordSumHasFirst(b: seq<u8>, from: nat, n: nat)
    requires 0 < n && from + 2 * n <= |b|
    ensures WordSum(b, from, n) >= Get16(b, from)
  {
    hide Get16;
    if n > 1 {
      WordSumHasFirst(b, from, n - 1);
    }
  }

  lemma VersionWord(pkt: seq<u8>)
    requires Buffered(pkt) && L4(pkt) >= 34
    ensures Get16(pkt, 14) > 0
  {
  }

  /** A header with the computed checksum passes the receiver's test. */
  lemma ValidVerifies(pkt: Buf)
    requires FullHeader(pkt) && HeaderValid(pkt)
    ensures HeaderVerifies(pkt)
  {
    hide Fold, Get16, Swap;
    var n := HeaderWords(pkt);
    HeaderChecksumSum(pkt);
    var total := WordSum(pkt, 14, n);
    var s := HeaderSum(pkt);
    FoldPreserves(s);
    assert total == 0xFFFF - Fold(s) + s;
    var carries: int := Carries(s);
    FoldUnique(0xFFFF, total, -carries);
    ByteOrderIndependent(pkt, 14, n);
    SwapZero();
  }

  lemma SwapZero()
    ensures Swap(0) == 0
  {
  }

  /** Replacing one aligned word of the header other than the checksum. */
  lemma HeaderSumPut(pkt: Buf, i: nat, v: u16)
    requires FullHeader(pkt) && 0 < i < HeaderWords(pkt)
    ensures var q := Put16(pkt, 14 + 2 * i, v);
            && Buffered(q) && L4(q) == L4(pkt)
            && HeaderSum(q) == HeaderSum(pkt) + if i == 5 then 0 else v - Get16(pkt, 14 + 2 * i)
  {
    WordSumPut(pkt, 14, HeaderWords(pkt), i, v);
  }

  /** Equation 3 in section 3 of RFC 1624 on a header of 5 to 15 words: after a translation the
      incrementally updated checksum is the one a full computation gives. */
  lemma RewriteKeepsHeaderValid(pkt: Buf, side: Side, ip: u32, port: u16)
    requires FullHeader(pkt)
    ensures Buffered(Rewrite(pkt, side, ip, port))
    ensures HeaderValid(pkt) ==> HeaderValid(Rewrite(pkt, side, ip, port))
  {
    hide Csum2, Csum4, NewL4Csum, Rewrite, Get16, Fold, High, Low;
    var r := Rewrite(pkt, side, ip, port);
    RewriteFields(pkt, side, ip, port);
    HeaderSumRewrite(pkt, side, ip, port);
    HeaderChecksumSum(pkt);
    HeaderChecksumSum(r);
    var old32 := Get32(pkt, IpAt(side));
    SumAboveWords(pkt, side);
    Csum4Recomputes(HeaderSum(pkt), old32, ip);
  }

  /** The header sum strictly exceeds the address: the version word is part of it. */
  lemma SumAboveWords(pkt: Buf, side: Side)
    requires FullHeader(pkt)
    ensures High(Get32(pkt, IpAt(side))) + Low(Get32(pkt, IpAt(side))) < HeaderSum(pkt)
  {
    var q := Put32(pkt, IpAt(side), 0);
    HalvesSum(pkt, side, 0);
    HeaderChecksumSum(q);
  }

  lemma HalvesSum(pkt: Buf, side: Side, ip: u32)
    requires FullHeader(pkt)
    ensures var q := Put32(pkt, IpAt(side), ip); var old32 := Get32(pkt, IpAt(side));
            && Buffered(q) && L4(q) == L4(pkt)
            && HeaderSum(q) == HeaderSum(pkt) - High(old32) - Low(old32) + High(ip) + Low(ip)
  {
    Halves(pkt, IpAt(side));
    SameWordSameBytes(pkt, Put16(pkt, IpAt(side), Low(ip)), IpAt(side) + 2);
    hide WordSum, Get16, High, Low;
    var i := (IpAt(side) - 14) / 2;
    HeaderSumPut(pkt, i, Low(ip));
    HeaderSumPut(Put16(pkt, IpAt(side), Low(ip)), i + 1, High(ip));
  }

  /** Ports and the transport checksum lie outside the header. */
  lemma HeaderSumRewrite(pkt: Buf, side: Side, ip: u32, port: u16)
    requires FullHeader(pkt)
    ensures var r := Rewrite(pkt, side, ip, port); var old32 := Get32(pkt, IpAt(side));
            && Buffered(r)
            && HeaderSum(r) == HeaderSum(pkt) - High(old32) - Low(old32) + High(ip) + Low(ip)
  {
    hide Csum2, Csum4, NewL4Csum, Rewrite, High, Low, Get16, Get32, Put16, Put32, WordSum;
    var r := Rewrite(pkt, side, ip, port);
    RewriteFields(pkt, side, ip, port);
    HalvesSum(pkt, side, ip);
    var q := Put32(pkt, IpAt(side), ip);
    var q' := Put16(q, IP_CSUM, Get16(r, IP_CSUM));
    HeaderSumPut(q, 5, Get16(r, IP_CSUM));
    SameWordSameBytes(q', r, IP_CSUM);
    SameDoubleWordSameBytes(q, r, IpAt(side));
    assert forall k | 14 <= k < L4(pkt) :: q'[k] == r[k];
    WordSumSame(q', r, 14, HeaderWords(pkt));
  }
}
