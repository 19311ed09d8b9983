/** One's-complement checksums: the loop of `ip_checksum` and the incremental updates
    `csum_replace2` and `csum_replace4`. */
module Checksum {
  import opened Bytes

  const M := 0xFFFF

  // ----- end-around carry

  /** The value the loop `while (sum >> 16) sum = (sum & 0xFFFF) + (sum >> 16)` ends with. */
  function Fold(s: nat): u16
    decreases s
  {
    if s < 0x1_0000 then s else Fold(s % 0x1_0000 + s / 0x1_0000)
  }

  /** How many multiples of 65535 that loop removes. */
  function Carries(s: nat): nat
    decreases s
  {
    if s < 0x1_0000 then 0 else s / 0x1_0000 + Carries(s % 0x1_0000 + s / 0x1_0000)
  }

  /** Folding preserves the sum modulo 65535, and is 0 only for 0. */
  lemma {:induction false} FoldPreserves(s: nat)
    ensures s == Fold(s) + M * Carries(s)
    ensures Fold(s) == 0 <==> s == 0
    decreases s
  {
    if s >= 0x1_0000 {
      FoldPreserves(s % 0x1_0000 + s / 0x1_0000);
    }
  }

  /** Those two facts single out the folded value. */
  lemma FoldUnique(c: u16, s: nat, k: int)
    requires c == s + M * k
    requires c == 0 <==> s == 0
    ensures c == Fold(s)
  {
    FoldPreserves(s);
    assert c - Fold(s) == M * (k + Carries(s));
  }

  // ----- the incremental update

  /** `csum_replace2` */
  function Csum2(sum: u16, oldVal: u16, newVal: u16): u16 {
    var s0 := (0xFFFF - sum) + (0xFFFF - oldVal) + newVal;
    var s1 := s0 / 0x1_0000 + s0 % 0x1_0000;
    var s2 := s1 + s1 / 0x1_0000;
    0xFFFF - s2 % 0x1_0000
  }

  /** `csum_replace4` */
  function Csum4(sum: u16, oldVal: u32, newVal: u32): u16 {
    Csum2(Csum2(sum, High(oldVal), High(newVal)), Low(oldVal), Low(newVal))
  }

  /** The two fixed folds always suffice: they agree with the loop. */
  lemma Csum2IsFold(sum: u16, oldVal: u16, newVal: u16)
    ensures Csum2(sum, oldVal, newVal) == 0xFFFF - Fold((0xFFFF - sum) + (0xFFFF - oldVal) + newVal)
  {
    hide Csum2, Fold;
    var k := Csum2Shift(sum, oldVal, newVal);
    FoldUnique(0xFFFF - Csum2(sum, oldVal, newVal), (0xFFFF - sum) + (0xFFFF - oldVal) + newVal, -k);
  }

  /** An update moves checksum + data by a multiple of 65535, and yields 0xFFFF only in the one
      case where nothing is left to sum. */
  lemma Csum2Shift(sum: u16, oldVal: u16, newVal: u16) returns (k: int)
    ensures 0 <= k <= 2
    ensures Csum2(sum, oldVal, newVal) + newVal == sum + oldVal + M * (k - 1)
    ensures Csum2(sum, oldVal, newVal) == 0xFFFF <==> sum == 0xFFFF && oldVal == 0xFFFF && newVal == 0
  {
    var s0 := (0xFFFF - sum) + (0xFFFF - oldVal) + newVal;
    k := if s0 <= M then 0 else if s0 <= 2 * M then 1 else 2;
  }

  lemma Csum4Shift(sum: u16, oldVal: u32, newVal: u32) returns (k: int)
    ensures Csum4(sum, oldVal, newVal) + High(newVal) + Low(newVal) == sum + High(oldVal) + Low(oldVal) + M * k
    ensures Csum4(sum, oldVal, newVal) == 0xFFFF <==> sum == 0xFFFF && oldVal == 0xFFFF_FFFF && newVal == 0
  {
    hide Csum2;
    var k1 := Csum2Shift(sum, High(oldVal), High(newVal));
    var k2 := Csum2Shift(Csum2(sum, High(oldVal), High(newVal)), Low(oldVal), Low(newVal));
    k := k1 + k2 - 2;
  }

  /** Equation 3 in section 3 of RFC 1624: for a checksum computed over words that add up to
      `s`, replacing one word incrementally gives what a recomputation gives, exactly when the
      new words do not add up to zero. */
  lemma Csum2Recomputes(s: nat, oldVal: u16, newVal: u16)
    requires oldVal <= s
    ensures Csum2(0xFFFF - Fold(s), oldVal, newVal) == 0xFFFF - Fold(s - oldVal + newVal)
            <==> s - oldVal + newVal != 0
  {
    hide Csum2, Fold;
    var t := s - oldVal + newVal;
    FoldPreserves(s);
    FoldPreserves(t);
    var k := Csum2Shift(0xFFFF - Fold(s), oldVal, newVal);
    if t != 0 {
      FoldUnique(0xFFFF - Csum2(0xFFFF - Fold(s), oldVal, newVal), t, 1 - k - Carries(s));
    }
  }

  lemma Csum4Recomputes(s: nat, oldVal: u32, newVal: u32)
    requires High(oldVal) + Low(oldVal) < s
    ensures Csum4(0xFFFF - Fold(s), oldVal, newVal)
            == 0xFFFF - Fold(s - High(oldVal) - Low(oldVal) + High(newVal) + Low(newVal))
  {
    hide Csum2, High, Low;
    Csum2Recomputes(s, High(oldVal), High(newVal));
    Csum2Recomputes(s - High(oldVal) + High(newVal), Low(oldVal), Low(newVal));
  }

  /** Updating and updating back restores every checksum but 0xFFFF. */
  lemma Csum4Undo(sum: u16, oldVal: u32, newVal: u32)
    ensures Csum4(Csum4(sum, oldVal, newVal), newVal, oldVal) == sum <==> sum != 0xFFFF
  {
    hide Csum4, High, Low;
    var k := Csum4Shift(sum, oldVal, newVal);
    var l := Csum4Shift(Csum4(sum, oldVal, newVal), newVal, oldVal);
  }

  // ----- sums over a buffer

  /** Adds up the `n` half-words of `b` that start at `from`. */
  function WordSum(b: seq<u8>, from: nat, n: nat): nat
    requires from + 2 * n <= |b|
  {
    if n == 0 then 0 else WordSum(b, from, n - 1) + Get16(b, from + 2 * (n - 1))
  }

  /** The same sum as RFC 1071 states it, over numbers in network byte order. */
  function NetworkSum(b: seq<u8>, from: nat, n: nat): nat
    requires from + 2 * n <= |b|
  {
    if n == 0 then 0 else NetworkSum(b, from, n - 1) + Swap(Get16(b, from + 2 * (n - 1)))
  }

  lemma {:induction false} WordSumSame(a: seq<u8>, b: seq<u8>, from: nat, n: nat)
    requires from + 2 * n <= |a| && from + 2 * n <= |b|
    requires forall k | from <= k < from + 2 * n :: a[k] == b[k]
    ensures WordSum(a, from, n) == WordSum(b, from, n)
  {
    if n > 0 {
      WordSumSame(a, b, from, n - 1);
    }
  }

  /** Storing a half-word changes the sum by the difference, when it lies on a word of the range. */
  lemma {:induction false} WordSumPut(b: seq<u8>, from: nat, n: nat, i: nat, v: u16)
    requires from + 2 * n <= |b| && i < n
    ensures WordSum(Put16(b, from + 2 * i, v), from, n) == WordSum(b, from, n) - Get16(b, from + 2 * i) + v
    ensures Get16(b, from + 2 * i) <= WordSum(b, from, n)
  {
    var c := Put16(b, from + 2 * i, v);
    if i < n - 1 {
      WordSumPut(b, from, n - 1, i, v);
    } else {
      WordSumSame(b, c, from, n - 1);
    }
  }

  /** Byte-order independence, section 2(B) of RFC 1071: the high bytes carry the difference. */
  function HighBytes(b: seq<u8>, from: nat, n: nat): nat
    requires from + 2 * n <= |b|
  {
    if n == 0 then 0 else HighBytes(b, from, n - 1) + b[from + 2 * (n - 1) + 1]
  }

  lemma {:induction false} NetworkSumScaled(b: seq<u8>, from: nat, n: nat)
    requires from + 2 * n <= |b|
    ensures 0x100 * WordSum(b, from, n) == NetworkSum(b, from, n) + M * HighBytes(b, from, n)
    ensures WordSum(b, from, n) == 0 <==> NetworkSum(b, from, n) == 0
  {
    hide Swap;
    if n > 0 {
      NetworkSumScaled(b, from, n - 1);
      SwapBytes(b[from + 2 * (n - 1)], b[from + 2 * (n - 1) + 1]);
    }
  }

  /** Exchanging bytes multiplies by 256 modulo 65535, and commutes with complement. */
  lemma SwapScales(c: u16)
    ensures Swap(c) == 0x100 * c - M * (c / 0x100)
    ensures Swap(c) == 0 <==> c == 0
    ensures 0xFFFF - Swap(c) == Swap(0xFFFF - c)
  {
  }

  /** The checksum of the little-endian sum, stored little-endian, is the network-order checksum. */
  lemma ByteOrderIndependent(b: seq<u8>, from: nat, n: nat)
    requires from + 2 * n <= |b|
    ensures Swap(0xFFFF - Fold(WordSum(b, from, n))) == 0xFFFF - Fold(NetworkSum(b, from, n))
  {
    var le, be := WordSum(b, from, n), NetworkSum(b, from, n);
    var hi := HighBytes(b, from, n);
    NetworkSumScaled(b, from, n);
    ScaledFold(le, be, hi);
  }

  lemma ScaledFold(le: nat, be: nat, hi: int)
    requires 0x100 * le == be + M * hi
    requires le == 0 <==> be == 0
    ensures Swap(0xFFFF - Fold(le)) == 0xFFFF - Fold(be)
  {
    var c, q := Fold(le), Fold(le) / 0x100;
    FoldPreserves(le);
    SwapScales(c);
    assert Swap(c) == be + M * (hi - 0x100 * Carries(le) - q);
    FoldUnique(Swap(c), be, hi - 0x100 * Carries(le) - q);
  }

  // ----- ip_checksum

  /** What `ip_checksum(b + from, len)` returns; the 32-bit accumulator wraps. */
  function IpChecksum(b: seq<u8>, from: nat, len: nat): u16
    requires from + len <= |b|
  {
    0xFFFF - Fold(WordSum(b, from, len / 2) % 0x1_0000_0000)
  }

  /** The accumulator cannot wrap for the buffers of this kernel. */
  lemma {:induction false} WordSumBound(b: seq<u8>, from: nat, n: nat)
    requires from + 2 * n <= |b|
    ensures WordSum(b, from, n) <= 0xFFFF * n
  {
    if n > 0 {
      WordSumBound(b, from, n - 1);
    }
  }

  /** Up to 65537 half-words the 32 bits suffice; a last odd byte does not count. */
  lemma IpChecksumIs(b: seq<u8>, from: nat, n: nat)
    requires n <= 65537 && from + 2 * n + 1 <= |b|
    ensures IpChecksum(b, from, 2 * n) == IpChecksum(b, from, 2 * n + 1) == 0xFFFF - Fold(WordSum(b, from, n))
  {
    hide Fold, WordSum;
    WordSumBound(b, from, n);
    assert 2 * n / 2 == (2 * n + 1) / 2 == n;
  }

  method ComputeIpChecksum(buf: array<u8>, from: nat, len: nat) returns (r: u16)
    requires from + len <= buf.Length
    ensures r == IpChecksum(buf[..], from, len)
  {
    var sum: u32 := 0;
    for i := 0 to len / 2
      invariant sum == WordSum(buf[..], from, i) % 0x1_0000_0000
    {
      sum := (sum as int + buf[from + 2 * i] as int + 0x100 * buf[from + 2 * i + 1] as int) % 0x1_0000_0000;
    }
    ghost var total := sum;
    while sum / 0x1_0000 != 0
      invariant Fold(sum) == Fold(total)
      decreases sum
    {
      sum := sum % 0x1_0000 + sum / 0x1_0000;
    }
    r := 0xFFFF - sum;
  }
}
