/** Machine integers and the little-endian loads and stores that the kernel performs
    through casted pointers (x86-64). */
module Bytes {
  type u8 = x: int | 0 <= x < 0x100
  type u16 = x: int | 0 <= x < 0x1_0000
  type u32 = x: int | 0 <= x < 0x1_0000_0000

  /** `*(uint16_t *)(b + at)` */
  function Get16(b: seq<u8>, at: nat): u16
    requires at + 2 <= |b|
  {
    b[at] as int + 0x100 * b[at + 1] as int
  }

  /** `*(uint16_t *)(b + at) = v` */
  function Put16(b: seq<u8>, at: nat, v: u16): (r: seq<u8>)
    requires at + 2 <= |b|
    ensures |r| == |b|
    ensures Get16(r, at) == v
    ensures forall k | 0 <= k < |b| && k != at && k != at + 1 :: r[k] == b[k]
  {
    b[at := v % 0x100][at + 1 := v / 0x100]
  }

  /** `*(uint32_t *)(b + at)` */
  function Get32(b: seq<u8>, at: nat): u32
    requires at + 4 <= |b|
  {
    Get16(b, at) + 0x1_0000 * Get16(b, at + 2)
  }

  /** `*(uint32_t *)(b + at) = v` */
  function Put32(b: seq<u8>, at: nat, v: u32): (r: seq<u8>)
    requires at + 4 <= |b|
    ensures |r| == |b|
    ensures Get32(r, at) == v && Get16(r, at) == Low(v) && Get16(r, at + 2) == High(v)
    ensures forall k | 0 <= k < |b| && !(at <= k < at + 4) :: r[k] == b[k]
  {
    Put16(Put16(b, at, Low(v)), at + 2, High(v))
  }

  function High(v: u32): u16 { v / 0x1_0000 }

  function Low(v: u32): u16 { v % 0x1_0000 }

  /** Exchanges the two bytes of a half-word: turns a half-word loaded on this little-endian
      machine into the number it denotes in network byte order, and back. */
  function Swap(v: u16): u16 {
    v % 0x100 * 0x100 + v / 0x100
  }

  lemma SwapBytes(lo: u8, hi: u8)
    ensures Swap(lo as int + 0x100 * hi as int) == 0x100 * lo as int + hi as int
  {
  }

  lemma SwapTwice(v: u16)
    ensures Swap(Swap(v)) == v
  {
    hide Swap;
    var lo, hi := v % 0x100, v / 0x100;
    SwapBytes(lo, hi);
    SwapBytes(hi, lo);
  }

  /** A half-word is determined by the value that was stored in it. */
  lemma SameWordSameBytes(a: seq<u8>, b: seq<u8>, at: nat)
    requires at + 2 <= |a| && at + 2 <= |b|
    ensures Get16(a, at) == Get16(b, at) <==> a[at] == b[at] && a[at + 1] == b[at + 1]
  {
  }

  lemma Halves(b: seq<u8>, at: nat)
    requires at + 4 <= |b|
    ensures Low(Get32(b, at)) == Get16(b, at) && High(Get32(b, at)) == Get16(b, at + 2)
  {
  }

  lemma SameDoubleWordSameBytes(a: seq<u8>, b: seq<u8>, at: nat)
    requires at + 4 <= |a| && at + 4 <= |b|
    ensures Get32(a, at) == Get32(b, at) <==> forall k | at <= k < at + 4 :: a[k] == b[k]
  {
    SameWordSameBytes(a, b, at);
    SameWordSameBytes(a, b, at + 2);
    hide Get16;
    assert Get32(a, at) == Get32(b, at) <==> a[at] == b[at] && a[at + 1] == b[at + 1] && a[at + 2] == b[at + 2] && a[at + 3] == b[at + 3];
  }

  method Store16(b: array<u8>, at: nat, v: u16)
    requires at + 2 <= b.Length
    modifies b
    ensures b[..] == Put16(old(b[..]), at, v)
  {
    b[at] := v % 0x100;
    b[at + 1] := v / 0x100;
  }

  method Store32(b: array<u8>, at: nat, v: u32)
    requires at + 4 <= b.Length
    modifies b
    ensures b[..] == Put32(old(b[..]), at, v)
  {
    Store16(b, at, Low(v));
    Store16(b, at + 2, High(v));
  }
}
