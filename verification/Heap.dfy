/** The bump allocator, with the 64-bit wrap-around of its arithmetic, and the descriptor rings and
    buffers that are carved out of it. Addresses are offsets into the page-aligned heap. */
module Heap {
  import Nic = Rings

  const HEAP_SIZE := 0x100_0000
  const WORD := 0x1_0000_0000_0000_0000

  type Size = n: int | 0 <= n < WORD

  datatype Result = Null | Block(at: nat)

  function RoundUp(size: nat): nat { (size + 15) / 16 * 16 }

  /** `kmalloc`: the result and the new `heap_offset`. */
  function Kmalloc(offset: Size, size: Size): (Result, Size) {
    var rounded := (size + 15) % WORD / 16 * 16;
    if (offset + rounded) % WORD > HEAP_SIZE then (Null, offset) else (Block(offset), (offset + rounded) % WORD)
  }

  /** What an allocator should do: a block when the rounded request fits, otherwise nothing. */
  function Ideal(offset: nat, size: nat): (Result, nat) {
    if offset + RoundUp(size) <= 16 * 1024 * 1024 then (Block(offset), offset + RoundUp(size)) else (Null, offset)
  }

  predicate Reachable(offset: nat) { offset <= HEAP_SIZE && offset % 16 == 0 }

  /** The least multiple of 16 that is large enough. */
  lemma RoundUpLeast(size: nat)
    ensures RoundUp(size) % 16 == 0 && size <= RoundUp(size) < size + 16
  {
  }

  /** The allocator is right exactly when offset and rounded request do not wrap together; when they
      do it hands out the current offset and moves it back by what is missing to 2^64. */
  lemma RightUnlessWrapping(offset: Size, size: Size)
    requires Reachable(offset)
    ensures Kmalloc(offset, size) == Ideal(offset, size) <==> offset + RoundUp(size) < WORD
    ensures offset + RoundUp(size) >= WORD ==>
              Kmalloc(offset, size) == (Block(offset), offset + RoundUp(size) - 0x1_0000_0000_0000_0000)
  {
    if size + 15 >= WORD {
      assert (size + 15) % WORD == size + 15 - WORD < 16;
    } else {
      assert (size + 15) % WORD == size + 15;
      if offset + RoundUp(size) >= WORD {
        assert (offset + RoundUp(size)) % WORD == offset + RoundUp(size) - WORD;
      }
    }
  }

  /** A single unlucky request moves the bump pointer back over a live block. */
  lemma WrappingRequest()
    ensures Kmalloc(0, 32) == (Block(0), 32) && Kmalloc(32, WORD - 32) == (Block(32), 0)
  {
  }

  // ----- any sequence of requests

  /** Small enough for no offset in the heap to wrap. */
  predicate Modest(size: nat) { size + HEAP_SIZE + 16 <= WORD }

  function OffsetAfter(requests: seq<Size>): Size {
    if requests == [] then 0 else Kmalloc(OffsetAfter(requests[..|requests| - 1]), requests[|requests| - 1]).1
  }

  function Answer(requests: seq<Size>, i: nat): Result
    requires i < |requests|
  {
    Kmalloc(OffsetAfter(requests[..i]), requests[i]).0
  }

  lemma {:induction false} OffsetsReachable(requests: seq<Size>)
    requires forall r | r in requests :: Modest(r)
    ensures Reachable(OffsetAfter(requests))
  {
    if requests != [] {
      var before, last := requests[..|requests| - 1], requests[|requests| - 1];
      OffsetsReachable(before);
      assert Modest(last);
      RightUnlessWrapping(OffsetAfter(before), last);
    }
  }

  lemma {:induction false} OffsetsGrow(requests: seq<Size>, i: nat)
    requires forall r | r in requests :: Modest(r)
    requires i < |requests| && Answer(requests, i).Block?
    ensures Answer(requests, i).at + requests[i] <= OffsetAfter(requests)
  {
    var before, last := requests[..|requests| - 1], requests[|requests| - 1];
    assert Modest(last);
    OffsetsReachable(before);
    RightUnlessWrapping(OffsetAfter(before), last);
    if i < |requests| - 1 {
      assert before[..i] == requests[..i];
      OffsetsGrow(before, i);
    }
  }

  /** Over any sequence of modest requests after `mm_init` every block lies in the heap, is aligned
      to 16 bytes, and is disjoint from all others. */
  lemma BlocksDisjoint(requests: seq<Size>, i: nat, j: nat)
    requires forall r | r in requests :: Modest(r)
    requires i < j < |requests| && Answer(requests, i).Block? && Answer(requests, j).Block?
    ensures var a, b := Answer(requests, i).at, Answer(requests, j).at;
            && a % 16 == b % 16 == 0
            && a + requests[i] <= b && b + requests[j] <= HEAP_SIZE
  {
    var before := requests[..j];
    assert before[..i] == requests[..i];
    OffsetsGrow(before, i);
    OffsetsReachable(before);
    OffsetsReachable(requests[..i]);
    assert Modest(requests[j]);
    RightUnlessWrapping(OffsetAfter(before), requests[j]);
  }

  // ----- the allocator and its use at start-up

  const RING_BYTES := 512
  const BUFFER_BYTES := 2048
  const RING_SIZE := 32
  const MAX_DEVICES := 4

  /** Heap used by one interface: two rings of 32 descriptors of 16 bytes, and 32 buffers. */
  const PER_DEVICE := 2 * RING_BYTES + RING_SIZE * BUFFER_BYTES

  datatype Rings = Rings(rx: Result, buffers: seq<Result>, tx: Result)

  /** Where the rings and the buffers of the d-th interface lie. */
  predicate Placed(r: Rings, d: nat) {
    && r.rx == Block(66560 * d)
    && |r.buffers| == 32
    && (forall k | 0 <= k < 32 :: r.buffers[k] == Block(66560 * d + 512 + 2048 * k))
    && r.tx == Block(66560 * d + 66048)
  }

  /** The bytes of a block of that size. */
  ghost predicate Within(r: Result, size: nat, at: nat) { r.Block? && r.at <= at < r.at + size }

  /** Placed like that, no byte of a receive buffer of the rings belongs to another buffer, or to a
      descriptor ring of 32 entries of 16 bytes, of any interface; and all lie in the heap. */
  lemma BuffersApart(r: Rings, d: nat, k: nat, r': Rings, d': nat, k': nat, at: nat)
    requires Placed(r, d) && Placed(r', d') && d <= 3 && d' <= 3 && k < Nic.RING && k' < Nic.RING
    ensures |r.buffers| == |r'.buffers| == Nic.RING
    ensures Within(r.buffers[k], Nic.BUFFER, at) ==>
              && at < 16 * 1024 * 1024
              && !Within(r'.rx, 16 * Nic.RING, at) && !Within(r'.tx, 16 * Nic.RING, at)
              && (Within(r'.buffers[k'], Nic.BUFFER, at) ==> d == d' && k == k')
  {
  }

  class Allocator {
    var offset: Size

    constructor ()
      ensures offset == 0
    {
      offset := 0;
    }

    /** `mm_init` */
    method Init()
      modifies this
      ensures offset == 0
    {
      offset := 0;
    }

    method Alloc(size: Size) returns (r: Result)
      modifies this
      ensures (r, offset) == Kmalloc(old(offset), size)
    {
      var rounded := (size + 15) % WORD / 16 * 16;
      if (offset + rounded) % WORD > HEAP_SIZE {
        return Null;
      }
      r := Block(offset);
      offset := (offset + rounded) % WORD;
    }

    /** The allocations of `e1000_init`: for up to four interfaces none fails, and everything lies
        side by side. */
    method AllocateRings(devices: nat) returns (rings: seq<Rings>)
      requires offset == 0 && devices <= MAX_DEVICES
      modifies this
      ensures |rings| == devices && forall d | 0 <= d < devices :: Placed(rings[d], d)
      ensures offset == 66560 * devices
    {
      rings := [];
      for d := 0 to devices
        invariant |rings| == d && forall e | 0 <= e < d :: Placed(rings[e], e)
        invariant offset == PER_DEVICE * d
      {
        var rx := Alloc(RING_BYTES);
        var buffers: seq<Result> := [];
        for k := 0 to RING_SIZE
          invariant |buffers| == k && offset == PER_DEVICE * d + RING_BYTES + BUFFER_BYTES * k
          invariant forall m | 0 <= m < k :: buffers[m] == Block(PER_DEVICE * d + RING_BYTES + BUFFER_BYTES * m)
        {
          var b := Alloc(BUFFER_BYTES);
          buffers := buffers + [b];
        }
        var tx := Alloc(RING_BYTES);
        rings := rings + [Rings(rx, buffers, tx)];
      }
    }
  }
}
