/** The page tables that `_start` builds, read back by the processor's own table walk. */
module Paging {
  import opened Bytes

  const PAGE := 0x1000
  const LARGE_PAGE := 0x20_0000
  /** p4_table, p3_table and the four pages of p2_table, contiguous in .bss, as 32-bit words. */
  const WORDS := 6144
  const P3 := 0x1000
  const P2 := 0x2000

  // ----- the walk, section 4.5 of volume 3A of the Intel SDM

  type u64 = x: int | 0 <= x < 0x1_0000_0000_0000_0000

  /** Physical memory: the tables at `base`, anything elsewhere. */
  datatype Memory = Memory(base: u32, tables: seq<u32>, elsewhere: nat -> u64)

  function Entry(m: Memory, at: nat): u64 {
    if m.base <= at && (at - m.base) / 4 + 1 < |m.tables| then
      m.tables[(at - m.base) / 4] + 0x1_0000_0000 * m.tables[(at - m.base) / 4 + 1]
    else m.elsewhere(at)
  }

  predicate Present(e: u64) { e % 2 == 1 }

  predicate Writable(e: u64) { e / 2 % 2 == 1 }

  predicate PageSize(e: u64) { e / 0x80 % 2 == 1 }

  /** Bits 12 to 51, 21 to 51 and 30 to 51. */
  function TableOf(e: u64): nat { e / 0x1000 % 0x100_0000_0000 * 0x1000 }

  function LargeFrame(e: u64): nat { e / 0x20_0000 % 0x8000_0000 * 0x20_0000 }

  function HugeFrame(e: u64): nat { e / 0x4000_0000 % 0x40_0000 * 0x4000_0000 }

  datatype Translation = Unmapped | Mapped(physical: nat, writable: bool)

  function Walk(m: Memory, cr3: nat, va: u64): Translation {
    var e4 := Entry(m, cr3 + 8 * (va / 0x80_0000_0000 % 512));
    if !Present(e4) then Unmapped else
    var e3 := Entry(m, TableOf(e4) + 8 * (va / 0x4000_0000 % 512));
    if !Present(e3) then Unmapped else
    if PageSize(e3) then Mapped(HugeFrame(e3) + va % 0x4000_0000, Writable(e4) && Writable(e3)) else
    var e2 := Entry(m, TableOf(e3) + 8 * (va / 0x20_0000 % 512));
    if !Present(e2) then Unmapped else
    if PageSize(e2) then Mapped(LargeFrame(e2) + va % 0x20_0000, Writable(e4) && Writable(e3) && Writable(e2)) else
    var e1 := Entry(m, TableOf(e2) + 8 * (va / 0x1000 % 512));
    if !Present(e1) then Unmapped else
    Mapped(TableOf(e1) + va % 0x1000, Writable(e4) && Writable(e3) && Writable(e2) && Writable(e1))
  }

  /** Bits 48 to 63 equal bit 47. */
  predicate Canonical(va: u64) { va < 0x8000_0000_0000 || va >= 0xFFFF_8000_0000_0000 }

  // ----- the tables

  predicate Placed(base: u32) { base % PAGE == 0 && base + 4 * WORDS < 0x1_0000_0000 }

  /** Every word of the three tables after the boot code. */
  function Expected(base: u32, i: nat): u32
    requires Placed(base) && i < WORDS
  {
    if i == 0 then base + P3 + 3
    else if i == 1024 || i == 1026 || i == 1028 || i == 1030 then base + P2 + PAGE * ((i - 1024) / 2) + 3
    else if i >= 2048 && i % 2 == 0 then 0x83 + (i - 2048) / 2 * LARGE_PAGE
    else 0
  }

  ghost predicate Built(base: u32, tables: seq<u32>) {
    Placed(base) && |tables| == WORDS && forall i | 0 <= i < WORDS :: tables[i] == Expected(base, i)
  }

  /** `or $0x3` */
  function OrThree(x: u32): u32 { x - x % 4 + 3 }

  function Add(x: u32, y: u32): u32 { (x + y) % 0x1_0000_0000 }

  lemma OrThreeAligned(x: u32)
    requires x % PAGE == 0
    ensures OrThree(x) == x + 3
  {
  }

  /** The stores of `_start`, from the link of p4 to p3 to the last large page. */
  method BuildTables(tables: array<u32>, base: u32)
    requires Placed(base) && tables.Length == WORDS
    requires forall i | 0 <= i < WORDS :: tables[i] == 0
    modifies tables
    ensures Built(base, tables[..])
  {
    hide OrThree;
    OrThreeAligned(base + P3);
    OrThreeAligned(base + P2);
    var eax := OrThree(base + P3);
    tables[0] := eax;

    eax := OrThree(base + P2);
    tables[P3 / 4] := eax;
    eax := Add(eax, 4096);
    tables[P3 / 4 + 2] := eax;
    eax := Add(eax, 4096);
    tables[P3 / 4 + 4] := eax;
    eax := Add(eax, 4096);
    tables[P3 / 4 + 6] := eax;

    FillLargePages(tables);
  }

  /** The counted loop over the 2048 large pages. */
  method FillLargePages(tables: array<u32>)
    requires tables.Length == WORDS
    modifies tables
    ensures forall i | 0 <= i < WORDS ::
              tables[i] == if i >= 2048 && i % 2 == 0 then 0x83 + (i - 2048) / 2 * LARGE_PAGE else old(tables[i])
  {
    var ebx := 0;
    var eax: u32 := 0x83;
    while true
      invariant 0 <= ebx < 2048 && eax == 0x83 + ebx * LARGE_PAGE
      invariant forall i | 0 <= i < WORDS ::
                  tables[i] == if 2048 <= i < 2048 + 2 * ebx && i % 2 == 0 then 0x83 + (i - 2048) / 2 * LARGE_PAGE else old(tables[i])
      decreases 2048 - ebx
    {
      tables[P2 / 4 + 2 * ebx] := eax;
      eax := Add(eax, 0x20_0000);
      ebx := ebx + 1;
      if ebx == 2048 {
        break;
      }
    }
  }

  // ----- what the processor sees

  lemma TopEntry(m: Memory, i: nat)
    requires Built(m.base, m.tables) && i < 512
    ensures Entry(m, m.base + 8 * i) == if i == 0 then m.base + P3 + 3 else 0
  {
    assert (m.base + 8 * i - m.base) / 4 == 2 * i;
  }

  lemma MiddleEntry(m: Memory, i: nat)
    requires Built(m.base, m.tables) && i < 512
    ensures Entry(m, m.base + P3 + 8 * i) == if i < 4 then m.base + P2 + PAGE * i + 3 else 0
  {
    assert (m.base + P3 + 8 * i - m.base) / 4 == 1024 + 2 * i;
  }

  lemma LargeEntry(m: Memory, i: nat, j: nat)
    requires Built(m.base, m.tables) && i < 4 && j < 512
    ensures Entry(m, m.base + P2 + PAGE * i + 8 * j) == 0x83 + (512 * i + j) * LARGE_PAGE
  {
    assert (m.base + P2 + PAGE * i + 8 * j - m.base) / 4 == 2048 + 2 * (512 * i + j);
  }

  lemma PointerEntry(table: u32)
    requires table % PAGE == 0
    ensures Present(table + 3) && Writable(table + 3) && !PageSize(table + 3) && TableOf(table + 3) == table
  {
    hide Present, Writable, PageSize, TableOf;
    PointerFlags(table / PAGE);
    PointerTable(table / PAGE);
  }

  lemma PointerFlags(k: nat)
    requires k < 0x10_0000
    ensures Present(PAGE * k + 3) && Writable(PAGE * k + 3) && !PageSize(PAGE * k + 3)
  {
    Flags(PAGE * k + 3, 0x10 * k, 3);
  }

  /** The flags of an entry depend on its low byte only. */
  lemma Flags(e: u64, h: nat, low: nat)
    requires e == 0x100 * h + low && low < 0x100
    ensures Present(e) <==> low % 2 == 1
    ensures Writable(e) <==> low / 2 % 2 == 1
    ensures PageSize(e) <==> low / 0x80 == 1
  {
    Quotient2(e, 0x80 * h + low / 2, low % 2);
    Quotient2(e / 2, 0x40 * h + low / 4, low / 2 % 2);
    Quotient128(e, 2 * h + low / 0x80, low % 0x80);
    Quotient2(e / 0x80, h, low / 0x80);
  }

  lemma Quotient2(x: nat, q: nat, r: nat)
    requires x == 2 * q + r && r < 2
    ensures x / 2 == q && x % 2 == r
  {
  }

  lemma Quotient128(x: nat, q: nat, r: nat)
    requires x == 0x80 * q + r && r < 0x80
    ensures x / 0x80 == q
  {
  }

  lemma PointerTable(k: nat)
    requires k < 0x10_0000
    ensures TableOf(PAGE * k + 3) == PAGE * k
  {
    assert (PAGE * k + 3) / 0x1000 == k;
  }

  lemma LargeEntryFields(k: nat)
    requires k < 2048
    ensures var e := 0x83 + k * LARGE_PAGE;
            Present(e) && Writable(e) && PageSize(e) && LargeFrame(e) == k * LARGE_PAGE
  {
    hide Present, Writable, PageSize, LargeFrame;
    LargeFlags(k);
    LargeFrameOf(k);
  }

  lemma LargeFlags(k: nat)
    requires k < 2048
    ensures Present(0x83 + k * LARGE_PAGE) && Writable(0x83 + k * LARGE_PAGE) && PageSize(0x83 + k * LARGE_PAGE)
  {
    Flags(0x83 + k * LARGE_PAGE, 0x2000 * k, 0x83);
  }

  lemma LargeFrameOf(k: nat)
    requires k < 2048
    ensures LargeFrame(0x83 + k * LARGE_PAGE) == k * LARGE_PAGE
  {
    assert (0x83 + k * LARGE_PAGE) / 0x20_0000 == k;
  }

  /** The first 4 GiB are mapped to themselves, present and writable, and no other canonical
      address is mapped, whatever the rest of memory contains. */
  lemma IdentityMap(m: Memory, va: u64)
    requires Built(m.base, m.tables) && Canonical(va)
    ensures Walk(m, m.base, va) == if va < 0x1_0000_0000 then Mapped(va, true) else Unmapped
  {
    hide Entry, Built, TableOf, LargeFrame, HugeFrame, Present, Writable, PageSize;
    var i4, i3, i2 := va / 0x80_0000_0000 % 512, va / 0x4000_0000 % 512, va / 0x20_0000 % 512;
    TopEntry(m, i4);
    NothingPresent();
    BuiltPlaced(m);
    if i4 == 0 {
      PointerEntry(m.base + P3);
      MiddleEntry(m, i3);
      if i3 < 4 {
        PointerEntry(m.base + P2 + PAGE * i3);
        LargeEntry(m, i3, i2);
        LargeEntryFields(512 * i3 + i2);
      }
    }
    Indices(va);
  }

  lemma NothingPresent()
    ensures !Present(0)
  {
  }

  lemma BuiltPlaced(m: Memory)
    requires Built(m.base, m.tables)
    ensures Placed(m.base)
  {
  }

  /** The indices of a canonical address. */
  lemma Indices(va: u64)
    requires Canonical(va)
    ensures var i4, i3, i2 := va / 0x80_0000_0000 % 512, va / 0x4000_0000 % 512, va / 0x20_0000 % 512;
            && (va < 0x1_0000_0000 <==> i4 == 0 && i3 < 4)
            && (va < 0x1_0000_0000 ==> va == (512 * i3 + i2) * LARGE_PAGE + va % LARGE_PAGE)
  {
  }
}
