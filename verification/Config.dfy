/** The `save` and `load` commands: the routing table and its count, as the bytes of sector 1. */
module Config {
  import opened Bytes
  import opened Routing
  import Ata
  import Router

  const CONFIG_SECTOR: u32 := 1
  const ROUTE_SIZE := 16
  const TABLE_AT := 4

  type Image = b: seq<u8> | |b| == Ata.SECTOR witness seq(Ata.SECTOR, _ => 0)
  type Table = t: seq<Route> | |t| == MAX_ROUTES witness seq(MAX_ROUTES, _ => NoRoute)

  const NoRoute := Route(0, 0, [0, 0, 0, 0, 0, 0], 0)

  function At(i: nat): nat { TABLE_AT + ROUTE_SIZE * i }

  // ----- struct layout

  function RouteAt(b: seq<u8>, at: nat): Route
    requires at + ROUTE_SIZE <= |b|
  {
    Route(Get32(b, at), Get32(b, at + 4), b[at + 8..at + 14], Get16(b, at + 14))
  }

  function PutRoute(b: seq<u8>, at: nat, r: Route): (c: seq<u8>)
    requires at + ROUTE_SIZE <= |b|
    ensures |c| == |b|
    ensures RouteAt(c, at) == r
    ensures forall k | 0 <= k < |b| && !(at <= k < at + ROUTE_SIZE) :: c[k] == b[k]
  {
    var b1 := Put32(Put32(b, at, r.dest), at + 4, r.mask);
    var b2 := b1[..at + 8] + r.mac + b1[at + 14..];
    Put16(b2, at + 14, r.pad)
  }

  /** Copies the first `n` entries of the table. */
  function PutRoutes(b: Image, table: Table, n: nat): Image
    requires n <= MAX_ROUTES
  {
    if n == 0 then b else PutRoute(PutRoutes(b, table, n - 1), At(n - 1), table[n - 1])
  }

  /** What `save` writes. */
  function Encode(count: u32, table: Table): Image {
    PutRoutes(Put32(seq(Ata.SECTOR, _ => 0), 0, count), table, MAX_ROUTES)
  }

  /** The count that `load` accepts: a 32-bit word read as a signed number, 0 if above 16. */
  function LoadedCount(word: u32): int {
    var n: int := if word < 0x8000_0000 then word else word - 0x1_0000_0000;
    if n > MAX_ROUTES then 0 else n
  }

  function LoadedTable(b: Image): Table {
    seq(MAX_ROUTES, i requires 0 <= i < MAX_ROUTES => RouteAt(b, At(i)))
  }

  lemma {:induction false} PutRoutesRead(b: Image, table: Table, n: nat, i: nat)
    requires n <= MAX_ROUTES && i < n
    ensures RouteAt(PutRoutes(b, table, n), At(i)) == table[i]
  {
    hide RouteAt, PutRoute;
    if i < n - 1 {
      PutRoutesRead(b, table, n - 1, i);
      SameRoute(PutRoutes(b, table, n - 1), PutRoutes(b, table, n), At(i));
    }
  }

  lemma SameRoute(a: seq<u8>, b: seq<u8>, at: nat)
    requires at + ROUTE_SIZE <= |a| == |b|
    requires forall k | at <= k < at + ROUTE_SIZE :: a[k] == b[k]
    ensures RouteAt(a, at) == RouteAt(b, at)
  {
    assert a[at + 8..at + 14] == b[at + 8..at + 14];
  }

  lemma {:induction false} PutRoutesKeepCount(b: Image, table: Table, n: nat)
    requires n <= MAX_ROUTES
    ensures forall k | 0 <= k < TABLE_AT :: PutRoutes(b, table, n)[k] == b[k]
  {
    if n > 0 {
      PutRoutesKeepCount(b, table, n - 1);
    }
  }

  // ----- the layout on disk

  /** Route i lies in the 16 bytes from 4 + 16 i on: destination, netmask, next hop, two bytes of padding. */
  ghost predicate Layout(b: Image, table: Table) {
    forall i | 0 <= i < 16 ::
      && Get32(b, 4 + 16 * i) == table[i].dest && Get32(b, 8 + 16 * i) == table[i].mask
      && b[12 + 16 * i..18 + 16 * i] == table[i].mac && Get16(b, 18 + 16 * i) == table[i].pad
  }

  /** The count lies in the first four bytes; behind the table there are zeros. */
  ghost predicate SavedLayout(b: Image, count: u32, table: Table) {
    Get32(b, 0) == count && Layout(b, table) && forall k | 260 <= k < 512 :: b[k] == 0
  }

  lemma {:induction false} PutRoutesKeepRest(b: Image, table: Table, n: nat)
    requires n <= MAX_ROUTES
    ensures forall k | At(n) <= k < Ata.SECTOR :: PutRoutes(b, table, n)[k] == b[k]
  {
    if n > 0 {
      PutRoutesKeepRest(b, table, n - 1);
    }
  }

  lemma EncodeLayout(count: u32, table: Table)
    ensures SavedLayout(Encode(count, table), count, table)
  {
    hide PutRoute, Get16, Get32;
    var b0, b := Put32(seq(Ata.SECTOR, _ => 0), 0, count), Encode(count, table);
    PutRoutesKeepCount(b0, table, MAX_ROUTES);
    PutRoutesKeepRest(b0, table, MAX_ROUTES);
    SameDoubleWordSameBytes(b0, b, 0);
    forall i | 0 <= i < 16
      ensures RouteAt(b, 4 + 16 * i) == table[i]
    {
      PutRoutesRead(b0, table, MAX_ROUTES, i);
    }
  }

  lemma LoadedLayout(b: Image)
    ensures Layout(b, LoadedTable(b))
  {
    hide Get16, Get32;
    assert forall i | 0 <= i < 16 :: LoadedTable(b)[i] == RouteAt(b, 4 + 16 * i);
  }

  /** Struct bytes, sector buffer, 256 words and back: both the count and the whole table. */
  lemma SaveThenLoad(count: u32, table: Table)
    requires count <= MAX_ROUTES
    ensures var b := Ata.ToBytes(Ata.ToWords(Encode(count, table)));
            LoadedCount(Get32(b, 0)) == count && LoadedTable(b) == table
  {
    hide RouteAt, PutRoute, Ata.ToBytes, Ata.ToWords;
    var b := Encode(count, table);
    Ata.Unpacked(b);
    assert b[..Ata.SECTOR] == b;
    var b0 := Put32(seq(Ata.SECTOR, _ => 0), 0, count);
    PutRoutesKeepCount(b0, table, MAX_ROUTES);
    SameDoubleWordSameBytes(b0, b, 0);
    forall i | 0 <= i < MAX_ROUTES
      ensures LoadedTable(b)[i] == table[i]
    {
      PutRoutesRead(b0, table, MAX_ROUTES, i);
    }
  }

  /** The indices at which `k` calls of `add_route` store, from a given count on. */
  function Stores(count: int, k: nat): seq<int>
    decreases k
  {
    if k == 0 then [] else StoredAt(count) + Stores(count + |StoredAt(count)|, k - 1)
  }

  /** What the sanity check of `load` is worth: whatever number of routes is added afterwards, all
      are stored inside the table if and only if the loaded word is not negative. */
  lemma {:induction false} LoadedCountUsable(word: u32, k: nat)
    requires k > 0
    ensures (forall x | x in Stores(LoadedCount(word), k) :: 0 <= x < MAX_ROUTES) <==> word < 0x8000_0000
  {
    var n := LoadedCount(word);
    assert n < 0 <==> word >= 0x8000_0000;
    if 0 <= n {
      StoresInside(n, k);
    } else {
      StoresFirst(n, k);
      hide Stores, LoadedCount;
      assert !(0 <= n < MAX_ROUTES);
    }
  }

  lemma StoresFirst(count: int, k: nat)
    requires count < MAX_ROUTES && k > 0
    ensures count in Stores(count, k)
  {
    assert Stores(count, k)[0] == count;
  }

  lemma {:induction false} StoresInside(count: int, k: nat)
    requires 0 <= count <= MAX_ROUTES
    ensures forall x | x in Stores(count, k) :: 0 <= x < MAX_ROUTES
    decreases k
  {
    if k > 0 {
      StoresInside(count + |StoredAt(count)|, k - 1);
    }
  }

  // ----- the commands

  /** The `save` branch of `cli_execute`. */
  method Save(kernel: Router.Kernel, drive: Ata.Drive)
    requires kernel.table.Length == MAX_ROUTES
    modifies drive
    ensures drive.sectors == old(drive.sectors)[Ata.Drive.Address(CONFIG_SECTOR) :=
              Ata.ToWords(Encode(kernel.numRoutes % 0x1_0000_0000, kernel.table[..]))]
    ensures 1 in drive.sectors && drive.sectors == old(drive.sectors)[1 := drive.sectors[1]]
    ensures SavedLayout(Ata.ToBytes(drive.sectors[1]), kernel.numRoutes % 0x1_0000_0000, kernel.table[..])
  {
    hide PutRoute, Put32, RouteAt, Get32, Ata.ToWords, Ata.ToBytes, SavedLayout;
    var buffer := new u8[Ata.SECTOR](_ => 0);
    assert buffer[..] == seq(Ata.SECTOR, _ => 0);
    Store32(buffer, 0, kernel.numRoutes % 0x1_0000_0000);
    StoreTable(buffer, kernel.table);
    drive.WriteSector(CONFIG_SECTOR, buffer);
    EncodeLayout(kernel.numRoutes % 0x1_0000_0000, kernel.table[..]);
    Ata.Unpacked(buffer[..]);
    assert buffer[..][..Ata.SECTOR] == buffer[..];
  }

  /** `memcpy(buffer + 4, routing_table, sizeof(routing_table))` */
  method StoreTable(buffer: array<u8>, table: array<Route>)
    requires table.Length == MAX_ROUTES && buffer.Length == Ata.SECTOR
    modifies buffer
    ensures buffer[..] == PutRoutes(old(buffer[..]), table[..], MAX_ROUTES)
  {
    hide PutRoute, RouteAt;
    for i := 0 to MAX_ROUTES
      invariant buffer[..] == PutRoutes(old(buffer[..]), table[..], i)
    {
      StoreRoute(buffer, At(i), table[i]);
    }
  }

  method StoreRoute(buffer: array<u8>, at: nat, r: Route)
    requires at + ROUTE_SIZE <= buffer.Length
    modifies buffer
    ensures buffer[..] == PutRoute(old(buffer[..]), at, r)
  {
    hide Get16, Get32, Put32, Put16;
    Store32(buffer, at, r.dest);
    Store32(buffer, at + 4, r.mask);
    StoreMac(buffer, at + 8, r.mac);
    Store16(buffer, at + 14, r.pad);
  }

  method StoreMac(buffer: array<u8>, at: nat, mac: Mac)
    requires at + 6 <= buffer.Length
    modifies buffer
    ensures buffer[..] == old(buffer[..at]) + mac + old(buffer[at + 6..])
  {
    for i := 0 to 6
      invariant forall k | 0 <= k < buffer.Length ::
                  buffer[k] == if at <= k < at + i then mac[k - at] else old(buffer[k])
    {
      buffer[at + i] := mac[i];
    }
  }

  /** The `load` branch of `cli_execute`. */
  method Load(kernel: Router.Kernel, drive: Ata.Drive)
    requires kernel.table.Length == MAX_ROUTES
    modifies kernel`numRoutes, kernel.table
    ensures var b := Ata.ToBytes(drive.Stored(CONFIG_SECTOR));
            kernel.numRoutes == LoadedCount(Get32(b, 0)) && kernel.table[..] == LoadedTable(b)
    ensures var b := Ata.ToBytes(drive.Stored(1)); var word := Get32(b, 0);
            && Layout(b, kernel.table[..])
            && kernel.numRoutes == if word <= 16 then word else if word < 0x8000_0000 then 0 else word - 0x1_0000_0000
  {
    hide Get16, Get32, LoadedCount, Layout;
    var buffer := new u8[Ata.SECTOR];
    drive.ReadSector(CONFIG_SECTOR, buffer);
    ghost var b := buffer[..];
    kernel.numRoutes := LoadedCount(Get32(buffer[..], 0));
    for i := 0 to MAX_ROUTES
      invariant buffer[..] == b && kernel.numRoutes == LoadedCount(Get32(b, 0))
      invariant forall j | 0 <= j < i :: kernel.table[j] == RouteAt(buffer[..], At(j))
    {
      kernel.table[i] := RouteAt(buffer[..], At(i));
    }
    LoadedLayout(b);
    LoadedCountIs(Get32(b, 0));
  }

  lemma LoadedCountIs(word: u32)
    ensures LoadedCount(word) == if word <= 16 then word else if word < 0x8000_0000 then 0 else word - 0x1_0000_0000
  {
  }

  // ----- whole runs

  datatype Command = Add(dest: u32, mask: u32, mac: Mac) | SaveCmd | LoadCmd

  /** Routing table, count and the words of sector 1. */
  datatype State = State(table: Table, count: int, sector: Ata.Sector)

  /** One command; appending is modelled for a usable count only, which is all that occurs. */
  function Execute(s: State, c: Command): State {
    match c
    case Add(dest, mask, mac) =>
      if s.count < 0 then s
      else s.(table := Appended(s.table, s.count, dest, mask, mac), count := s.count + |StoredAt(s.count)|)
    case SaveCmd => s.(sector := Ata.ToWords(Encode(s.count % 0x1_0000_0000, s.table)))
    case LoadCmd =>
      var b := Ata.ToBytes(s.sector);
      s.(table := LoadedTable(b), count := LoadedCount(Get32(b, 0)))
  }

  function Run(s: State, commands: seq<Command>): State {
    if commands == [] then s else Execute(Run(s, commands[..|commands| - 1]), commands[|commands| - 1])
  }

  /** A route without its padding. */
  datatype Net = Net(dest: u32, mask: u32, mac: Mac)

  function Routes(table: Table, count: int): seq<Net>
    requires 0 <= count <= MAX_ROUTES
  {
    seq(count, i requires 0 <= i < count => Net(table[i].dest, table[i].mask, table[i].mac))
  }

  /** The commands on plain lists: a list in use and a saved list. */
  datatype Lists = Lists(used: seq<Net>, saved: seq<Net>)

  function ExecuteLists(l: Lists, c: Command): Lists {
    match c
    case Add(dest, mask, mac) =>
      if |l.used| < MAX_ROUTES then l.(used := l.used + [Net(dest, mask, mac)]) else l
    case SaveCmd => l.(saved := l.used)
    case LoadCmd => l.(used := l.saved)
  }

  ghost predicate Refines(s: State, l: Lists) {
    && 0 <= s.count <= MAX_ROUTES && Routes(s.table, s.count) == l.used
    && var b := Ata.ToBytes(s.sector);
    && 0 <= LoadedCount(Get32(b, 0)) <= MAX_ROUTES && Routes(LoadedTable(b), LoadedCount(Get32(b, 0))) == l.saved
  }

  lemma ExecuteRefines(s: State, l: Lists, c: Command)
    requires Refines(s, l)
    ensures Refines(Execute(s, c), ExecuteLists(l, c))
  {
    hide Ata.ToBytes, Ata.ToWords, LoadedTable, LoadedCount, Get32, Encode;
    match c
    case Add(dest, mask, mac) => AddRefines(s, l, dest, mask, mac);
    case SaveCmd => SaveThenLoad(s.count, s.table);
    case LoadCmd =>
  }

  lemma AddRefines(s: State, l: Lists, dest: u32, mask: u32, mac: Mac)
    requires Refines(s, l)
    ensures Refines(Execute(s, Add(dest, mask, mac)), ExecuteLists(l, Add(dest, mask, mac)))
  {
    hide Ata.ToBytes, LoadedTable, LoadedCount, Get32;
    var t := Execute(s, Add(dest, mask, mac));
    assert s.count < MAX_ROUTES ==> Routes(t.table, t.count) == Routes(s.table, s.count) + [Net(dest, mask, mac)];
  }

  function RunLists(l: Lists, commands: seq<Command>): Lists {
    if commands == [] then l else ExecuteLists(RunLists(l, commands[..|commands| - 1]), commands[|commands| - 1])
  }

  /** From a zeroed sector and an empty table, over every interleaving of the commands: the count
      stays between 0 and 16, and bytes, words and structs behave as two plain lists. */
  lemma {:induction false} RunRefines(table: Table, commands: seq<Command>)
    ensures Refines(Run(State(table, 0, Ata.ZeroSector), commands), RunLists(Lists([], []), commands))
  {
    var s := State(table, 0, Ata.ZeroSector);
    if commands == [] {
      ZeroSectorEmpty();
      hide Ata.ToBytes, LoadedTable, LoadedCount, Get32;
    } else {
      hide Refines, Execute, ExecuteLists;
      var before := commands[..|commands| - 1];
      RunRefines(table, before);
      ExecuteRefines(Run(s, before), RunLists(Lists([], []), before), commands[|commands| - 1]);
    }
  }

  lemma ZeroSectorEmpty()
    ensures LoadedCount(Get32(Ata.ToBytes(Ata.ZeroSector), 0)) == 0
  {
    var b := Ata.ToBytes(Ata.ZeroSector);
    assert b[0] == b[1] == b[2] == b[3] == 0;
  }
}
