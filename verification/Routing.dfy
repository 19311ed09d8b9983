/** The routing table: first match under a netmask. */
module Routing {
  import opened Bytes

  const MAX_ROUTES := 16

  type Mac = m: seq<u8> | |m| == 6 witness [0, 0, 0, 0, 0, 0]

  /** `struct route_entry`, with the two bytes of padding that its alignment adds. */
  datatype Route = Route(dest: u32, mask: u32, mac: Mac, pad: u16)

  /** Bitwise `&`. */
  function And(x: nat, y: nat): nat
    decreases x
  {
    if x == 0 then 0 else 2 * And(x / 2, y / 2) + if x % 2 == 1 && y % 2 == 1 then 1 else 0
  }

  predicate Bit(x: nat, i: nat)
    decreases i
  {
    if i == 0 then x % 2 == 1 else Bit(x / 2, i - 1)
  }

  predicate Covers(r: Route, ip: u32) { And(ip, r.mask) == And(r.dest, r.mask) }

  /** Agreement on every bit that the mask selects. */
  ghost predicate Agree(x: nat, y: nat, m: nat) {
    forall i: nat | Bit(m, i) :: Bit(x, i) == Bit(y, i)
  }

  lemma AgreeHalves(x: nat, y: nat, m: nat)
    ensures Agree(x, y, m) <==> (m % 2 == 1 ==> x % 2 == y % 2) && Agree(x / 2, y / 2, m / 2)
  {
    if Agree(x, y, m) {
      assert Bit(m, 0) ==> Bit(x, 0) == Bit(y, 0);
      forall i: nat | Bit(m / 2, i)
        ensures Bit(x / 2, i) == Bit(y / 2, i)
      {
        assert Bit(m, i + 1) && Bit(x, i + 1) == Bit(y, i + 1);
      }
    }
    if Agree(x / 2, y / 2, m / 2) {
      assert forall i: nat | i > 0 && Bit(m, i) :: Bit(m / 2, i - 1) && Bit(x / 2, i - 1) == Bit(y / 2, i - 1);
    }
  }

  /** Two addresses are equal under a netmask exactly when they agree on its bits. */
  lemma {:induction false} MaskedEqual(x: nat, y: nat, m: nat)
    ensures And(x, m) == And(y, m) <==> Agree(x, y, m)
    decreases x + y
  {
    if x + y > 0 {
      hide Agree;
      MaskedEqual(x / 2, y / 2, m / 2);
      AgreeHalves(x, y, m);
    }
  }

  /** `route_lookup`: the first route that covers the address, or the number of routes. */
  function Lookup(routes: seq<Route>, ip: u32, from: nat := 0): (r: nat)
    requires from <= |routes|
    ensures from <= r <= |routes|
    ensures r < |routes| ==> Covers(routes[r], ip)
    ensures forall j | from <= j < r :: !Covers(routes[j], ip)
    decreases |routes| - from
  {
    if from == |routes| || Covers(routes[from], ip) then from else Lookup(routes, ip, from + 1)
  }

  // ----- which route is taken, by the bits of the addresses

  /** The address agrees with the destination of the route on every bit of its netmask. */
  ghost predicate Reaches(r: Route, ip: u32) { Agree(ip, r.dest, r.mask) }

  ghost predicate HasRoute(routes: seq<Route>, ip: u32) {
    exists i | 0 <= i < |routes| :: Reaches(routes[i], ip)
  }

  /** Index i is that of the first route that reaches the address, or the number of routes if none does. */
  ghost predicate FirstRoute(routes: seq<Route>, ip: u32, i: nat) {
    && i <= |routes| && (i < |routes| ==> Reaches(routes[i], ip))
    && forall j | 0 <= j < i :: !Reaches(routes[j], ip)
  }

  /** The lookup finds the first route that agrees with the address on all bits of its netmask, and
      nothing else; so it finds one exactly when there is one. */
  lemma LookupIsFirst(routes: seq<Route>, ip: u32, i: nat)
    ensures Lookup(routes, ip) == i <==> FirstRoute(routes, ip, i)
    ensures Lookup(routes, ip) < |routes| <==> HasRoute(routes, ip)
  {
    hide And, Agree;
    forall j | 0 <= j < |routes|
      ensures Covers(routes[j], ip) <==> Reaches(routes[j], ip)
    {
      MaskedEqual(ip, routes[j].dest, routes[j].mask);
    }
  }

  // ----- the route that the router boots with

  /** 192.168.1.0/24, by way of 52:54:00:99:99:99. */
  const BootRoute := Route(0x0001A8C0, 0x00FF_FFFF, [0x52, 0x54, 0x00, 0x99, 0x99, 0x99], 0)

  /** The mask of the `k` lowest bits. */
  function Ones(k: nat): nat { if k == 0 then 0 else 2 * Ones(k - 1) + 1 }

  lemma OnesFour(k: nat)
    ensures Ones(k + 4) == 16 * Ones(k) + 15
  {
    assert Ones(k + 2) == 4 * Ones(k) + 3;
  }

  lemma {:induction false} LowBits(x: nat, k: nat, high: nat, low: nat)
    requires x == high * (Ones(k) + 1) + low && low <= Ones(k)
    ensures And(x, Ones(k)) == low
  {
    if k == 0 {
      AndZero(x);
    } else if x > 0 {
      var m := Ones(k - 1);
      assert high * (2 * m + 2) == 2 * (high * (m + 1));
      assert x / 2 == high * (m + 1) + low / 2 && x % 2 == low % 2;
      LowBits(x / 2, k - 1, high, low / 2);
      assert Ones(k) / 2 == m && Ones(k) % 2 == 1;
    }
  }

  lemma {:induction false} AndZero(x: nat)
    ensures And(x, 0) == 0
  {
    if x > 0 {
      AndZero(x / 2);
    }
  }

  lemma BootMask()
    ensures Ones(24) == 0x00FF_FFFF
  {
    assert Ones(0) == 0;
    hide Ones;
    OnesFour(0);
    OnesFour(4);
    OnesFour(8);
    OnesFour(12);
    OnesFour(16);
    OnesFour(20);
  }

  /** It reaches exactly the addresses 192.168.1.x, as they lie in a packet; not 8.8.8.8. */
  lemma BootRouteReaches(b: seq<u8>, at: nat)
    requires at + 4 <= |b|
    ensures Reaches(BootRoute, Get32(b, at)) <==> b[at] == 192 && b[at + 1] == 168 && b[at + 2] == 1
    ensures !Reaches(BootRoute, Get32([8, 8, 8, 8], 0))
  {
    BootRouteLow(b, at);
    BootRouteLow([8, 8, 8, 8], 0);
  }

  lemma BootRouteLow(b: seq<u8>, at: nat)
    requires at + 4 <= |b|
    ensures Reaches(BootRoute, Get32(b, at)) <==> b[at] == 192 && b[at + 1] == 168 && b[at + 2] == 1
  {
    var ip, low := Get32(b, at), b[at] as int + 0x100 * b[at + 1] as int + 0x1_0000 * b[at + 2] as int;
    hide And, Agree, Ones;
    BootMask();
    assert ip == b[at + 3] as int * 0x100_0000 + low;
    LowBits(ip, 24, b[at + 3], low);
    LowBits(BootRoute.dest, 24, 0, 0x01A8C0);
    MaskedEqual(ip, BootRoute.dest, BootRoute.mask);
  }

  // ----- adding a route

  /** Where `add_route` stores when the count is this: there, or nowhere when the table is full. The
      count grows by as much. */
  function StoredAt(count: int): seq<int> { if count < MAX_ROUTES then [count] else [] }

  /** The whole table after `add_route`; the padding of the entry stays. */
  function Appended(table: seq<Route>, count: nat, dest: u32, mask: u32, mac: Mac): (r: seq<Route>)
    requires |table| == MAX_ROUTES
    ensures |r| == MAX_ROUTES
  {
    if StoredAt(count) == [] then table
    else table[StoredAt(count)[0] := table[StoredAt(count)[0]].(dest := dest, mask := mask, mac := mac)]
  }
}
