/** The session table of the NAT engine as a value, and one step of each direction. */
module NatTable {
  import opened Bytes
  import opened Packet

  const MAX_ENTRIES := 2048
  const FIRST_PORT := 50000
  const LAST_PORT := 65000

  datatype Entry = Entry(internalIp: u32, internalPort: u16, externalPort: u16, protocol: u8, lastActive: u32, inUse: bool)
  {
    function Session(): Key { Key(internalIp, internalPort, protocol) }
  }

  /** Endpoint-independent mapping, section 4.1 of RFC 4787: the destination is not part of it. */
  datatype Key = Key(ip: u32, port: u16, protocol: u8)

  datatype State = State(table: seq<Entry>, nextPort: u16, ticks: u32)

  const Empty := Entry(0, 0, 0, 0, 0, false)
  const Initial := State(EmptyTable(), FIRST_PORT, 0)

  function EmptyTable(): seq<Entry> { seq(MAX_ENTRIES, _ => Empty) }

  // ----- the linear scans

  datatype Query = BySource(key: Key) | ByExternal(port: u16, protocol: u8) | Unused

  predicate Matches(q: Query, e: Entry) {
    match q
    case BySource(key) => e.inUse && e.Session() == key
    case ByExternal(port, protocol) => e.inUse && e.externalPort == port && e.protocol == protocol
    case Unused => !e.inUse
  }

  /** Index of the first match at or after `from`, or the length of the table. */
  function First(t: seq<Entry>, q: Query, from: nat := 0): (r: nat)
    requires from <= |t|
    ensures from <= r <= |t|
    ensures r < |t| ==> Matches(q, t[r])
    ensures forall j | from <= j < r :: !Matches(q, t[j])
    decreases |t| - from
  {
    if from == |t| || Matches(q, t[from]) then from else First(t, q, from + 1)
  }

  // ----- steps

  function NextPort(p: u16): u16 {
    var q := (p + 1) % 0x1_0000;
    if q > LAST_PORT then FIRST_PORT else q
  }

  /** Fills a free slot; the allocated port is kept in network byte order. */
  function Open(st: State, slot: nat, key: Key): State
    requires slot < |st.table|
  {
    var e := st.table[slot].(internalIp := key.ip, internalPort := key.port, externalPort := Swap(st.nextPort),
                             protocol := key.protocol, inUse := true);
    st.(table := st.table[slot := e], nextPort := NextPort(st.nextPort))
  }

  function Touch(st: State, slot: nat): State
    requires slot < |st.table|
  {
    st.(table := st.table[slot := st.table[slot].(lastActive := st.ticks)],
        ticks := (st.ticks + 1) % 0x1_0000_0000)
  }

  datatype Reply = Reply(st: State, pkt: seq<u8>, ok: bool)

  function SourceKey(pkt: Buf): Key { Key(SrcIp(pkt), SrcPort(pkt), Protocol(pkt)) }

  /** The slot of a key: the one that holds it, otherwise the first free one. */
  function SourceSlot(t: seq<Entry>, key: Key): nat {
    var known := First(t, BySource(key));
    if known < |t| then known else First(t, Unused)
  }

  /** `nat_outbound` */
  function Outbound(st: State, pkt: Buf, len: u16): Reply
  {
    if len < 34 || !HasPorts(pkt) then Reply(st, pkt, false) else
    var key := SourceKey(pkt);
    var slot := SourceSlot(st.table, key);
    if slot == |st.table| then Reply(st, pkt, false) else
    var live := if st.table[slot].inUse then st else Open(st, slot, key);
    Reply(Touch(live, slot), Rewrite(pkt, Source, WAN_IP, live.table[slot].externalPort), true)
  }

  /** `nat_inbound` */
  function Inbound(st: State, pkt: Buf, len: u16): Reply
  {
    if len < 34 || !HasPorts(pkt) || DstIp(pkt) != WAN_IP then Reply(st, pkt, false) else
    var slot := First(st.table, ByExternal(DstPort(pkt), Protocol(pkt)));
    if slot == |st.table| then Reply(st, pkt, false) else
    var e := st.table[slot];
    Reply(Touch(st, slot), Rewrite(pkt, Destination, e.internalIp, e.internalPort), true)
  }

  /** `nat_get_internal_ip` */
  function InternalIp(st: State, port: u16, protocol: u8): u32 {
    var slot := First(st.table, ByExternal(port, protocol));
    if slot == |st.table| then 0 else st.table[slot].internalIp
  }

  // ----- what the table stands for

  /** The external port of the i-th session, as it appears in a packet. */
  function ExternalPort(i: nat): u16
    requires i < MAX_ENTRIES
  {
    Swap(FIRST_PORT + i)
  }

  predicate Distinct<T(==)>(s: seq<T>) {
    forall i, j | 0 <= i < j < |s| :: s[i] != s[j]
  }

  /** The table is the list of accepted keys: slot i holds the i-th key, its port is the i-th
      port, nothing else is in use, and the allocator has not wrapped. */
  ghost predicate Represents(st: State, keys: seq<Key>) {
    && |st.table| == MAX_ENTRIES
    && |keys| <= MAX_ENTRIES
    && Distinct(keys)
    && st.nextPort == FIRST_PORT + |keys|
    && (forall i | 0 <= i < MAX_ENTRIES :: st.table[i].inUse <==> i < |keys|)
    && (forall i | 0 <= i < |keys| ::
          st.table[i].Session() == keys[i] && st.table[i].externalPort == ExternalPort(i))
  }

  /** A key is accepted once, while there is room. */
  function Learn(keys: seq<Key>, key: Key): seq<Key> {
    if key in keys || |keys| >= MAX_ENTRIES then keys else keys + [key]
  }

  function LearnFrom(keys: seq<Key>, pkt: Buf, len: u16): seq<Key> {
    if len < 34 || !HasPorts(pkt) then keys else Learn(keys, SourceKey(pkt))
  }

  lemma InitialRepresents()
    ensures Represents(Initial, [])
  {
  }

  lemma ExternalPortsDiffer(i: nat, j: nat)
    requires i < MAX_ENTRIES && j < MAX_ENTRIES && i != j
    ensures ExternalPort(i) != ExternalPort(j)
  {
    SwapTwice(FIRST_PORT + i);
    SwapTwice(FIRST_PORT + j);
  }

  /** The scan by source finds the position of the key; the scan for a free slot finds the end. */
  lemma FindsKey(st: State, keys: seq<Key>, key: Key)
    requires Represents(st, keys)
    ensures var i := First(st.table, BySource(key));
            if key in keys then i < |keys| && keys[i] == key else i == MAX_ENTRIES
    ensures First(st.table, Unused) == |keys|
  {
    var i := First(st.table, BySource(key));
    if key in keys {
      var k :| 0 <= k < |keys| && keys[k] == key;
      assert Matches(BySource(key), st.table[k]);
    }
    assert |keys| < MAX_ENTRIES ==> Matches(Unused, st.table[|keys|]);
  }

  /** The scan by external port finds slot i exactly for port i and the protocol of session i. */
  lemma FindsPort(st: State, keys: seq<Key>, port: u16, protocol: u8, i: nat)
    requires Represents(st, keys) && i < |keys|
    ensures First(st.table, ByExternal(port, protocol)) == i
            <==> port == ExternalPort(i) && protocol == keys[i].protocol
  {
    var r := First(st.table, ByExternal(port, protocol));
    if port == ExternalPort(i) && protocol == keys[i].protocol {
      assert Matches(ByExternal(port, protocol), st.table[i]);
      if r != i {
        ExternalPortsDiffer(r, i);
      }
    }
  }

  lemma TouchRepresents(st: State, keys: seq<Key>, slot: nat)
    requires Represents(st, keys) && slot < MAX_ENTRIES
    ensures Represents(Touch(st, slot), keys)
  {
  }

  lemma OpenRepresents(st: State, keys: seq<Key>, key: Key)
    requires Represents(st, keys) && |keys| < MAX_ENTRIES && key !in keys
    ensures Represents(Open(st, |keys|, key), keys + [key])
  {
  }

  /** One outbound call: the key is learned, and it is translated exactly when it is held. */
  lemma OutboundStep(st: State, keys: seq<Key>, pkt: Buf, len: u16)
    requires Represents(st, keys)
    ensures var r, known := Outbound(st, pkt, len), LearnFrom(keys, pkt, len);
            && Represents(r.st, known)
            && (r.ok <==> len >= 34 && HasPorts(pkt) && SourceKey(pkt) in known)
            && (!r.ok ==> r.st == st && r.pkt == pkt)
            && (forall i | 0 <= i < |known| && known[i] == SourceKey(pkt) && r.ok ::
                  r.pkt == Rewrite(pkt, Source, WAN_IP, ExternalPort(i)) && r.st.table[i].lastActive == st.ticks)
  {
    hide Rewrite, Swap, Get16, Get32;
    if len >= 34 && HasPorts(pkt) {
      var key := SourceKey(pkt);
      FindsKey(st, keys, key);
      if key in keys {
        TouchRepresents(st, keys, First(st.table, BySource(key)));
      } else if |keys| < MAX_ENTRIES {
        OpenRepresents(st, keys, key);
        TouchRepresents(Open(st, |keys|, key), keys + [key], |keys|);
      }
    }
  }

  /** One inbound call: it is translated exactly when some session owns the port, to the endpoint
      of that session, and no key is learned. */
  lemma InboundStep(st: State, keys: seq<Key>, pkt: Buf, len: u16)
    requires Represents(st, keys)
    ensures var r := Inbound(st, pkt, len);
            && Represents(r.st, keys)
            && (!r.ok ==> r.st == st && r.pkt == pkt)
            && (r.ok <==> len >= 34 && HasPorts(pkt) && DstIp(pkt) == WAN_IP
                          && exists i :: 0 <= i < |keys| && Owns(keys, i, DstPort(pkt), Protocol(pkt)))
            && (forall i | 0 <= i < |keys| && Owns(keys, i, DstPort(pkt), Protocol(pkt)) && r.ok ::
                  r.pkt == Rewrite(pkt, Destination, keys[i].ip, keys[i].port) && r.st.table[i].lastActive == st.ticks)
  {
    hide Rewrite, Swap, Get16, Get32;
    if len >= 34 && HasPorts(pkt) && DstIp(pkt) == WAN_IP {
      var slot := First(st.table, ByExternal(DstPort(pkt), Protocol(pkt)));
      forall i | 0 <= i < |keys| && Owns(keys, i, DstPort(pkt), Protocol(pkt))
        ensures slot == i
      {
        FindsPort(st, keys, DstPort(pkt), Protocol(pkt), i);
      }
      if slot < MAX_ENTRIES {
        assert Owns(keys, slot, DstPort(pkt), Protocol(pkt));
        TouchRepresents(st, keys, slot);
      }
    }
  }

  /** `nat_get_internal_ip` names the address of the session that owns the port, and 0 if none does. */
  lemma InternalIpFound(st: State, keys: seq<Key>, port: u16, protocol: u8)
    requires Represents(st, keys)
    ensures forall i | 0 <= i < |keys| && Owns(keys, i, port, protocol) :: InternalIp(st, port, protocol) == keys[i].ip
    ensures (forall i | 0 <= i < |keys| :: !Owns(keys, i, port, protocol)) ==> InternalIp(st, port, protocol) == 0
  {
    hide Swap;
    var slot := First(st.table, ByExternal(port, protocol));
    forall i | 0 <= i < |keys| && Owns(keys, i, port, protocol)
      ensures slot == i
    {
      FindsPort(st, keys, port, protocol, i);
    }
    if slot < |st.table| {
      assert Owns(keys, slot, port, protocol);
    }
  }

  predicate Owns(keys: seq<Key>, i: nat, port: u16, protocol: u8)
    requires i < |keys|
  {
    i < MAX_ENTRIES && port == ExternalPort(i) && protocol == keys[i].protocol
  }
}
