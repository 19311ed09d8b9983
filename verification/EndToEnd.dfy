/** The whole router: the fast path as the callback of the polled, interrupt-free driver, over all
    interleavings with the devices. */
module EndToEnd {
  import opened Bytes
  import opened Packet
  import opened Routing
  import opened FastPath
  import opened Pipeline
  import opened Machine
  import Rings
  import Nat = NatTable
  import Runs = NatRuns

  /** What lies behind the callback: the session table, and how many frames it has been given. */
  datatype App = App(engine: Nat.State, seen: nat)

  /** `tables(j)` is the routing table in force when the j-th frame is handled: shell commands,
      typed or received by telnet, may change it between any two frames. */
  datatype Setup = Setup(tables: nat -> seq<Route>, macs: seq<Mac>)
  {
    function Own(dev: nat): Mac { if dev < |macs| then macs[dev] else [0, 0, 0, 0, 0, 0] }
  }

  function Handle(c: Setup, app: App, dev: nat, f: Rings.Frame): Outcome {
    Receive(app.engine, c.tables(app.seen), c.Own(dev), dev, f.buf, f.len)
  }

  function Kernel(c: Setup): Callback<App> {
    (app: App, dev: nat, f: Rings.Frame) =>
      var o := Handle(c, app, dev, f);
      Rings.Reaction(App(o.st, app.seen + 1), o.pkt, o.verdict == Transmit)
  }

  const Start := App(Nat.Initial, 0)

  // ----- the session table behind the rings

  /** The NAT call that a frame leads to, if any. */
  function CallOf(dev: nat, f: Rings.Frame): seq<Runs.Call> {
    if f.len < 34 || !IsIpv4(f.buf) then []
    else if dev == 0 && DstIp(f.buf) == WAN_IP then [Runs.In(f.buf, f.len)]
    else if dev == 1 && DstIp(f.buf) != WAN_IP then [Runs.Out(f.buf, f.len)]
    else []
  }

  function CallsOf(trace: seq<(nat, Rings.Frame)>): seq<Runs.Call> {
    if trace == [] then [] else
    var last := trace[|trace| - 1];
    CallsOf(trace[..|trace| - 1]) + CallOf(last.0, last.1)
  }

  lemma ReceiveCalls(st: Nat.State, routes: seq<Route>, own: Mac, dev: nat, f: Rings.Frame)
    ensures Receive(st, routes, own, dev, f.buf, f.len).st == Runs.Run(st, CallOf(dev, f))
  {
    hide Nat.Inbound, Nat.Outbound, Rewrite, Forward, Lookup, Get32, Runs.Run;
    if CallOf(dev, f) == [] {
      RunNone(st);
    } else {
      NotTranslated(st, dev, f.buf, f.len);
      RunOne(st, CallOf(dev, f)[0]);
    }
  }

  lemma RunNone(st: Nat.State)
    ensures Runs.Run(st, []) == st
  {
  }

  lemma RunOne(st: Nat.State, c: Runs.Call)
    ensures Runs.Run(st, [c]) == Runs.Do(st, c).st
  {
    hide Nat.Inbound, Nat.Outbound;
    assert [c][..0] == [];
  }

  lemma {:induction false} RunAppend(st: Nat.State, a: seq<Runs.Call>, b: seq<Runs.Call>)
    ensures Runs.Run(st, a + b) == Runs.Run(Runs.Run(st, a), b)
  {
    hide Runs.Do;
    if b == [] {
      assert a + b == a;
    } else {
      RunAppend(st, a, b[..|b| - 1]);
      assert (a + b)[..|a + b| - 1] == a + b[..|b| - 1];
    }
  }

  /** Reception, routing and transmission add nothing to the engine's own calls. */
  lemma {:induction false} TableIsRun(c: Setup, trace: seq<(nat, Rings.Frame)>)
    ensures Replay(Kernel(c), Start, trace) == App(Runs.Run(Nat.Initial, CallsOf(trace)), |trace|)
  {
    hide Receive, Runs.Run, CallOf, Nat.Initial;
    if trace == [] {
      RunNone(Nat.Initial);
      assert Replay(Kernel(c), Start, trace) == Start;
    } else {
      var before, last := trace[..|trace| - 1], trace[|trace| - 1];
      TableIsRun(c, before);
      var app := Replay(Kernel(c), Start, before);
      assert Replay(Kernel(c), Start, trace) == App(Handle(c, app, last.0, last.1).st, app.seen + 1);
      ReceiveCalls(app.engine, c.tables(app.seen), c.Own(last.0), last.0, last.1);
      RunAppend(Nat.Initial, CallsOf(before), CallOf(last.0, last.1));
    }
  }

  /** For every interleaving the table behind the rings holds the first 2048 distinct keys of the
      frames handed over so far, in order; ports and keys never collide; a frame that comes in next is
      translated to a host that sent one of them, or for the telnet port of the WAN address reaches
      lwIP as it is; and before 2^32 translations `last_active` tells the sessions by recency. */
  lemma SessionsBehindRings(c: Setup, s: Sys<App>, labels: seq<Label>, dev: nat, f: Rings.Frame)
    requires Booted(s) && s.app == Start
    ensures Sound(s)
    ensures var t := Exec(Kernel(c), s, labels); var calls := CallsOf(t.trace);
            && t.app == App(Runs.Run(Nat.Initial, calls), |t.trace|)
            && Nat.Represents(t.app.engine, Runs.Cap(Runs.Offered(calls)))
            && (forall i, j | 0 <= i < j < Nat.MAX_ENTRIES && t.app.engine.table[i].inUse && t.app.engine.table[j].inUse ::
                  && t.app.engine.table[i].Session() != t.app.engine.table[j].Session()
                  && t.app.engine.table[i].externalPort != t.app.engine.table[j].externalPort)
            && (f.len >= 34 && DstIp(f.buf) == WAN_IP && Swap(DstPort(f.buf)) == 23 ==>
                  Handle(c, t.app, dev, f) == Outcome(t.app.engine, f.buf, ToLwip))
            && (FullHeader(f.buf) && Nat.Inbound(t.app.engine, f.buf, f.len).ok ==>
                  Runs.GoesHome(t.app.engine, Runs.Offered(calls), f.buf, Nat.Inbound(t.app.engine, f.buf, f.len).pkt))
            && (|Runs.Uses(Nat.Initial, calls)| < 0x1_0000_0000 ==>
                  Runs.Recent(t.app.engine, Runs.Uses(Nat.Initial, calls)))
  {
    assert |s.nics| > 0;
    hide Exec, Receive, Booted, Swap, Get16, Get32, CallsOf, Kernel, Nat.Initial, Nat.Inbound, Nat.Represents,
         Runs.Run, Runs.Offered, Runs.Cap, Runs.Recent, Runs.Uses, Runs.GoesHome;
    Reached(Kernel(c), s, labels, 0);
    var t := Exec(Kernel(c), s, labels);
    TableIsRun(c, t.trace);
    var calls := CallsOf(t.trace);
    Runs.FirstKeysMapped(calls);
    Runs.PortsNeverCollide(calls);
    if FullHeader(f.buf) {
      Runs.Demultiplexes(calls, f.buf, f.len);
    }
    if |Runs.Uses(Nat.Initial, calls)| < 0x1_0000_0000 {
      Runs.LastActiveOrdersSessions(calls);
    }
    if f.len >= 34 && DstIp(f.buf) == WAN_IP && Swap(DstPort(f.buf)) == 23 {
      TelnetReachesTheKernel(calls, c.tables(t.app.seen), c.Own(dev), dev, f.buf, f.len);
    }
  }

  // ----- a conversation

  /** What the callback finds behind it when it is given frame j of the trace. */
  function Before(trace: seq<(nat, Rings.Frame)>, j: nat): App
    requires j <= |trace|
  {
    App(Runs.Run(Nat.Initial, CallsOf(trace[..j])), j)
  }

  lemma {:induction false} CallsAppend(a: seq<(nat, Rings.Frame)>, b: seq<(nat, Rings.Frame)>)
    ensures CallsOf(a + b) == CallsOf(a) + CallsOf(b)
  {
    hide CallOf;
    if b == [] {
      assert a + b == a;
    } else {
      var before, last := b[..|b| - 1], b[|b| - 1];
      CallsAppend(a, before);
      assert (a + b)[..|a + b| - 1] == a + before && (a + b)[|a + b| - 1] == last;
      assert CallsOf(b) == CallsOf(before) + CallOf(last.0, last.1);
    }
  }

  /** The engine between two frames of a trace. */
  lemma TableBetween(c: Setup, trace: seq<(nat, Rings.Frame)>, a: nat, b: nat) returns (others: seq<Runs.Call>)
    requires a < b <= |trace|
    ensures Before(trace, b).engine == Runs.Run(Handle(c, Before(trace, a), trace[a].0, trace[a].1).st, others)
  {
    hide Receive, Runs.Run, CallOf, Nat.Initial;
    var f := trace[a];
    others := CallsOf(trace[a + 1..b]);
    assert trace[..b] == trace[..a + 1] + trace[a + 1..b];
    assert trace[..a + 1][..a] == trace[..a];
    CallsAppend(trace[..a + 1], trace[a + 1..b]);
    assert CallsOf(trace[..a + 1]) == CallsOf(trace[..a]) + CallOf(f.0, f.1);
    ReceiveCalls(Before(trace, a).engine, c.tables(a), c.Own(f.0), f.0, f.1);
    RunAppend(Nat.Initial, CallsOf(trace[..a]), CallOf(f.0, f.1));
    RunAppend(Nat.Initial, CallsOf(trace[..a + 1]), others);
  }

  /** In every trace, whatever frames lie between: the answer on interface 0 to a frame transmitted
      under a session is readdressed to the host, or meets the end that route and TTL decide. */
  lemma ConversationInTrace(c: Setup, trace: seq<(nat, Rings.Frame)>, a: nat, b: nat, n: nat)
    requires a < b < |trace| && trace[a].0 == 1 && trace[b].0 == 0
    requires FullHeader(trace[a].1.buf) && FullHeader(trace[b].1.buf)
    ensures var f, g := trace[a].1, trace[b].1;
            var out := Handle(c, Before(trace, a), 1, f);
            var held := Nat.LearnFrom(Runs.Cap(Runs.Offered(CallsOf(trace[..a]))), f.buf, f.len);
            out.verdict == Transmit && HasPorts(f.buf) && Nat.SourceKey(f.buf) in held ==>
              && Accessible(out.pkt)
              && (Answers(g.buf, out.pkt) ==>
                    Readdressed(g.buf, Handle(c, Before(trace, b), 0, g), c.tables(b), SrcIp(f.buf), SrcPort(f.buf), g.len, n))
  {
    hide Receive, Readdressed, Answers, Runs.Run, Runs.Cap, Runs.Offered, Nat.Initial, Nat.LearnFrom, CallsOf, Get16, Get32;
    var f, g := trace[a].1, trace[b].1;
    Runs.FirstKeysMapped(CallsOf(trace[..a]));
    var others := TableBetween(c, trace, a, b);
    AnswerReaddressed(Before(trace, a).engine, Runs.Cap(Runs.Offered(CallsOf(trace[..a]))), c.tables(a), c.Own(1),
                      f.buf, f.len, others, c.tables(b), c.Own(0), g.buf, g.len, n);
  }

  // ----- what the wire carries

  /** Every frame of the sequential output stems from one frame of the trace. */
  lemma {:induction false} OutputOrigin<S>(cb: Callback<S>, start: S, trace: seq<(nat, Rings.Frame)>, i: nat, k: nat)
    returns (j: nat)
    requires k < |Output(cb, start, trace, i)|
    ensures j < |trace| && trace[j].0 == i && trace[j].1 in From(trace, i)
    ensures var r := cb(Replay(cb, start, trace[..j]), i, trace[j].1);
            r.send && Output(cb, start, trace, i)[k] == Rings.Frame(r.buf, trace[j].1.len)
  {
    var before := trace[..|trace| - 1];
    if k < |Output(cb, start, before, i)| {
      j := OutputOrigin(cb, start, before, i, k);
      assert trace[..j] == before[..j];
    } else {
      j := |trace| - 1;
    }
  }

  /** Frame g is what the fast path transmits for frame f, one hop further. */
  ghost predicate Forwards(c: Setup, app: App, dev: nat, f: Rings.Frame, g: Rings.Frame) {
    var o := Handle(c, app, dev, f);
    && o.verdict == Transmit && g == Rings.Frame(o.pkt, f.len)
    && (FullHeader(f.buf) ==> Hopped(f.buf, g.buf, c.tables(app.seen), c.Own(dev)))
  }

  lemma TransmittedForwards(c: Setup, app: App, dev: nat, f: Rings.Frame)
    requires Handle(c, app, dev, f).verdict == Transmit
    ensures Forwards(c, app, dev, f, Rings.Frame(Handle(c, app, dev, f).pkt, f.len))
  {
    hide Receive, Hopped;
    if FullHeader(f.buf) {
      Transmitted(app.engine, c.tables(app.seen), c.Own(dev), dev, f.buf, f.len);
    }
  }

  /** For every interleaving: while no tail write of interface i was hasty, each frame on its wire
      beyond those sent before the first poll is what the fast path makes, with the session table
      that the frames before it have left, of a frame the device accepted on that interface. */
  lemma WireCarriesForwardedFrames(c: Setup, s: Sys<App>, labels: seq<Label>, i: nat, k: nat)
    returns (j: nat)
    requires Booted(s) && s.app == Start && i < |s.nics| && Sound(s)
    requires var n := Exec(Kernel(c), s, labels).nics[i]; !n.late && |s.nics[i].decided| <= k < |n.sent|
    ensures var t := Exec(Kernel(c), s, labels);
            && j < |t.trace| && t.trace[j].0 == i && t.trace[j].1 in t.nics[i].accepted
            && Forwards(c, Before(t.trace, j), i, t.trace[j].1, t.nics[i].sent[k])
  {
    hide Exec, Receive, Forwards, Booted, Nat.Initial, Runs.Run, CallsOf;
    var cb := Kernel(c);
    var t := Exec(cb, s, labels);
    SentAsDecided(cb, s, labels, i);
    DeliveredInOrder(cb, s, labels, i);
    j := OutputOrigin(cb, s.app, t.trace, i, k - |s.nics[i].decided|);
    TableIsRun(c, t.trace[..j]);
    TransmittedForwards(c, Replay(cb, s.app, t.trace[..j]), i, t.trace[j].1);
  }

  /** Nothing crosses from one interface to another: while no tail write of interface i was hasty, it
      has sent since the first poll at most as many frames as it accepted, each made of one of those;
      so if it accepted none it has sent none, whatever the other interfaces received. */
  lemma TrafficStaysOnInterface(c: Setup, s: Sys<App>, labels: seq<Label>, i: nat)
    requires Booted(s) && s.app == Start && i < |s.nics|
    ensures Sound(s)
    ensures var n := Exec(Kernel(c), s, labels).nics[i];
            !n.late ==>
              && |n.sent| - |s.nics[i].decided| <= |n.accepted|
              && forall k | |s.nics[i].decided| <= k < |n.sent| :: MadeHere(c, n.accepted, i, n.sent[k])
  {
    hide Exec, Booted, Output, From, MadeHere, Kernel;
    var cb, before := Kernel(c), |s.nics[i].decided|;
    SentAsDecided(cb, s, labels, i);
    DeliveredInOrder(cb, s, labels, i);
    var t := Exec(cb, s, labels);
    OutputBounded(cb, s.app, t.trace, i);
    if !t.nics[i].late {
      forall k | before <= k < |t.nics[i].sent|
        ensures MadeHere(c, t.nics[i].accepted, i, t.nics[i].sent[k])
      {
        var j := WireCarriesForwardedFrames(c, s, labels, i, k);
        Witness(c, t.nics[i].accepted, i, t.nics[i].sent[k], t.trace[j].1, Before(t.trace, j));
      }
    }
  }

  /** Frame g is what the fast path makes, in some state, of one of the frames. */
  ghost predicate MadeHere(c: Setup, frames: seq<Rings.Frame>, dev: nat, g: Rings.Frame) {
    exists f, app | f in frames :: Forwards(c, app, dev, f, g)
  }

  lemma Witness(c: Setup, frames: seq<Rings.Frame>, dev: nat, g: Rings.Frame, f: Rings.Frame, app: App)
    requires f in frames && Forwards(c, app, dev, f, g)
    ensures MadeHere(c, frames, dev, g)
  {
    hide Forwards;
  }

  lemma {:induction false} OutputBounded<S>(cb: Callback<S>, start: S, trace: seq<(nat, Rings.Frame)>, i: nat)
    ensures |Output(cb, start, trace, i)| <= |From(trace, i)|
  {
    if trace != [] {
      OutputBounded(cb, start, trace[..|trace| - 1], i);
    }
  }

  /** Where in the sequential output the reaction to frame j stands. */
  lemma {:induction false} OutputPlace<S>(cb: Callback<S>, start: S, trace: seq<(nat, Rings.Frame)>, j: nat)
    requires j < |trace|
    ensures var i, f := trace[j].0, trace[j].1; var r := cb(Replay(cb, start, trace[..j]), i, f);
            var p := |Output(cb, start, trace[..j], i)|;
            r.send ==> p < |Output(cb, start, trace, i)| && Output(cb, start, trace, i)[p] == Rings.Frame(r.buf, f.len)
  {
    var before := trace[..|trace| - 1];
    if j < |trace| - 1 {
      OutputPlace(cb, start, before, j);
      assert before[..j] == trace[..j];
    }
  }

  /** The position on the wire of interface 0 of what frame b of the trace leads to. */
  function PlaceOf(c: Setup, s: Sys<App>, trace: seq<(nat, Rings.Frame)>, b: nat): nat
    requires b <= |trace| && |s.nics| > 0
  {
    |Due(Kernel(c), s, trace[..b], 0)|
  }

  /** The conversation on the wire: in every run, if an answer to a frame transmitted under a session
      has been handed over and there is a route to the host, what interface 0 transmits for it is
      addressed to the host. It stands at its place among the frames of that interface, unless it is
      one of the last two, still to be sent; and without expired waits it is there as soon as the
      loop is done with it. */
  lemma ConversationOnTheWire(c: Setup, s: Sys<App>, labels: seq<Label>, a: nat, b: nat, n: nat)
    requires Booted(s) && s.app == Start
    ensures Sound(s) && |s.nics| > 0
    ensures var t := Exec(Kernel(c), s, labels);
            a < b < |t.trace| && Conversation(c, t.trace, a, b) ==>
              OnTheWire(c, s, t, a, b, n)
  {
    BootedInv(Kernel(c), s);
    InvSound(Kernel(c), s, s);
    assert |s.nics| > 0;
    hide Booted, Sound, Exec, Step, Kernel, Due, Output, Conversation, OnTheWire;
    var t := Exec(Kernel(c), s, labels);
    if a < b < |t.trace| && Conversation(c, t.trace, a, b) {
      SentAsDecided(Kernel(c), s, labels, 0);
      PlacedOnTheWire(c, s, t, a, b, n);
    }
  }

  /** Frame b, on interface 0, answers frame a, which was transmitted on interface 1 under a session;
      the host of that session has a route and the TTL of the answer lasts. */
  ghost predicate Conversation(c: Setup, trace: seq<(nat, Rings.Frame)>, a: nat, b: nat)
    requires a < b < |trace|
  {
    var f, g := trace[a].1, trace[b].1;
    && trace[a].0 == 1 && trace[b].0 == 0 && FullHeader(f.buf) && FullHeader(g.buf)
    && var out := Handle(c, Before(trace, a), 1, f);
    && out.verdict == Transmit && HasPorts(f.buf) && Accessible(out.pkt) && Answers(g.buf, out.pkt)
    && Nat.SourceKey(f.buf) in Nat.LearnFrom(Runs.Cap(Runs.Offered(CallsOf(trace[..a]))), f.buf, f.len)
    && g.len >= 34 && IsIpv4(g.buf) && g.buf[TTL] > 1 && HasRoute(c.tables(b), SrcIp(f.buf))
  }

  /** What is due for frame b is readdressed to the host that sent frame a, and is sent in its place. */
  ghost predicate OnTheWire(c: Setup, s: Sys<App>, t: Sys<App>, a: nat, b: nat, n: nat)
    requires a < b < |t.trace| && 0 < |s.nics| == |t.nics|
  {
    var f, g, m, p := t.trace[a].1, t.trace[b].1, t.nics[0], PlaceOf(c, s, t.trace, b);
    var o := Handle(c, Before(t.trace, b), 0, g);
    && o.verdict == Transmit && Readdressed(g.buf, o, c.tables(b), SrcIp(f.buf), SrcPort(f.buf), g.len, n)
    && (!m.late && p < |m.sent| ==> m.sent[p] == Rings.Frame(o.pkt, g.len))
    && (!m.late && p + 2 < |Due(Kernel(c), s, t.trace, 0)| ==> p < |m.sent|)
    && (!m.timedOut && PcOf(t, 0).Check? ==> p < |m.sent|)
  }

  lemma PlacedOnTheWire(c: Setup, s: Sys<App>, t: Sys<App>, a: nat, b: nat, n: nat)
    requires 0 < |s.nics| == |t.nics| && s.app == Start && a < b < |t.trace| && Conversation(c, t.trace, a, b)
    requires var m, due := t.nics[0], Due(Kernel(c), s, t.trace, 0);
             && (!m.late ==> m.sent <= due && |due| <= |m.sent| + 2)
             && (!m.timedOut && PcOf(t, 0).Check? ==> m.sent == due)
    ensures OnTheWire(c, s, t, a, b, n)
  {
    hide Receive, Answers, Runs.Run, Runs.Cap, Runs.Offered, Nat.Initial, Nat.LearnFrom, CallsOf, Output, Replay, Get16, Get32;
    ConversationInTrace(c, t.trace, a, b, n);
    TableIsRun(c, t.trace[..b]);
    OutputPlace(Kernel(c), s.app, t.trace, b);
  }
}
