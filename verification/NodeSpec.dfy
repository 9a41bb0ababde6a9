/** A node of udprelayd.c on values: the packet header, broadcasting, suppression and forwarding. */
module NodeSpec {
  import opened CList
  import opened RelaySpec
  import opened Window

  /** The size of header_t without its debug fields. */
  const HEADER: nat := 2

  // ---------------------------------------------------------------------------------------------
  // The packet header

  /** htons: the high byte first. */
  function Encode(counter: nat): Datagram
    requires counter < WRAP
  {
    [counter / 256, counter % 256]
  }

  /** ntohs */
  function Decode(d: Datagram): nat
    requires |d| >= HEADER
  {
    var high: int, low: int := d[0], d[1];
    high * 256 + low
  }

  function Packet(counter: nat, payload: Datagram): Datagram
    requires counter < WRAP
  {
    Encode(counter) + payload
  }

  /** Stripping the header undoes prepending it, whatever the payload; and only packets with that header agree. */
  lemma HeaderRoundTrip(counter: nat, payload: Datagram)
    requires counter < WRAP
    ensures |Packet(counter, payload)| == HEADER + |payload|
    ensures Decode(Packet(counter, payload)) == counter && Packet(counter, payload)[HEADER..] == payload
  {
    assert Packet(counter, payload)[..HEADER] == Encode(counter);
  }

  lemma StripRoundTrip(d: Datagram)
    requires |d| >= HEADER
    ensures Decode(d) < WRAP && Packet(Decode(d), d[HEADER..]) == d
  {
    var c := Decode(d);
    assert c / 256 == d[0] && c % 256 == d[1];
  }

  // ---------------------------------------------------------------------------------------------
  // Relays step by step

  /** The relays as udprelay_init makes them. */
  function InitAll(remotes: seq<bool>): (r: seq<State>)
    ensures |r| == |remotes|
  {
    seq(|remotes|, i requires 0 <= i < |remotes| => Init(remotes[i]))
  }

  /** What each relay in turn makes of the step meant for it. */
  function Outcomes(rs: seq<State>, steps: nat -> Step): (os: seq<Outcome>)
    ensures |os| == |rs| && forall i :: 0 <= i < |rs| ==> os[i] == Next(rs[i], steps(i))
  {
    seq(|rs|, i requires 0 <= i < |rs| => Next(rs[i], steps(i)))
  }

  /** The members of s whose outcome was not a failure, in order. */
  function Kept<T>(s: seq<T>, os: seq<Outcome>): (r: seq<T>)
    requires |s| <= |os|
    ensures forall k :: 0 <= k < |r| ==> r[k] in s
  {
    if s == [] then []
    else
      var n := |s| - 1;
      Kept(s[..n], os) + if os[n].ok then [s[n]] else []
  }

  lemma KeptNext<T>(s: seq<T>, os: seq<Outcome>, i: nat)
    requires i < |s| <= |os|
    ensures Kept(s[..i + 1], os) == if os[i].ok then Kept(s[..i], os) + [s[i]] else Kept(s[..i], os)
  {
    assert s[..i + 1][..i] == s[..i];
  }

  /** Where as many are kept as there were, all are, in place. */
  lemma {:induction false} KeptWhole<T>(s: seq<T>, os: seq<Outcome>)
    requires |s| <= |os|
    ensures |Kept(s, os)| <= |s| && (|Kept(s, os)| == |s| ==> Kept(s, os) == s)
  {
    if s != [] {
      var n := |s| - 1;
      KeptWhole(s[..n], os);
      KeptNext(s, os, n);
      assert s[..n + 1] == s == s[..n] + [s[n]];
    }
  }

  /** The positions of the members kept. */
  function Picks(os: seq<Outcome>, n: nat): (r: seq<nat>)
    requires n <= |os|
    ensures forall k :: 0 <= k < |r| ==> r[k] < n && os[r[k]].ok
    ensures forall k, l :: 0 <= k < l < |r| ==> r[k] < r[l]
  {
    if n == 0 then [] else Picks(os, n - 1) + if os[n - 1].ok then [n - 1] else []
  }

  lemma {:induction false} KeptArePicked<T>(s: seq<T>, os: seq<Outcome>)
    requires |s| <= |os|
    ensures |Kept(s, os)| == |Picks(os, |s|)|
    ensures forall k :: 0 <= k < |Kept(s, os)| ==> Kept(s, os)[k] == s[Picks(os, |s|)[k]]
  {
    if s != [] {
      KeptArePicked(s[..|s| - 1], os);
    }
  }

  /** The outward relay and those of the ring that are kept. */
  function KeepRest<T>(s: seq<T>, os: seq<Outcome>): (r: seq<T>)
    requires |s| == |os| + 1
    ensures r != [] && r[0] == s[0]
  {
    [s[0]] + Kept(s[1..], os)
  }

  /** The ring's relays one place on, behind the outward relay. */
  function RotateRest<T>(s: seq<T>): (r: seq<T>)
    requires s != []
    ensures r != [] && r[0] == s[0]
  {
    [s[0]] + Rotate(s[1..])
  }

  lemma NoneNew<T>(s: seq<T>, os: seq<Outcome>)
    requires |s| == |os| + 1
    ensures forall k :: 0 <= k < |KeepRest(s, os)| ==> KeepRest(s, os)[k] in s
  {
    assert forall k :: 0 <= k < |s| - 1 ==> s[1..][k] in s;
  }

  lemma NoneNewRotated<T>(s: seq<T>)
    ensures forall k :: 0 <= k < |Rotate(s)| ==> Rotate(s)[k] in s
    ensures s != [] ==> forall k :: 0 <= k < |RotateRest(s)| ==> RotateRest(s)[k] in s
  {
    if |s| > 1 {
      var r := RotateRest(s);
      assert forall k :: 1 <= k < |r| ==> r[k] == s[if k + 1 < |s| then k + 1 else 1];
    }
  }

  /** The outward relay in state `first`, the first i relays of the ring as their outcomes say, the rest as they were. */
  function Partly(first: State, states: seq<State>, os: seq<Outcome>, i: nat): (r: seq<State>)
    requires i <= |os| && |states| == |os| + 1
    ensures |r| == |states|
  {
    seq(|states|, k requires 0 <= k < |states| => if k == 0 then first else if k <= i then os[k - 1].state else states[k])
  }

  /** The states once every relay of the ring has acted. */
  function Settled(first: State, states: seq<State>, os: seq<Outcome>): (r: seq<State>)
    requires |states| == |os| + 1
    ensures |r| == |states|
  {
    Partly(first, states, os, |os|)
  }

  /** The states once every relay of the ring has taken its step. */
  function Stepped(states: seq<State>, steps: nat -> Step): (r: seq<State>)
    requires states != []
    ensures |r| == |states|
  {
    Settled(states[0], states, Outcomes(states[1..], steps))
  }

  function Offers(pkt: Datagram, sends: nat -> SendResult): nat -> Step {
    (i: nat) => Offer(pkt, sends(i))
  }

  // ---------------------------------------------------------------------------------------------
  // The receiving side

  /** The outward relay and the numbers accepted so far. */
  datatype Sink = Sink(out: State, accepted: seq<int>)

  datatype Verdict = Verdict(sink: Sink, ok: bool)

  /** udprelay_dispatch_relayed: a short packet or a duplicate is dropped, any other forwarded without header. */
  function DispatchRelayed(n: nat, s: Sink, d: Datagram, result: SendResult): Verdict {
    if |d| < HEADER || Decode(d) in Last(n, s.accepted) then Verdict(s, true)
    else
      var o := Enqueue(s.out, d[HEADER..], result);
      Verdict(Sink(o.state, s.accepted + [Decode(d)]), o.ok)
  }

  /** One turn of the receiving loop: a relay that received nothing is passed over. */
  function DispatchOne(n: nat, s: Sink, d: Datagram, result: SendResult): Verdict {
    if d == [] then Verdict(s, true) else DispatchRelayed(n, s, d, result)
  }

  /** The datagrams received from the relays, dispatched in ring order. */
  function DispatchAll(n: nat, s: Sink, ds: seq<Datagram>, results: nat -> SendResult): Sink {
    if ds == [] then s
    else
      var k := |ds| - 1;
      DispatchOne(n, DispatchAll(n, s, ds[..k], results), ds[k], results(k)).sink
  }

  function Unreads(rs: seq<State>): (ds: seq<Datagram>)
    ensures |ds| == |rs| && forall i :: 0 <= i < |rs| ==> ds[i] == rs[i].unread
  {
    seq(|rs|, i requires 0 <= i < |rs| => rs[i].unread)
  }

  /** The sink before the i-th relay's turn. */
  function SinkAt(n: nat, s: Sink, rs: seq<State>, results: nat -> SendResult, i: nat): Sink
    requires i <= |rs|
  {
    DispatchAll(n, s, Unreads(rs)[..i], results)
  }

  /** What the receiving loop makes of each relay: its datagram is fetched, and a failed forward costs it its place. */
  function Verdicts(n: nat, s: Sink, rs: seq<State>, results: nat -> SendResult): (os: seq<Outcome>)
    ensures |os| == |rs|
    ensures forall i :: 0 <= i < |rs| ==>
              os[i] == Outcome(Receive(rs[i]), DispatchOne(n, SinkAt(n, s, rs, results, i), rs[i].unread, results(i)).ok)
  {
    seq(|rs|, i requires 0 <= i < |rs| =>
      Outcome(Receive(rs[i]), DispatchOne(n, SinkAt(n, s, rs, results, i), rs[i].unread, results(i)).ok))
  }

  lemma SinkNext(n: nat, s: Sink, rs: seq<State>, results: nat -> SendResult, i: nat)
    requires i < |rs|
    ensures SinkAt(n, s, rs, results, i + 1) == DispatchOne(n, SinkAt(n, s, rs, results, i), rs[i].unread, results(i)).sink
  {
    assert Unreads(rs)[..i + 1][..i] == Unreads(rs)[..i];
  }

  // ---------------------------------------------------------------------------------------------
  // One iteration of the main loop

  /** What select and the sockets answer during one iteration: to the outward relay, and to the relays by position. */
  datatype Env = Env(outward: Event, relays: nat -> Event, broadcast: nat -> SendResult, forward: nat -> SendResult)

  /** The loop ends, the node dereferences NULL, or it goes on; `inbound` and `relayed` are what was dispatched. */
  datatype Iteration =
    | Stopped
    | Crashed
    | Went(states: seq<State>, accepted: seq<int>, counter: nat, inbound: Datagram, relayed: seq<Datagram>)

  /** What handling every relay leaves; not `ok` when the outward relay failed. */
  datatype Handled = Handled(states: seq<State>, ok: bool)

  /** What broadcasting leaves; not `ok` when every relay failed. */
  datatype Broadcast = Broadcast(states: seq<State>, counter: nat, ok: bool)

  function Reactions(env: Env): nat -> Step {
    (i: nat) => React(env.relays(i))
  }

  /** The states of the relays that are left once every relay has taken a step. */
  function Swept(states: seq<State>, steps: nat -> Step): (r: seq<State>)
    requires states != []
    ensures r != []
  {
    KeepRest(Stepped(states, steps), Outcomes(states[1..], steps))
  }

  /** The first half: relay_handle on the outward relay, whose failure stops the node, then on every relay of the ring. */
  function HandleAll(states: seq<State>, env: Env): (r: Handled)
    requires states != []
    ensures r.states != []
  {
    var out := Handle(states[0], env.outward);
    if out.ok then Handled(Swept(states[0 := out.state], Reactions(env)), true) else Handled(states, false)
  }

  /** Then what the outward relay received is broadcast, if anything; not `ok` when that leaves no relay. */
  function Inbound(states: seq<State>, counter: nat, sends: nat -> SendResult): (r: Broadcast)
    requires states != [] && counter < WRAP
    ensures r.states != [] && r.counter < WRAP
  {
    var fetched := states[0 := Receive(states[0])];
    if states[0].unread == [] then Broadcast(fetched, counter, true)
    else
      var sent := Swept(fetched, Offers(Packet(counter, states[0].unread), sends));
      Broadcast(RotateRest(sent), (counter + 1) % WRAP, |sent| > 1)
  }

  /** The iteration from the outward relay's state and the ring's, over the window and the counter. */
  function Iterate(n: nat, states: seq<State>, accepted: seq<int>, counter: nat, env: Env): (r: Iteration)
    requires states != [] && counter < WRAP
    ensures r.Went? ==> r.states != [] && r.counter < WRAP
  {
    var handled := HandleAll(states, env);
    if !handled.ok then Stopped
    else
      var b := Inbound(handled.states, counter, env.broadcast);
      if !b.ok then Crashed else Finish(n, b.states, accepted, b.counter, handled.states[0].unread, env)
  }

  function Finish(n: nat, states: seq<State>, accepted: seq<int>, counter: nat, inbound: Datagram, env: Env): (r: Iteration)
    requires states != []
    ensures r.Went? && r.states != [] && r.counter == counter
  {
    var s := Sink(states[0], accepted);
    var os, sink := Verdicts(n, s, states[1..], env.forward), SinkAt(n, s, states[1..], env.forward, |states| - 1);
    Went(KeepRest(Settled(sink.out, states, os), os), sink.accepted, counter, inbound, Unreads(states[1..]))
  }
}
