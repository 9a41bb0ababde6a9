/** Whole runs of a node: what every relay was offered, what was read and dispatched, what the window decided. */
module NodeRuns {
  import opened CList
  import opened NodeSpec
  import opened RelaySpec
  import opened Window

  // ---------------------------------------------------------------------------------------------
  // One iteration, relay by relay

  /** What recvfrom puts into an empty receive buffer. */
  function Got(e: Event): Datagram {
    if e.readable && e.received.Received? then
      if |e.received.bytes| <= BUF_SZ then e.received.bytes else e.received.bytes[..BUF_SZ]
    else []
  }

  function Gots(events: nat -> Event, n: nat): (r: seq<Datagram>)
    ensures |r| == n && forall i :: 0 <= i < n ==> r[i] == Got(events(i))
  {
    seq(n, i requires 0 <= i < n => Got(events(i)))
  }

  /** Nothing received is waiting to be dispatched. */
  ghost predicate Quiet(states: seq<State>) {
    forall i :: 0 <= i < |states| ==> states[i].unread == []
  }

  /** The packet that an iteration broadcasts, if any. */
  function Sent(counter: nat, inbound: Datagram): seq<Datagram>
    requires counter < WRAP
  {
    if inbound == [] then [] else [Packet(counter, inbound)]
  }

  /** A relay in state s handles its event and is then offered the packet, with some answer from its socket. */
  ghost predicate Becomes(s: State, e: Event, sent: seq<Datagram>, s': State) {
    if sent == [] then s' == Handle(s, e).state
    else exists result :: s' == Enqueue(Handle(s, e).state, sent[0], result).state
  }

  lemma SteppedAt(states: seq<State>, steps: nat -> Step, k: nat)
    requires k + 1 < |states|
    ensures Stepped(states, steps)[k + 1] == Next(states[k + 1], steps(k)).state
  {
    hide Next;
  }

  /** What a sweep leaves: the relays that did not fail, each as its step left it. */
  lemma SweptPicks(states: seq<State>, steps: nat -> Step, ps: seq<nat>)
    requires states != [] && ps == Kept(Count(|states| - 1), Outcomes(states[1..], steps))
    ensures |Swept(states, steps)| == |ps| + 1 && Swept(states, steps)[0] == states[0]
    ensures forall k :: 0 <= k < |ps| ==>
              ps[k] + 1 < |states| && Swept(states, steps)[k + 1] == Next(states[ps[k] + 1], steps(ps[k])).state
  {
    hide Kept;
    hide Picks;
    hide Next;
    hide Outcomes;
    hide Stepped;
    var os, after := Outcomes(states[1..], steps), Stepped(states, steps);
    KeptArePicked(after[1..], os);
    KeptArePicked(Count(|os|), os);
    forall k | 0 <= k < |ps|
      ensures ps[k] + 1 < |states| && Swept(states, steps)[k + 1] == Next(states[ps[k] + 1], steps(ps[k])).state
    {
      SteppedAt(states, steps, ps[k]);
      assert after[1..][ps[k]] == after[ps[k] + 1];
    }
    SteppedFirst(states, steps);
  }

  lemma SteppedFirst(states: seq<State>, steps: nat -> Step)
    requires states != []
    ensures Stepped(states, steps)[0] == states[0]
  {
  }

  lemma HandledPicks(states: seq<State>, env: Env, ps: seq<nat>)
    requires states != [] && HandleAll(states, env).ok
    requires ps == Kept(Count(|states| - 1), Outcomes(states[1..], Reactions(env)))
    ensures var h := HandleAll(states, env).states;
            && |h| == |ps| + 1 && h[0] == Handle(states[0], env.outward).state
            && forall k :: 0 <= k < |ps| ==>
                 ps[k] + 1 < |states| && h[k + 1] == Handle(states[ps[k] + 1], env.relays(ps[k])).state
  {
    hide Kept;
    hide Swept;
    hide Handle;
    hide Outcomes;
    var all := states[0 := Handle(states[0], env.outward).state];
    assert all[1..] == states[1..];
    SweptPicks(all, Reactions(env), ps);
  }

  lemma BroadcastPicks(states: seq<State>, counter: nat, sends: nat -> SendResult, qs: seq<nat>)
    requires states != [] && counter < WRAP && states[0].unread != []
    requires qs == Kept(Count(|states| - 1), Outcomes(states[1..], Offers(Packet(counter, states[0].unread), sends)))
    ensures var b, pkt := Inbound(states, counter, sends).states, Packet(counter, states[0].unread);
            && |b| == |qs| + 1 && b[0] == Receive(states[0])
            && forall k :: 0 <= k < |qs| ==> var q := Rotate(qs)[k];
                 q + 1 < |states| && b[k + 1] == Enqueue(states[q + 1], pkt, sends(q)).state
  {
    hide Kept;
    hide Swept;
    hide Enqueue;
    hide Outcomes;
    hide Packet;
    var fetched, steps := states[0 := Receive(states[0])], Offers(Packet(counter, states[0].unread), sends);
    assert fetched[1..] == states[1..];
    SweptPicks(fetched, steps, qs);
  }

  /** Those of s, listed like the ring's relays, whose relays are in the ring when the receiving loop begins. */
  function Stay<T>(s: seq<T>, states: seq<State>, counter: nat, env: Env): (r: seq<T>)
    requires |states| == |s| + 1 && counter < WRAP && HandleAll(states, env).ok
  {
    StayLength(s, states, env);
    var handled := HandleAll(states, env).states;
    var inbound, kept := handled[0].unread, Kept(s, Outcomes(states[1..], Reactions(env)));
    if inbound == [] then kept
    else Rotate(Kept(kept, Outcomes(handled[1..], Offers(Packet(counter, inbound), env.broadcast))))
  }

  lemma StayLength<T>(s: seq<T>, states: seq<State>, env: Env)
    requires |states| == |s| + 1 && HandleAll(states, env).ok
    ensures |Kept(s, Outcomes(states[1..], Reactions(env)))| == |HandleAll(states, env).states| - 1
  {
    hide Outcomes;
    hide Kept;
    hide Picks;
    hide Stepped;
    hide Handle;
    var out := Handle(states[0], env.outward).state;
    assert states[0 := out][1..] == states[1..];
    KeptArePicked(s, Outcomes(states[1..], Reactions(env)));
    KeptArePicked(Stepped(states[0 := out], Reactions(env))[1..], Outcomes(states[1..], Reactions(env)));
  }

  /** Where the ring's relays of the receiving loop stood when the iteration began. */
  function Places(states: seq<State>, counter: nat, env: Env): (r: seq<nat>)
    requires states != [] && counter < WRAP && HandleAll(states, env).ok
  {
    Stay(Count(|states| - 1), states, counter, env)
  }

  lemma PicksCompose<T>(ps: seq<T>, os: seq<Outcome>, qs: seq<nat>)
    requires |ps| == |os| && qs == Kept(Count(|os|), os)
    ensures |Rotate(Kept(ps, os))| == |Rotate(qs)| == |qs|
    ensures forall k :: 0 <= k < |qs| ==> 0 <= Rotate(qs)[k] < |ps| && Rotate(Kept(ps, os))[k] == ps[Rotate(qs)[k]]
  {
    hide Kept;
    hide Picks;
    KeptArePicked(ps, os);
    KeptArePicked(Count(|os|), os);
  }

  /** Every relay left when the receiving loop begins has handled its event and was offered the packet, once. */
  lemma Fates(states: seq<State>, counter: nat, env: Env)
    requires states != [] && counter < WRAP && HandleAll(states, env).ok
    ensures var h := HandleAll(states, env).states; var b := Inbound(h, counter, env.broadcast).states;
            var ps, sent := Places(states, counter, env), Sent(counter, h[0].unread);
            && |b| == |ps| + 1 && b[0] == Receive(Handle(states[0], env.outward).state)
            && forall k :: 0 <= k < |ps| ==>
                 ps[k] + 1 < |states| && Becomes(states[ps[k] + 1], env.relays(ps[k]), sent, b[k + 1])
  {
    hide Outcomes;
    hide Kept;
    hide Picks;
    hide Swept;
    hide Handle;
    hide HandleAll;
    hide Enqueue;
    hide Packet;
    hide Rotate;
    hide Count;
    var h := HandleAll(states, env).states;
    var ps := Kept(Count(|states| - 1), Outcomes(states[1..], Reactions(env)));
    HandledPicks(states, env, ps);
    if h[0].unread != [] {
      var os := Outcomes(h[1..], Offers(Packet(counter, h[0].unread), env.broadcast));
      var qs := Kept(Count(|h| - 1), os);
      BroadcastPicks(h, counter, env.broadcast, qs);
      PicksCompose(ps, os, qs);
      var places := Places(states, counter, env);
      assert places == Rotate(Kept(ps, os));
      forall k | 0 <= k < |places|
        ensures places[k] + 1 < |states| && Becomes(states[places[k] + 1], env.relays(places[k]), Sent(counter, h[0].unread),
                                                    Inbound(h, counter, env.broadcast).states[k + 1])
      {
        assert places[k] == ps[Rotate(qs)[k]];
      }
    }
  }

  lemma StayIsPlaced<T>(s: seq<T>, states: seq<State>, counter: nat, env: Env)
    requires |states| == |s| + 1 && counter < WRAP && HandleAll(states, env).ok
    ensures var ps := Places(states, counter, env);
            && |Stay(s, states, counter, env)| == |ps|
            && forall k :: 0 <= k < |ps| ==> ps[k] < |s| && Stay(s, states, counter, env)[k] == s[ps[k]]
  {
    hide Outcomes;
    hide Kept;
    hide Picks;
    hide HandleAll;
    hide Packet;
    hide Rotate;
    hide Count;
    var h, os := HandleAll(states, env).states, Outcomes(states[1..], Reactions(env));
    StayLength(s, states, env);
    KeptArePicked(s, os);
    KeptArePicked<nat>(Count(|s|), os);
    if h[0].unread != [] {
      var os' := Outcomes(h[1..], Offers(Packet(counter, h[0].unread), env.broadcast));
      StayLength(Count(|s|), states, env);
      var qs := Kept(Count(|os'|), os');
      PicksCompose(Kept(s, os), os', qs);
      PicksCompose<nat>(Kept<nat>(Count(|s|), os), os', qs);
      var ps := Places(states, counter, env);
      forall k | 0 <= k < |ps|
        ensures ps[k] < |s| && Stay(s, states, counter, env)[k] == s[ps[k]]
      {
        var q := Rotate(qs)[k];
        assert ps[k] == Kept<nat>(Count(|s|), os)[q];
      }
    }
  }

  lemma ReadsOnce(s: State, e: Event)
    requires s.unread == []
    ensures Handle(s, e).state.unread == Got(e)
  {
  }

  lemma HandleOffersNothing(s: State, e: Event)
    ensures Handle(s, e).state.ledger.offered == s.ledger.offered
  {
  }

  lemma EnqueueOffersOnce(s: State, d: Datagram, result: SendResult)
    ensures Enqueue(s, d, result).state.ledger.offered == s.ledger.offered + [d]
    ensures Enqueue(s, d, result).state.unread == s.unread
  {
  }

  lemma BecomesFacts(s: State, e: Event, sent: seq<Datagram>, s': State)
    requires Becomes(s, e, sent, s') && |sent| <= 1
    ensures s'.ledger.offered == s.ledger.offered + sent
    ensures s.unread == [] ==> s'.unread == Got(e)
    ensures Conserved(s) ==> Conserved(s')
  {
    hide Conserved;
    hide Handle;
    hide Enqueue;
    hide Got;
    var h := Handle(s, e).state;
    HandleOffersNothing(s, e);
    if s.unread == [] {
      ReadsOnce(s, e);
    }
    if Conserved(s) {
      HandleConserves(s, e);
    }
    if sent != [] {
      var result :| s' == Enqueue(h, sent[0], result).state;
      EnqueueOffersOnce(h, sent[0], result);
      if Conserved(s) {
        OfferConserves(h, sent[0], result);
      }
    }
  }

  /**
    * In an iteration that begins with nothing unread, what is broadcast is what the outward relay read, and what
    * the receiving loop dispatches is what the ring's relays read, each once, except those removed before it.
    */
  lemma DispatchedIsRead(n: nat, states: seq<State>, accepted: seq<int>, counter: nat, env: Env)
    requires states != [] && counter < WRAP && Quiet(states) && Iterate(n, states, accepted, counter, env).Went?
    ensures HandleAll(states, env).ok
    ensures var done := Iterate(n, states, accepted, counter, env);
            && done.inbound == Got(env.outward)
            && done.relayed == Stay(Gots(env.relays, |states| - 1), states, counter, env)
  {
    hide HandleAll;
    hide Inbound;
    hide Stay;
    hide Places;
    hide Becomes;
    hide Handle;
    hide Got;
    hide Verdicts;
    hide SinkAt;
    hide Settled;
    hide KeepRest;
    Fates(states, counter, env);
    HandledFirst(states, env);
    ReadsOnce(states[0], env.outward);
    StayIsPlaced(Gots(env.relays, |states| - 1), states, counter, env);
    var b := Inbound(HandleAll(states, env).states, counter, env.broadcast).states;
    var ps := Places(states, counter, env);
    forall k | 0 <= k < |ps|
      ensures b[k + 1].unread == Got(env.relays(ps[k]))
    {
      BecomesFacts(states[ps[k] + 1], env.relays(ps[k]), Sent(counter, HandleAll(states, env).states[0].unread), b[k + 1]);
    }
  }

  lemma HandledFirst(states: seq<State>, env: Env)
    requires states != [] && HandleAll(states, env).ok
    ensures HandleAll(states, env).states[0] == Handle(states[0], env.outward).state
  {
    hide Handle;
    hide KeepRest;
    hide Outcomes;
    SteppedFirst(states[0 := Handle(states[0], env.outward).state], Reactions(env));
  }

  lemma {:induction false} NoneKept<T>(s: seq<T>, os: seq<Outcome>)
    requires |s| <= |os|
    ensures Kept(s, os) == [] <==> forall i :: 0 <= i < |s| ==> !os[i].ok
  {
    if s != [] {
      NoneKept(s[..|s| - 1], os);
    }
  }

  /**
    * Dispatching outruns the ring, and dereferences NULL, exactly when there is a datagram and every relay, if there
    * is any, has a remote address and a socket that fails for good.
    */
  lemma CrashIff(states: seq<State>, counter: nat, sends: nat -> SendResult)
    requires states != [] && counter < WRAP
    ensures !Inbound(states, counter, sends).ok <==>
            states[0].unread != [] && forall i :: 0 < i < |states| ==> states[i].remote && sends(i - 1) == SendBroken
  {
    hide Kept;
    hide RotateRest;
    hide Stepped;
    var d := states[0].unread;
    if d != [] {
      var fetched, pkt := states[0 := Receive(states[0])], Packet(counter, d);
      var os := Outcomes(fetched[1..], Offers(pkt, sends));
      NoneKept(Stepped(fetched, Offers(pkt, sends))[1..], os);
      assert pkt != [];
      assert forall i :: 0 < i < |states| ==> os[i - 1] == Enqueue(states[i], pkt, sends(i - 1));
      assert forall i :: 0 <= i < |os| ==> os[i] == Enqueue(states[i + 1], pkt, sends(i));
    }
  }

  // ---------------------------------------------------------------------------------------------
  // The receiving loop

  /** The datagrams long enough to hold a header. */
  function Carrying(ds: seq<Datagram>): (r: seq<Datagram>)
    ensures forall i :: 0 <= i < |r| ==> |r[i]| >= HEADER
  {
    if ds == [] then [] else Carrying(ds[..|ds| - 1]) + if |ds[|ds| - 1]| >= HEADER then [ds[|ds| - 1]] else []
  }

  function Nums(ds: seq<Datagram>): (r: seq<int>)
    requires forall i :: 0 <= i < |ds| ==> |ds[i]| >= HEADER
    ensures |r| == |ds| && forall i :: 0 <= i < |r| ==> r[i] == Decode(ds[i])
  {
    seq(|ds|, i requires 0 <= i < |ds| => Decode(ds[i]))
  }

  /** The payloads of those whose number is not among the last n accepted before it. */
  function Passed(n: nat, ds: seq<Datagram>): seq<Datagram>
    requires forall i :: 0 <= i < |ds| ==> |ds[i]| >= HEADER
  {
    if ds == [] then []
    else
      var k := |ds| - 1;
      Passed(n, ds[..k]) + if Accepts(n, Nums(ds), k) then [ds[k][HEADER..]] else []
  }

  /** What the sink has seen of the datagrams received so far. */
  ghost predicate Records(n: nat, s: Sink, received: seq<Datagram>) {
    && (forall i :: 0 <= i < |received| ==> |received[i]| >= HEADER)
    && s.accepted == Window.Run(n, Nums(received)) && s.out.ledger.offered == Passed(n, received)
  }

  lemma RecordsOne(n: nat, s: Sink, received: seq<Datagram>, d: Datagram, result: SendResult)
    requires Records(n, s, received)
    ensures var t := DispatchOne(n, s, d, result).sink;
            && Records(n, t, if |d| >= HEADER then received + [d] else received) && t.out.unread == s.out.unread
            && (Conserved(s.out) ==> Conserved(t.out))
  {
    hide Conserved;
    hide Enqueue;
    hide Last;
    hide Decode;
    if |d| >= HEADER {
      var more := received + [d];
      assert more[..|received|] == received && Nums(more)[..|received|] == Nums(received);
      assert Accepts(n, Nums(more), |received|) == (Decode(d) !in Last(n, s.accepted));
      EnqueueOffersOnce(s.out, d[HEADER..], result);
      if Conserved(s.out) {
        OfferConserves(s.out, d[HEADER..], result);
      }
    }
  }

  /** The receiving loop forwards, in order, the payloads whose numbers the window does not hold. */
  lemma {:induction false} RecordsAll(n: nat, s: Sink, received: seq<Datagram>, ds: seq<Datagram>, results: nat -> SendResult)
    requires Records(n, s, received)
    ensures var t := DispatchAll(n, s, ds, results);
            && Records(n, t, received + Carrying(ds)) && t.out.unread == s.out.unread
            && (Conserved(s.out) ==> Conserved(t.out))
  {
    hide Records;
    hide Conserved;
    hide DispatchOne;
    if ds == [] {
      assert received + Carrying(ds) == received;
    } else {
      var k := |ds| - 1;
      RecordsAll(n, s, received, ds[..k], results);
      RecordsOne(n, DispatchAll(n, s, ds[..k], results), received + Carrying(ds[..k]), ds[k], results(k));
      assert (received + Carrying(ds[..k])) + [ds[k]] == received + (Carrying(ds[..k]) + [ds[k]]);
      assert received + (Carrying(ds[..k]) + []) == received + Carrying(ds[..k]);
    }
  }

  /** A relay whose received datagram was fetched. */
  ghost predicate Fetched(s: State, states: seq<State>) {
    exists i :: 0 < i < |states| && s == Receive(states[i])
  }

  /** The states a receiving loop leaves: the sink's, and for every relay kept one with nothing unread. */
  lemma FinishedStates(n: nat, states: seq<State>, accepted: seq<int>, counter: nat, inbound: Datagram, env: Env)
    requires states != []
    ensures var done := Finish(n, states, accepted, counter, inbound, env);
            var sink := DispatchAll(n, Sink(states[0], accepted), Unreads(states[1..]), env.forward);
            && done.states != [] && done.states[0] == sink.out && done.accepted == sink.accepted
            && (forall k :: 0 < k < |done.states| ==> Fetched(done.states[k], states))
  {
    hide Kept;
    hide Picks;
    hide Verdicts;
    hide DispatchAll;
    hide Receive;
    hide Settled;
    var s := Sink(states[0], accepted);
    var os, sink := Verdicts(n, s, states[1..], env.forward), SinkAt(n, s, states[1..], env.forward, |states| - 1);
    assert Unreads(states[1..])[..|states| - 1] == Unreads(states[1..]);
    var after := Settled(sink.out, states, os);
    SettledAll(sink.out, states, os);
    KeptArePicked(after[1..], os);
    var left := Finish(n, states, accepted, counter, inbound, env).states;
    assert left == KeepRest(after, os);
    forall k | 0 < k < |left|
      ensures Fetched(left[k], states)
    {
      var p := Picks(os, |os|)[k - 1];
      assert left[k] == after[p + 1] == Receive(states[p + 1]);
    }
  }

  lemma SettledAll(first: State, states: seq<State>, os: seq<Outcome>)
    requires |states| == |os| + 1
    ensures Settled(first, states, os)[0] == first
    ensures forall k :: 0 <= k < |os| ==> Settled(first, states, os)[k + 1] == os[k].state
  {
  }

  /**
    * A datagram whose dispatch fails: it is fresh, and the outward relay, which has a remote address, fails on it, because
    * its socket fails for good, or because the payload is empty, for then sending it gives 0.
    */
  predicate Fails(n: nat, before: Sink, d: Datagram, result: SendResult) {
    && |d| >= HEADER && Decode(d) !in Last(n, before.accepted) && before.out.remote
    && (result == SendBroken || (result == Transferred && |d| == HEADER))
  }

  /** A relay loses its place in the receiving loop exactly when the dispatch of its datagram fails. */
  lemma LosesPlaceIff(n: nat, s: Sink, rs: seq<State>, results: nat -> SendResult, i: nat)
    requires i < |rs|
    ensures !Verdicts(n, s, rs, results)[i].ok <==> Fails(n, SinkAt(n, s, rs, results, i), rs[i].unread, results(i))
  {
    hide SinkAt;
    hide Last;
    hide Decode;
    var d, before := rs[i].unread, SinkAt(n, s, rs, results, i);
    if |d| >= HEADER {
      FailsIff(before.out, Offer(d[HEADER..], results(i)));
    }
  }

  // ---------------------------------------------------------------------------------------------
  // Whole runs

  /** A node and its history: the datagrams it broadcast, and those it received with a header. */
  datatype History = History(states: seq<State>, accepted: seq<int>, counter: nat,
                             inbound: seq<Datagram>, received: seq<Datagram>)

  /** udprelay_init */
  function Begin(hasRemote: bool, remotes: seq<bool>): History {
    History(InitAll([hasRemote] + remotes), [], 0, [], [])
  }

  /** Every relay begins as its own entry says: with its remote address or, having none, ready to learn one. */
  lemma BeginStates(hasRemote: bool, remotes: seq<bool>)
    ensures var states, none: seq<Datagram> := Begin(hasRemote, remotes).states, [];
            && |states| == |remotes| + 1 && states[0].remote == hasRemote
            && (forall i :: 0 <= i < |remotes| ==> states[i + 1].remote == remotes[i])
            && (forall i :: 0 <= i < |states| ==>
                  && states[i].dynamicOut == !states[i].remote && states[i].pending == [] && states[i].unread == []
                  && states[i].ledger == Ledger(none, none, none, none, none, none, none))
  {
  }

  function Advance(h: History, done: Iteration): History
    requires done.Went?
  {
    History(done.states, done.accepted, done.counter, h.inbound + (if done.inbound == [] then [] else [done.inbound]),
            h.received + Carrying(done.relayed))
  }

  /** The main loop, over what select and the sockets answer, until it stops or the answers end. */
  function Serve(n: nat, h: History, envs: seq<Env>): (r: History)
    requires h.states != [] && h.counter < WRAP
    ensures r.states != [] && r.counter < WRAP
    decreases |envs|
  {
    if envs == [] then h
    else
      var done := Iterate(n, h.states, h.accepted, h.counter, envs[0]);
      if done.Went? then Serve(n, Advance(h, done), envs[1..]) else h
  }

  /** Whether the main loop still runs when the answers end. */
  function Runs(n: nat, h: History, envs: seq<Env>): bool
    requires h.states != [] && h.counter < WRAP
    decreases |envs|
  {
    if envs == [] then true
    else
      var done := Iterate(n, h.states, h.accepted, h.counter, envs[0]);
      done.Went? && Runs(n, Advance(h, done), envs[1..])
  }

  /** The packets of the datagrams broadcast: each with its index, modulo the counter's range, in front. */
  function Packets(inbound: seq<Datagram>): (r: seq<Datagram>)
    ensures |r| == |inbound| && forall i :: 0 <= i < |r| ==> r[i] == Packet(i % WRAP, inbound[i])
  {
    seq(|inbound|, i requires 0 <= i < |inbound| => Packet(i % WRAP, inbound[i]))
  }

  /** Every relay of the ring was offered exactly these packets, and every relay accounts for all it took. */
  ghost predicate Broadcasted(states: seq<State>, inbound: seq<Datagram>) {
    && (forall i :: 0 <= i < |inbound| ==> inbound[i] != [])
    && (forall i :: 0 < i < |states| ==> states[i].ledger.offered == Packets(inbound))
    && (forall i :: 0 <= i < |states| ==> Conserved(states[i]))
  }

  /**
    * At the head of the main loop: nothing received is unread; every relay of the ring was offered exactly the
    * packets broadcast so far, in order; the outward relay was offered exactly the payloads the window let pass;
    * and every relay accounts for all it took.
    */
  ghost predicate Sound(n: nat, h: History) {
    && h.states != [] && h.counter == |h.inbound| % WRAP && Quiet(h.states)
    && Broadcasted(h.states, h.inbound) && Records(n, Sink(h.states[0], h.accepted), h.received)
  }

  lemma BeginSound(n: nat, hasRemote: bool, remotes: seq<bool>)
    ensures Sound(n, Begin(hasRemote, remotes))
  {
  }

  lemma PacketsNext(inbound: seq<Datagram>, d: Datagram)
    ensures Packets(inbound) + [Packet(|inbound| % WRAP, d)] == Packets(inbound + [d])
  {
    hide Packet;
  }

  /** The first half and the broadcast keep the ledgers in step. */
  lemma InboundSound(n: nat, h: History, env: Env)
    requires Sound(n, h) && HandleAll(h.states, env).ok
    ensures var handled := HandleAll(h.states, env).states; var d := handled[0].unread;
            var b := Inbound(handled, h.counter, env.broadcast);
            && Broadcasted(b.states, h.inbound + if d == [] then [] else [d]) && b.states[0].unread == []
            && b.counter == |h.inbound + if d == [] then [] else [d]| % WRAP
            && Records(n, Sink(b.states[0], h.accepted), h.received)
  {
    hide HandleAll;
    hide Inbound;
    hide Places;
    hide Becomes;
    hide Handle;
    hide Packet;
    hide Packets;
    hide Records;
    hide Conserved;
    var handled := HandleAll(h.states, env).states;
    var d := handled[0].unread;
    var b := Inbound(handled, h.counter, env.broadcast).states;
    var ps, sent := Places(h.states, h.counter, env), Sent(h.counter, d);
    var inbound := h.inbound + if d == [] then [] else [d];
    Fates(h.states, h.counter, env);
    PacketsNext(h.inbound, d);
    forall k | 0 < k < |b|
      ensures b[k].ledger.offered == Packets(inbound) && Conserved(b[k])
    {
      BecomesFacts(h.states[ps[k - 1] + 1], env.relays(ps[k - 1]), sent, b[k]);
    }
    HandleOffersNothing(h.states[0], env.outward);
    HandleConserves(h.states[0], env.outward);
    SamePending(Handle(h.states[0], env.outward).state, b[0]);
    SameRecords(n, h.states[0], b[0], h.accepted, h.received);
    CounterStep(handled, h.counter, env.broadcast);
  }

  lemma SameRecords(n: nat, out: State, out': State, accepted: seq<int>, received: seq<Datagram>)
    requires Records(n, Sink(out, accepted), received) && out'.ledger.offered == out.ledger.offered
    ensures Records(n, Sink(out', accepted), received)
  {
  }

  lemma CounterStep(states: seq<State>, counter: nat, sends: nat -> SendResult)
    requires states != [] && counter < WRAP
    ensures Inbound(states, counter, sends).counter == (counter + |Sent(counter, states[0].unread)|) % WRAP
  {
    hide Packet;
    hide Swept;
    hide RotateRest;
  }

  /** So does the receiving loop. */
  lemma FinishSound(n: nat, states: seq<State>, inbound: seq<Datagram>, received: seq<Datagram>,
                    accepted: seq<int>, counter: nat, d: Datagram, env: Env)
    requires states != [] && Broadcasted(states, inbound) && states[0].unread == []
    requires Records(n, Sink(states[0], accepted), received)
    ensures var done := Finish(n, states, accepted, counter, d, env);
            && Quiet(done.states) && Broadcasted(done.states, inbound)
            && Records(n, Sink(done.states[0], done.accepted), received + Carrying(done.relayed))
  {
    hide Records;
    hide Conserved;
    hide DispatchAll;
    hide KeepRest;
    hide Settled;
    hide Verdicts;
    hide SinkAt;
    hide Carrying;
    var done := Finish(n, states, accepted, counter, d, env);
    FinishedStates(n, states, accepted, counter, d, env);
    RecordsAll(n, Sink(states[0], accepted), received, Unreads(states[1..]), env.forward);
    forall k | 0 < k < |done.states|
      ensures done.states[k].unread == [] && done.states[k].ledger.offered == Packets(inbound) && Conserved(done.states[k])
    {
      assert Fetched(done.states[k], states);
      var i :| 0 < i < |states| && done.states[k] == Receive(states[i]);
      SamePending(states[i], done.states[k]);
    }
  }

  /** An iteration keeps the node sound. */
  lemma IterateSound(n: nat, h: History, env: Env)
    requires Sound(n, h)
    ensures var done := Iterate(n, h.states, h.accepted, h.counter, env); done.Went? ==> Sound(n, Advance(h, done))
  {
    hide HandleAll;
    hide Inbound;
    hide Finish;
    hide Records;
    hide Broadcasted;
    hide Quiet;
    hide Carrying;
    var done := Iterate(n, h.states, h.accepted, h.counter, env);
    if done.Went? {
      var handled := HandleAll(h.states, env).states;
      var d := handled[0].unread;
      var b := Inbound(handled, h.counter, env.broadcast);
      InboundSound(n, h, env);
      FinishSound(n, b.states, h.inbound + if d == [] then [] else [d], h.received, h.accepted, b.counter, d, env);
      FinishTells(n, b.states, h.accepted, b.counter, d, env);
    }
  }

  lemma FinishTells(n: nat, states: seq<State>, accepted: seq<int>, counter: nat, d: Datagram, env: Env)
    requires states != []
    ensures Finish(n, states, accepted, counter, d, env).inbound == d
  {
  }

  /** So every run from udprelay_init is sound, whatever select and the sockets answer. */
  lemma {:induction false} ServeSound(n: nat, h: History, envs: seq<Env>)
    requires Sound(n, h)
    ensures h.counter < WRAP && Sound(n, Serve(n, h, envs))
    decreases |envs|
  {
    hide Iterate;
    hide Records;
    hide Broadcasted;
    hide Quiet;
    if envs != [] {
      IterateSound(n, h, envs[0]);
      var done := Iterate(n, h.states, h.accepted, h.counter, envs[0]);
      if done.Went? {
        ServeSound(n, Advance(h, done), envs[1..]);
      }
    }
  }
}
