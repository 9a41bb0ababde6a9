/** Inputs on which a node with one relay fails in the ways whose exact conditions are proved elsewhere. */
module Scenarios {
  import opened NodeRuns
  import opened NodeSpec
  import opened RelaySpec
  import opened Window

  lemma SingleKept<T>(a: T, os: seq<Outcome>)
    requires |os| == 1
    ensures Kept([a], os) == if os[0].ok then [a] else []
  {
    KeptNext([a], os, 0);
    assert [a][..0] == [] && [a][..1] == [a];
  }

  lemma SweptPair(a: State, b: State, steps: nat -> Step)
    ensures var o := Next(b, steps(0)); Swept([a, b], steps) == if o.ok then [a, o.state] else [a]
  {
    hide Kept;
    hide Next;
    hide Stepped;
    var states := [a, b];
    assert states[1..] == [b];
    var os, after := Outcomes(states[1..], steps), Stepped(states, steps);
    SteppedFirst(states, steps);
    SteppedAt(states, steps, 0);
    assert after[1..] == [after[1]];
    SingleKept(after[1], os);
  }

  /** An iteration in which only the relay receives. */
  lemma Hearing(n: nat, a: State, b: State, accepted: seq<int>, counter: nat, env: Env)
    requires counter < WRAP && a.unread == []
    requires Handle(a, env.outward) == Outcome(a, true) && Handle(b, env.relays(0)).ok
    ensures var b' := Handle(b, env.relays(0)).state;
            var v := DispatchOne(n, Sink(a, accepted), b'.unread, env.forward(0));
            var done := Iterate(n, [a, b], accepted, counter, env);
            && done.Went? && done.accepted == v.sink.accepted
            && done.states == if v.ok then [v.sink.out, Receive(b')] else [v.sink.out]
  {
    hide Handle;
    hide Swept;
    hide DispatchOne;
    hide Kept;
    var states, b' := [a, b], Handle(b, env.relays(0)).state;
    assert states[0 := a] == states;
    SweptPair(a, b, Reactions(env));
    assert HandleAll(states, env).states == [a, b'];
    assert [a, b'][0 := Receive(a)] == [a, b'] && [a, b'][1..] == [b'];
    FinishPair(n, a, b', accepted, counter, env);
  }

  lemma FinishPair(n: nat, a: State, b: State, accepted: seq<int>, counter: nat, env: Env)
    ensures var v := DispatchOne(n, Sink(a, accepted), b.unread, env.forward(0));
            var done := Finish(n, [a, b], accepted, counter, [], env);
            && done.accepted == v.sink.accepted
            && done.states == if v.ok then [v.sink.out, Receive(b)] else [v.sink.out]
  {
    hide Kept;
    hide DispatchOne;
    hide SinkAt;
    var s, states, rs := Sink(a, accepted), [a, b], [b];
    assert states[1..] == rs;
    SinkNext(n, s, rs, env.forward, 0);
    NothingDispatched(n, s, rs, env.forward);
    var os, sink := Verdicts(n, s, rs, env.forward), SinkAt(n, s, rs, env.forward, 1);
    var after := Settled(sink.out, states, os);
    SettledAll(sink.out, states, os);
    assert after[1..] == [after[1]];
    SingleKept(after[1], os);
  }

  lemma NothingDispatched(n: nat, s: Sink, rs: seq<State>, results: nat -> SendResult)
    ensures SinkAt(n, s, rs, results, 0) == s
  {
  }

  /** The relay receives a packet of two bytes, the header with number 1 and no payload, and nothing else happens. */
  function TwoBytes(forward: SendResult): Env {
    Env(Event(false, Nothing, false, WouldBlock), (i: nat) => Event(true, Received([0, 1]), false, WouldBlock),
        (i: nat) => Transferred, (i: nat) => forward)
  }

  lemma OneRelay()
    ensures Begin(true, [true]).states == [Init(true), Init(true)]
  {
  }

  lemma TwoBytesHeard(n: nat, forward: SendResult)
    ensures var v := DispatchOne(n, Sink(Init(true), []), [0, 1], forward);
            var h := Serve(n, Begin(true, [true]), [TwoBytes(forward)]);
            && h.accepted == v.sink.accepted
            && h.states == if v.ok then [v.sink.out, Init(true)] else [v.sink.out]
  {
    hide Iterate;
    hide DispatchOne;
    var env, h := TwoBytes(forward), Begin(true, [true]);
    OneRelay();
    Hearing(n, Init(true), Init(true), [], 0, env);
    assert [env][1..] == [];
  }

  lemma TwoBytesAreFresh(n: nat, forward: SendResult)
    ensures var o := Enqueue(Init(true), [], forward);
            DispatchOne(n, Sink(Init(true), []), [0, 1], forward) == Verdict(Sink(o.state, [1]), o.ok)
  {
    hide Enqueue;
    var d: Datagram := [0, 1];
    assert Last<int>(n, []) == [] && d[HEADER..] == [];
  }

  /** Sending the empty payload at once costs the relay that brought it its place, though no socket failed. */
  lemma HealthyRelayIsDropped(n: nat)
    ensures |Begin(true, [true]).states| == 2
    ensures var h := Serve(n, Begin(true, [true]), [TwoBytes(Transferred)]); |h.states| == 1 && h.accepted == [1]
  {
    hide Serve;
    hide Iterate;
    hide DispatchOne;
    hide Begin;
    OneRelay();
    TwoBytesHeard(n, Transferred);
    TwoBytesAreFresh(n, Transferred);
  }

  /** Deferring it loses it. */
  lemma EmptyPayloadVanishes(n: nat)
    ensures var h := Serve(n, Begin(true, [true]), [TwoBytes(WouldBlock)]);
            && |h.states| == 2 && h.accepted == [1]
            && h.states[0].ledger.vanished == [[]] && h.states[0].pending == []
  {
    hide Serve;
    hide Iterate;
    hide DispatchOne;
    hide Begin;
    TwoBytesHeard(n, WouldBlock);
    TwoBytesAreFresh(n, WouldBlock);
  }

  /** The outward relay receives one byte, and the one relay fails on it for good. */
  function LastRelayFails(x: Byte): Env {
    Env(Event(true, Received([x]), false, WouldBlock), (i: nat) => Event(false, Nothing, false, WouldBlock),
        (i: nat) => SendBroken, (i: nat) => Transferred)
  }

  /** Then the node dereferences NULL. */
  lemma DispatchCrashes(n: nat, x: Byte)
    ensures Iterate(n, Begin(true, [true]).states, [], 0, LastRelayFails(x)).Crashed?
  {
    hide Swept;
    hide Finish;
    var env, a := LastRelayFails(x), Handle(Init(true), Event(true, Received([x]), false, WouldBlock)).state;
    OneRelay();
    var states := [Init(true), Init(true)];
    assert states[0 := a] == [a, Init(true)];
    SweptPair(a, Init(true), Reactions(env));
    CrashIff(HandleAll(states, env).states, 0, env.broadcast);
  }
}
