/** What becomes of the payloads the receiver forwards: sent, queued or dropped, as the outward socket answers. */
module Forwarding {
  import opened NodeRuns
  import opened NodeSpec
  import opened RelaySpec
  import opened Window

  /** A payload handed to the outward relay, and what sendto answers then. */
  datatype Forward = Forward(payload: Datagram, answer: SendResult)

  /** The numbers accepted once these datagrams are received. */
  function Seen(n: nat, accepted: seq<int>, ds: seq<Datagram>): seq<int> {
    if ds == [] then accepted
    else
      var k := |ds| - 1;
      var before := Seen(n, accepted, ds[..k]);
      if |ds[k]| < HEADER then before else Push(n, before, Decode(ds[k]))
  }

  /** The fresh payloads among the datagrams of a receiving loop, each with the answer at its relay's position. */
  function Forwards(n: nat, accepted: seq<int>, ds: seq<Datagram>, results: nat -> SendResult): seq<Forward> {
    if ds == [] then []
    else
      var k := |ds| - 1;
      Forwards(n, accepted, ds[..k], results)
      + if |ds[k]| < HEADER || Decode(ds[k]) in Last(n, Seen(n, accepted, ds[..k])) then []
        else [Forward(ds[k][HEADER..], results(k))]
  }

  function Payloads(fs: seq<Forward>): (r: seq<Datagram>)
    ensures |r| == |fs| && forall i :: 0 <= i < |r| ==> r[i] == fs[i].payload
  {
    seq(|fs|, i requires 0 <= i < |fs| => fs[i].payload)
  }

  /** The payloads with this answer, in order. */
  function Answered(fs: seq<Forward>, answer: SendResult): seq<Datagram> {
    if fs == [] then []
    else
      var k := |fs| - 1;
      Answered(fs[..k], answer) + if fs[k].answer == answer then [fs[k].payload] else []
  }

  /** Those for which relay_enqueue returns 0: no hard error, and no empty payload sent at once. */
  function Taken(fs: seq<Forward>): seq<Datagram> {
    if fs == [] then []
    else
      var k, f := |fs| - 1, fs[|fs| - 1];
      Taken(fs[..k]) + if f.answer == SendBroken || (f.answer == Transferred && f.payload == []) then [] else [f.payload]
  }

  function NonEmpty(ds: seq<Datagram>): seq<Datagram> {
    if ds == [] then []
    else
      var k := |ds| - 1;
      NonEmpty(ds[..k]) + if ds[k] == [] then [] else [ds[k]]
  }

  /** A FIFO once these datagrams are put in it: an empty one vanishes while nothing is pending. */
  function Queue(pending: seq<Datagram>, ds: seq<Datagram>): seq<Datagram> {
    if ds == [] then pending
    else
      var k := |ds| - 1;
      var before := Queue(pending, ds[..k]);
      if before == [] && ds[k] == [] then before else before + [ds[k]]
  }

  ghost predicate NoneEmpty(ds: seq<Datagram>) {
    forall i :: 0 <= i < |ds| ==> ds[i] != []
  }

  /** Nothing vanishes when no datagram is empty, or something is pending. */
  lemma {:induction false} QueueAll(pending: seq<Datagram>, ds: seq<Datagram>)
    requires pending != [] || NoneEmpty(ds)
    ensures Queue(pending, ds) == pending + ds
  {
    if ds != [] {
      QueueAll(pending, ds[..|ds| - 1]);
      assert pending + ds == pending + ds[..|ds| - 1] + [ds[|ds| - 1]];
    } else {
      assert pending + ds == pending;
    }
  }

  lemma {:induction false} NonEmptyAll(ds: seq<Datagram>)
    requires NoneEmpty(ds)
    ensures NonEmpty(ds) == ds
  {
    if ds != [] {
      NonEmptyAll(ds[..|ds| - 1]);
    }
  }

  // ---------------------------------------------------------------------------------------------
  // One offer

  /** Each answer of sendto and what it makes of a datagram. */
  lemma EnqueueTells(s: State, d: Datagram, result: SendResult)
    requires s.remote
    ensures var t := Enqueue(s, d, result).state; var l, l' := s.ledger, t.ledger;
            && t.remote && t.dynamicOut == s.dynamicOut && t.unread == s.unread && l'.offered == l.offered + [d]
            && l'.sent == (if result == Transferred && d != [] then l.sent + [d] else l.sent)
            && l'.dropped == (if result == Undeliverable then l.dropped + [d] else l.dropped)
            && t.pending == (if result == WouldBlock && !(d == [] && s.pending == []) then s.pending + [d] else s.pending)
            && l'.deferred == (if result == WouldBlock && !(d == [] && s.pending == []) then l.deferred + [d] else l.deferred)
            && l'.taken == (if result == SendBroken || (result == Transferred && d == []) then l.taken else l.taken + [d])
  {
  }

  // ---------------------------------------------------------------------------------------------
  // The receiving loop

  /** From one state of the outward relay to another, these payloads were forwarded and nothing else happened. */
  ghost predicate Forwarded(s: State, fs: seq<Forward>, t: State) {
    var l, l' := s.ledger, t.ledger;
    && t.remote && t.dynamicOut == s.dynamicOut && t.unread == s.unread
    && l'.offered == l.offered + Payloads(fs)
    && l'.taken == l.taken + Taken(fs)
    && l'.sent == l.sent + NonEmpty(Answered(fs, Transferred))
    && l'.dropped == l.dropped + Answered(fs, Undeliverable)
    && t.pending == Queue(s.pending, Answered(fs, WouldBlock))
    && |s.pending| <= |t.pending| && l'.deferred == l.deferred + t.pending[|s.pending|..]
  }

  lemma NothingForwarded(s: State)
    requires s.remote
    ensures Forwarded(s, [], s)
  {
    assert s.pending[|s.pending|..] == [];
  }

  lemma OneMore(fs: seq<Forward>, f: Forward, answer: SendResult)
    ensures Payloads(fs + [f]) == Payloads(fs) + [f.payload]
    ensures Answered(fs + [f], answer) == if f.answer == answer then Answered(fs, answer) + [f.payload] else Answered(fs, answer)
    ensures Taken(fs + [f]) == if f.answer == SendBroken || (f.answer == Transferred && f.payload == []) then Taken(fs)
                               else Taken(fs) + [f.payload]
  {
    assert (fs + [f])[..|fs|] == fs;
  }

  lemma OneMoreQueued(pending: seq<Datagram>, ds: seq<Datagram>, d: Datagram)
    ensures NonEmpty(ds + [d]) == if d == [] then NonEmpty(ds) else NonEmpty(ds) + [d]
    ensures Queue(pending, ds + [d])
            == if Queue(pending, ds) == [] && d == [] then Queue(pending, ds) else Queue(pending, ds) + [d]
  {
    assert (ds + [d])[..|ds|] == ds;
  }

  lemma ForwardedNext(s: State, fs: seq<Forward>, t: State, f: Forward)
    requires Forwarded(s, fs, t)
    ensures Forwarded(s, fs + [f], Enqueue(t, f.payload, f.answer).state)
  {
    hide Enqueue;
    hide Payloads;
    hide Answered;
    hide Taken;
    hide NonEmpty;
    hide Queue;
    EnqueueTells(t, f.payload, f.answer);
    OneMore(fs, f, Transferred);
    OneMore(fs, f, Undeliverable);
    OneMore(fs, f, WouldBlock);
    OneMoreQueued([], Answered(fs, Transferred), f.payload);
    OneMoreQueued(s.pending, Answered(fs, WouldBlock), f.payload);
    var t', n := Enqueue(t, f.payload, f.answer).state, |s.pending|;
    if t'.pending != t.pending {
      assert t'.pending[n..] == t.pending[n..] + [f.payload];
    }
  }

  /** The receiving loop forwards the fresh payloads and does nothing else to the outward relay. */
  lemma {:induction false} LoopForwards(n: nat, s: Sink, ds: seq<Datagram>, results: nat -> SendResult)
    requires s.out.remote
    ensures var t := DispatchAll(n, s, ds, results);
            t.accepted == Seen(n, s.accepted, ds) && Forwarded(s.out, Forwards(n, s.accepted, ds, results), t.out)
  {
    hide Forwarded;
    hide Enqueue;
    hide Decode;
    hide Last;
    if ds == [] {
      NothingForwarded(s.out);
    } else {
      var k := |ds| - 1;
      var before, fs := DispatchAll(n, s, ds[..k], results), Forwards(n, s.accepted, ds[..k], results);
      LoopForwards(n, s, ds[..k], results);
      assert fs + [] == fs;
      if |ds[k]| >= HEADER && Decode(ds[k]) !in Last(n, before.accepted) {
        ForwardedNext(s.out, fs, before.out, Forward(ds[k][HEADER..], results(k)));
      }
    }
  }

  /** From one state of an outward relay without a remote address to another, these payloads were dropped. */
  ghost predicate Discarded(s: State, fs: seq<Forward>, t: State) {
    var l, l' := s.ledger, t.ledger;
    && !t.remote && t.dynamicOut == s.dynamicOut && t.pending == s.pending && l'.sent == l.sent
    && l'.offered == l.offered + Payloads(fs) && l'.dropped == l.dropped + Payloads(fs)
  }

  lemma DiscardedNext(s: State, fs: seq<Forward>, t: State, f: Forward)
    requires Discarded(s, fs, t)
    ensures Discarded(s, fs + [f], Enqueue(t, f.payload, f.answer).state)
  {
    hide Payloads;
    OneMore(fs, f, Transferred);
  }

  /** Without a remote address all of them are dropped. */
  lemma {:induction false} LoopDiscards(n: nat, s: Sink, ds: seq<Datagram>, results: nat -> SendResult)
    requires !s.out.remote
    ensures var t := DispatchAll(n, s, ds, results);
            t.accepted == Seen(n, s.accepted, ds) && Discarded(s.out, Forwards(n, s.accepted, ds, results), t.out)
  {
    hide Discarded;
    hide Enqueue;
    hide Decode;
    hide Last;
    if ds == [] {
      NothingDiscarded(s.out);
    } else {
      var k := |ds| - 1;
      var before, fs := DispatchAll(n, s, ds[..k], results), Forwards(n, s.accepted, ds[..k], results);
      LoopDiscards(n, s, ds[..k], results);
      assert fs + [] == fs;
      if |ds[k]| >= HEADER && Decode(ds[k]) !in Last(n, before.accepted) {
        DiscardedNext(s.out, fs, before.out, Forward(ds[k][HEADER..], results(k)));
      }
    }
  }

  lemma NothingDiscarded(s: State)
    requires !s.remote
    ensures Discarded(s, [], s)
  {
    assert Payloads([]) == [];
  }

  // ---------------------------------------------------------------------------------------------
  // The three plain cases

  /** All payloads get this answer. */
  ghost predicate AllAnswered(fs: seq<Forward>, answer: SendResult) {
    forall i :: 0 <= i < |fs| ==> fs[i].answer == answer
  }

  lemma {:induction false} AnsweredAll(fs: seq<Forward>, answer: SendResult, other: SendResult)
    requires AllAnswered(fs, answer)
    ensures Answered(fs, other) == if other == answer then Payloads(fs) else []
  {
    if fs != [] {
      var k := |fs| - 1;
      AnsweredAll(fs[..k], answer, other);
      OneMore(fs[..k], fs[k], other);
      assert fs == fs[..k] + [fs[k]];
    }
  }

  /**
    * A receiving loop before a socket that answers always the same: Transferred sends the fresh payloads, WouldBlock queues
    * them, Undeliverable drops them, in order, and nothing else changes; an empty one is not sent, or vanishes.
    */
  lemma ForwardsAlike(n: nat, s: Sink, ds: seq<Datagram>, results: nat -> SendResult, answer: SendResult)
    requires s.out.remote && answer != SendBroken && forall i: nat :: results(i) == answer
    ensures var t, ps := DispatchAll(n, s, ds, results).out, Payloads(Forwards(n, s.accepted, ds, results));
            && t.ledger.sent == s.out.ledger.sent + (if answer == Transferred then NonEmpty(ps) else [])
            && t.ledger.dropped == s.out.ledger.dropped + (if answer == Undeliverable then ps else [])
            && t.pending == (if answer == WouldBlock then Queue(s.out.pending, ps) else s.out.pending)
  {
    hide Payloads;
    var fs := Forwards(n, s.accepted, ds, results);
    LoopForwards(n, s, ds, results);
    ForwardsAnswered(n, s.accepted, ds, results, answer);
    AnsweredAll(fs, answer, Transferred);
    AnsweredAll(fs, answer, Undeliverable);
    AnsweredAll(fs, answer, WouldBlock);
  }

  lemma {:induction false} ForwardsAnswered(n: nat, accepted: seq<int>, ds: seq<Datagram>, results: nat -> SendResult, answer: SendResult)
    requires forall i: nat :: results(i) == answer
    ensures AllAnswered(Forwards(n, accepted, ds, results), answer)
  {
    hide Last;
    hide Decode;
    if ds != [] {
      ForwardsAnswered(n, accepted, ds[..|ds| - 1], results, answer);
    }
  }

  // ---------------------------------------------------------------------------------------------
  // Whole runs

  /** The outward relay's part of an iteration: it handles its event, is read, and forwards. */
  lemma OutwardIteration(n: nat, states: seq<State>, accepted: seq<int>, counter: nat, env: Env)
    requires states != [] && counter < WRAP && Iterate(n, states, accepted, counter, env).Went?
    ensures var done, handled := Iterate(n, states, accepted, counter, env), Handle(states[0], env.outward);
            var before, fs := Receive(handled.state), Forwards(n, accepted, done.relayed, env.forward);
            && handled.ok && done.states != [] && done.accepted == Seen(n, accepted, done.relayed)
            && (if before.remote then Forwarded(before, fs, done.states[0]) else Discarded(before, fs, done.states[0]))
  {
    hide Handle;
    hide HandleAll;
    hide Inbound;
    hide Places;
    hide Becomes;
    hide Receive;
    hide DispatchAll;
    hide Verdicts;
    hide SinkAt;
    hide Settled;
    hide KeepRest;
    hide Forwarded;
    hide Discarded;
    hide Forwards;
    hide Seen;
    var h := HandleAll(states, env);
    var b := Inbound(h.states, counter, env.broadcast);
    Fates(states, counter, env);
    FinishedStates(n, b.states, accepted, b.counter, h.states[0].unread, env);
    var sink := Sink(b.states[0], accepted);
    HandledOk(states, env);
    if sink.out.remote {
      LoopForwards(n, sink, Unreads(b.states[1..]), env.forward);
    } else {
      LoopDiscards(n, sink, Unreads(b.states[1..]), env.forward);
    }
  }

  lemma HandledOk(states: seq<State>, env: Env)
    requires states != []
    ensures HandleAll(states, env).ok == Handle(states[0], env.outward).ok
  {
    hide Handle;
    hide Swept;
  }

  /** All that the outward relay forwards over a run of the main loop, with the answers it gets. */
  function RunForwards(n: nat, h: History, envs: seq<Env>): seq<Forward>
    requires h.states != [] && h.counter < WRAP
    decreases |envs|
  {
    if envs == [] then []
    else
      var done := Iterate(n, h.states, h.accepted, h.counter, envs[0]);
      if done.Went? then
        Forwards(n, h.accepted, done.relayed, envs[0].forward) + RunForwards(n, Advance(h, done), envs[1..])
      else []
  }

  /**
    * From one state of the outward relay to another these payloads were forwarded, while the relay handled events:
    * relay_enqueue took all but those that met a hard error or were sent empty; those before a socket that would block
    * are the deferred; and before a socket that always takes, or always refuses, all were sent, or dropped, and none waits.
    */
  ghost predicate Fared(s: State, fs: seq<Forward>, t: State) {
    var ps, l, l' := Payloads(fs), s.ledger, t.ledger;
    && t.remote && l'.offered == l.offered + ps && l'.taken == l.taken + Taken(fs)
    && (NoneEmpty(ps) ==> l'.deferred == l.deferred + Answered(fs, WouldBlock))
    && (s.pending == [] && AllAnswered(fs, Transferred) ==>
          t.pending == [] && l'.sent == l.sent + NonEmpty(ps) && l'.dropped == l.dropped)
    && (s.pending == [] && AllAnswered(fs, Undeliverable) ==>
          t.pending == [] && l'.dropped == l.dropped + ps && l'.sent == l.sent)
  }

  lemma HandleTells(s: State, e: Event)
    requires s.remote && Handle(s, e).ok
    ensures var t := Receive(Handle(s, e).state); var l, l' := s.ledger, t.ledger;
            && t.remote && l'.offered == l.offered && l'.taken == l.taken && l'.deferred == l.deferred
            && (s.pending == [] ==> t.pending == [] && l'.sent == l.sent && l'.dropped == l.dropped)
  {
    LearnsIff(s, React(e));
    DepartsIff(s, e);
  }

  lemma FaredIteration(s: State, e: Event, fs: seq<Forward>, t: State)
    requires s.remote && Handle(s, e).ok && Forwarded(Receive(Handle(s, e).state), fs, t)
    ensures Fared(s, fs, t)
  {
    hide Handle;
    hide Receive;
    hide NonEmpty;
    hide Taken;
    hide Answered;
    hide Payloads;
    hide Queue;
    hide AllAnswered;
    HandleTells(s, e);
    var before, waits := Receive(Handle(s, e).state), Answered(fs, WouldBlock);
    if NoneEmpty(Payloads(fs)) {
      AnsweredNoneEmpty(fs, WouldBlock);
      QueueAll(before.pending, waits);
      assert (before.pending + waits)[|before.pending|..] == waits;
    }
    if AllAnswered(fs, Transferred) {
      AnsweredAll(fs, Transferred, Transferred);
      AnsweredAll(fs, Transferred, Undeliverable);
      AnsweredAll(fs, Transferred, WouldBlock);
      QueueAll([], []);
    }
    if AllAnswered(fs, Undeliverable) {
      AnsweredAll(fs, Undeliverable, Transferred);
      AnsweredAll(fs, Undeliverable, Undeliverable);
      AnsweredAll(fs, Undeliverable, WouldBlock);
      QueueAll([], []);
      NonEmptyAll([]);
    }
  }

  lemma {:induction false} AnsweredNoneEmpty(fs: seq<Forward>, answer: SendResult)
    requires NoneEmpty(Payloads(fs))
    ensures NoneEmpty(Answered(fs, answer))
  {
    if fs != [] {
      var k := |fs| - 1;
      assert Payloads(fs)[k] == fs[k].payload && Payloads(fs[..k]) == Payloads(fs)[..k];
      AnsweredNoneEmpty(fs[..k], answer);
    }
  }

  lemma {:induction false} Joined(fs: seq<Forward>, gs: seq<Forward>, answer: SendResult)
    ensures Payloads(fs + gs) == Payloads(fs) + Payloads(gs)
    ensures Taken(fs + gs) == Taken(fs) + Taken(gs)
    ensures Answered(fs + gs, answer) == Answered(fs, answer) + Answered(gs, answer)
  {
    hide Payloads;
    hide Taken;
    hide Answered;
    if gs == [] {
      assert fs + gs == fs;
      NoForwards(answer);
    } else {
      var k := |gs| - 1;
      Joined(fs, gs[..k], answer);
      OneMore(gs[..k], gs[k], answer);
      OneMore(fs + gs[..k], gs[k], answer);
      assert gs[..k] + [gs[k]] == gs && fs + gs[..k] + [gs[k]] == fs + gs;
    }
  }

  lemma NoForwards(answer: SendResult)
    ensures Payloads([]) == [] && Taken([]) == [] && Answered([], answer) == []
  {
  }

  lemma {:induction false} NonEmptyJoined(x: seq<Datagram>, y: seq<Datagram>)
    ensures NonEmpty(x + y) == NonEmpty(x) + NonEmpty(y)
  {
    hide NonEmpty;
    if y == [] {
      assert x + y == x;
      NonEmptyAll([]);
    } else {
      var k := |y| - 1;
      NonEmptyJoined(x, y[..k]);
      OneMoreQueued([], y[..k], y[k]);
      OneMoreQueued([], x + y[..k], y[k]);
      assert y[..k] + [y[k]] == y && x + y[..k] + [y[k]] == x + y;
    }
  }

  lemma AlikeParts(fs: seq<Forward>, gs: seq<Forward>, answer: SendResult)
    requires AllAnswered(fs + gs, answer)
    ensures AllAnswered(fs, answer) && AllAnswered(gs, answer)
  {
    var all := fs + gs;
    assert forall i :: 0 <= i < |fs| ==> all[i] == fs[i];
    assert forall i :: 0 <= i < |gs| ==> gs[i] == all[|fs| + i];
  }

  lemma NoneEmptyParts(x: seq<Datagram>, y: seq<Datagram>)
    requires NoneEmpty(x + y)
    ensures NoneEmpty(x) && NoneEmpty(y)
  {
    var all := x + y;
    assert forall i :: 0 <= i < |x| ==> all[i] == x[i];
    assert forall i :: 0 <= i < |y| ==> y[i] == all[|x| + i];
  }

  lemma FaredJoin(s: State, fs: seq<Forward>, mid: State, gs: seq<Forward>, t: State)
    requires Fared(s, fs, mid) && Fared(mid, gs, t)
    ensures Fared(s, fs + gs, t)
  {
    hide Payloads;
    hide Taken;
    hide Answered;
    hide NonEmpty;
    hide NoneEmpty;
    hide AllAnswered;
    Joined(fs, gs, WouldBlock);
    NonEmptyJoined(Payloads(fs), Payloads(gs));
    if AllAnswered(fs + gs, Transferred) {
      AlikeParts(fs, gs, Transferred);
    }
    if AllAnswered(fs + gs, Undeliverable) {
      AlikeParts(fs, gs, Undeliverable);
    }
    if NoneEmpty(Payloads(fs + gs)) {
      NoneEmptyParts(Payloads(fs), Payloads(gs));
    }
  }

  lemma FaredNothing(s: State)
    requires s.remote
    ensures Fared(s, [], s)
  {
    NoForwards(WouldBlock);
  }

  /** Over every run of the main loop whose outward relay has a remote address. */
  lemma {:induction false} ServeForwards(n: nat, h: History, envs: seq<Env>)
    requires h.states != [] && h.counter < WRAP && h.states[0].remote
    ensures var t := Serve(n, h, envs).states; t != [] && Fared(h.states[0], RunForwards(n, h, envs), t[0])
    decreases |envs|
  {
    hide Iterate;
    hide Fared;
    hide Forwarded;
    hide Forwards;
    hide Handle;
    hide Receive;
    if envs == [] || !Iterate(n, h.states, h.accepted, h.counter, envs[0]).Went? {
      FaredNothing(h.states[0]);
    } else {
      var done := Iterate(n, h.states, h.accepted, h.counter, envs[0]);
      var fs := Forwards(n, h.accepted, done.relayed, envs[0].forward);
      OutwardIteration(n, h.states, h.accepted, h.counter, envs[0]);
      StaysRemote(h.states[0], envs[0].outward);
      FaredIteration(h.states[0], envs[0].outward, fs, done.states[0]);
      FaredRemote(h.states[0], fs, done.states[0]);
      ServeForwards(n, Advance(h, done), envs[1..]);
      FaredJoin(h.states[0], fs, done.states[0], RunForwards(n, Advance(h, done), envs[1..]),
                Serve(n, Advance(h, done), envs[1..]).states[0]);
    }
  }

  lemma StaysRemote(s: State, e: Event)
    requires s.remote
    ensures Receive(Handle(s, e).state).remote
  {
    LearnsIff(s, React(e));
  }

  lemma FaredRemote(s: State, fs: seq<Forward>, t: State)
    requires Fared(s, fs, t)
    ensures t.remote
  {
  }

  /** Over every run of a sound node: the payloads that met a socket that would block leave or wait in order. */
  lemma ServeQueues(n: nat, h: History, envs: seq<Env>)
    requires Sound(n, h) && h.states[0].remote && NoneEmpty(Payloads(RunForwards(n, h, envs)))
    ensures var s, t, fs := h.states[0], Serve(n, h, envs).states[0], RunForwards(n, h, envs);
            t.ledger.departed + t.pending == s.ledger.departed + s.pending + Answered(fs, WouldBlock)
  {
    hide RunForwards;
    hide Serve;
    hide Answered;
    ServeForwards(n, h, envs);
    ServeSound(n, h, envs);
  }

  /** sendto answers every forward of these iterations with one of these. */
  ghost predicate AnswersWithin(envs: seq<Env>, answers: set<SendResult>) {
    forall k, i: nat :: 0 <= k < |envs| ==> envs[k].forward(i) in answers
  }

  ghost predicate AllWithin(fs: seq<Forward>, answers: set<SendResult>) {
    forall i :: 0 <= i < |fs| ==> fs[i].answer in answers
  }

  lemma {:induction false} ForwardsWithin(n: nat, accepted: seq<int>, ds: seq<Datagram>, results: nat -> SendResult,
                                          answers: set<SendResult>)
    requires forall i: nat :: results(i) in answers
    ensures AllWithin(Forwards(n, accepted, ds, results), answers)
  {
    hide Last;
    hide Decode;
    if ds != [] {
      ForwardsWithin(n, accepted, ds[..|ds| - 1], results, answers);
    }
  }

  lemma {:induction false} RunWithin(n: nat, h: History, envs: seq<Env>, answers: set<SendResult>)
    requires h.states != [] && h.counter < WRAP && AnswersWithin(envs, answers)
    ensures AllWithin(RunForwards(n, h, envs), answers)
    decreases |envs|
  {
    hide Iterate;
    hide Forwards;
    if envs != [] {
      var done := Iterate(n, h.states, h.accepted, h.counter, envs[0]);
      if done.Went? {
        ForwardsWithin(n, h.accepted, done.relayed, envs[0].forward, answers);
        assert AnswersWithin(envs[1..], answers);
        RunWithin(n, Advance(h, done), envs[1..], answers);
      }
    }
  }

  lemma {:induction false} TakenAll(fs: seq<Forward>)
    requires NoneEmpty(Payloads(fs)) && AllWithin(fs, {Transferred, WouldBlock, Undeliverable})
    ensures Taken(fs) == Payloads(fs)
  {
    if fs != [] {
      var k := |fs| - 1;
      assert Payloads(fs)[k] == fs[k].payload && Payloads(fs[..k]) == Payloads(fs)[..k];
      TakenAll(fs[..k]);
      OneMore(fs[..k], fs[k], Transferred);
      assert fs[..k] + [fs[k]] == fs;
    }
  }

  /**
    * From the start, with a remote address and no empty payloads: relay_enqueue takes every payload unless the socket
    * fails for good, and a socket that takes what it is given sends them all, in order, and leaves none waiting.
    */
  lemma ServeDelivers(n: nat, remotes: seq<bool>, envs: seq<Env>)
    requires NoneEmpty(Serve(n, Begin(true, remotes), envs).states[0].ledger.offered)
    ensures var s := Serve(n, Begin(true, remotes), envs).states[0]; var l := s.ledger;
            && (AnswersWithin(envs, {Transferred}) ==> l.sent == l.offered && s.pending == [] && l.dropped == [])
            && (AnswersWithin(envs, {WouldBlock}) ==> l.departed + s.pending == l.offered)
            && (AnswersWithin(envs, {Undeliverable}) ==> l.dropped == l.offered && s.pending == [] && l.sent == [])
            && (AnswersWithin(envs, {Transferred, WouldBlock, Undeliverable}) ==> l.taken == l.offered)
  {
    hide Serve;
    hide RunForwards;
    hide NoneEmpty;
    hide Fared;
    hide Sound;
    hide AnswersWithin;
    hide AllWithin;
    var h := Begin(true, remotes);
    var fs, s := RunForwards(n, h, envs), Serve(n, h, envs).states[0];
    BeginStates(true, remotes);
    BeginSound(n, true, remotes);
    ServeForwards(n, h, envs);
    if AnswersWithin(envs, {Transferred}) {
      RunWithin(n, h, envs, {Transferred});
    }
    if AnswersWithin(envs, {Undeliverable}) {
      RunWithin(n, h, envs, {Undeliverable});
    }
    if AnswersWithin(envs, {Transferred, WouldBlock, Undeliverable}) {
      RunWithin(n, h, envs, {Transferred, WouldBlock, Undeliverable});
    }
    if AnswersWithin(envs, {WouldBlock}) {
      RunWithin(n, h, envs, {WouldBlock});
    }
    ServeSound(n, h, envs);
    SoundConserves(n, Serve(n, h, envs));
    FaredDelivers(h.states[0], fs, s);
  }

  lemma SoundConserves(n: nat, h: History)
    requires Sound(n, h)
    ensures Conserved(h.states[0])
  {
  }

  /** What that comes to for a relay that begins with nothing on record. */
  lemma FaredDelivers(s: State, fs: seq<Forward>, t: State)
    requires Fared(s, fs, t) && s.pending == [] && s.ledger == Ledger([], [], [], [], [], [], []) && Conserved(t)
    requires NoneEmpty(t.ledger.offered)
    ensures AllWithin(fs, {Transferred}) ==> t.ledger.sent == t.ledger.offered && t.pending == [] && t.ledger.dropped == []
    ensures AllWithin(fs, {WouldBlock}) ==> t.ledger.departed + t.pending == t.ledger.offered
    ensures AllWithin(fs, {Undeliverable}) ==> t.ledger.dropped == t.ledger.offered && t.pending == [] && t.ledger.sent == []
    ensures AllWithin(fs, {Transferred, WouldBlock, Undeliverable}) ==> t.ledger.taken == t.ledger.offered
  {
    hide Taken;
    hide Answered;
    hide NoneEmpty;
    hide Payloads;
    hide NonEmpty;
    hide Accounted;
    assert t.ledger.offered == Payloads(fs);
    NonEmptyAll(Payloads(fs));
    if AllWithin(fs, {WouldBlock}) {
      AnsweredAll(fs, WouldBlock, WouldBlock);
    }
    if AllWithin(fs, {Transferred, WouldBlock, Undeliverable}) {
      TakenAll(fs);
    }
  }

  // ---------------------------------------------------------------------------------------------
  // Where to send

  /** The outward relay knows where to send exactly if its entry says so, or once a datagram it read was broadcast. */
  lemma {:induction false} OutwardLearnsIff(n: nat, h: History, envs: seq<Env>)
    requires Sound(n, h)
    ensures var t := Serve(n, h, envs);
            && t.states != [] && t.states[0].dynamicOut == h.states[0].dynamicOut && |h.inbound| <= |t.inbound|
            && (t.states[0].remote <==> h.states[0].remote || (h.states[0].dynamicOut && |t.inbound| > |h.inbound|))
    decreases |envs|
  {
    hide Iterate;
    hide Handle;
    hide Broadcasted;
    hide Records;
    if envs != [] {
      var done := Iterate(n, h.states, h.accepted, h.counter, envs[0]);
      if done.Went? {
        IterateSound(n, h, envs[0]);
        IterationLearns(n, h.states, h.accepted, h.counter, envs[0]);
        OutwardLearnsIff(n, Advance(h, done), envs[1..]);
      }
    }
  }

  lemma IterationLearns(n: nat, states: seq<State>, accepted: seq<int>, counter: nat, env: Env)
    requires states != [] && counter < WRAP && Quiet(states) && Iterate(n, states, accepted, counter, env).Went?
    ensures var done := Iterate(n, states, accepted, counter, env);
            && done.states != [] && done.states[0].dynamicOut == states[0].dynamicOut
            && (done.states[0].remote <==> states[0].remote || (states[0].dynamicOut && done.inbound != []))
  {
    hide Iterate;
    hide Handle;
    hide Forwards;
    hide Seen;
    OutwardIteration(n, states, accepted, counter, env);
    DispatchedIsRead(n, states, accepted, counter, env);
    LearnsIff(states[0], React(env.outward));
  }

  /** From the start: exactly if its entry gives a remote address, or something was broadcast. */
  lemma AddressFromStart(n: nat, hasRemote: bool, remotes: seq<bool>, envs: seq<Env>)
    ensures var t := Serve(n, Begin(hasRemote, remotes), envs);
            t.states != [] && (t.states[0].remote <==> hasRemote || t.inbound != [])
  {
    hide Serve;
    BeginSound(n, hasRemote, remotes);
    BeginStates(hasRemote, remotes);
    OutwardLearnsIff(n, Begin(hasRemote, remotes), envs);
  }
}
