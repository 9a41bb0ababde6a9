/** When the main loop stops, and which relays lose their place in the ring, loop by loop. */
module Survival {
  import opened CList
  import opened NodeRuns
  import opened NodeSpec
  import opened RelaySpec
  import opened RoundRobin
  import opened Window

  // ---------------------------------------------------------------------------------------------
  // The outward relay

  /** The main loop stops exactly when the outward relay's event is one on which a relay fails. */
  lemma StopsIff(n: nat, states: seq<State>, accepted: seq<int>, counter: nat, env: Env)
    requires states != [] && counter < WRAP
    ensures Iterate(n, states, accepted, counter, env).Stopped? <==> Breaks(states[0], env.outward)
  {
    hide Handle;
    hide Swept;
    hide Inbound;
    hide Finish;
    hide Breaks;
    FailsIff(states[0], React(env.outward));
  }

  /**
    * It runs into the NULL dereference exactly when it does not stop, the outward relay reads a datagram, and every relay
    * that the handling loop leaves has a remote address and a socket that fails for good on the broadcast.
    */
  lemma CrashesIff(n: nat, states: seq<State>, accepted: seq<int>, counter: nat, env: Env)
    requires states != [] && counter < WRAP && Quiet(states)
    ensures var handled := HandleAll(states, env).states;
            Iterate(n, states, accepted, counter, env).Crashed? <==>
            && !Breaks(states[0], env.outward) && Got(env.outward) != []
            && forall i :: 0 < i < |handled| ==> handled[i].remote && env.broadcast(i - 1) == SendBroken
  {
    hide Handle;
    hide HandleAll;
    hide Inbound;
    hide Finish;
    hide Breaks;
    hide Got;
    StopsIff(n, states, accepted, counter, env);
    if !Iterate(n, states, accepted, counter, env).Stopped? {
      HandledFirst(states, env);
      ReadsOnce(states[0], env.outward);
      var handled := HandleAll(states, env).states;
      CrashIff(handled, counter, env.broadcast);
      assert handled[0].unread == Got(env.outward);
      assert Iterate(n, states, accepted, counter, env).Crashed? <==> !Inbound(handled, counter, env.broadcast).ok;
    }
  }

  // ---------------------------------------------------------------------------------------------
  // The relays of the ring, by identity

  lemma {:induction false} KeptMembers<T>(s: seq<T>, os: seq<Outcome>, x: T)
    requires |s| <= |os|
    ensures x in Kept(s, os) <==> exists i :: 0 <= i < |s| && s[i] == x && os[i].ok
  {
    if s != [] {
      var n := |s| - 1;
      KeptMembers(s[..n], os, x);
      KeptNext(s, os, n);
      assert s[..n + 1] == s;
      assert forall i :: 0 <= i < n ==> s[..n][i] == s[i];
    }
  }

  /** One of several distinct identities is kept exactly if its own outcome was not a failure. */
  lemma KeptIff<T>(s: seq<T>, os: seq<Outcome>, i: nat)
    requires i < |s| <= |os| && NoDuplicates(s)
    ensures s[i] in Kept(s, os) <==> os[i].ok
  {
    hide Kept;
    KeptMembers(s, os, s[i]);
  }

  /** The handling loop drops a relay exactly if its own event is one on which it fails. */
  lemma HandlingKeepsIff<T>(s: seq<T>, states: seq<State>, env: Env)
    requires |states| == |s| + 1 && NoDuplicates(s)
    ensures forall i :: 0 <= i < |s| ==>
              (s[i] in Kept(s, Outcomes(states[1..], Reactions(env))) <==> !Breaks(states[i + 1], env.relays(i)))
  {
    hide Kept;
    hide Breaks;
    hide NoDuplicates;
    hide Next;
    forall i | 0 <= i < |s|
      ensures s[i] in Kept(s, Outcomes(states[1..], Reactions(env))) <==> !Breaks(states[i + 1], env.relays(i))
    {
      KeptIff(s, Outcomes(states[1..], Reactions(env)), i);
      FailsIff(states[i + 1], React(env.relays(i)));
    }
  }

  /** A broadcast drops a relay exactly if it has a remote address and its own socket fails for good. */
  lemma BroadcastKeepsIff<T>(s: seq<T>, states: seq<State>, pkt: Datagram, sends: nat -> SendResult)
    requires |states| == |s| + 1 && NoDuplicates(s) && pkt != []
    ensures forall i :: 0 <= i < |s| ==>
              (s[i] in Kept(s, Outcomes(states[1..], Offers(pkt, sends))) <==>
               !(states[i + 1].remote && sends(i) == SendBroken))
  {
    hide Kept;
    hide NoDuplicates;
    hide Next;
    forall i | 0 <= i < |s|
      ensures s[i] in Kept(s, Outcomes(states[1..], Offers(pkt, sends))) <==> !(states[i + 1].remote && sends(i) == SendBroken)
    {
      KeptIff(s, Outcomes(states[1..], Offers(pkt, sends)), i);
      FailsIff(states[i + 1], Offer(pkt, sends(i)));
    }
  }

  /** `left` is without exactly those of s whose own socket fails for good on a broadcast. */
  ghost predicate BroadcastSpares<T>(s: seq<T>, left: seq<T>, states: seq<State>, sends: nat -> SendResult)
    requires |states| == |s| + 1
  {
    forall i :: 0 <= i < |s| ==> (s[i] in left <==> !(states[i + 1].remote && sends(i) == SendBroken))
  }

  /** What a broadcast leaves, rotated or not, as the class states it. */
  lemma BroadcastLeaves<T>(s: seq<T>, states: seq<State>, pkt: Datagram, sends: nat -> SendResult)
    requires |states| == |s| + 1 && NoDuplicates(s) && pkt != []
    ensures var left := Kept(s, Outcomes(states[1..], Offers(pkt, sends)));
            BroadcastSpares(s, left, states, sends) && BroadcastSpares(s, Rotate(left), states, sends)
  {
    hide Kept;
    hide NoDuplicates;
    hide Next;
    hide Rotate;
    BroadcastKeepsIff(s, states, pkt, sends);
    KeptDistinct(s, Outcomes(states[1..], Offers(pkt, sends)));
    RotateSame(Kept(s, Outcomes(states[1..], Offers(pkt, sends))));
  }

  /** `left` is without exactly those of s the dispatch of whose own datagram fails. */
  ghost predicate ReceivingSpares<T>(s: seq<T>, left: seq<T>, n: nat, sink: Sink, rs: seq<State>, results: nat -> SendResult)
    requires |rs| == |s|
  {
    forall i :: 0 <= i < |s| ==>
      (s[i] in left <==> !Fails(n, SinkAt(n, sink, rs, results, i), rs[i].unread, results(i)))
  }

  /** The receiving loop drops a relay exactly if the dispatch of its own datagram fails. */
  lemma ReceivingKeepsIff<T>(s: seq<T>, n: nat, sink: Sink, rs: seq<State>, results: nat -> SendResult)
    requires |rs| == |s| && NoDuplicates(s)
    ensures ReceivingSpares(s, Kept(s, Verdicts(n, sink, rs, results)), n, sink, rs, results)
  {
    hide Kept;
    hide NoDuplicates;
    hide Fails;
    hide SinkAt;
    forall i | 0 <= i < |s|
      ensures s[i] in Kept(s, Verdicts(n, sink, rs, results)) <==>
              !Fails(n, SinkAt(n, sink, rs, results, i), rs[i].unread, results(i))
    {
      KeptIff(s, Verdicts(n, sink, rs, results), i);
      LosesPlaceIff(n, sink, rs, results, i);
    }
  }

  lemma KeptDistinct<T>(s: seq<T>, os: seq<Outcome>)
    requires |s| <= |os| && NoDuplicates(s)
    ensures NoDuplicates(Kept(s, os))
  {
    hide Kept;
    hide Picks;
    KeptArePicked(s, os);
  }

  lemma RotateSame<T>(s: seq<T>)
    requires NoDuplicates(s)
    ensures NoDuplicates(Rotate(s)) && forall x :: x in Rotate(s) <==> x in s
  {
    if s != [] {
      var r := Rotate(s);
      assert s == [s[0]] + s[1..];
      assert forall k :: 0 <= k < |s| ==> r[k] == s[if k + 1 < |s| then k + 1 else 0];
    }
  }

  /**
    * An iteration loop by loop, on the identities of the ring's relays as it finds them: who is dropped, and only for
    * what its own socket answers, or in the receiving loop the outward relay's on what it brought.
    */
  lemma KeepsPlaceIff<T>(s: seq<T>, n: nat, states: seq<State>, accepted: seq<int>, counter: nat, env: Env)
    requires |states| == |s| + 1 && counter < WRAP && NoDuplicates(s)
    requires Iterate(n, states, accepted, counter, env).Went?
    ensures var h := HandleAll(states, env).states; var b := Inbound(h, counter, env.broadcast).states;
            var handled, sent, left := Kept(s, Outcomes(states[1..], Reactions(env))), Stay(s, states, counter, env),
                                       Left(s, n, states, accepted, counter, env);
            && |h| == |handled| + 1 && |b| == |sent| + 1
            && (forall i :: 0 <= i < |s| ==> (s[i] in handled <==> !Breaks(states[i + 1], env.relays(i))))
            && (forall i :: 0 <= i < |handled| ==>
                  (handled[i] in sent <==> !(h[0].unread != [] && h[i + 1].remote && env.broadcast(i) == SendBroken)))
            && (forall i :: 0 <= i < |sent| ==>
                  (sent[i] in left <==>
                   !Fails(n, SinkAt(n, Sink(b[0], accepted), b[1..], env.forward, i), b[i + 1].unread, env.forward(i))))
  {
    hide HandleAll;
    hide Inbound;
    hide Kept;
    hide Outcomes;
    hide Verdicts;
    hide SinkAt;
    hide Packet;
    hide Fails;
    hide Breaks;
    hide NoDuplicates;
    hide Rotate;
    hide Stay;
    var h := HandleAll(states, env).states;
    var b := Inbound(h, counter, env.broadcast).states;
    var handled, sent := Kept(s, Outcomes(states[1..], Reactions(env))), Stay(s, states, counter, env);
    StayLength(s, states, env);
    StayFits(s, states, counter, env);
    KeptDistinct(s, Outcomes(states[1..], Reactions(env)));
    HandlingKeepsIff(s, states, env);
    BroadcastKeeps(s, states, counter, env);
    ReceivingKeepsIff(sent, n, Sink(b[0], accepted), b[1..], env.forward);
  }

  lemma BroadcastKeeps<T>(s: seq<T>, states: seq<State>, counter: nat, env: Env)
    requires |states| == |s| + 1 && counter < WRAP && NoDuplicates(s) && HandleAll(states, env).ok
    ensures var h, handled := HandleAll(states, env).states, Kept(s, Outcomes(states[1..], Reactions(env)));
            var sent := Stay(s, states, counter, env);
            && NoDuplicates(sent) && |h| == |handled| + 1
            && forall i :: 0 <= i < |handled| ==>
                 (handled[i] in sent <==> !(h[0].unread != [] && h[i + 1].remote && env.broadcast(i) == SendBroken))
  {
    hide HandleAll;
    hide Kept;
    hide Outcomes;
    hide Packet;
    hide NoDuplicates;
    hide Rotate;
    var h, handled := HandleAll(states, env).states, Kept(s, Outcomes(states[1..], Reactions(env)));
    StayLength(s, states, env);
    KeptDistinct(s, Outcomes(states[1..], Reactions(env)));
    if h[0].unread != [] {
      var pkt := Packet(counter, h[0].unread);
      var os := Outcomes(h[1..], Offers(pkt, env.broadcast));
      HeaderRoundTrip(counter, h[0].unread);
      KeptDistinct(handled, os);
      RotateSame(Kept(handled, os));
      BroadcastKeepsIff(handled, h, pkt, env.broadcast);
    } else {
      assert forall i :: 0 <= i < |handled| ==> handled[i] in handled;
    }
  }
}
