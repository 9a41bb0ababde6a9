/** Which relay is where in the ring over a whole run, and which one leads each broadcast. */
module RoundRobin {
  import opened CList
  import opened NodeRuns
  import opened NodeSpec
  import opened RelaySpec
  import opened Window

  // ---------------------------------------------------------------------------------------------
  // Identities, carried along

  lemma StayFits<T>(s: seq<T>, states: seq<State>, counter: nat, env: Env)
    requires |states| == |s| + 1 && counter < WRAP && HandleAll(states, env).ok
    ensures |Inbound(HandleAll(states, env).states, counter, env.broadcast).states| == |Stay(s, states, counter, env)| + 1
  {
    hide HandleAll;
    hide Inbound;
    hide Stay;
    hide Places;
    hide Becomes;
    Fates(states, counter, env);
    StayIsPlaced(s, states, counter, env);
  }

  /** Those of s, listed like the ring's relays, whose relays are in the ring after an iteration, in its new order. */
  function Left<T>(s: seq<T>, n: nat, states: seq<State>, accepted: seq<int>, counter: nat, env: Env): seq<T>
    requires |states| == |s| + 1 && counter < WRAP && Iterate(n, states, accepted, counter, env).Went?
  {
    StayFits(s, states, counter, env);
    var b := Inbound(HandleAll(states, env).states, counter, env.broadcast).states;
    Kept(Stay(s, states, counter, env), Verdicts(n, Sink(b[0], accepted), b[1..], env.forward))
  }

  lemma LeftLength<T>(s: seq<T>, n: nat, states: seq<State>, accepted: seq<int>, counter: nat, env: Env)
    requires |states| == |s| + 1 && counter < WRAP && Iterate(n, states, accepted, counter, env).Went?
    ensures |Iterate(n, states, accepted, counter, env).states| == |Left(s, n, states, accepted, counter, env)| + 1
  {
    hide HandleAll;
    hide Inbound;
    hide Stay;
    hide Verdicts;
    hide SinkAt;
    hide Kept;
    hide Picks;
    hide Settled;
    StayFits(s, states, counter, env);
    var b := Inbound(HandleAll(states, env).states, counter, env.broadcast).states;
    var os := Verdicts(n, Sink(b[0], accepted), b[1..], env.forward);
    var sink := SinkAt(n, Sink(b[0], accepted), b[1..], env.forward, |b| - 1);
    KeptArePicked(Stay(s, states, counter, env), os);
    KeptArePicked(Settled(sink.out, b, os)[1..], os);
  }

  /** An iteration by its three parts. */
  lemma IterationParts<T>(s: seq<T>, n: nat, states: seq<State>, accepted: seq<int>, counter: nat, env: Env)
    requires |states| == |s| + 1 && counter < WRAP
    ensures var h, done := HandleAll(states, env), Iterate(n, states, accepted, counter, env);
            var b := Inbound(h.states, counter, env.broadcast);
            && (done.Stopped? <==> !h.ok) && (done.Crashed? <==> h.ok && !b.ok)
            && (done.Went? ==>
                  var rs, k := b.states[1..], |b.states| - 1;
                  var os, sink := Verdicts(n, Sink(b.states[0], accepted), rs, env.forward),
                                  SinkAt(n, Sink(b.states[0], accepted), rs, env.forward, k);
                  && |Stay(s, states, counter, env)| == k == |os|
                  && Left(s, n, states, accepted, counter, env) == Kept(Stay(s, states, counter, env), os)
                  && done.states == KeepRest(Settled(sink.out, b.states, os), os)
                  && done.accepted == sink.accepted && done.counter == b.counter)
  {
    hide HandleAll;
    hide Inbound;
    hide Stay;
    hide Verdicts;
    hide SinkAt;
    hide Settled;
    hide KeepRest;
    hide Kept;
    if Iterate(n, states, accepted, counter, env).Went? {
      StayFits(s, states, counter, env);
    }
  }

  /** Where they are after a run of the main loop. */
  function Present<T>(s: seq<T>, n: nat, h: History, envs: seq<Env>): seq<T>
    requires |h.states| == |s| + 1 && h.counter < WRAP
    decreases |envs|
  {
    if envs == [] then s
    else
      var done := Iterate(n, h.states, h.accepted, h.counter, envs[0]);
      if !done.Went? then s
      else
        LeftLength(s, n, h.states, h.accepted, h.counter, envs[0]);
        Present(Left(s, n, h.states, h.accepted, h.counter, envs[0]), n, Advance(h, done), envs[1..])
  }

  /** The first iteration of a run, and the rest. */
  lemma RunUnfolds<T>(s: seq<T>, n: nat, h: History, envs: seq<Env>)
    requires |h.states| == |s| + 1 && h.counter < WRAP
    ensures envs == [] ==> Serve(n, h, envs) == h && Present(s, n, h, envs) == s && Runs(n, h, envs)
    ensures envs != [] ==>
              var done := Iterate(n, h.states, h.accepted, h.counter, envs[0]);
              if !done.Went? then Serve(n, h, envs) == h && !Runs(n, h, envs)
              else
                var t := Left(s, n, h.states, h.accepted, h.counter, envs[0]);
                && |done.states| == |t| + 1 && Serve(n, h, envs) == Serve(n, Advance(h, done), envs[1..])
                && Runs(n, h, envs) == Runs(n, Advance(h, done), envs[1..])
                && Present(s, n, h, envs) == Present(t, n, Advance(h, done), envs[1..])
  {
    hide Iterate;
    hide Left;
    if envs != [] && Iterate(n, h.states, h.accepted, h.counter, envs[0]).Went? {
      LeftLength(s, n, h.states, h.accepted, h.counter, envs[0]);
    }
  }

  /** The relay that heads the ring when an iteration broadcasts, if it does. */
  function Leader<T>(s: seq<T>, states: seq<State>, env: Env): seq<T>
    requires |states| == |s| + 1
  {
    var ring := Kept(s, Outcomes(states[1..], Reactions(env)));
    if HandleAll(states, env).states[0].unread == [] || ring == [] then [] else [ring[0]]
  }

  /** The leaders of a run's broadcasts, in order. */
  function Leaders<T>(s: seq<T>, n: nat, h: History, envs: seq<Env>): seq<T>
    requires |h.states| == |s| + 1 && h.counter < WRAP
    decreases |envs|
  {
    if envs == [] then []
    else
      var done := Iterate(n, h.states, h.accepted, h.counter, envs[0]);
      if !done.Went? then []
      else
        LeftLength(s, n, h.states, h.accepted, h.counter, envs[0]);
        Leader(s, h.states, envs[0])
        + Leaders(Left(s, n, h.states, h.accepted, h.counter, envs[0]), n, Advance(h, done), envs[1..])
  }

  // ---------------------------------------------------------------------------------------------
  // While no relay is dropped

  /** An iteration that drops no relay leaves the ring as it was, or rotated by one if it broadcast. */
  lemma WholeIteration<T>(s: seq<T>, n: nat, states: seq<State>, accepted: seq<int>, counter: nat, env: Env)
    requires |states| == |s| + 1 && counter < WRAP
    requires var done := Iterate(n, states, accepted, counter, env); done.Went?
    ensures var done := Iterate(n, states, accepted, counter, env);
            && |done.states| <= |states| && (done.inbound != [] ==> s != [])
            && (|done.states| == |states| ==>
                  && Left(s, n, states, accepted, counter, env) == (if done.inbound == [] then s else Rotate(s))
                  && Leader(s, states, env) == (if done.inbound == [] then [] else [s[0]]))
  {
    hide HandleAll;
    hide Verdicts;
    hide SinkAt;
    hide Kept;
    hide Outcomes;
    hide Settled;
    hide KeepRest;
    hide Packet;
    LeftLength(s, n, states, accepted, counter, env);
    StayFits(s, states, counter, env);
    StayLength(s, states, env);
    var h := HandleAll(states, env).states;
    var b := Inbound(h, counter, env.broadcast).states;
    KeptWhole(s, Outcomes(states[1..], Reactions(env)));
    KeptWhole(Stay(s, states, counter, env), Verdicts(n, Sink(b[0], accepted), b[1..], env.forward));
    if h[0].unread != [] {
      KeptWhole(Kept(s, Outcomes(states[1..], Reactions(env))),
                Outcomes(h[1..], Offers(Packet(counter, h[0].unread), env.broadcast)));
    }
  }

  lemma {:induction false} ServeShrinks(n: nat, h: History, envs: seq<Env>)
    requires h.states != [] && h.counter < WRAP
    ensures |Serve(n, h, envs).states| <= |h.states|
    decreases |envs|
  {
    hide Iterate;
    if envs != [] {
      var done := Iterate(n, h.states, h.accepted, h.counter, envs[0]);
      if done.Went? {
        WholeIteration(Count(|h.states| - 1), n, h.states, h.accepted, h.counter, envs[0]);
        ServeShrinks(n, Advance(h, done), envs[1..]);
      }
    }
  }

  /** How many datagrams a run broadcasts. */
  function Broadcasts(n: nat, h: History, envs: seq<Env>): nat
    requires h.states != [] && h.counter < WRAP
    decreases |envs|
  {
    if envs == [] then 0
    else
      var done := Iterate(n, h.states, h.accepted, h.counter, envs[0]);
      if done.Went? then (if done.inbound == [] then 0 else 1) + Broadcasts(n, Advance(h, done), envs[1..]) else 0
  }

  lemma {:induction false} BroadcastsAreLogged(n: nat, h: History, envs: seq<Env>)
    requires h.states != [] && h.counter < WRAP
    ensures |Serve(n, h, envs).inbound| == |h.inbound| + Broadcasts(n, h, envs)
    decreases |envs|
  {
    hide Iterate;
    if envs != [] {
      var done := Iterate(n, h.states, h.accepted, h.counter, envs[0]);
      if done.Went? {
        BroadcastsAreLogged(n, Advance(h, done), envs[1..]);
      }
    }
  }

  /** The position k places on among n. */
  function Ahead(i: nat, k: nat, n: nat): (r: nat)
    requires n > 0
    ensures r < n
  {
    (i + k) % n
  }

  lemma MulAtLeast(k: int, n: int)
    requires k >= 1 && n > 0
    ensures k * n >= n
  {
  }

  lemma AddModulus(x: nat, n: nat)
    requires n > 0
    ensures (x + n) % n == x % n
  {
    var d, m, q, r := (x + n) / n, (x + n) % n, x / n, x % n;
    assert (d - q - 1) * n == r - m && (q + 1 - d) * n == m - r;
    if d - q - 1 >= 1 {
      MulAtLeast(d - q - 1, n);
    } else if q + 1 - d >= 1 {
      MulAtLeast(q + 1 - d, n);
    }
  }

  /** The next place after the one k places on. */
  lemma {:induction false} NextAhead(i: nat, k: nat, n: nat)
    requires n > 0
    ensures Ahead(i, k + 1, n) == if Ahead(i, k, n) + 1 < n then Ahead(i, k, n) + 1 else 0
    decreases i + k
  {
    if i + k >= n {
      AddModulus(i + k - n, n);
      AddModulus(i + k + 1 - n, n);
      NextAhead(0, i + k - n, n);
    }
  }

  lemma NoPlaceOn(i: nat, n: nat)
    requires i < n
    ensures Ahead(i, 0, n) == i
  {
  }

  lemma RotateAhead<T>(s: seq<T>, i: nat, k: nat)
    requires s != []
    ensures |Rotate(s)| == |s| && Rotate(s)[Ahead(i, k, |s|)] == s[Ahead(i, k + 1, |s|)]
  {
    hide Ahead;
    NextAhead(i, k, |s|);
  }

  /**
    * Over every run that drops no relay, the j-th broadcast is led by the relay that stood j places on when the run
    * began, and k broadcasts leave every relay k places on.
    */
  lemma {:induction false} RoundRobin<T>(s: seq<T>, n: nat, h: History, envs: seq<Env>)
    requires |h.states| == |s| + 1 && h.counter < WRAP && |Serve(n, h, envs).states| == |h.states|
    ensures var k, lead, present := Broadcasts(n, h, envs), Leaders(s, n, h, envs), Present(s, n, h, envs);
            && |lead| == k && |present| == |s| && (k > 0 ==> s != [])
            && (forall j :: 0 <= j < k ==> lead[j] == s[Ahead(0, j, |s|)])
            && (forall i :: 0 <= i < |s| ==> present[i] == s[Ahead(i, k, |s|)])
    decreases |envs|
  {
    hide Iterate;
    hide Rotate;
    hide Ahead;
    hide Left;
    hide Leader;
    var k, lead, present := Broadcasts(n, h, envs), Leaders(s, n, h, envs), Present(s, n, h, envs);
    forall i | 0 <= i < |s|
      ensures Ahead(i, 0, |s|) == i
    {
      NoPlaceOn(i, |s|);
    }
    if envs != [] && Iterate(n, h.states, h.accepted, h.counter, envs[0]).Went? {
      var done := Iterate(n, h.states, h.accepted, h.counter, envs[0]);
      var t := Left(s, n, h.states, h.accepted, h.counter, envs[0]);
      var after, k' := Advance(h, done), Broadcasts(n, Advance(h, done), envs[1..]);
      WholeIteration(s, n, h.states, h.accepted, h.counter, envs[0]);
      LeftLength(s, n, h.states, h.accepted, h.counter, envs[0]);
      ServeShrinks(n, after, envs[1..]);
      RoundRobin(t, n, after, envs[1..]);
      if done.inbound != [] {
        forall j | 1 <= j < k
          ensures lead[j] == s[Ahead(0, j, |s|)]
        {
          RotateAhead(s, 0, j - 1);
        }
        forall i | 0 <= i < |s|
          ensures present[i] == s[Ahead(i, k, |s|)]
        {
          RotateAhead(s, i, k');
        }
      }
    }
  }

  /** Among n consecutive numbers exactly one leads to place i. */
  lemma OneInWindow(i: nat, k: nat, n: nat) returns (j: nat)
    requires i < n
    ensures k <= j < k + n && Ahead(0, j, n) == i
    ensures forall j' :: k <= j' < k + n && Ahead(0, j', n) == i ==> j' == j
  {
    var r := k % n;
    j := if i >= r then k + i - r else k + n + i - r;
    ShiftWithin(k, j - k, n);
    forall j' | k <= j' < k + n && Ahead(0, j', n) == i
      ensures j' == j
    {
      ShiftWithin(k, j' - k, n);
    }
  }

  lemma ShiftWithin(k: nat, d: nat, n: nat)
    requires d < n
    ensures (k + d) % n == if k % n + d < n then k % n + d else k % n + d - n
  {
    var q, r := k / n, k % n;
    assert k == q * n + r;
    if r + d < n {
      Remainder(q, r + d, n);
    } else {
      assert k + d == (q + 1) * n + (r + d - n);
      Remainder(q + 1, r + d - n, n);
    }
  }

  lemma {:induction false} Remainder(q: nat, r: nat, n: nat)
    requires r < n
    ensures (q * n + r) % n == r
  {
    if q > 0 {
      assert q * n + r == (q - 1) * n + r + n;
      AddModulus((q - 1) * n + r, n);
      Remainder(q - 1, r, n);
    }
  }

  /** A list that goes round a sequence without repetitions holds each member once in any stretch of its length. */
  lemma OnceAround<T>(s: seq<T>, lead: seq<T>, k: nat, i: nat) returns (j: nat)
    requires NoDuplicates(s) && i < |s| && k + |s| <= |lead|
    requires forall j :: 0 <= j < |lead| ==> lead[j] == s[Ahead(0, j, |s|)]
    ensures k <= j < k + |s| && lead[j] == s[i]
    ensures forall j' :: k <= j' < k + |s| && lead[j'] == s[i] ==> j' == j
  {
    hide Ahead;
    hide NoDuplicates;
    j := OneInWindow(i, k, |s|);
    forall j' | k <= j' < k + |s| && lead[j'] == s[i]
      ensures j' == j
    {
      SamePlace(s, Ahead(0, j', |s|), i);
    }
  }

  lemma SamePlace<T>(s: seq<T>, i: nat, j: nat)
    requires NoDuplicates(s) && i < |s| && j < |s| && s[i] == s[j]
    ensures i == j
  {
  }

  /** In any n consecutive broadcasts over n relays, none of which is dropped, each relay leads exactly one. */
  lemma EachLeadsOnce<T>(s: seq<T>, n: nat, h: History, envs: seq<Env>, k: nat, i: nat) returns (j: nat)
    requires |h.states| == |s| + 1 && h.counter < WRAP && |Serve(n, h, envs).states| == |h.states|
    requires NoDuplicates(s) && i < |s| && k + |s| <= |Leaders(s, n, h, envs)|
    ensures k <= j < k + |s| && Leaders(s, n, h, envs)[j] == s[i]
    ensures forall j' :: k <= j' < k + |s| && Leaders(s, n, h, envs)[j'] == s[i] ==> j' == j
  {
    hide Leaders;
    hide Present;
    hide Serve;
    hide Broadcasts;
    hide Ahead;
    hide NoDuplicates;
    RoundRobin(s, n, h, envs);
    j := OnceAround(s, Leaders(s, n, h, envs), k, i);
  }
}
