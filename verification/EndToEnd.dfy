/** A sending and a receiving node, and a network in between that loses, duplicates and reorders. */
module EndToEnd {
  import opened ExactlyOnce
  import opened Forwarding
  import opened NodeRuns
  import opened NodeSpec
  import opened RelaySpec
  import opened Window

  /** What was received are packets of what was broadcast: the t-th that of index a[t]. */
  ghost predicate Arrivals(received: seq<Datagram>, inbound: seq<Datagram>, a: seq<nat>) {
    && |received| == |a|
    && forall t :: 0 <= t < |a| ==> a[t] < |inbound| && received[t] == Packets(inbound)[a[t]]
  }

  ghost predicate Within(f: seq<nat>, n: nat) {
    forall i :: 0 <= i < |f| ==> f[i] < n
  }

  /** The datagrams with these indices. */
  function Select(inbound: seq<Datagram>, f: seq<nat>): (r: seq<Datagram>)
    requires Within(f, |inbound|)
    ensures |r| == |f| && forall i :: 0 <= i < |r| ==> r[i] == inbound[f[i]]
  {
    seq(|f|, i requires 0 <= i < |f| => inbound[f[i]])
  }

  lemma {:induction false} FirstsWithin(a: seq<nat>, n: nat)
    requires Within(a, n)
    ensures Within(Firsts(a), n)
  {
    if a != [] {
      FirstsWithin(Front(a), n);
    }
  }

  lemma ArrivalNums(received: seq<Datagram>, inbound: seq<Datagram>, a: seq<nat>)
    requires Arrivals(received, inbound, a) && forall i :: 0 <= i < |received| ==> |received[i]| >= HEADER
    ensures Nums(received) == Wires(a)
  {
    hide Packet;
    hide Decode;
    forall t | 0 <= t < |a|
      ensures Decode(received[t]) == Wire(a[t])
    {
      HeaderRoundTrip(a[t] % WRAP, inbound[a[t]]);
    }
  }

  /** Under the bounds, the payloads the window lets pass are those of the first arrivals, in order. */
  lemma {:induction false} PassedAreFirsts(n: nat, received: seq<Datagram>, inbound: seq<Datagram>, a: seq<nat>, w: nat, g: nat)
    requires Arrivals(received, inbound, a) && forall i :: 0 <= i < |received| ==> |received[i]| >= HEADER
    requires Admissible(a, w, g) && w > 0 && n >= 2 * w - 1 && Gain(n, g) + w <= WRAP
    requires Within(Firsts(a), |inbound|)
    ensures Passed(n, received) == Select(inbound, Firsts(a))
  {
    hide Packet;
    hide Decode;
    hide Gain;
    hide Wire;
    hide Last;
    hide Window.Run;
    hide Admissible;
    if a != [] {
      var k := |a| - 1;
      var b, j := Front(a), Final(a);
      FirstsWithin(b, |inbound|);
      AdmissiblePrefix(a, k, w, g);
      ArrivalNums(received, inbound, a);
      PassedAreFirsts(n, received[..k], inbound, b, w, g);
      NextVerdict(n, a, w, g);
      assert Wires(a)[..k] == Wires(b);
      HeaderRoundTrip(j % WRAP, inbound[j]);
    }
  }

  lemma {:induction false} FirstsAreSet(a: seq<nat>)
    ensures NoRepeats(Firsts(a)) && forall i :: i in Firsts(a) <==> i in a
  {
    if a != [] {
      assert a == Front(a) + [Final(a)];
      FirstsAreSet(Front(a));
    }
  }

  /**
    * A sender and a receiver, each started by udprelay_init and run over any answers of select and the sockets.
    * If the packets that reach the receiver are packets of the sender's datagrams, their indices straying no
    * further than the bounds allow, then the receiver's outward relay is offered the datagram of every index that
    * arrived, once, in the order of first arrival, byte for byte. On how many relays, and over which, is immaterial.
    * If that relay has a remote address, it sends them all when its socket takes what it is given, they leave or wait in
    * this order when every forward finds the socket blocked, and none is refused unless the socket fails for good.
    */
  lemma ExactlyOnceDelivery(track: nat, track': nat, outward: bool, outward': bool, remotes: seq<bool>, remotes': seq<bool>,
                            envs: seq<Env>, envs': seq<Env>, a: seq<nat>, w: nat, g: nat)
    requires Admissible(a, w, g) && w > 0 && track' >= 2 * w - 1 && track' * g + w <= WRAP
    requires Arrivals(Serve(track', Begin(outward', remotes'), envs').received,
                      Serve(track, Begin(outward, remotes), envs).inbound, a)
    ensures var sender := Serve(track, Begin(outward, remotes), envs);
            var receiver := Serve(track', Begin(outward', remotes'), envs');
            && (forall i :: 0 < i < |sender.states| ==> sender.states[i].ledger.offered == Packets(sender.inbound))
            && Within(Firsts(a), |sender.inbound|) && receiver.states != []
            && receiver.states[0].ledger.offered == Select(sender.inbound, Firsts(a))
            && NoRepeats(Firsts(a)) && (forall i :: i in Firsts(a) <==> i in a)
            && (outward' ==>
                  var s, all := receiver.states[0], Select(sender.inbound, Firsts(a));
                  && (AnswersWithin(envs', {Transferred}) ==> s.ledger.sent == all && s.pending == [])
                  && (AnswersWithin(envs', {WouldBlock}) ==> s.ledger.departed + s.pending == all)
                  && (AnswersWithin(envs', {Transferred, WouldBlock, Undeliverable}) ==> s.ledger.taken == all))
  {
    hide Admissible;
    hide Serve;
    hide Begin;
    hide Packets;
    hide Passed;
    hide NoRepeats;
    hide AnswersWithin;
    hide Window.Run;
    hide Nums;
    hide Quiet;
    hide Conserved;
    BeginSound(track, outward, remotes);
    BeginSound(track', outward', remotes');
    ServeSound(track, Begin(outward, remotes), envs);
    ServeSound(track', Begin(outward', remotes'), envs');
    var sender := Serve(track, Begin(outward, remotes), envs);
    var receiver := Serve(track', Begin(outward', remotes'), envs');
    FirstsWithin(a, |sender.inbound|);
    FirstsAreSet(a);
    PassedAreFirsts(track', receiver.received, sender.inbound, a, w, g);
    if outward' {
      assert NoneEmpty(receiver.states[0].ledger.offered);
      ServeDelivers(track', remotes', envs');
    }
  }
}
