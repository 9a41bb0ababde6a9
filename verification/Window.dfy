/** What the lookup computes, told without its data structures: is a number among the last n accepted? */
module Window {

  /** The range of the sequence numbers on the wire, which are 16 bits wide. */
  const WRAP: nat := 0x1_0000

  function Last<T>(n: nat, s: seq<T>): seq<T> {
    if |s| <= n then s else s[|s| - n..]
  }

  /** One push: the numbers accepted so far, and then. */
  function Push(n: nat, accepted: seq<int>, x: int): seq<int> {
    if x in Last(n, accepted) then accepted else accepted + [x]
  }

  /** The numbers accepted over a whole run, in order. */
  function Run(n: nat, pushes: seq<int>): seq<int> {
    if pushes == [] then [] else Push(n, Run(n, pushes[..|pushes| - 1]), pushes[|pushes| - 1])
  }

  /** Whether the i-th push of a run is accepted. */
  function Accepts(n: nat, pushes: seq<int>, i: nat): bool
    requires i < |pushes|
  {
    pushes[i] !in Last(n, Run(n, pushes[..i]))
  }

  ghost predicate NoRepeats(s: seq<int>) {
    forall i, j :: 0 <= i < j < |s| ==> s[i] != s[j]
  }

  lemma LastOfPush<T>(n: nat, s: seq<T>, x: T)
    requires n > 0
    ensures Last(n, s + [x]) == (if |s| < n then Last(n, s) else Last(n, s)[1..]) + [x]
  {
  }

  lemma {:induction false} WindowNoRepeats(n: nat, pushes: seq<int>)
    ensures NoRepeats(Last(n, Run(n, pushes)))
  {
    if pushes != [] {
      var before, x := Run(n, pushes[..|pushes| - 1]), pushes[|pushes| - 1];
      WindowNoRepeats(n, pushes[..|pushes| - 1]);
      if n > 0 {
        LastOfPush(n, before, x);
      }
    }
  }

  // ---------------------------------------------------------------------------------------------
  // Counting

  function Interval(lo: int, hi: int): set<int>
    decreases hi - lo
  {
    if lo >= hi then {} else Interval(lo, hi - 1) + {hi - 1}
  }

  lemma {:induction false} IntervalSize(lo: int, hi: int)
    requires lo <= hi
    ensures |Interval(lo, hi)| == hi - lo && forall i :: i in Interval(lo, hi) <==> lo <= i < hi
    decreases hi - lo
  {
    if lo < hi {
      IntervalSize(lo, hi - 1);
    }
  }

  lemma {:induction false} DistinctSize(s: seq<int>)
    requires NoRepeats(s)
    ensures |set x | x in s| == |s|
  {
    if s != [] {
      var f, x := s[..|s| - 1], s[|s| - 1];
      DistinctSize(f);
      assert (set y | y in s) == (set y | y in f) + {x};
      assert x !in f;
    }
  }

  /** Pigeonhole: distinct integers from an interval are no more than it has. */
  lemma Pigeonhole(s: seq<int>, lo: int, hi: int)
    requires NoRepeats(s) && lo <= hi && forall i :: 0 <= i < |s| ==> lo <= s[i] < hi
    ensures |s| <= hi - lo
  {
    DistinctSize(s);
    IntervalSize(lo, hi);
    var elements := set x | x in s;
    assert Interval(lo, hi) == elements + (Interval(lo, hi) - elements);
  }

  // ---------------------------------------------------------------------------------------------
  // Saturation

  ghost predicate SixteenBit(pushes: seq<int>) {
    forall i :: 0 <= i < |pushes| ==> 0 <= pushes[i] < WRAP
  }

  /** The state after a run rejects every number the receiver can be given. */
  ghost predicate Saturated(n: nat, pushes: seq<int>) {
    forall x :: 0 <= x < WRAP ==> x in Last(n, Run(n, pushes))
  }

  lemma {:induction false} RunWithin(n: nat, pushes: seq<int>)
    requires SixteenBit(pushes)
    ensures SixteenBit(Run(n, pushes))
  {
    if pushes != [] {
      RunWithin(n, pushes[..|pushes| - 1]);
    }
  }

  lemma {:induction false} CoverSize(all: set<int>, k: nat)
    requires forall x :: 0 <= x < k ==> x in all
    ensures |all| >= k
  {
    if k > 0 {
      CoverSize(all - {k - 1}, k - 1);
    }
  }

  /** A window of fewer than 65536 numbers always leaves some number acceptable. */
  lemma NarrowNeverSaturates(n: nat, pushes: seq<int>)
    requires n < WRAP
    ensures !Saturated(n, pushes)
  {
    if Saturated(n, pushes) {
      var l := Last(n, Run(n, pushes));
      CoverSize((set x | x in l), WRAP);
      ElementsFew(l);
    }
  }

  lemma {:induction false} ElementsFew(s: seq<int>)
    ensures |set x | x in s| <= |s|
  {
    if s != [] {
      var f, x := s[..|s| - 1], s[|s| - 1];
      ElementsFew(f);
      assert (set y | y in s) == (set y | y in f) + {x};
    }
  }

  function Count(k: nat): (s: seq<nat>)
    ensures |s| == k && forall i :: 0 <= i < k ==> s[i] == i
  {
    seq(k, i => i)
  }

  /** A window of at least 65536 numbers takes each once. */
  lemma {:induction false} CountAccepted(n: nat, k: nat)
    requires k <= n
    ensures Run(n, Count(k)) == Count(k)
  {
    if k > 0 {
      assert Count(k)[..k - 1] == Count(k - 1);
      CountAccepted(n, k - 1);
      assert k - 1 !in Count(k - 1);
      assert Count(k) == Count(k - 1) + [k - 1];
    }
  }

  /** Some run of 16-bit numbers leads to a state that rejects them all exactly if n is at least 65536. */
  lemma SaturationIff(n: nat)
    ensures (exists pushes :: SixteenBit(pushes) && Saturated(n, pushes)) <==> n >= WRAP
  {
    if n >= WRAP {
      var c := Count(WRAP);
      CountAccepted(n, WRAP);
      forall x | 0 <= x < WRAP
        ensures x in Last(n, Run(n, c))
      {
        assert c[x] == x;
      }
      assert SixteenBit(c) && Saturated(n, c);
    } else {
      forall pushes | SixteenBit(pushes)
        ensures !Saturated(n, pushes)
      {
        NarrowNeverSaturates(n, pushes);
      }
    }
  }

  /** Once saturated, the lookup rejects every later push of every continuation. */
  lemma {:induction false} SaturatedForever(n: nat, pushes: seq<int>, more: seq<int>)
    requires SixteenBit(pushes) && SixteenBit(more) && Saturated(n, pushes)
    ensures Run(n, pushes + more) == Run(n, pushes)
  {
    if more == [] {
      assert pushes + more == pushes;
    } else {
      var f := more[..|more| - 1];
      SaturatedForever(n, pushes, f);
      assert (pushes + more)[..|pushes + more| - 1] == pushes + f;
      assert (pushes + more)[|pushes + more| - 1] == more[|more| - 1];
    }
  }
}
