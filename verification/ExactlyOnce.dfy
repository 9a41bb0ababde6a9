/**
  * Exactly-once acceptance across a network that loses, duplicates and reorders, with a 16-bit counter that
  * wraps and a window of n numbers that forgets.
  */
module ExactlyOnce {
  import opened Window

  /** The sequence number on the wire of the datagram with the given index. */
  function Wire(index: nat): int {
    index % WRAP
  }

  function Wires(a: seq<nat>): (r: seq<int>)
    ensures |r| == |a| && forall i :: 0 <= i < |a| ==> r[i] == Wire(a[i])
  {
    seq(|a|, i requires 0 <= i < |a| => Wire(a[i]))
  }

  function Front(a: seq<nat>): seq<nat>
    requires a != []
  {
    a[..|a| - 1]
  }

  function Final(a: seq<nat>): nat
    requires a != []
  {
    a[|a| - 1]
  }

  /** The newest index that has arrived. */
  function Newest(a: seq<nat>): nat
    requires a != []
  {
    if |a| == 1 then a[0]
    else if Final(a) > Newest(Front(a)) then Final(a) else Newest(Front(a))
  }

  /** Arrivals, by index, that run at most g ahead of the newest and less than w behind it. */
  ghost predicate Admissible(a: seq<nat>, w: nat, g: nat) {
    |a| > 1 ==> Admissible(Front(a), w, g) && Newest(Front(a)) - w < Final(a) <= Newest(Front(a)) + g
  }

  /** Each arrival is accepted if and only if its index has never arrived before. */
  ghost predicate Exact(n: nat, a: seq<nat>) {
    forall i :: 0 <= i < |a| ==> (Accepts(n, Wires(a), i) <==> a[i] !in a[..i])
  }

  /** The first arrivals among a, in order. */
  function Firsts(a: seq<nat>): seq<nat> {
    if a == [] then []
    else Firsts(Front(a)) + if Final(a) in Front(a) then [] else [Final(a)]
  }

  // ---------------------------------------------------------------------------------------------
  // The bounds suffice

  /** How far the newest index can have moved on over k acceptances. */
  function Gain(k: nat, g: nat): nat {
    k * g
  }

  lemma GainSteps(k: nat, g: nat)
    ensures Gain(0, g) == 0 && Gain(k + 1, g) == Gain(k, g) + g
  {
  }

  lemma {:induction false} GainMonotone(k: nat, l: nat, g: nat)
    requires k <= l
    ensures Gain(k, g) <= Gain(l, g)
  {
    if k < l {
      GainMonotone(k, l - 1, g);
      GainSteps(l - 1, g);
    }
  }

  /** What an admissible run makes of its first arrivals f: distinct, never far behind, never far ahead. */
  ghost predicate Spread(f: seq<nat>, newest: nat, w: nat, g: nat) {
    && NoRepeats(f) && (forall p :: 0 <= p < |f| ==> f[p] <= newest)
    && (forall p, q :: 0 <= p < q < |f| ==> f[p] - w < f[q])
    && (forall p :: 0 <= p < |f| ==> newest < f[p] + w + Gain(|f| - 1 - p, g))
  }

  lemma {:induction false} FirstsOfRun(a: seq<nat>, w: nat, g: nat)
    requires a != [] && Admissible(a, w, g) && w > 0
    ensures Spread(Firsts(a), Newest(a), w, g)
    ensures forall i :: i in Firsts(a) <==> i in a
  {
    if |a| == 1 {
      assert Front(a) == [] && Firsts(a) == [a[0]];
    } else {
      hide Spread;
      var b, j := Front(a), Final(a);
      FirstsOfRun(b, w, g);
      assert a == b + [j];
      if j !in b {
        SpreadStep(Firsts(b), Newest(b), j, w, g);
      } else {
        NewestBounds(b, j);
        assert Firsts(a) == Firsts(b);
      }
    }
  }

  lemma {:induction false} NewestBounds(a: seq<nat>, i: nat)
    requires i in a
    ensures i <= Newest(a)
  {
    if |a| > 1 && i != Final(a) {
      assert a == Front(a) + [Final(a)];
      NewestBounds(Front(a), i);
    }
  }

  lemma SpreadStep(f: seq<nat>, newest: nat, j: nat, w: nat, g: nat)
    requires Spread(f, newest, w, g) && j !in f && newest - w < j <= newest + g && w > 0
    ensures Spread(f + [j], if j > newest then j else newest, w, g)
  {
    hide Gain;
    var f', newest' := f + [j], if j > newest then j else newest;
    GainSteps(0, g);
    forall p | 0 <= p < |f'|
      ensures newest' < f'[p] + w + Gain(|f'| - 1 - p, g)
    {
      if p < |f| {
        GainSteps(|f| - 1 - p, g);
      }
    }
  }

  /** A late duplicate is still in the window, because few indices can have been accepted after it. */
  lemma DuplicateInWindow(n: nat, f: seq<nat>, newest: nat, j: nat, w: nat, g: nat)
    requires Spread(f, newest, w, g) && j in f && newest - w < j && w > 0
    requires n >= 2 * w - 1
    ensures Wire(j) in Last(n, Wires(f))
  {
    hide Spread;
    hide Wire;
    hide Last;
    var p :| 0 <= p < |f| && f[p] == j;
    LaterAreFew(f, newest, p, w, g);
    RememberedWire(n, f, p);
  }

  lemma LaterAreFew(f: seq<nat>, newest: nat, p: nat, w: nat, g: nat)
    requires Spread(f, newest, w, g) && p < |f| && newest - w < f[p] && w > 0
    ensures |f| - p <= 2 * w - 1
  {
    hide Gain;
    var later: seq<int> := f[p..];
    Pigeonhole(later, f[p] - w + 1, f[p] + w);
  }

  /** A new index shares its wire number with nothing in the window, because the window is narrow. */
  lemma NewNotInWindow(n: nat, f: seq<nat>, newest: nat, j: nat, w: nat, g: nat)
    requires Spread(f, newest, w, g) && j !in f && newest - w < j <= newest + g && w > 0
    requires Gain(n, g) + w <= WRAP
    ensures Wire(j) !in Last(n, Wires(f))
  {
    hide Gain;
    hide Wire;
    var d := if |f| <= n then 0 else |f| - n;
    forall q | 0 <= q < |f| - d
      ensures Last(n, Wires(f))[q] != Wire(j)
    {
      var p := d + q;
      assert Last(n, Wires(f))[q] == Wire(f[p]);
      GainSteps(|f| - 1 - p, g);
      GainMonotone(|f| - p, n, g);
      DifferentWires(f[p], j);
    }
  }

  lemma DifferentWires(i: nat, j: nat)
    requires i != j && i - j < WRAP && j - i < WRAP
    ensures Wire(i) != Wire(j)
  {
  }

  lemma RunStep(n: nat, a: seq<nat>)
    requires a != []
    ensures Run(n, Wires(a)) == Push(n, Run(n, Wires(Front(a))), Wire(Final(a)))
  {
    assert Wires(a)[..|a| - 1] == Wires(Front(a));
  }

  /** The receiver's accepted numbers are those of the first arrivals. */
  lemma {:induction false} RunIsFirsts(n: nat, a: seq<nat>, w: nat, g: nat)
    requires Admissible(a, w, g) && w > 0 && n >= 2 * w - 1 && Gain(n, g) + w <= WRAP
    ensures Run(n, Wires(a)) == Wires(Firsts(a))
  {
    hide Wire;
    hide Gain;
    hide Spread;
    hide Last;
    if a != [] {
      var b, j := Front(a), Final(a);
      assert a == b + [j];
      RunIsFirsts(n, b, w, g);
      RunStep(n, a);
      if b == [] {
        assert Firsts(a) == [j] && Run(n, Wires(b)) == [];
        NothingRemembered(n, Wire(j));
      } else {
        FirstsOfRun(b, w, g);
        if j in b {
          DuplicateInWindow(n, Firsts(b), Newest(b), j, w, g);
        } else {
          NewNotInWindow(n, Firsts(b), Newest(b), j, w, g);
          assert Wires(Firsts(b) + [j]) == Wires(Firsts(b)) + [Wire(j)];
        }
      }
    }
  }

  lemma NothingRemembered(n: nat, x: int)
    ensures x !in Last(n, [])
  {
  }

  lemma {:induction false} AdmissiblePrefix(a: seq<nat>, i: nat, w: nat, g: nat)
    requires Admissible(a, w, g) && i <= |a|
    ensures Admissible(a[..i], w, g)
  {
    if i < |a| {
      assert Front(a)[..i] == a[..i];
      if |a| > 1 {
        AdmissiblePrefix(Front(a), i, w, g);
      }
    } else {
      assert a[..i] == a;
    }
  }

  /** The next arrival's number is in the window exactly if its index has arrived. */
  lemma NextVerdict(n: nat, a: seq<nat>, w: nat, g: nat)
    requires a != [] && Admissible(a, w, g) && w > 0 && n >= 2 * w - 1 && Gain(n, g) + w <= WRAP
    ensures Wire(Final(a)) in Last(n, Run(n, Wires(Front(a)))) <==> Final(a) in Front(a)
  {
    hide Wire;
    hide Gain;
    hide Spread;
    var b, j := Front(a), Final(a);
    if b != [] {
      RunIsFirsts(n, b, w, g);
      FirstsOfRun(b, w, g);
      if j in b {
        DuplicateInWindow(n, Firsts(b), Newest(b), j, w, g);
      } else {
        NewNotInWindow(n, Firsts(b), Newest(b), j, w, g);
      }
    }
  }

  lemma BoundsSuffice(n: nat, a: seq<nat>, w: nat, g: nat)
    requires Admissible(a, w, g) && w > 0 && n >= 2 * w - 1 && Gain(n, g) + w <= WRAP
    ensures Exact(n, a)
  {
    hide Wire;
    hide Wires;
    hide Last;
    hide Run;
    hide Gain;
    hide Admissible;
    forall i | 0 <= i < |a|
      ensures Accepts(n, Wires(a), i) <==> a[i] !in a[..i]
    {
      AdmissiblePrefix(a, i + 1, w, g);
      assert Front(a[..i + 1]) == a[..i];
      assert Wires(a)[..i] == Wires(a[..i]);
      NextVerdict(n, a[..i + 1], w, g);
    }
  }

  // ---------------------------------------------------------------------------------------------
  // The bounds are necessary

  lemma NoRepeatsFront(s: seq<int>)
    requires s != [] && NoRepeats(s)
    ensures NoRepeats(s[..|s| - 1]) && s[|s| - 1] !in s[..|s| - 1]
  {
  }

  /** While every arrival of an exact run is new, all of them are accepted. */
  lemma {:induction false} ExactRun(n: nat, a: seq<nat>, m: nat)
    requires Exact(n, a) && m <= |a| && NoRepeats(a[..m])
    ensures Run(n, Wires(a[..m])) == Wires(a[..m])
  {
    hide NoRepeats;
    hide Last;
    hide Wire;
    hide Exact;
    hide Accepts;
    hide Wires;
    if m > 0 {
      var b, f, j := a[..m], a[..m - 1], a[m - 1];
      NoRepeatsFront(b);
      assert b[..m - 1] == f && Front(b) == f && Final(b) == j;
      ExactRun(n, a, m - 1);
      RunStep(n, b);
      ExactVerdict(n, a, m - 1);
      assert Wires(b) == Wires(f) + [Wire(j)];
    }
  }

  /** What an exact run decides about an arrival, in terms of the run before it. */
  lemma ExactVerdict(n: nat, a: seq<nat>, m: nat)
    requires Exact(n, a) && m < |a|
    ensures Wire(a[m]) in Last(n, Run(n, Wires(a[..m]))) <==> a[m] in a[..m]
  {
    hide Last;
    hide Wire;
    assert Wires(a)[..m] == Wires(a[..m]);
    assert Accepts(n, Wires(a), m) <==> a[m] !in a[..m];
  }

  /** Arrivals from `from` on, each `step` later, up to `top`. */
  function Climb(from: nat, step: nat, top: nat): (c: seq<nat>)
    requires from < top && step > 0
    ensures c != [] && Final(c) == top
    ensures forall i :: 0 <= i < |c| ==> from < c[i] <= top
    ensures NoRepeats(c)
    decreases top - from
  {
    if from + step >= top then [top] else [from + step] + Climb(from + step, step, top)
  }

  lemma {:induction false} ClimbLength(from: nat, step: nat, top: nat, k: nat)
    requires from < top && step > 0 && top - from <= Gain(k, step)
    ensures |Climb(from, step, top)| <= k
    decreases k
  {
    hide Gain;
    GainSteps(0, step);
    if k > 0 {
      GainSteps(k - 1, step);
      if from + step < top {
        ClimbLength(from + step, step, top, k - 1);
      }
    }
  }

  lemma {:induction false} UnitClimb(from: nat, top: nat)
    requires from < top
    ensures |Climb(from, 1, top)| == top - from
    decreases top - from
  {
    if from + 1 < top {
      UnitClimb(from + 1, top);
    }
  }

  lemma AdmissibleAppend(a: seq<nat>, j: nat, w: nat, g: nat)
    requires a != [] && Admissible(a, w, g) && Newest(a) - w < j <= Newest(a) + g
    ensures Admissible(a + [j], w, g) && Newest(a + [j]) == if j > Newest(a) then j else Newest(a)
  {
    assert Front(a + [j]) == a;
  }

  lemma {:induction false} AdmissibleClimb(a: seq<nat>, step: nat, top: nat, w: nat, g: nat)
    requires a != [] && Admissible(a, w, g) && Newest(a) < top && 0 < step <= g
    ensures var b := a + Climb(Newest(a), step, top); Admissible(b, w, g) && Newest(b) == top
    decreases top - Newest(a)
  {
    hide NoRepeats;
    hide Admissible;
    hide Newest;
    var from := Newest(a);
    if from + step >= top {
      AdmissibleAppend(a, top, w, g);
    } else {
      AdmissibleAppend(a, from + step, w, g);
      AdmissibleClimb(a + [from + step], step, top, w, g);
      assert a + Climb(from, step, top) == a + [from + step] + Climb(from + step, step, top);
    }
  }

  /** k, k - 1, ..., 0. */
  function Descent(k: nat): (d: seq<nat>)
    ensures |d| == k + 1 && forall i :: 0 <= i <= k ==> d[i] == k - i
  {
    if k == 0 then [0] else [k] + Descent(k - 1)
  }

  lemma {:induction false} AdmissibleDescent(k: nat, i: nat, w: nat, g: nat)
    requires k < w && i <= k
    ensures Admissible(Descent(k)[..i + 1], w, g) && Newest(Descent(k)[..i + 1]) == k
  {
    var d := Descent(k);
    if i == 0 {
      assert d[..1] == [k];
    } else {
      AdmissibleDescent(k, i - 1, w, g);
      AdmissibleAppend(d[..i], k - i, w, g);
      assert d[..i + 1] == d[..i] + [k - i];
    }
  }

  /** The whole reordering window arrives around index w - 1, which then arrives again. */
  function LateDuplicate(w: nat): seq<nat>
    requires w > 1
  {
    Descent(w - 1) + Climb(w - 1, 1, 2 * w - 2) + [w - 1]
  }

  lemma LateDuplicateAdmissible(w: nat, g: nat)
    requires w > 1 && g > 0
    ensures Admissible(LateDuplicate(w), w, g)
  {
    hide Admissible;
    hide Newest;
    var d, x := Descent(w - 1), w - 1;
    assert d[..w] == d;
    AdmissibleDescent(w - 1, w - 1, w, g);
    AdmissibleClimb(d, 1, 2 * w - 2, w, g);
    AdmissibleAppend(d + Climb(w - 1, 1, 2 * w - 2), x, w, g);
  }

  lemma ForgottenWire(n: nat, b: seq<nat>)
    requires n < |b| && NoRepeats(b)
    requires forall p :: 0 < p < |b| ==> b[p] - b[0] < WRAP && b[0] - b[p] < WRAP
    ensures Wire(b[0]) !in Last(n, Wires(b))
  {
    var l, r := Last(n, Wires(b)), Wires(b);
    forall q | 0 <= q < |l|
      ensures l[q] != Wire(b[0])
    {
      var p := |b| - n + q;
      assert l[q] == r[p];
      DifferentWires(b[p], b[0]);
    }
  }

  lemma ShortWindowFails(n: nat, w: nat, g: nat)
    requires w > 1 && g > 0 && n < 2 * w - 1 && w <= WRAP
    ensures Admissible(LateDuplicate(w), w, g) && !Exact(n, LateDuplicate(w))
  {
    hide Admissible;
    hide Exact;
    hide Last;
    hide Run;
    hide Wire;
    hide Wires;
    hide NoRepeats;
    LateDuplicateAdmissible(w, g);
    var d, c, m, a := Descent(w - 1), Climb(w - 1, 1, 2 * w - 2), 2 * w - 1, LateDuplicate(w);
    var b := d + c;
    UnitClimb(w - 1, 2 * w - 2);
    DescentDistinct(w - 1);
    DistinctJoin(d, c);
    assert a[..m] == b && b[0] == w - 1 == a[m];
    ForgottenWire(n, b);
    if Exact(n, a) {
      ExactRun(n, a, m);
      ExactVerdict(n, a, m);
    }
  }

  lemma DescentDistinct(k: nat)
    ensures NoRepeats(Descent(k))
  {
  }

  lemma DistinctJoin(x: seq<nat>, y: seq<nat>)
    requires NoRepeats(x) && NoRepeats(y) && forall i, j :: 0 <= i < |x| && 0 <= j < |y| ==> x[i] < y[j]
    ensures NoRepeats(x + y)
  {
  }

  /** Index 0 arrives as late as it may, then the newest runs ahead as fast as it may to index 65536. */
  function WireReuse(w: nat, g: nat): seq<nat>
    requires 0 < w && g > 0
  {
    WireReuseStart(w) + if w > WRAP then [0] else Climb(w - 1, g, WRAP)
  }

  function WireReuseStart(w: nat): seq<nat>
    requires 0 < w
  {
    if w > WRAP then [WRAP] else if w == 1 then [0] else [w - 1, 0]
  }

  lemma WireReuseAdmissible(w: nat, g: nat)
    requires w > 0 && g > 0
    ensures Admissible(WireReuse(w, g), w, g)
  {
    if w > WRAP {
      AdmissibleAppend([WRAP], 0, w, g);
    } else {
      if w > 1 {
        AdmissibleAppend([w - 1], 0, w, g);
        assert [w - 1] + [0] == [w - 1, 0];
      }
      AdmissibleClimb(WireReuseStart(w), g, WRAP, w, g);
    }
  }

  lemma RememberedWire(n: nat, b: seq<nat>, p: nat)
    requires p < |b| && |b| - p <= n
    ensures Wire(b[p]) in Last(n, Wires(b))
  {
    var d := if |b| <= n then 0 else |b| - n;
    assert Last(n, Wires(b))[p - d] == Wires(b)[p];
  }

  lemma WrapsAround()
    ensures Wire(WRAP) == Wire(0)
  {
  }

  lemma WideWindowFails(n: nat, w: nat, g: nat)
    requires n > 0 && w > 0 && g > 0 && Gain(n, g) + w > WRAP
    ensures Admissible(WireReuse(w, g), w, g) && !Exact(n, WireReuse(w, g))
  {
    hide Admissible;
    hide Exact;
    hide Last;
    hide Run;
    hide Wires;
    hide Wire;
    hide Gain;
    hide NoRepeats;
    WireReuseAdmissible(w, g);
    WrapsAround();
    var a := WireReuse(w, g);
    var m, d, c := |a| - 1, WireReuseStart(w), if w > WRAP then [0] else Climb(w - 1, g, WRAP);
    assert a == d + c;
    if w <= WRAP {
      ClimbLength(w - 1, g, WRAP, n);
    }
    WireReuseDistinct(w, g);
    NoRepeatsFront(a);
    RememberedWire(n, a[..m], |d| - 1);
    if Exact(n, a) {
      ExactRun(n, a, m);
      ExactVerdict(n, a, m);
    }
  }

  lemma WireReuseDistinct(w: nat, g: nat)
    requires w > 0 && g > 0
    ensures NoRepeats(WireReuse(w, g))
  {
    if w <= WRAP {
      DistinctJoin(WireReuseStart(w), Climb(w - 1, g, WRAP));
    }
  }

  // ---------------------------------------------------------------------------------------------
  // The theorem

  /**
    * A window of n numbers gives exactly-once acceptance on every admissible run if and only if it covers the
    * reordering and stays within one turn of the counter.
    */
  lemma ExactlyOnceIff(n: nat, w: nat, g: nat)
    requires n > 0 && w > 0 && g > 0
    ensures (forall a :: Admissible(a, w, g) ==> Exact(n, a)) <==> n >= 2 * w - 1 && n * g + w <= WRAP
  {
    if n >= 2 * w - 1 && n * g + w <= WRAP {
      forall a | Admissible(a, w, g)
        ensures Exact(n, a)
      {
        BoundsSuffice(n, a, w, g);
      }
    } else if n * g + w > WRAP {
      WideWindowFails(n, w, g);
    } else {
      ShortWindowFails(n, w, g);
    }
  }
}
