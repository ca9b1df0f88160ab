/** What a returned cycle is: a closed, repetition-free walk of `T` in the
    state space, rotated to start at its least state. */
module CycleShape {
  import opened Types
  import opened FibStates

  /** The position after `i` on a loop of length `n`. */
  function Next(i: nat, n: nat): nat
  {
    if i + 1 >= n then 0 else i + 1
  }

  /** Each state's `T`-successor is the next state, the last state's
      successor being the first. */
  ghost predicate Closed(base: int, c: seq<State>)
    requires base >= 1
  {
    && |c| > 0
    && forall i {:trigger Step(base, c[i])} :: 0 <= i < |c| ==> Step(base, c[i]) == c[Next(i, |c|)]
  }

  /** No state occurs twice. */
  ghost predicate Simple(c: seq<State>)
  {
    forall i, j :: 0 <= i < j < |c| ==> c[i] != c[j]
  }

  /** The first state is the lexicographically least one. */
  ghost predicate Canonical(c: seq<State>)
  {
    |c| > 0 && forall i :: 0 <= i < |c| ==> LexLe(c[0], c[i])
  }

  ghost predicate AllInRange(base: int, c: seq<State>)
  {
    forall i :: 0 <= i < |c| ==> InRange(base, c[i])
  }

  /** The shape of every cycle the enumerator returns. */
  ghost predicate IsCycle(base: int, c: seq<State>)
    requires base >= 1
  {
    Closed(base, c) && Simple(c) && Canonical(c) && AllInRange(base, c)
  }

  /** `c[m:] + c[:m]`. */
  function Rotate(c: seq<State>, m: nat): (r: seq<State>)
    requires m <= |c|
    ensures |r| == |c|
    ensures forall i :: 0 <= i < |c| - m ==> r[i] == c[m + i]
    ensures forall i :: |c| - m <= i < |c| ==> r[i] == c[i - (|c| - m)]
  {
    c[m..] + c[..m]
  }

  /** Rotation keeps the multiset of states, so it keeps the set of states
      and the absence of repetitions. */
  lemma {:induction false} RotateKeepsStates(c: seq<State>, m: nat)
    requires m <= |c|
    ensures multiset(Rotate(c, m)) == multiset(c)
    ensures forall x :: x in Rotate(c, m) <==> x in c
    ensures Simple(c) ==> Simple(Rotate(c, m))
  {
    assert c == c[..m] + c[m..];
    var r := Rotate(c, m);
    forall x
      ensures x in r <==> x in c
    {
      assert x in r <==> x in multiset(r);
      assert x in c <==> x in multiset(c);
    }
    if Simple(c) {
      forall i, j | 0 <= i < j < |r|
        ensures r[i] != r[j]
      {
        var pi := if i < |c| - m then m + i else i - (|c| - m);
        var pj := if j < |c| - m then m + j else j - (|c| - m);
        assert r[i] == c[pi] && r[j] == c[pj] && pi != pj;
      }
    }
  }

  /** Rotating a closed walk gives a closed walk. */
  lemma {:induction false} RotateKeepsClosed(base: int, c: seq<State>, m: nat)
    requires base >= 1 && m <= |c| && Closed(base, c)
    ensures Closed(base, Rotate(c, m))
  {
    var r := Rotate(c, m);
    var n := |c|;
    forall i | 0 <= i < n
      ensures Step(base, r[i]) == r[Next(i, n)]
    {
      var p := if i < n - m then m + i else i - (n - m);
      assert r[i] == c[p];
      assert Step(base, c[p]) == c[Next(p, n)];
      var q := Next(i, n);
      assert r[q] == (if q < n - m then c[m + q] else c[q - (n - m)]);
    }
  }

  /** Along a closed walk, `k` steps from position `i` (not passing the
      end) reach position `i + k`. */
  lemma {:induction false} ClosedIter(base: int, c: seq<State>, i: nat, k: nat)
    requires base >= 1 && Closed(base, c) && i + k < |c|
    ensures Iter(base, c[i], k) == c[i + k]
  {
    if k > 0 {
      ClosedIter(base, c, i, k - 1);
      assert Step(base, c[i + k - 1]) == c[Next(i + k - 1, |c|)];
    }
  }

  /** Iterating `T` from a state of a closed walk never leaves the walk. */
  lemma {:induction false} ClosedIterIn(base: int, c: seq<State>, x: State, k: nat)
    requires base >= 1 && Closed(base, c) && x in c
    ensures Iter(base, x, k) in c
  {
    if k > 0 {
      ClosedIterIn(base, c, x, k - 1);
      var y := Iter(base, x, k - 1);
      var p :| 0 <= p < |c| && c[p] == y;
      assert Step(base, c[p]) == c[Next(p, |c|)];
    }
  }

  /** Every state of a closed walk is reached from any other one. */
  lemma {:induction false} ClosedReach(base: int, c: seq<State>, i: nat, j: nat)
    requires base >= 1 && Closed(base, c) && i < |c| && j < |c|
    ensures exists k: nat :: Iter(base, c[i], k) == c[j]
  {
    var n := |c|;
    if i <= j {
      ClosedIter(base, c, i, j - i);
    } else {
      ClosedIter(base, c, i, n - 1 - i);
      assert Step(base, c[n - 1]) == c[Next(n - 1, n)];
      assert Iter(base, c[i], n - i) == c[0];
      ClosedIter(base, c, 0, j);
      IterAdd(base, c[i], n - i, j);
    }
  }

  /** Two closed walks that share a state visit the same states. */
  lemma {:induction false} SharedStateSameStates(base: int, c: seq<State>, d: seq<State>, s: State)
    requires base >= 1 && Closed(base, c) && Closed(base, d) && s in c && s in d
    ensures forall x :: x in c ==> x in d
  {
    var i :| 0 <= i < |c| && c[i] == s;
    forall x | x in c
      ensures x in d
    {
      var j :| 0 <= j < |c| && c[j] == x;
      ClosedReach(base, c, i, j);
      var k: nat :| Iter(base, c[i], k) == c[j];
      ClosedIterIn(base, d, s, k);
    }
  }

  /** A closed repetition-free walk is determined by its first state: its
      length is the first return time to that state. */
  lemma {:induction false} SameStartSameCycle(base: int, c: seq<State>, d: seq<State>)
    requires base >= 1 && Closed(base, c) && Closed(base, d) && Simple(c) && Simple(d)
    requires c[0] == d[0]
    ensures c == d
  {
    if |c| < |d| {
      ReturnsEarly(base, c, d);
    } else if |d| < |c| {
      ReturnsEarly(base, d, c);
    }
    forall i | 0 <= i < |c|
      ensures c[i] == d[i]
    {
      ClosedIter(base, c, 0, i);
      ClosedIter(base, d, 0, i);
    }
  }

  /** A walk cannot be shorter than another repetition-free closed walk
      from the same state: the shorter one returns to the start first. */
  lemma {:induction false} ReturnsEarly(base: int, c: seq<State>, d: seq<State>)
    requires base >= 1 && Closed(base, c) && Closed(base, d) && Simple(d)
    requires c[0] == d[0]
    ensures |c| >= |d|
  {
    if |c| < |d| {
      var n := |c|;
      ClosedIter(base, c, 0, n - 1);
      ClosedIter(base, d, 0, n);
      assert false;
    }
  }

  /** Two returned-shape cycles that share any state are the same cycle:
      they visit the same states, so they start at the same least state
      and then coincide. */
  lemma {:induction false} SharedStateSameCycle(base: int, c: seq<State>, d: seq<State>, s: State)
    requires base >= 1 && IsCycle(base, c) && IsCycle(base, d) && s in c && s in d
    ensures c == d
  {
    SharedStateSameStates(base, c, d, s);
    SharedStateSameStates(base, d, c, s);
    assert c[0] in d && d[0] in c;
    var i :| 0 <= i < |d| && d[i] == c[0];
    var j :| 0 <= j < |c| && c[j] == d[0];
    assert LexLe(d[0], d[i]) && LexLe(c[0], c[j]);
    SameStartSameCycle(base, c, d);
  }
}
