/** `enumerate_cycles`: walk `T` from every state not yet visited, cut the
    cycle each walk enters, rotate it to its least state, and drop
    repeated cycles. */
module Enumerate {
  import opened Types
  import opened FibStates
  import opened CycleShape

  /** `min(range(len(c)), key=lambda i: c[i])`: the first position holding
      the least state. */
  function ArgMin(c: seq<State>): (m: nat)
    requires |c| > 0
    ensures m < |c|
    ensures forall j :: 0 <= j < |c| ==> LexLe(c[m], c[j])
    ensures forall j :: 0 <= j < m ==> LexLt(c[m], c[j])
  {
    if |c| == 1 then 0
    else
      var m := ArgMin(c[..|c| - 1]);
      if LexLt(c[|c| - 1], c[m]) then |c| - 1 else m
  }

  /** `cycle_states[min_idx:] + cycle_states[:min_idx]`: the rotation that
      starts at the least state. It keeps the states, their closure under
      `T` and the absence of repetitions. */
  function Canonicalize(c: seq<State>): (r: seq<State>)
    requires |c| > 0
    ensures Canonical(r)
    ensures multiset(r) == multiset(c)
    ensures Simple(c) ==> Simple(r)
  {
    var m := ArgMin(c);
    RotateKeepsStates(c, m);
    Rotate(c, m)
  }

  lemma CanonicalizeKeepsClosed(base: int, c: seq<State>)
    requires base >= 1 && Closed(base, c)
    ensures Closed(base, Canonicalize(c))
  {
    RotateKeepsClosed(base, c, ArgMin(c));
  }

  /** The inner `while` of `enumerate_cycles`: from `s0`, record each new
      state and its position until a state repeats. The path starts at
      `s0`, follows `T`, never repeats a state, stays in range and is at
      most `base * base` long; `T` of its last state is the state at
      `start`. */
  method Walk(base: int, s0: State) returns (path: seq<State>, start: nat)
    requires base >= 1 && InRange(base, s0)
    ensures 0 < |path| <= base * base && path[0] == s0
    ensures forall i :: 0 <= i < |path| - 1 ==> Step(base, path[i]) == path[i + 1]
    ensures Simple(path) && AllInRange(base, path)
    ensures start < |path| && Step(base, path[|path| - 1]) == path[start]
  {
    path := [];
    var seenIndex: map<State, nat> := map[];
    var s := s0;
    while s !in seenIndex
      invariant |seenIndex| == |path|
      invariant forall i :: 0 <= i < |path| ==> path[i] in seenIndex && seenIndex[path[i]] == i
      invariant forall k :: k in seenIndex ==> seenIndex[k] < |path| && path[seenIndex[k]] == k
      invariant AllInRange(base, path) && InRange(base, s)
      invariant |path| == 0 ==> s == s0
      invariant |path| > 0 ==> path[0] == s0 && s == Step(base, path[|path| - 1])
      invariant forall i :: 0 <= i < |path| - 1 ==> Step(base, path[i]) == path[i + 1]
      decreases base * base - |seenIndex|
    {
      RangeSetCard(base, seenIndex.Keys, s);
      seenIndex := seenIndex[s := |path|];
      path := path + [s];
      s := Step(base, s);
    }
    start := seenIndex[s];
    RangeSetCard(base, seenIndex.Keys, s);
  }

  /** Because `T` is a bijection, a walk can only repeat by returning to
      its first state: the cycle it enters is the whole path. */
  lemma {:induction false} WalkReturnsToStart(base: int, path: seq<State>, start: nat)
    requires base >= 1 && 0 < |path|
    requires forall i :: 0 <= i < |path| - 1 ==> Step(base, path[i]) == path[i + 1]
    requires Simple(path) && AllInRange(base, path)
    requires start < |path| && Step(base, path[|path| - 1]) == path[start]
    ensures start == 0
    ensures Closed(base, path)
  {
    if start > 0 {
      StepInjective(base, path[start - 1], path[|path| - 1]);
    }
    forall i | 0 <= i < |path|
      ensures Step(base, path[i]) == path[Next(i, |path|)]
    {
    }
  }

  /** Reference definition of the deduplicated list: each cycle at its
      first occurrence, in input order. */
  function FirstOccurrences(xs: seq<seq<State>>): seq<seq<State>>
  {
    if xs == [] then []
    else
      var init := xs[..|xs| - 1];
      FirstOccurrences(init) + (if xs[|xs| - 1] in init then [] else [xs[|xs| - 1]])
  }

  /** The list of first occurrences holds every input cycle exactly once. */
  lemma {:induction false} FirstOccurrencesShape(xs: seq<seq<State>>)
    ensures forall c :: c in FirstOccurrences(xs) <==> c in xs
    ensures forall i, j :: 0 <= i < j < |FirstOccurrences(xs)| ==>
      FirstOccurrences(xs)[i] != FirstOccurrences(xs)[j]
  {
    if xs != [] {
      var init := xs[..|xs| - 1];
      var last := xs[|xs| - 1];
      FirstOccurrencesShape(init);
      assert xs == init + [last];
      var r := FirstOccurrences(xs);
      var prev := FirstOccurrences(init);
      forall i, j | 0 <= i < j < |r|
        ensures r[i] != r[j]
      {
        if j >= |prev| {
          assert r[j] == last && last !in init;
          assert r[i] == prev[i];
        }
      }
    }
  }

  /** A list without repetitions is its own list of first occurrences. */
  lemma {:induction false} FirstOccurrencesOfDistinct(xs: seq<seq<State>>)
    requires forall i, j :: 0 <= i < j < |xs| ==> xs[i] != xs[j]
    ensures FirstOccurrences(xs) == xs
  {
    if xs != [] {
      var init := xs[..|xs| - 1];
      FirstOccurrencesOfDistinct(init);
      assert xs[|xs| - 1] !in init;
      assert xs == init + [xs[|xs| - 1]];
    }
  }

  /** The dedup loop of `enumerate_cycles`: keep a cycle when it has not
      been seen, marking it seen. The result is the first occurrences of
      the input cycles in input order. */
  method Dedup(cycles: seq<seq<State>>) returns (unique: seq<seq<State>>)
    ensures unique == FirstOccurrences(cycles)
  {
    unique := [];
    var seen: set<seq<State>> := {};
    for i := 0 to |cycles|
      invariant unique == FirstOccurrences(cycles[..i])
      invariant forall c :: c in seen <==> c in cycles[..i]
    {
      var key := cycles[i];
      assert cycles[..i + 1][..i] == cycles[..i];
      if key !in seen {
        seen := seen + {key};
        unique := unique + [key];
      }
    }
    assert cycles[..|cycles|] == cycles;
  }

  /** Some returned cycle contains `v`. */
  ghost predicate Covered(cycles: seq<seq<State>>, v: State)
  {
    exists k :: 0 <= k < |cycles| && v in cycles[k]
  }

  lemma CoveredGrows(cycles: seq<seq<State>>, c: seq<State>)
    ensures forall v :: Covered(cycles, v) ==> Covered(cycles + [c], v)
    ensures forall v :: v in c ==> Covered(cycles + [c], v)
  {
    var grown := cycles + [c];
    forall v | Covered(cycles, v)
      ensures Covered(grown, v)
    {
      var k :| 0 <= k < |cycles| && v in cycles[k];
      assert grown[k] == cycles[k];
    }
    forall v | v in c
      ensures Covered(grown, v)
    {
      assert grown[|cycles|] == c;
    }
  }

  /** Every collected cycle has the returned shape and fits the state
      space. */
  ghost predicate WellShaped(base: int, cycles: seq<seq<State>>)
    requires base >= 1
  {
    forall k :: 0 <= k < |cycles| ==> IsCycle(base, cycles[k]) && |cycles[k]| <= base * base
  }

  /** Every visited state lies on a collected cycle. */
  ghost predicate VisitedCovered(cycles: seq<seq<State>>, visited: set<State>)
  {
    forall v :: v in visited ==> Covered(cycles, v)
  }

  /** One pass of the inner loop body of `enumerate_cycles` from an
      unvisited start `s`: walk, cut the cycle, mark the path visited and
      collect the canonical rotation. The start becomes visited, nothing
      is forgotten, and the collected cycles keep their shape and cover
      what was visited. */
  method Explore(base: int, s: State, visited: set<State>, cycles: seq<seq<State>>)
    returns (visited': set<State>, cycles': seq<seq<State>>)
    requires base >= 1 && InRange(base, s)
    requires WellShaped(base, cycles) && VisitedCovered(cycles, visited)
    ensures WellShaped(base, cycles') && VisitedCovered(cycles', visited')
    ensures visited <= visited' && s in visited'
  {
    var path, start := Walk(base, s);
    var cycleStates := path[start..];
    visited' := visited + (set node | node in path);
    cycles' := cycles;
    if cycleStates != [] {
      WalkReturnsToStart(base, path, start);
      assert cycleStates == path;
      var canonical := Canonicalize(cycleStates);
      CanonicalizeKeepsCycle(base, path);
      CollectKeepsInvariant(base, cycles, visited, path, canonical);
      cycles' := cycles + [canonical];
    }
  }

  /** The canonical rotation of a walk that returns to its start is a
      returned-shape cycle holding exactly the walk's states. */
  lemma CanonicalizeKeepsCycle(base: int, path: seq<State>)
    requires base >= 1 && Closed(base, path) && Simple(path) && AllInRange(base, path)
    requires |path| <= base * base
    ensures IsCycle(base, Canonicalize(path)) && |Canonicalize(path)| <= base * base
    ensures forall x :: x in path <==> x in Canonicalize(path)
  {
    var c := Canonicalize(path);
    CanonicalizeKeepsClosed(base, path);
    assert |c| == |multiset(c)| == |multiset(path)| == |path|;
    assert forall x :: x in path <==> x in multiset(c);
    forall i | 0 <= i < |c|
      ensures InRange(base, c[i])
    {
      assert c[i] in multiset(path);
    }
  }

  lemma CollectKeepsInvariant(base: int, cycles: seq<seq<State>>, visited: set<State>,
                              path: seq<State>, c: seq<State>)
    requires base >= 1 && WellShaped(base, cycles) && VisitedCovered(cycles, visited)
    requires IsCycle(base, c) && |c| <= base * base
    requires forall x :: x in path ==> x in c
    ensures WellShaped(base, cycles + [c])
    ensures VisitedCovered(cycles + [c], visited + (set node | node in path))
  {
    CoveredGrows(cycles, c);
    var grown := cycles + [c];
    forall k | 0 <= k < |grown|
      ensures IsCycle(base, grown[k]) && |grown[k]| <= base * base
    {
      if k < |cycles| {
        assert grown[k] == cycles[k];
      }
    }
  }

  /** `enumerate_cycles(base)`: every returned cycle is a closed,
      repetition-free, canonically rotated walk of `T` in range; no cycle
      is returned twice; and every state in range lies on some returned
      cycle. */
  method EnumerateCycles(base: int) returns (unique: seq<seq<State>>)
    requires base >= 1
    ensures forall k :: 0 <= k < |unique| ==> IsCycle(base, unique[k])
    ensures forall k :: 0 <= k < |unique| ==> |unique[k]| <= base * base
    ensures forall i, j :: 0 <= i < j < |unique| ==> unique[i] != unique[j]
    ensures forall v :: InRange(base, v) ==> Covered(unique, v)
  {
    var visited: set<State> := {};
    var cycles: seq<seq<State>> := [];
    for a0 := 0 to base
      invariant WellShaped(base, cycles) && VisitedCovered(cycles, visited)
      invariant forall v :: InRange(base, v) && v.0 < a0 ==> v in visited
    {
      for b0 := 0 to base
        invariant WellShaped(base, cycles) && VisitedCovered(cycles, visited)
        invariant forall v :: InRange(base, v) && v.0 < a0 ==> v in visited
        invariant forall v :: InRange(base, v) && v.0 == a0 && v.1 < b0 ==> v in visited
      {
        var s := (a0, b0);
        if s in visited {
          continue;
        }
        visited, cycles := Explore(base, s, visited, cycles);
      }
    }
    unique := Dedup(cycles);
    FirstOccurrencesShape(cycles);
    forall k | 0 <= k < |unique|
      ensures IsCycle(base, unique[k]) && |unique[k]| <= base * base
    {
      assert unique[k] in cycles;
    }
    forall v | InRange(base, v)
      ensures Covered(unique, v)
    {
      assert v in visited;
      var k :| 0 <= k < |cycles| && v in cycles[k];
      assert cycles[k] in unique;
    }
  }
}
