/** The Fibonacci-like state map `T(a, b) = (b, (a + b) mod base)` on the
    finite state space `[0, base)²`. */
module FibStates {
  import opened Types
  import opened Arith

  type State = Pair

  predicate InRange(base: int, s: State)
  {
    0 <= s.0 < base && 0 <= s.1 < base
  }

  /** `T`: shift the pair and append the sum reduced modulo `base`. States
      in range stay in range, and the new first component is the old
      second one, which is what chains consecutive states. */
  function Step(base: int, s: State): (t: State)
    requires base >= 1
    ensures t.0 == s.1
    ensures InRange(base, s) ==> InRange(base, t)
  {
    (s.1, (s.0 + s.1) % base)
  }

  /** The inverse map: the predecessor of a state. */
  function Unstep(base: int, t: State): State
    requires base >= 1
  {
    ((t.1 - t.0) % base, t.0)
  }

  lemma ModOfSum(base: int, x: int, y: int)
    requires base >= 1 && 0 <= x < base && 0 <= y < base
    ensures (x + y) % base == if x + y < base then x + y else x + y - base
  {
    if x + y < base {
      DivModUnique(x + y, base, 0, x + y);
    } else {
      DivModUnique(x + y, base, 1, x + y - base);
    }
  }

  lemma ModOfDiff(base: int, x: int, y: int)
    requires base >= 1 && 0 <= x < base && 0 <= y < base
    ensures (x - y) % base == if x >= y then x - y else x - y + base
  {
    if x >= y {
      DivModUnique(x - y, base, 0, x - y);
    } else {
      DivModUnique(x - y, base, -1, x - y + base);
    }
  }

  /** `T` is a bijection of the state space: `Unstep` undoes it on both
      sides. */
  lemma {:induction false} StepInverse(base: int, s: State)
    requires base >= 1 && InRange(base, s)
    ensures Unstep(base, Step(base, s)) == s
    ensures InRange(base, Unstep(base, s)) && Step(base, Unstep(base, s)) == s
  {
    var a, b := s.0, s.1;
    ModOfSum(base, a, b);
    var c := (a + b) % base;
    assert Step(base, s) == (b, c);
    ModOfDiff(base, c, b);
    assert Unstep(base, (b, c)) == (a, b);
    ModOfDiff(base, b, a);
    var p := (b - a) % base;
    assert Unstep(base, s) == (p, a);
    ModOfSum(base, p, a);
    assert Step(base, (p, a)) == (a, b);
  }

  /** Distinct states in range have distinct successors. */
  lemma {:induction false} StepInjective(base: int, p: State, q: State)
    requires base >= 1 && InRange(base, p) && InRange(base, q)
    requires Step(base, p) == Step(base, q)
    ensures p == q
  {
    StepInverse(base, p);
    StepInverse(base, q);
  }

  /** Every state of `[0, base)²`. */
  function StateSpace(base: nat): (space: set<State>)
    ensures forall s :: s in space <==> InRange(base, s)
  {
    set a, b | 0 <= a < base && 0 <= b < base :: (a, b)
  }

  function RowPrefix(a: int, n: nat): set<State>
  {
    set b | 0 <= b < n :: (a, b)
  }

  lemma {:induction false} RowPrefixCard(a: int, n: nat)
    ensures |RowPrefix(a, n)| == n
  {
    if n > 0 {
      RowPrefixCard(a, n - 1);
      assert RowPrefix(a, n) == RowPrefix(a, n - 1) + {(a, n - 1)};
    }
  }

  function RowsBelow(base: nat, k: nat): set<State>
  {
    set a, b | 0 <= a < k && 0 <= b < base :: (a, b)
  }

  lemma {:induction false} RowsBelowCard(base: nat, k: nat)
    ensures |RowsBelow(base, k)| == k * base
  {
    if k > 0 {
      RowsBelowCard(base, k - 1);
      RowPrefixCard(k - 1, base);
      var lower, row := RowsBelow(base, k - 1), RowPrefix(k - 1, base);
      assert RowsBelow(base, k) == lower + row;
      assert lower !! row;
      assert |lower + row| == |lower| + |row|;
      assert (k - 1) * base + base == k * base;
    }
  }

  /** The state space has exactly `base * base` states: the bound on any
      walk's length. */
  lemma {:induction false} StateSpaceCard(base: nat)
    ensures |StateSpace(base)| == base * base
  {
    RowsBelowCard(base, base);
    assert StateSpace(base) == RowsBelow(base, base);
  }

  /** A set of states in range has at most `base * base` members, and
      fewer when some state in range is missing from it. */
  lemma {:induction false} RangeSetCard(base: nat, xs: set<State>, missing: State)
    requires forall x :: x in xs ==> InRange(base, x)
    ensures |xs| <= base * base
    ensures InRange(base, missing) && missing !in xs ==> |xs| < base * base
  {
    StateSpaceCard(base);
    var space := StateSpace(base);
    assert space == xs + (space - xs);
    if InRange(base, missing) && missing !in xs {
      assert missing in space - xs;
    }
  }

  /** Python's tuple order on states: by first component, then second. */
  predicate LexLe(p: State, q: State)
  {
    p.0 < q.0 || (p.0 == q.0 && p.1 <= q.1)
  }

  predicate LexLt(p: State, q: State)
  {
    p.0 < q.0 || (p.0 == q.0 && p.1 < q.1)
  }

  /** `k` applications of `T`. */
  function Iter(base: int, s: State, k: nat): State
    requires base >= 1
  {
    if k == 0 then s else Step(base, Iter(base, s, k - 1))
  }

  lemma {:induction false} IterAdd(base: int, s: State, a: nat, b: nat)
    requires base >= 1
    ensures Iter(base, s, a + b) == Iter(base, Iter(base, s, a), b)
  {
    if b > 0 {
      IterAdd(base, s, a, b - 1);
    }
  }
}
