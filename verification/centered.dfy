/** `to_centered` and the centred form of a cycle: residues above half the
    modulus are shifted down by the modulus. */
module Centered {
  import opened Types
  import opened CircularPairs
  import opened Arith

  /** `to_centered(x, base)`: `x - base` when `x > base / 2` under true
      (floating-point) division, otherwise `x`. The result differs from
      `x` by a multiple of the modulus, and a residue maps into the
      window (-base/2, base/2]. */
  function ToCentered(x: int, base: int): (r: int)
    ensures r == x || r == x - base
    ensures 0 <= x < base ==> -base < 2 * r <= base
    ensures 2 * x > base ==> r == x - base
    ensures 2 * x <= base ==> r == x
  {
    if (x as real) > (base as real) / 2.0 then x - base else x
  }

  /** The residue a centred value stands for. */
  function Uncenter(r: int, base: int): (x: int)
    requires base >= 1
    ensures 0 <= x < base
  {
    r % base
  }

  /** Centring is undone by reduction modulo `base` on residues, and
      reduction is undone by centring on the centred window: the two are
      inverse bijections between [0, base) and (-base/2, base/2]. */
  lemma {:induction false} CenteredRoundTrip(base: int, x: int, r: int)
    requires base >= 1
    ensures 0 <= x < base ==> Uncenter(ToCentered(x, base), base) == x
    ensures -base < 2 * r <= base ==> ToCentered(Uncenter(r, base), base) == r
  {
    if 0 <= x < base {
      if 2 * x > base {
        DivModUnique(x - base, base, -1, x);
      } else {
        DivModUnique(x, base, 0, x);
      }
    }
    if -base < 2 * r <= base {
      if r < 0 {
        DivModUnique(r, base, -1, r + base);
      } else {
        DivModUnique(r, base, 0, r);
      }
    }
  }

  /** Distinct residues stay distinct after centring. */
  lemma {:induction false} CenteredInjective(base: int, x: int, y: int)
    requires base >= 1 && 0 <= x < base && 0 <= y < base
    ensures ToCentered(x, base) == ToCentered(y, base) ==> x == y
  {
    CenteredRoundTrip(base, x, 0);
    CenteredRoundTrip(base, y, 0);
  }

  /** Both components of a state centred. */
  function CenterPair(p: Pair, base: int): (q: Pair)
    ensures q.0 == ToCentered(p.0, base) && q.1 == ToCentered(p.1, base)
  {
    (ToCentered(p.0, base), ToCentered(p.1, base))
  }

  /** The list comprehension over one cycle: every state centred, in
      order. */
  function CenterCycle(c: seq<Pair>, base: int): (d: seq<Pair>)
    ensures |d| == |c|
    ensures forall i :: 0 <= i < |c| ==> d[i] == CenterPair(c[i], base)
  {
    if c == [] then [] else [CenterPair(c[0], base)] + CenterCycle(c[1..], base)
  }

  /** Centring maps components one by one, so a chained pair sequence
      stays chained. */
  lemma {:induction false} CenterKeepsChained(c: seq<Pair>, base: int)
    requires Chained(c)
    ensures Chained(CenterCycle(c, base))
  {
    var d := CenterCycle(c, base);
    forall i, j | 0 <= i < |d| && j == (i + 1) % |d|
      ensures d[i].1 == d[j].0
    {
      assert c[i].1 == c[j].0;
    }
  }

  /** Reduction of both components of a centred state. */
  function UncenterPair(q: Pair, base: int): (p: Pair)
    requires base >= 1
  {
    (Uncenter(q.0, base), Uncenter(q.1, base))
  }

  function UncenterCycle(d: seq<Pair>, base: int): (c: seq<Pair>)
    requires base >= 1
    ensures |c| == |d|
    ensures forall i :: 0 <= i < |d| ==> c[i] == UncenterPair(d[i], base)
  {
    if d == [] then [] else [UncenterPair(d[0], base)] + UncenterCycle(d[1..], base)
  }

  /** A cycle of residue states is recovered from its centred form. */
  lemma {:induction false} UncenterCenterCycle(c: seq<Pair>, base: int)
    requires base >= 1
    requires forall i :: 0 <= i < |c| ==> 0 <= c[i].0 < base && 0 <= c[i].1 < base
    ensures UncenterCycle(CenterCycle(c, base), base) == c
  {
    var d := UncenterCycle(CenterCycle(c, base), base);
    forall i | 0 <= i < |c|
      ensures d[i] == c[i]
    {
      CenteredRoundTrip(base, c[i].0, 0);
      CenteredRoundTrip(base, c[i].1, 0);
    }
  }
}
