/** `get_cycles`: validate the modulus, enumerate the cycles, optionally
    centre every state, and project each cycle to the sequence of its first
    components. */
module CyclesApi {
  import opened Types
  import opened FibStates
  import opened CycleShape
  import opened Enumerate
  import opened CircularPairs
  import opened Centered

  /** What `enumerate_cycles(base)` promises about its result. */
  ghost predicate Enumeration(base: int, cycles: seq<seq<State>>)
  {
    && base >= 1
    && (forall k :: 0 <= k < |cycles| ==> IsCycle(base, cycles[k]))
    && (forall i, j :: 0 <= i < j < |cycles| ==> cycles[i] != cycles[j])
    && (forall v :: InRange(base, v) ==> Covered(cycles, v))
  }

  /** The `Query(ge=1, le=700)` bounds on `base`. */
  predicate ValidBase(base: int)
  {
    1 <= base <= 700
  }

  function CenterAll(cycles: seq<seq<Pair>>, base: int): (r: seq<seq<Pair>>)
    ensures |r| == |cycles|
    ensures forall k :: 0 <= k < |cycles| ==> r[k] == CenterCycle(cycles[k], base)
  {
    seq(|cycles|, k requires 0 <= k < |cycles| => CenterCycle(cycles[k], base))
  }

  function UncenterAll(cycles: seq<seq<Pair>>, base: int): (r: seq<seq<Pair>>)
    requires base >= 1
    ensures |r| == |cycles|
    ensures forall k :: 0 <= k < |cycles| ==> r[k] == UncenterCycle(cycles[k], base)
  {
    seq(|cycles|, k requires 0 <= k < |cycles| => UncenterCycle(cycles[k], base))
  }

  /** `[[a for (a, b) in cyc] for cyc in ...]`. */
  function FirstsAll(cycles: seq<seq<Pair>>): (r: seq<seq<int>>)
    ensures |r| == |cycles|
    ensures forall k :: 0 <= k < |cycles| ==> r[k] == Firsts(cycles[k])
  {
    seq(|cycles|, k requires 0 <= k < |cycles| => Firsts(cycles[k]))
  }

  /** A closed walk of `T` is chained: each state's second component is
      the next state's first component. */
  lemma {:induction false} ClosedChained(base: int, c: seq<State>)
    requires base >= 1 && Closed(base, c)
    ensures Chained(c)
  {
    forall i, j | 0 <= i < |c| && j == (i + 1) % |c|
      ensures c[i].1 == c[j].0
    {
      assert Step(base, c[i]) == c[Next(i, |c|)];
      if i + 1 < |c| {
        assert j == i + 1;
      } else {
        assert j == 0;
      }
    }
  }

  /** No state lies on two different returned cycles: together with
      coverage, the cycles partition the state space. */
  lemma {:induction false} EnumerationPartitions(base: int, cycles: seq<seq<State>>)
    requires Enumeration(base, cycles)
    ensures forall v, i, j :: 0 <= i < |cycles| && 0 <= j < |cycles| && v in cycles[i] && v in cycles[j] ==> i == j
  {
    forall v, i, j | 0 <= i < |cycles| && 0 <= j < |cycles| && v in cycles[i] && v in cycles[j]
      ensures i == j
    {
      SharedStateSameCycle(base, cycles[i], cycles[j], v);
    }
  }

  /** The circular pairs of each projected sequence rebuild its cycle, raw
      or centred. */
  lemma {:induction false} ProjectionRebuilds(base: int, raw: seq<seq<State>>, centered: bool)
    requires base >= 1
    requires forall k :: 0 <= k < |raw| ==> IsCycle(base, raw[k])
    ensures var pairs := if centered then CenterAll(raw, base) else raw;
      forall k :: 0 <= k < |pairs| ==> Circular(FirstsAll(pairs)[k]) == pairs[k]
  {
    var pairs := if centered then CenterAll(raw, base) else raw;
    forall k | 0 <= k < |pairs|
      ensures Circular(FirstsAll(pairs)[k]) == pairs[k]
    {
      ClosedChained(base, raw[k]);
      if centered {
        CenterKeepsChained(raw[k], base);
      }
      CircularOfFirsts(pairs[k]);
    }
  }

  /** Centring a list of in-range cycles is undone by reduction, and every
      centred value lies in the centred window. */
  lemma {:induction false} CenterAllRoundTrip(base: int, raw: seq<seq<State>>)
    requires base >= 1
    requires forall k :: 0 <= k < |raw| ==> AllInRange(base, raw[k])
    ensures UncenterAll(CenterAll(raw, base), base) == raw
    ensures forall k, i :: 0 <= k < |raw| && 0 <= i < |raw[k]| ==>
      -base < 2 * FirstsAll(CenterAll(raw, base))[k][i] <= base
  {
    var pairs := CenterAll(raw, base);
    forall k | 0 <= k < |raw|
      ensures UncenterCycle(pairs[k], base) == raw[k]
    {
      UncenterCenterCycle(raw[k], base);
    }
    forall k, i | 0 <= k < |raw| && 0 <= i < |raw[k]|
      ensures -base < 2 * FirstsAll(pairs)[k][i] <= base
    {
      assert InRange(base, raw[k][i]);
      assert FirstsAll(pairs)[k][i] == ToCentered(raw[k][i].0, base);
    }
  }

  /** `get_cycles(base, centered)`. An out-of-range `base` is refused (the
      framework's 422 response). Otherwise the response carries `base`;
      each sequence is the first components of its cycle and the circular
      pairs of the sequence rebuild the cycle exactly, in both modes. Raw
      cycles satisfy the enumeration guarantees; centred cycles are the
      centring of cycles that do. */
  method GetCycles(base: int, centered: bool) returns (r: Option<CyclesResponse>)
    ensures r.None? <==> !ValidBase(base)
    ensures r.Some? ==> r.value.base == base
    ensures r.Some? ==> |r.value.sequences| == |r.value.cyclesPairs|
    ensures r.Some? ==> forall k :: 0 <= k < |r.value.cyclesPairs| ==>
      r.value.sequences[k] == Firsts(r.value.cyclesPairs[k])
    ensures r.Some? ==> forall k :: 0 <= k < |r.value.cyclesPairs| ==>
      Circular(r.value.sequences[k]) == r.value.cyclesPairs[k]
    ensures r.Some? && !centered ==> Enumeration(base, r.value.cyclesPairs)
    ensures r.Some? && centered ==>
      && Enumeration(base, UncenterAll(r.value.cyclesPairs, base))
      && r.value.cyclesPairs == CenterAll(UncenterAll(r.value.cyclesPairs, base), base)
    ensures r.Some? && centered ==> forall k, i :: 0 <= k < |r.value.sequences| && 0 <= i < |r.value.sequences[k]| ==>
      -base < 2 * r.value.sequences[k][i] <= base
  {
    if !ValidBase(base) {
      return None;
    }
    var raw := EnumerateCycles(base);
    var pairs := if centered then CenterAll(raw, base) else raw;
    ProjectionRebuilds(base, raw, centered);
    if centered {
      CenterAllRoundTrip(base, raw);
    }
    r := Some(CyclesResponse(base, FirstsAll(pairs), pairs));
  }
}
