/** The cycles for the small moduli the `/cycles` documentation lists,
    and the proof that any result meeting the enumeration guarantees is
    exactly these cycles. */
module KnownCycles {
  import opened Types
  import opened FibStates
  import opened CycleShape
  import opened Enumerate
  import opened CircularPairs
  import opened CyclesApi

  /** `Closed`, checked one position at a time from position `i`. */
  predicate StepsFrom(base: int, c: seq<State>, i: nat)
    requires base >= 1
    decreases |c| - i
  {
    i >= |c| || (Step(base, c[i]) == c[Next(i, |c|)] && StepsFrom(base, c, i + 1))
  }

  lemma {:induction false} StepsFromClosed(base: int, c: seq<State>, i: nat)
    requires base >= 1 && StepsFrom(base, c, i)
    ensures forall j :: i <= j < |c| ==> Step(base, c[j]) == c[Next(j, |c|)]
    decreases |c| - i
  {
    if i < |c| {
      StepsFromClosed(base, c, i + 1);
    }
  }

  /** The fixed point (0, 0): a cycle of length one for every modulus. */
  const ZeroCycle: seq<State> := [(0, 0)]

  lemma ZeroCycleShape(base: int)
    requires base >= 1
    ensures IsCycle(base, ZeroCycle) && Firsts(ZeroCycle) == [0]
  {
    assert Step(base, (0, 0)) == (0, 0);
  }

  /** The cycle modulo 2 through (0, 1). */
  const Mod2Cycle: seq<State> := [(0, 1), (1, 1), (1, 0)]

  lemma Mod2CycleClosed()
    ensures Closed(2, Mod2Cycle)
  {
    assert StepsFrom(2, Mod2Cycle, 0);
    StepsFromClosed(2, Mod2Cycle, 0);
  }

  lemma Mod2CycleShape()
    ensures IsCycle(2, Mod2Cycle)
  {
    Mod2CycleClosed();
    assert Simple(Mod2Cycle);
  }

  lemma Mod2CycleFirsts()
    ensures Firsts(Mod2Cycle) == [0, 1, 1]
  {
  }

  /** The cycles modulo 2, each from its least state. */
  const Cycles2: seq<seq<State>> := [ZeroCycle, Mod2Cycle]

  /** The cycles modulo 2 have the returned shape. */
  lemma Cycles2Shape()
    ensures forall k :: 0 <= k < |Cycles2| ==> IsCycle(2, Cycles2[k])
  {
    ZeroCycleShape(2);
    Mod2CycleShape();
  }

  /** The cycles modulo 2 are pairwise different and all start at a state
      (0, b). */
  lemma Cycles2Distinct()
    ensures forall i, j :: 0 <= i < j < |Cycles2| ==> Cycles2[i] != Cycles2[j]
    ensures forall k :: 0 <= k < |Cycles2| ==> Cycles2[k][0].0 == 0
  {
  }

  /** The projections of the cycles modulo 2. */
  lemma Cycles2Firsts()
    ensures FirstsAll(Cycles2) == [[0], [0, 1, 1]]
  {
    ZeroCycleShape(2);
    Mod2CycleFirsts();
  }

  /** The cycles modulo 2 cover all four states. */
  lemma Cycles2Cover()
    ensures forall v :: InRange(2, v) ==> Covered(Cycles2, v)
  {
    forall v | InRange(2, v)
      ensures Covered(Cycles2, v)
    {
      if v.0 == 0 {
        if v.1 == 0 { assert v in Cycles2[0]; }
        else { assert v in Cycles2[1]; }
      } else {
        if v.1 == 0 { assert v in Cycles2[1]; }
        else { assert v in Cycles2[1]; }
      }
    }
  }

  /** The cycle modulo 3 through (0, 1). */
  const Mod3Cycle: seq<State> := [(0, 1), (1, 1), (1, 2), (2, 0), (0, 2), (2, 2), (2, 1), (1, 0)]

  lemma Mod3CycleClosed()
    ensures Closed(3, Mod3Cycle)
  {
    assert StepsFrom(3, Mod3Cycle, 0);
    StepsFromClosed(3, Mod3Cycle, 0);
  }

  lemma Mod3CycleShape()
    ensures IsCycle(3, Mod3Cycle)
  {
    Mod3CycleClosed();
    assert Simple(Mod3Cycle);
  }

  lemma Mod3CycleFirsts()
    ensures Firsts(Mod3Cycle) == [0, 1, 1, 2, 0, 2, 2, 1]
  {
  }

  /** The cycles modulo 3, each from its least state. */
  const Cycles3: seq<seq<State>> := [ZeroCycle, Mod3Cycle]

  /** The cycles modulo 3 have the returned shape. */
  lemma Cycles3Shape()
    ensures forall k :: 0 <= k < |Cycles3| ==> IsCycle(3, Cycles3[k])
  {
    ZeroCycleShape(3);
    Mod3CycleShape();
  }

  /** The cycles modulo 3 are pairwise different and all start at a state
      (0, b). */
  lemma Cycles3Distinct()
    ensures forall i, j :: 0 <= i < j < |Cycles3| ==> Cycles3[i] != Cycles3[j]
    ensures forall k :: 0 <= k < |Cycles3| ==> Cycles3[k][0].0 == 0
  {
  }

  /** The projections of the cycles modulo 3. */
  lemma Cycles3Firsts()
    ensures FirstsAll(Cycles3) == [[0], [0, 1, 1, 2, 0, 2, 2, 1]]
  {
    ZeroCycleShape(3);
    Mod3CycleFirsts();
  }

  /** The cycles modulo 3 cover all nine states. */
  lemma Cycles3Cover()
    ensures forall v :: InRange(3, v) ==> Covered(Cycles3, v)
  {
    forall v | InRange(3, v)
      ensures Covered(Cycles3, v)
    {
      if v.0 == 0 {
        if v.1 == 0 { assert v in Cycles3[0]; }
        else if v.1 == 1 { assert v in Cycles3[1]; }
        else { assert v in Cycles3[1]; }
      } else if v.0 == 1 {
        if v.1 == 0 { assert v in Cycles3[1]; }
        else if v.1 == 1 { assert v in Cycles3[1]; }
        else { assert v in Cycles3[1]; }
      } else {
        if v.1 == 0 { assert v in Cycles3[1]; }
        else if v.1 == 1 { assert v in Cycles3[1]; }
        else { assert v in Cycles3[1]; }
      }
    }
  }

  /** The cycle modulo 4 through (0, 1). */
  const Mod4From01: seq<State> := [(0, 1), (1, 1), (1, 2), (2, 3), (3, 1), (1, 0)]

  lemma Mod4From01Closed()
    ensures Closed(4, Mod4From01)
  {
    assert StepsFrom(4, Mod4From01, 0);
    StepsFromClosed(4, Mod4From01, 0);
  }

  lemma Mod4From01Shape()
    ensures IsCycle(4, Mod4From01)
  {
    Mod4From01Closed();
    assert Simple(Mod4From01);
  }

  lemma Mod4From01Firsts()
    ensures Firsts(Mod4From01) == [0, 1, 1, 2, 3, 1]
  {
  }

  /** The cycle modulo 4 through (0, 2). */
  const Mod4From02: seq<State> := [(0, 2), (2, 2), (2, 0)]

  lemma Mod4From02Closed()
    ensures Closed(4, Mod4From02)
  {
    assert StepsFrom(4, Mod4From02, 0);
    StepsFromClosed(4, Mod4From02, 0);
  }

  lemma Mod4From02Shape()
    ensures IsCycle(4, Mod4From02)
  {
    Mod4From02Closed();
    assert Simple(Mod4From02);
  }

  lemma Mod4From02Firsts()
    ensures Firsts(Mod4From02) == [0, 2, 2]
  {
  }

  /** The cycle modulo 4 through (0, 3). */
  const Mod4From03: seq<State> := [(0, 3), (3, 3), (3, 2), (2, 1), (1, 3), (3, 0)]

  lemma Mod4From03Closed()
    ensures Closed(4, Mod4From03)
  {
    assert StepsFrom(4, Mod4From03, 0);
    StepsFromClosed(4, Mod4From03, 0);
  }

  lemma Mod4From03Shape()
    ensures IsCycle(4, Mod4From03)
  {
    Mod4From03Closed();
    assert Simple(Mod4From03);
  }

  lemma Mod4From03Firsts()
    ensures Firsts(Mod4From03) == [0, 3, 3, 2, 1, 3]
  {
  }

  /** The cycles modulo 4, each from its least state. */
  const Cycles4: seq<seq<State>> := [ZeroCycle, Mod4From01, Mod4From02, Mod4From03]

  /** The cycles modulo 4 have the returned shape. */
  lemma Cycles4Shape()
    ensures forall k :: 0 <= k < |Cycles4| ==> IsCycle(4, Cycles4[k])
  {
    ZeroCycleShape(4);
    Mod4From01Shape();
    Mod4From02Shape();
    Mod4From03Shape();
  }

  /** The cycles modulo 4 are pairwise different and all start at a state
      (0, b). */
  lemma Cycles4Distinct()
    ensures forall i, j :: 0 <= i < j < |Cycles4| ==> Cycles4[i] != Cycles4[j]
    ensures forall k :: 0 <= k < |Cycles4| ==> Cycles4[k][0].0 == 0
  {
  }

  /** The projections of the cycles modulo 4. */
  lemma Cycles4Firsts()
    ensures FirstsAll(Cycles4) == [[0], [0, 1, 1, 2, 3, 1], [0, 2, 2], [0, 3, 3, 2, 1, 3]]
  {
    ZeroCycleShape(4);
    Mod4From01Firsts();
    Mod4From02Firsts();
    Mod4From03Firsts();
  }

  /** The cycles modulo 4 cover all sixteen states. */
  lemma Cycles4Cover()
    ensures forall v :: InRange(4, v) ==> Covered(Cycles4, v)
  {
    forall v | InRange(4, v)
      ensures Covered(Cycles4, v)
    {
      if v.0 == 0 {
        if v.1 == 0 { assert v in Cycles4[0]; }
        else if v.1 == 1 { assert v in Cycles4[1]; }
        else if v.1 == 2 { assert v in Cycles4[2]; }
        else { assert v in Cycles4[3]; }
      } else if v.0 == 1 {
        if v.1 == 0 { assert v in Cycles4[1]; }
        else if v.1 == 1 { assert v in Cycles4[1]; }
        else if v.1 == 2 { assert v in Cycles4[1]; }
        else { assert v in Cycles4[3]; }
      } else if v.0 == 2 {
        if v.1 == 0 { assert v in Cycles4[2]; }
        else if v.1 == 1 { assert v in Cycles4[3]; }
        else if v.1 == 2 { assert v in Cycles4[2]; }
        else { assert v in Cycles4[1]; }
      } else {
        if v.1 == 0 { assert v in Cycles4[3]; }
        else if v.1 == 1 { assert v in Cycles4[1]; }
        else if v.1 == 2 { assert v in Cycles4[3]; }
        else { assert v in Cycles4[3]; }
      }
    }
  }

  /** A repetition-free list has as many distinct elements as entries. */
  lemma {:induction false} DistinctCard(xs: seq<seq<State>>)
    requires forall i, j :: 0 <= i < j < |xs| ==> xs[i] != xs[j]
    ensures |set c | c in xs| == |xs|
  {
    if xs != [] {
      var init := xs[..|xs| - 1];
      DistinctCard(init);
      assert xs == init + [xs[|xs| - 1]];
      assert (set c | c in xs) == (set c | c in init) + {xs[|xs| - 1]};
    }
  }

  /** Every cycle of one list meeting the enumeration guarantees is a
      cycle of any other such list: the other list has the cycle through
      its least state, and that cycle is this one. */
  lemma {:induction false} EnumerationIncluded(base: int, cycles: seq<seq<State>>, other: seq<seq<State>>)
    requires Enumeration(base, cycles) && Enumeration(base, other)
    ensures forall c :: c in cycles ==> c in other
  {
    forall c | c in cycles
      ensures c in other
    {
      var i :| 0 <= i < |cycles| && cycles[i] == c;
      assert IsCycle(base, c);
      assert InRange(base, c[0]);
      assert Covered(other, c[0]);
      var k :| 0 <= k < |other| && c[0] in other[k];
      SharedStateSameCycle(base, c, other[k], c[0]);
    }
  }

  /** Two lists meeting the enumeration guarantees for the same modulus
      hold the same cycles, as many of each: the cycle through a state is
      unique. */
  lemma {:induction false} EnumerationUnique(base: int, cycles: seq<seq<State>>, other: seq<seq<State>>)
    requires Enumeration(base, cycles) && Enumeration(base, other)
    ensures forall c :: c in cycles <==> c in other
    ensures |cycles| == |other|
  {
    EnumerationIncluded(base, cycles, other);
    EnumerationIncluded(base, other, cycles);
    DistinctCard(cycles);
    DistinctCard(other);
    assert (set c | c in cycles) == (set c | c in other);
  }

  /** Modulo 2 the sequences are [0] and [0, 1, 1]; the rotation [1, 1, 0]
      is not returned. */
  lemma Base2Sequences(cycles: seq<seq<State>>)
    requires Enumeration(2, cycles)
    ensures |cycles| == 2
    ensures forall s :: s in FirstsAll(cycles) <==> s in [[0], [0, 1, 1]]
    ensures [1, 1, 0] !in FirstsAll(cycles)
  {
    assert |cycles| == 2 && forall c :: c in cycles <==> c in Cycles2 by {
      Cycles2Shape();
      Cycles2Distinct();
      Cycles2Cover();
      assert Enumeration(2, Cycles2);
      EnumerationUnique(2, cycles, Cycles2);
    }
    KnownSequences(cycles, Cycles2);
    Cycles2Firsts();
  }

  /** Modulo 3 the sequences are [0] and [0, 1, 1, 2, 0, 2, 2, 1]; the
      rotation [1, 1, 2, 0, 2, 2, 1, 0] is not returned. */
  lemma Base3Sequences(cycles: seq<seq<State>>)
    requires Enumeration(3, cycles)
    ensures |cycles| == 2
    ensures forall s :: s in FirstsAll(cycles) <==> s in [[0], [0, 1, 1, 2, 0, 2, 2, 1]]
    ensures [1, 1, 2, 0, 2, 2, 1, 0] !in FirstsAll(cycles)
  {
    assert |cycles| == 2 && forall c :: c in cycles <==> c in Cycles3 by {
      Cycles3Shape();
      Cycles3Distinct();
      Cycles3Cover();
      assert Enumeration(3, Cycles3);
      EnumerationUnique(3, cycles, Cycles3);
    }
    KnownSequences(cycles, Cycles3);
    Cycles3Firsts();
  }

  /** Modulo 4 the sequences are [0], [0, 1, 1, 2, 3, 1], [0, 2, 2] and
      [0, 3, 3, 2, 1, 3]; the rotation [1, 1, 2, 3, 1, 0] is not returned. */
  lemma Base4Sequences(cycles: seq<seq<State>>)
    requires Enumeration(4, cycles)
    ensures |cycles| == 4
    ensures forall s :: s in FirstsAll(cycles) <==>
      s in [[0], [0, 1, 1, 2, 3, 1], [0, 2, 2], [0, 3, 3, 2, 1, 3]]
    ensures [1, 1, 2, 3, 1, 0] !in FirstsAll(cycles)
  {
    assert |cycles| == 4 && forall c :: c in cycles <==> c in Cycles4 by {
      Cycles4Shape();
      Cycles4Distinct();
      Cycles4Cover();
      assert Enumeration(4, Cycles4);
      EnumerationUnique(4, cycles, Cycles4);
    }
    KnownSequences(cycles, Cycles4);
    Cycles4Firsts();
    assert [1, 1, 2, 3, 1, 0] !in FirstsAll(cycles) by {
      Cycles4Distinct();
      StartsAtZero(cycles, Cycles4);
    }
  }

  /** A list drawn from cycles that all start at a state (0, b) projects
      to sequences that all start with 0. */
  lemma StartsAtZero(cycles: seq<seq<State>>, known: seq<seq<State>>)
    requires forall k :: 0 <= k < |known| ==> |known[k]| > 0 && known[k][0].0 == 0
    requires forall c :: c in cycles ==> c in known
    ensures forall s :: s in FirstsAll(cycles) ==> |s| > 0 && s[0] == 0
  {
    forall s | s in FirstsAll(cycles)
      ensures |s| > 0 && s[0] == 0
    {
      var k :| 0 <= k < |cycles| && FirstsAll(cycles)[k] == s;
      assert cycles[k] in known;
    }
  }

  /** Lists holding the same cycles have the same projected sequences. */
  lemma KnownSequences(cycles: seq<seq<State>>, known: seq<seq<State>>)
    requires forall c :: c in cycles <==> c in known
    ensures forall s :: s in FirstsAll(cycles) <==> s in FirstsAll(known)
  {
    forall s | s in FirstsAll(cycles)
      ensures s in FirstsAll(known)
    {
      var k :| 0 <= k < |cycles| && FirstsAll(cycles)[k] == s;
      assert cycles[k] in known;
    }
    forall s | s in FirstsAll(known)
      ensures s in FirstsAll(cycles)
    {
      var k :| 0 <= k < |known| && FirstsAll(known)[k] == s;
      assert known[k] in cycles;
    }
  }
}
