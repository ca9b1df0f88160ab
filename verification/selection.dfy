/** The `active` record: which series are drawn. An absent entry reads as
    inactive, exactly as `active[idx]` is `undefined` (falsy) in the source. */
module Selection {

  type Active = map<nat, bool>

  /** `!!active[idx]`: series `idx` is drawn. */
  predicate IsOn(active: Active, idx: nat)
  {
    idx in active && active[idx]
  }

  /** The series currently drawn. */
  function OnSet(active: Active): set<nat>
  {
    set k | k in active && active[k]
  }

  /** Clicking a series' button: its entry becomes the negation of its
      current state and every other entry is left as it was. */
  function Toggle(active: Active, idx: nat): (r: Active)
    ensures idx in r && IsOn(r, idx) == !IsOn(active, idx)
    ensures r.Keys == active.Keys + {idx}
    ensures forall j :: j in active && j != idx ==> r[j] == active[j]
  {
    active[idx := !IsOn(active, idx)]
  }

  /** `setActive({})`, both on a new response and on the clear button:
      no series is drawn and nothing is counted as selected. */
  function Reset(): (r: Active)
    ensures forall j: nat :: !IsOn(r, j)
    ensures SelectedCount(r) == 0
  {
    map[]
  }

  /** `Object.values(active).filter(Boolean).length`. */
  function SelectedCount(active: Active): (n: nat)
    ensures n <= |active|
  {
    var on := OnSet(active);
    assert on <= active.Keys;
    SubsetCard(on, active.Keys);
    |on|
  }

  lemma SubsetCard(a: set<nat>, b: set<nat>)
    requires a <= b
    ensures |a| <= |b|
  {
    assert b == a + (b - a);
  }

  /** The count is the number of series for which `IsOn` holds. */
  lemma {:induction false} SelectedCountCountsOn(active: Active, n: nat)
    requires forall k :: k in active ==> k < n
    ensures SelectedCount(active) == |set j | 0 <= j < n && IsOn(active, j)|
  {
    assert OnSet(active) == set j | 0 <= j < n && IsOn(active, j);
  }

  /** A toggle adds or removes exactly the toggled series. */
  lemma ToggleOnSet(active: Active, idx: nat)
    ensures IsOn(active, idx) ==> OnSet(Toggle(active, idx)) == OnSet(active) - {idx}
    ensures !IsOn(active, idx) ==> OnSet(Toggle(active, idx)) == OnSet(active) + {idx}
  {
    var r := Toggle(active, idx);
    forall k
      ensures k in OnSet(r) <==> (k in OnSet(active) && k != idx) || (k == idx && !IsOn(active, idx))
    {
      if k != idx {
        assert IsOn(r, k) == IsOn(active, k);
      }
    }
  }

  /** A toggle changes the selected count by exactly one: down when the
      series was on, up when it was off. */
  lemma {:induction false} ToggleCount(active: Active, idx: nat)
    ensures IsOn(active, idx) ==> SelectedCount(Toggle(active, idx)) == SelectedCount(active) - 1
    ensures !IsOn(active, idx) ==> SelectedCount(Toggle(active, idx)) == SelectedCount(active) + 1
  {
    var r := Toggle(active, idx);
    ToggleOnSet(active, idx);
    if IsOn(active, idx) {
      assert OnSet(active) == OnSet(r) + {idx};
    } else {
      assert OnSet(r) == OnSet(active) + {idx};
    }
  }
}
