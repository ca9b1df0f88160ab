/** The `grid` memo: every active series' circular pairs indexed by cell,
    each cell holding the stack of entries appended to it. */
module CellIndex {
  import opened Types
  import opened CircularPairs
  import opened Palette
  import opened Selection

  /** One stack entry: the cell's coordinates (the source's label) and the
      contributing series' colour. */
  datatype Entry = Entry(cell: Pair, color: Color)

  type Cells = map<Pair, seq<Entry>>

  /** The `{ cells, size }` value the memo returns. */
  datatype GridModel = GridModel(cells: Cells, size: int)

  /** `cells[key] || []`. In an index that holds no empty stack, the
      empty default is read exactly for the cells that are not keys. */
  function Stack(cells: Cells, key: Pair): (s: seq<Entry>)
    ensures s != [] ==> key in cells
    ensures (forall k :: k in cells ==> cells[k] != []) ==> (s == [] <==> key !in cells)
  {
    if key in cells then cells[key] else []
  }

  /** Reference definition of what one series appends to cell `key`: one
      entry per pair equal to `key`, in pair order. */
  function Visits(pairs: seq<Pair>, key: Pair, color: Color): seq<Entry>
  {
    if pairs == [] then []
    else
      Visits(pairs[..|pairs| - 1], key, color)
      + (if pairs[|pairs| - 1] == key then [Entry(key, color)] else [])
  }

  /** Reference definition of a cell's stack: the visits of series
      `0 .. n-1`, in ascending series index, skipping inactive series. */
  function Contributions(sequences: seq<seq<int>>, active: Active, key: Pair, n: nat): seq<Entry>
    requires n <= |sequences|
  {
    if n == 0 then []
    else
      Contributions(sequences, active, key, n - 1)
      + (if IsOn(active, n - 1) then Visits(Circular(sequences[n - 1]), key, ColorOf(n - 1)) else [])
  }

  lemma Assoc<T>(a: seq<T>, b: seq<T>, c: seq<T>)
    ensures (a + b) + c == a + (b + c)
  {
  }

  lemma VisitsStep(pairs: seq<Pair>, j: nat, color: Color)
    requires j < |pairs|
    ensures forall key ::
      Visits(pairs[..j + 1], key, color) == Visits(pairs[..j], key, color) + (if pairs[j] == key then [Entry(key, color)] else [])
  {
    assert pairs[..j + 1][..j] == pairs[..j];
  }

  /** Appending one entry to `key`'s stack: `key` gains the entry at its
      top and every other cell keeps its stack. */
  function Push(cells: Cells, key: Pair, e: Entry): (r: Cells)
    ensures Stack(r, key) == Stack(cells, key) + [e]
    ensures forall k :: k != key ==> Stack(r, k) == Stack(cells, k)
    ensures r.Keys == cells.Keys + {key}
  {
    var created := if key !in cells then cells[key := []] else cells;
    created[key := created[key] + [e]]
  }

  /** `pairs.forEach(...)` for one series: each pair appends an entry of
      the series' colour to its own cell, so every cell gains exactly that
      series' visits on top of what it held, and no stack is left empty. */
  method AppendPairs(cells: Cells, pairs: seq<Pair>, color: Color) returns (r: Cells)
    requires forall key :: key in cells ==> cells[key] != []
    ensures forall key :: Stack(r, key) == Stack(cells, key) + Visits(pairs, key, color)
    ensures forall key :: key in r ==> r[key] != []
  {
    r := cells;
    for j := 0 to |pairs|
      invariant forall key :: Stack(r, key) == Stack(cells, key) + Visits(pairs[..j], key, color)
      invariant forall key :: key in r ==> r[key] != []
    {
      var key := pairs[j];
      ghost var before := r;
      r := Push(r, key, Entry(key, color));
      forall k
        ensures Stack(r, k) == Stack(cells, k) + Visits(pairs[..j + 1], k, color)
      {
        VisitsStep(pairs, j, color);
        if k == key {
          Assoc(Stack(cells, k), Visits(pairs[..j], k, color), [Entry(key, color)]);
        } else {
          assert Stack(r, k) == Stack(before, k);
        }
      }
    }
    assert pairs[..|pairs|] == pairs;
  }

  /** The cell-index builder of the `grid` memo: series in ascending index,
      inactive ones skipped, each pair appending `{label, color}` to its
      cell's stack, a stack created on first use. Every cell's stack is
      exactly its reference contributions, and a cell is present exactly
      when that stack is non-empty. */
  method BuildCells(sequences: seq<seq<int>>, active: Active) returns (cells: Cells)
    ensures forall key :: Stack(cells, key) == Contributions(sequences, active, key, |sequences|)
    ensures forall key :: key in cells <==> Contributions(sequences, active, key, |sequences|) != []
  {
    cells := map[];
    for idx := 0 to |sequences|
      invariant forall key :: Stack(cells, key) == Contributions(sequences, active, key, idx)
      invariant forall key :: key in cells ==> cells[key] != []
    {
      if !IsOn(active, idx) {
        assert forall key ::
          Contributions(sequences, active, key, idx + 1) == Contributions(sequences, active, key, idx);
        continue;
      }
      var color := ColorOf(idx);
      var pairs := Circular(sequences[idx]);
      cells := AppendPairs(cells, pairs, color);
      assert forall key ::
        Contributions(sequences, active, key, idx + 1) == Contributions(sequences, active, key, idx) + Visits(pairs, key, color);
    }
  }

  /** The `grid` memo: no response yields no cells and the requested base
      as size; otherwise the built index and the response's base. */
  method Grid(data: Option<CyclesResponse>, active: Active, base: int) returns (g: GridModel)
    ensures data.None? ==> g.cells == map[] && g.size == base
    ensures data.Some? ==> g.size == data.value.base
    ensures data.Some? ==> forall key ::
      Stack(g.cells, key) == Contributions(data.value.sequences, active, key, |data.value.sequences|)
    ensures data.Some? ==> forall key ::
      key in g.cells <==> Contributions(data.value.sequences, active, key, |data.value.sequences|) != []
  {
    if data.None? {
      return GridModel(map[], base);
    }
    var cells := BuildCells(data.value.sequences, active);
    g := GridModel(cells, data.value.base);
  }

  /** The stacks determine the index: any two maps whose stacks agree
      everywhere and which hold no empty stack are equal, so rebuilding
      from the same inputs yields the same keys and the same stack order. */
  lemma {:induction false} CellsDeterminedByStacks(c1: Cells, c2: Cells)
    requires forall key :: Stack(c1, key) == Stack(c2, key)
    requires forall key :: key in c1 ==> c1[key] != []
    requires forall key :: key in c2 ==> c2[key] != []
    ensures c1 == c2
  {
    forall key | key in c1
      ensures key in c2 && c1[key] == c2[key]
    {
      assert Stack(c1, key) == Stack(c2, key);
    }
    forall key | key in c2
      ensures key in c1
    {
      assert Stack(c1, key) == Stack(c2, key);
    }
  }

  /** One series' visits to a cell: one entry per occurrence of the cell
      among its pairs, with no deduplication. */
  lemma {:induction false} VisitsCount(pairs: seq<Pair>, key: Pair, color: Color)
    ensures |Visits(pairs, key, color)| == multiset(pairs)[key]
  {
    if pairs != [] {
      var init := pairs[..|pairs| - 1];
      assert pairs == init + [pairs[|pairs| - 1]];
      VisitsCount(init, key, color);
    }
  }

  /** Every visit entry is labelled with the cell and carries the series'
      colour, and a series has visits at a cell exactly when one of its
      pairs is that cell. */
  lemma {:induction false} VisitsShape(pairs: seq<Pair>, key: Pair, color: Color)
    ensures forall e :: e in Visits(pairs, key, color) ==> e == Entry(key, color)
    ensures Visits(pairs, key, color) != [] <==> key in pairs
  {
    if pairs != [] {
      var init := pairs[..|pairs| - 1];
      assert pairs == init + [pairs[|pairs| - 1]];
      VisitsShape(init, key, color);
    }
  }

  /** Series `idx` is drawn and one of its circular pairs is `key`. */
  ghost predicate Contributes(sequences: seq<seq<int>>, active: Active, idx: nat, key: Pair)
    requires idx < |sequences|
  {
    IsOn(active, idx) && key in Circular(sequences[idx])
  }

  /** A cell has a non-empty stack exactly when some drawn series among
      the first `n` has a circular pair at that cell. */
  lemma {:induction false} ContributionsNonEmpty(sequences: seq<seq<int>>, active: Active, key: Pair, n: nat)
    requires n <= |sequences|
    ensures Contributions(sequences, active, key, n) != [] <==>
      exists idx :: 0 <= idx < n && Contributes(sequences, active, idx, key)
  {
    if n > 0 {
      ContributionsNonEmpty(sequences, active, key, n - 1);
      VisitsShape(Circular(sequences[n - 1]), key, ColorOf(n - 1));
      var prev := Contributions(sequences, active, key, n - 1);
      var last := if IsOn(active, n - 1) then Visits(Circular(sequences[n - 1]), key, ColorOf(n - 1)) else [];
      assert Contributions(sequences, active, key, n) == prev + last;
      assert last != [] <==> Contributes(sequences, active, n - 1, key);
      if prev + last != [] {
        if prev != [] {
          var idx :| 0 <= idx < n - 1 && Contributes(sequences, active, idx, key);
          assert 0 <= idx < n && Contributes(sequences, active, idx, key);
        } else {
          assert Contributes(sequences, active, n - 1, key);
        }
      }
      if exists idx :: 0 <= idx < n && Contributes(sequences, active, idx, key) {
        var idx :| 0 <= idx < n && Contributes(sequences, active, idx, key);
        if idx < n - 1 {
          assert prev != [];
        } else {
          assert last != [];
        }
        assert |prev + last| == |prev| + |last|;
      }
    }
  }

  /** One more series adds to a stack only entries labelled with the cell
      and carrying its own colour, and only when it reaches the cell. */
  lemma EntriesStep(sequences: seq<seq<int>>, active: Active, key: Pair, n: nat)
    requires 0 < n <= |sequences|
    ensures forall e :: e in Contributions(sequences, active, key, n) ==>
      e in Contributions(sequences, active, key, n - 1) ||
      (Contributes(sequences, active, n - 1, key) && e == Entry(key, ColorOf(n - 1)))
  {
    var prev := Contributions(sequences, active, key, n - 1);
    var last := if IsOn(active, n - 1) then Visits(Circular(sequences[n - 1]), key, ColorOf(n - 1)) else [];
    assert Contributions(sequences, active, key, n) == prev + last;
    VisitsShape(Circular(sequences[n - 1]), key, ColorOf(n - 1));
  }

  /** Every entry of a cell's stack is labelled with that cell and carries
      the colour of a drawn series with a pair at that cell. */
  lemma {:induction false} ContributionsEntries(sequences: seq<seq<int>>, active: Active, key: Pair, n: nat)
    requires n <= |sequences|
    ensures forall e :: e in Contributions(sequences, active, key, n) ==>
      e.cell == key &&
      exists idx :: 0 <= idx < n && Contributes(sequences, active, idx, key) && e.color == ColorOf(idx)
  {
    if n > 0 {
      ContributionsEntries(sequences, active, key, n - 1);
      EntriesStep(sequences, active, key, n);
      forall e | e in Contributions(sequences, active, key, n)
        ensures e.cell == key &&
          exists idx :: 0 <= idx < n && Contributes(sequences, active, idx, key) && e.color == ColorOf(idx)
      {
        if e in Contributions(sequences, active, key, n - 1) {
          var idx :| 0 <= idx < n - 1 && Contributes(sequences, active, idx, key) && e.color == ColorOf(idx);
          assert 0 <= idx < n;
        } else {
          assert Contributes(sequences, active, n - 1, key);
        }
      }
    }
  }

  /** The contributions of series `lo .. |sequences|-1`, in ascending index. */
  function Later(sequences: seq<seq<int>>, active: Active, key: Pair, lo: nat): seq<Entry>
    requires lo <= |sequences|
    decreases |sequences| - lo
  {
    if lo == |sequences| then []
    else
      (if IsOn(active, lo) then Visits(Circular(sequences[lo]), key, ColorOf(lo)) else [])
      + Later(sequences, active, key, lo + 1)
  }

  /** A stack splits at any series index into the lower series' entries
      followed by the higher ones'. */
  lemma {:induction false} SplitAt(sequences: seq<seq<int>>, active: Active, key: Pair, lo: nat)
    requires lo <= |sequences|
    ensures Contributions(sequences, active, key, |sequences|) ==
      Contributions(sequences, active, key, lo) + Later(sequences, active, key, lo)
    decreases |sequences| - lo
  {
    if lo < |sequences| {
      SplitAt(sequences, active, key, lo + 1);
      var block := if IsOn(active, lo) then Visits(Circular(sequences[lo]), key, ColorOf(lo)) else [];
      Assoc(Contributions(sequences, active, key, lo), block, Later(sequences, active, key, lo + 1));
    }
  }

  lemma {:induction false} LaterAgree(sequences: seq<seq<int>>, a: Active, b: Active, key: Pair, lo: nat)
    requires lo <= |sequences|
    requires forall j: nat :: lo <= j < |sequences| ==> IsOn(a, j) == IsOn(b, j)
    ensures Later(sequences, a, key, lo) == Later(sequences, b, key, lo)
    decreases |sequences| - lo
  {
    if lo < |sequences| {
      LaterAgree(sequences, a, b, key, lo + 1);
    }
  }

  lemma {:induction false} ContributionsAgree(sequences: seq<seq<int>>, a: Active, b: Active, key: Pair, n: nat)
    requires n <= |sequences|
    requires forall j: nat :: j < n ==> IsOn(a, j) == IsOn(b, j)
    ensures Contributions(sequences, a, key, n) == Contributions(sequences, b, key, n)
  {
    if n > 0 {
      ContributionsAgree(sequences, a, b, key, n - 1);
    }
  }

  /** Toggling series `i` removes exactly its own entries from every
      stack when it was drawn, and puts them back between the lower and
      the higher series' entries when it was not; every other entry stays
      where it was. */
  lemma {:induction false} ToggleSeriesStack(sequences: seq<seq<int>>, active: Active, i: nat, key: Pair)
    requires i < |sequences|
    ensures
      var lower := Contributions(sequences, active, key, i);
      var own := Visits(Circular(sequences[i]), key, ColorOf(i));
      var higher := Later(sequences, active, key, i + 1);
      && Contributions(sequences, active, key, |sequences|)
           == lower + (if IsOn(active, i) then own else []) + higher
      && Contributions(sequences, Toggle(active, i), key, |sequences|)
           == lower + (if IsOn(active, i) then [] else own) + higher
  {
    var toggled := Toggle(active, i);
    var own := Visits(Circular(sequences[i]), key, ColorOf(i));
    var lower := Contributions(sequences, active, key, i);
    var higher := Later(sequences, active, key, i + 1);
    var mine := if IsOn(active, i) then own else [];
    var mineToggled := if IsOn(active, i) then [] else own;
    SplitAt(sequences, active, key, i);
    assert Later(sequences, active, key, i) == mine + higher;
    SplitAt(sequences, toggled, key, i);
    ContributionsAgree(sequences, active, toggled, key, i);
    LaterAgree(sequences, active, toggled, key, i + 1);
    assert IsOn(toggled, i) == !IsOn(active, i);
    assert Later(sequences, toggled, key, i) == mineToggled + higher;
    Assoc(lower, mine, higher);
    Assoc(lower, mineToggled, higher);
  }
  /** Which series reach the cell: flag `i` says series `i` is drawn and
      has a circular pair at `key`. */
  ghost function Reach(sequences: seq<seq<int>>, active: Active, key: Pair): (r: seq<bool>)
    ensures |r| == |sequences|
    ensures forall i :: 0 <= i < |r| ==> r[i] == Contributes(sequences, active, i, key)
  {
    seq(|sequences|, i requires 0 <= i < |sequences| => Contributes(sequences, active, i, key))
  }

  /** The highest position below `n` whose flag is set, if any. */
  function LastSet(flags: seq<bool>, n: nat): Option<nat>
    requires n <= |flags|
  {
    if n == 0 then None
    else if flags[n - 1] then Some(n - 1)
    else LastSet(flags, n - 1)
  }

  /** With no last set flag, no flag below `n` is set. */
  lemma {:induction false} LastSetNone(flags: seq<bool>, n: nat)
    requires n <= |flags| && LastSet(flags, n).None?
    ensures forall j :: 0 <= j < n ==> !flags[j]
  {
    if n > 0 {
      LastSetNone(flags, n - 1);
    }
  }

  /** The last set flag is set, and no flag above it (and below `n`) is. */
  lemma {:induction false} LastSetSome(flags: seq<bool>, n: nat)
    requires n <= |flags| && LastSet(flags, n).Some?
    ensures var t := LastSet(flags, n).value;
      t < n && flags[t] && forall j :: t < j < n ==> !flags[j]
  {
    if !flags[n - 1] {
      LastSetSome(flags, n - 1);
    }
  }

  /** A set flag with no set flag above it (and below `n`) is the last
      set flag. */
  lemma {:induction false} LastSetAt(flags: seq<bool>, n: nat, t: nat)
    requires t < n <= |flags| && flags[t]
    requires forall j :: t < j < n ==> !flags[j]
    ensures LastSet(flags, n) == Some(t)
  {
    if t < n - 1 {
      LastSetAt(flags, n - 1, t);
    }
  }

  /** With no flag set below `n`, there is no last set flag. */
  lemma {:induction false} LastSetAbsent(flags: seq<bool>, n: nat)
    requires n <= |flags|
    requires forall j :: 0 <= j < n ==> !flags[j]
    ensures LastSet(flags, n).None?
  {
    if n > 0 {
      LastSetAbsent(flags, n - 1);
    }
  }

  /** The highest-index drawn series among the first `n` that has a
      circular pair at `key`, if any. */
  ghost function TopSeries(sequences: seq<seq<int>>, active: Active, key: Pair, n: nat): Option<nat>
    requires n <= |sequences|
  {
    LastSet(Reach(sequences, active, key), n)
  }

  /** With no top series, no drawn series below `n` reaches the cell. */
  lemma TopSeriesNone(sequences: seq<seq<int>>, active: Active, key: Pair, n: nat)
    requires n <= |sequences| && TopSeries(sequences, active, key, n).None?
    ensures forall j :: 0 <= j < n ==> !Contributes(sequences, active, j, key)
  {
    var flags := Reach(sequences, active, key);
    LastSetNone(flags, n);
    forall j | 0 <= j < n
      ensures !Contributes(sequences, active, j, key)
    {
      assert !flags[j];
    }
  }

  /** A top series reaches the cell and no drawn series above it (and
      below `n`) does. */
  lemma TopSeriesSome(sequences: seq<seq<int>>, active: Active, key: Pair, n: nat)
    requires n <= |sequences| && TopSeries(sequences, active, key, n).Some?
    ensures var t := TopSeries(sequences, active, key, n).value;
      t < n && Contributes(sequences, active, t, key) &&
      forall j :: t < j < n ==> !Contributes(sequences, active, j, key)
  {
    var flags := Reach(sequences, active, key);
    LastSetSome(flags, n);
    var t := LastSet(flags, n).value;
    assert flags[t];
    forall j | t < j < n
      ensures !Contributes(sequences, active, j, key)
    {
      assert !flags[j];
    }
  }

  /** `TopSeries` is the highest drawn series below `n` that reaches the
      cell: none exists when it is absent, and none above it otherwise. */
  lemma TopSeriesIsHighest(sequences: seq<seq<int>>, active: Active, key: Pair, n: nat)
    requires n <= |sequences|
    ensures var t := TopSeries(sequences, active, key, n);
      && (t.None? ==> forall j :: 0 <= j < n ==> !Contributes(sequences, active, j, key))
      && (t.Some? ==> t.value < n && Contributes(sequences, active, t.value, key))
      && (t.Some? ==> forall j :: t.value < j < n ==> !Contributes(sequences, active, j, key))
  {
    if TopSeries(sequences, active, key, n).None? {
      TopSeriesNone(sequences, active, key, n);
    } else {
      TopSeriesSome(sequences, active, key, n);
    }
  }

  /** When the last series reaches the cell, the stack ends with its
      entries and is topped by its colour. */
  lemma TopIsLast(sequences: seq<seq<int>>, active: Active, key: Pair, n: nat)
    requires 0 < n <= |sequences| && Contributes(sequences, active, n - 1, key)
    ensures var stack := Contributions(sequences, active, key, n);
      stack != [] && stack[|stack| - 1].color == ColorOf(n - 1)
  {
    var prev := Contributions(sequences, active, key, n - 1);
    var own := Visits(Circular(sequences[n - 1]), key, ColorOf(n - 1));
    VisitsShape(Circular(sequences[n - 1]), key, ColorOf(n - 1));
    assert Contributions(sequences, active, key, n) == prev + own;
    assert own[|own| - 1] in own;
  }

  /** When the last series does not reach the cell, it adds nothing. */
  lemma LastAddsNothing(sequences: seq<seq<int>>, active: Active, key: Pair, n: nat)
    requires 0 < n <= |sequences| && !Contributes(sequences, active, n - 1, key)
    ensures Contributions(sequences, active, key, n) == Contributions(sequences, active, key, n - 1)
  {
    VisitsShape(Circular(sequences[n - 1]), key, ColorOf(n - 1));
  }

  /** The stack of the first `n` series is empty exactly when no series
      is on top, and otherwise ends with an entry of the top series'
      colour. */
  ghost predicate TopMatches(sequences: seq<seq<int>>, active: Active, key: Pair, n: nat)
    requires n <= |sequences|
  {
    var top := TopSeries(sequences, active, key, n);
    var stack := Contributions(sequences, active, key, n);
    && (top.None? <==> stack == [])
    && (top.Some? ==> stack != [] && stack[|stack| - 1].color == ColorOf(top.value))
  }

  /** When the last series reaches the cell, it is on top of the stack. */
  lemma TopMatchesLast(sequences: seq<seq<int>>, active: Active, key: Pair, n: nat)
    requires 0 < n <= |sequences| && Contributes(sequences, active, n - 1, key)
    ensures TopMatches(sequences, active, key, n)
  {
    TopIsLast(sequences, active, key, n);
    assert Reach(sequences, active, key)[n - 1];
  }

  /** When the last series does not reach the cell, neither the top
      series nor the stack changes. */
  lemma TopMatchesSkip(sequences: seq<seq<int>>, active: Active, key: Pair, n: nat)
    requires 0 < n <= |sequences| && !Contributes(sequences, active, n - 1, key)
    requires TopMatches(sequences, active, key, n - 1)
    ensures TopMatches(sequences, active, key, n)
  {
    var flags := Reach(sequences, active, key);
    assert !flags[n - 1];
    assert TopSeries(sequences, active, key, n) == TopSeries(sequences, active, key, n - 1) by {
      assert LastSet(flags, n) == LastSet(flags, n - 1);
    }
    LastAddsNothing(sequences, active, key, n);
  }

  /** The top of a reference stack is an entry of the highest drawn series
      that reaches the cell; the stack is empty when none does. */
  lemma {:induction false} TopOfContributions(sequences: seq<seq<int>>, active: Active, key: Pair, n: nat)
    requires n <= |sequences|
    ensures TopSeries(sequences, active, key, n).None? <==> Contributions(sequences, active, key, n) == []
    ensures TopSeries(sequences, active, key, n).Some? ==>
      var stack := Contributions(sequences, active, key, n);
      stack != [] && stack[|stack| - 1].color == ColorOf(TopSeries(sequences, active, key, n).value)
  {
    if n > 0 {
      if Contributes(sequences, active, n - 1, key) {
        TopMatchesLast(sequences, active, key, n);
      } else {
        TopOfContributions(sequences, active, key, n - 1);
        TopMatchesSkip(sequences, active, key, n);
      }
    }
  }

}
