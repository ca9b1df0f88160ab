/** The `Grid` component's pure computations: cell size, grid extent, the
    row-by-row cell enumeration and each cell's rendered colour. */
module GridView {
  import opened Types
  import opened Palette
  import opened Selection
  import opened CircularPairs
  import opened CellIndex
  import opened Arith

  /** The observed container box, in whole pixels. */
  datatype Box = Box(w: nat, h: nat)

  function Min(a: nat, b: nat): nat
  {
    if a <= b then a else b
  }

  /** `cellPx`: zero when there is no base or the box has no area;
      otherwise the largest whole size at which `base` cells fit the
      shorter side, raised to the 6-pixel floor when that is smaller. */
  function CellPx(base: nat, box: Box): (px: nat)
    ensures px == 0 <==> base == 0 || box.w == 0 || box.h == 0
    ensures px != 0 ==> px >= 6
    ensures px != 0 && px > 6 ==> px * base <= Min(box.w, box.h) < (px + 1) * base
    ensures px == 6 ==> Min(box.w, box.h) < 7 * base
  {
    if base == 0 || box.w == 0 || box.h == 0 then 0
    else
      var side := Min(box.w, box.h);
      var fit := side / base;
      FloorBounds(side, base);
      if 6 < fit then fit else 6
  }

  /** The floor quotient `q` of `side` by `base` is the multiple count
      that fits: `q * base <= side < (q + 1) * base`, and `side < 7 * base`
      when `q <= 6`. */
  lemma FloorBounds(side: nat, base: nat)
    requires base > 0
    ensures (side / base) * base <= side < (side / base + 1) * base
    ensures side / base <= 6 ==> side < 7 * base
  {
    var q := side / base;
    assert q * base + side % base == side;
    assert (q + 1) * base == q * base + base;
    if q <= 6 {
      MulBounds(6 - q, base);
      assert 7 * base == (q + 1) * base + (6 - q) * base;
    }
  }

  /** `gridSidePx = cellPx * base`: the square grid's pixel extent. When
      at least six pixels per cell fit, the grid does not overflow the
      shorter side and leaves less than one cell of it unused; otherwise
      it is exactly six pixels per cell. */
  function GridSidePx(base: nat, box: Box): (side: nat)
    ensures base == 0 || box.w == 0 || box.h == 0 ==> side == 0
    ensures base > 0 && box.w > 0 && box.h > 0 && Min(box.w, box.h) / base >= 6 ==>
      side <= Min(box.w, box.h) < side + base
    ensures base > 0 && box.w > 0 && box.h > 0 && Min(box.w, box.h) / base < 6 ==>
      side == 6 * base
  {
    if base > 0 then
      FloorBounds(Min(box.w, box.h), base);
      CellPx(base, box) * base
    else
      0
  }

  /** One row of keys, `x` ascending at height `y`. */
  function Row(base: nat, y: int): (r: seq<Pair>)
    ensures |r| == base
    ensures forall x :: 0 <= x < base ==> r[x] == (x, y)
  {
    seq(base, x requires 0 <= x < base => (x, y))
  }

  /** A position below `base * base` has a row below `base`. */
  lemma RowInRange(base: nat, p: int)
    requires 0 <= p < base * base
    ensures 0 <= p / base < base
  {
    MulBounds(p / base - base, base);
  }

  /** The first `n` rows of the enumeration: `y` runs from `base-1` down,
      and within a row `x` runs from 0 up. */
  function Rows(base: nat, n: nat): (r: seq<Pair>)
    requires n <= base
    ensures |r| == n * base
    ensures forall p :: 0 <= p < |r| ==> r[p] == (p % base, base - 1 - p / base)
  {
    if n == 0 then []
    else
      var prev := Rows(base, n - 1);
      var row := Row(base, base - n);
      var r := prev + row;
      assert |r| == n * base;
      forall p | 0 <= p < |r|
        ensures r[p] == (p % base, base - 1 - p / base)
      {
        if p >= |prev| {
          var c := p - |prev|;
          DivModUnique((n - 1) * base + c, base, n - 1, c);
          assert r[p] == row[c];
        }
      }
      r
  }

  /** `keys`: every cell of the `base`-by-`base` grid, row by row with `y`
      descending. */
  function Keys(base: nat): (r: seq<Pair>)
    ensures |r| == base * base
    ensures forall p :: 0 <= p < |r| ==> r[p] == (p % base, base - 1 - p / base)
  {
    Rows(base, base)
  }

  /** The key at row `r` (from the top) and column `c` is `(c, base-1-r)`. */
  lemma {:induction false} KeyAt(base: nat, r: nat, c: nat)
    requires r < base && c < base
    ensures r * base + c < |Keys(base)|
    ensures Keys(base)[r * base + c] == (c, base - 1 - r)
  {
    DivModUnique(r * base + c, base, r, c);
    assert r * base + c < base * base by {
      MulBounds(base - 1 - r, base);
      assert (base - 1) * base == r * base + (base - 1 - r) * base;
    }
  }

  /** The enumeration lists each cell of the grid exactly once: its
      entries are pairwise distinct, all lie in the grid, and every grid
      cell occurs. */
  lemma {:induction false} KeysEnumerateGrid(base: nat)
    ensures forall p, q :: 0 <= p < q < |Keys(base)| ==> Keys(base)[p] != Keys(base)[q]
    ensures forall p :: 0 <= p < |Keys(base)| ==>
      0 <= Keys(base)[p].0 < base && 0 <= Keys(base)[p].1 < base
    ensures forall x, y :: 0 <= x < base && 0 <= y < base ==> (x, y) in Keys(base)
  {
    var ks := Keys(base);
    forall p, q | 0 <= p < q < |ks|
      ensures ks[p] != ks[q]
    {
    }
    forall p | 0 <= p < |ks|
      ensures 0 <= ks[p].0 < base && 0 <= ks[p].1 < base
    {
      RowInRange(base, p);
    }
    forall x, y | 0 <= x < base && 0 <= y < base
      ensures (x, y) in ks
    {
      KeyAt(base, base - 1 - y, x);
    }
  }

  /** `bgColor`: the colour of the top (last) entry of the cell's stack,
      or white for a cell no series reaches. */
  function BgColor(cells: Cells, key: Pair): (c: Color)
    ensures Stack(cells, key) == [] ==> c == White
    ensures Stack(cells, key) != [] ==> c == Stack(cells, key)[|Stack(cells, key)| - 1].color
  {
    var items := Stack(cells, key);
    if |items| > 0 then items[|items| - 1].color else White
  }

  /** What one grid cell shows: its background, its text (`(x,y)` when
      labels are on and the cell is occupied) and its hover title. */
  datatype CellView = CellView(background: Color, text: Option<Pair>, title: Option<Pair>)

  function ViewCell(cells: Cells, key: Pair, showLabels: bool): (v: CellView)
    ensures v.background == BgColor(cells, key)
    ensures v.text.Some? <==> showLabels && Stack(cells, key) != []
    ensures v.title.Some? <==> showLabels
    ensures v.text.Some? ==> v.text.value == key
    ensures v.title.Some? ==> v.title.value == key
  {
    var items := Stack(cells, key);
    CellView(
      BgColor(cells, key),
      if showLabels && |items| > 0 then Some(key) else None,
      if showLabels then Some(key) else None)
  }

  /** The rendered grid: the view of each key, in key order, so position
      `p` shows cell `(p mod base, base-1 - p div base)`. */
  function Render(base: nat, cells: Cells, showLabels: bool): (vs: seq<CellView>)
    ensures |vs| == base * base
    ensures forall p :: 0 <= p < |vs| ==>
      vs[p] == ViewCell(cells, (p % base, base - 1 - p / base), showLabels)
  {
    var ks := Keys(base);
    seq(|ks|, p requires 0 <= p < |ks| => ViewCell(cells, ks[p], showLabels))
  }

  /** Series `t` is the highest-index drawn series reaching `key`. */
  ghost predicate IsTopSeries(sequences: seq<seq<int>>, active: Active, key: Pair, t: int)
  {
    && 0 <= t < |sequences|
    && Contributes(sequences, active, t, key)
    && forall j :: t < j < |sequences| ==> !Contributes(sequences, active, j, key)
  }

  /** A series satisfying `IsTopSeries` is the one `TopSeries` finds. */
  lemma TopSeriesFindsTop(sequences: seq<seq<int>>, active: Active, key: Pair, t: int)
    requires IsTopSeries(sequences, active, key, t)
    ensures TopSeries(sequences, active, key, |sequences|) == Some(t)
  {
    var flags := Reach(sequences, active, key);
    assert flags[t];
    forall j | t < j < |sequences|
      ensures !flags[j]
    {
      assert !Contributes(sequences, active, j, key);
    }
    LastSetAt(flags, |sequences|, t);
  }

  /** With no drawn series reaching the cell, `TopSeries` finds none. */
  lemma NoTopSeries(sequences: seq<seq<int>>, active: Active, key: Pair)
    requires forall j :: 0 <= j < |sequences| ==> !Contributes(sequences, active, j, key)
    ensures TopSeries(sequences, active, key, |sequences|).None?
  {
    var flags := Reach(sequences, active, key);
    forall j | 0 <= j < |sequences|
      ensures !flags[j]
    {
      assert !Contributes(sequences, active, j, key);
    }
    LastSetAbsent(flags, |sequences|);
  }

  /** The colour a cell is painted: white when no drawn series has a
      circular pair at the cell, otherwise the colour of the highest-index
      drawn series that has one. */
  lemma RenderedColor(sequences: seq<seq<int>>, active: Active, cells: Cells, key: Pair)
    requires forall k :: Stack(cells, k) == Contributions(sequences, active, k, |sequences|)
    ensures (forall j :: 0 <= j < |sequences| ==> !Contributes(sequences, active, j, key)) ==>
      BgColor(cells, key) == White
    ensures forall t :: IsTopSeries(sequences, active, key, t) ==> BgColor(cells, key) == ColorOf(t)
  {
    var n := |sequences|;
    assert Stack(cells, key) == Contributions(sequences, active, key, n);
    TopOfContributions(sequences, active, key, n);
    if forall j :: 0 <= j < n ==> !Contributes(sequences, active, j, key) {
      NoTopSeries(sequences, active, key);
    }
    forall t | IsTopSeries(sequences, active, key, t)
      ensures BgColor(cells, key) == ColorOf(t)
    {
      TopSeriesFindsTop(sequences, active, key, t);
    }
  }

  /** What grid position `p` shows for an index built from the drawn
      series: the background is white when no drawn series reaches the
      cell and the colour of the highest-index one that does otherwise;
      with labels on, the cell's coordinates are its title, and its text
      exactly when some drawn series reaches it. */
  lemma RenderedCell(base: nat, sequences: seq<seq<int>>, active: Active, cells: Cells,
                     showLabels: bool, p: int)
    requires forall k :: Stack(cells, k) == Contributions(sequences, active, k, |sequences|)
    requires 0 <= p < base * base
    ensures var key := (p % base, base - 1 - p / base);
      var v := Render(base, cells, showLabels)[p];
      && ((forall j :: 0 <= j < |sequences| ==> !Contributes(sequences, active, j, key)) ==>
            v.background == White)
      && (forall t :: IsTopSeries(sequences, active, key, t) ==> v.background == ColorOf(t))
      && (v.text.Some? <==>
            showLabels && exists j :: 0 <= j < |sequences| && Contributes(sequences, active, j, key))
      && (v.text.Some? ==> v.text.value == key)
      && (v.title == if showLabels then Some(key) else None)
  {
    var key := (p % base, base - 1 - p / base);
    RenderedColor(sequences, active, cells, key);
    ContributionsNonEmpty(sequences, active, key, |sequences|);
    assert Stack(cells, key) == Contributions(sequences, active, key, |sequences|);
  }
}
