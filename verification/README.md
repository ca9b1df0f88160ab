# Fibonacci–Lucas mod-cycles: a Dafny model

The system has two halves.

- **The backend** (`backend/main.py`) enumerates the cycles of the state
  map `T(a, b) = (b, (a + b) mod base)` on the finite state space
  `[0, base)²`. It rotates each cycle to start at its least state, drops
  repeated cycles, optionally centres every value, and returns each cycle
  together with the sequence of its first components.
- **The frontend** (`mod-cycles-visualizer/src/App.tsx`) turns each
  returned sequence back into wrap-around successor pairs. It colours
  series from a twelve-colour palette, lets the user toggle series on and
  off, and orders the series list by length. It indexes the drawn pairs
  into a `(x, y)` cell map of colour stacks, lays out a square grid of
  `base × base` cells, and paints each cell with the colour on top of its
  stack.

The model is pure Dafny: immutable datatypes, functions over `seq`, `set`
and `map`, and methods with loop invariants where the source loops.

Modules, in dependency order:

| file | module | models |
|---|---|---|
| `types.dfy` | `Types` | `Option`, coordinate pairs, the `/cycles` response shape |
| `arith.dfy` | `Arith` | two facts about multiplication and Euclidean division |
| `pairs.dfy` | `CircularPairs` | `makePairsCircular` and first-component projection |
| `palette.dfy` | `Palette` | `usePalette` and `palette[idx % palette.length]` |
| `selection.dfy` | `Selection` | the `active` record: toggle, reset, `selectedCount` |
| `ordering.dfy` | `SeriesOrder` | `sequenceList` with its comparator and sort |
| `cell_index.dfy` | `CellIndex` | the `grid` memo: the cell → stack index |
| `grid_view.dfy` | `GridView` | `cellPx`, `gridSidePx`, `keys`, `bgColor`, the rendered cells |
| `states.dfy` | `FibStates` | `T`, its inverse, the state space and its size |
| `cycle_shape.dfy` | `CycleShape` | what a returned cycle is; two cycles sharing a state are equal |
| `enumerate.dfy` | `Enumerate` | `enumerate_cycles`: walk, cut, canonical rotation, dedup |
| `centered.dfy` | `Centered` | `to_centered` and its inverse on residues |
| `api.dfy` | `CyclesApi` | `get_cycles`: validation, centring, projection |
| `known_cycles.dfy` | `KnownCycles` | the cycles for moduli 2, 3 and 4 |

How the two halves connect: `CyclesApi.GetCycles` proves that the circular
pairs of every returned sequence are exactly the states of its cycle, in
both raw and centred mode. Those circular pairs are the frontend's
`makePairsCircular`. So the frontend draws each cycle's states as cells.

Facts about the code that the model keeps:

- The selection resets to `{}` on a new response and on the clear button
  (`App.tsx:47`, `:132`), so after a reset no series is drawn.
- `to_centered` maps a residue into `(-base/2, base/2]`. For an even modulus
  this is `[-(base/2 - 1), base/2]`; for an odd modulus it is
  `[-(base-1)/2, (base-1)/2]`.
- The frontend only enumerates zero-based keys `(x, y)` with
  `0 <= x, y < base`; centred values never become grid keys.

The `get_cycles` docstring gives its examples up to rotation. The returned
cycles start at their least state, so modulo 2 the sequences are `[0]` and
`[0, 1, 1]`; the listed `[1, 1, 0]` is never returned. The same holds for
`[1, 1, 2, 0, 2, 2, 1, 0]` modulo 3 and `[1, 1, 2, 3, 1, 0]` modulo 4
(`KnownCycles.Base2Sequences` and its siblings).

## Model

| member | source | states |
|---|---|---|
| CircularPairs.Circular | mod-cycles-visualizer/src/App.tsx:16-25 | one pair per element; an empty sequence gives no pairs and a singleton `[v]` gives `[(v, v)]` |
| CircularPairs.CircularAt | mod-cycles-visualizer/src/App.tsx:16-25 | pair `i` is `(s[i], s[(i+1) mod n])` for length `n`: each element with its successor, the last wrapping to the first |
| CircularPairs.Zip | mod-cycles-visualizer/src/App.tsx:19-23 | pair `i` is the `i`-th elements of the two inputs |
| CircularPairs.Firsts | backend/main.py:104-108 | the projection keeps length and takes the first component of every state |
| CircularPairs.FirstsOfCircular | mod-cycles-visualizer/src/App.tsx:16-25 | projecting circular pairs back to first components returns the sequence |
| CircularPairs.CircularOfFirsts | backend/main.py:43 | circular pairing rebuilds a pair sequence from its first components exactly when consecutive pairs chain (second of one = first of the next, wrapping) |
| Palette.ColorInPalette | mod-cycles-visualizer/src/App.tsx:8-13 | every series colour is one of the twelve palette entries, never white, and repeats every twelve indices |
| Palette.ColorOf | mod-cycles-visualizer/src/App.tsx:72 | a series colour is always one of the twelve palette entries and never the white of an empty cell |
| Palette.ColorsDistinct | mod-cycles-visualizer/src/App.tsx:8-12 | the twelve palette entries are pairwise different |
| Palette.SameColorIffSameResidue | mod-cycles-visualizer/src/App.tsx:72 | two series share a colour exactly when their indices agree modulo 12, so list and grid agree |
| Selection.Toggle | mod-cycles-visualizer/src/App.tsx:153 | the toggled series' state is negated, it becomes a key, and every other entry is unchanged |
| Selection.Reset | mod-cycles-visualizer/src/App.tsx:132 | after a reset no series is drawn and the selected count is 0 |
| Selection.SelectedCount | mod-cycles-visualizer/src/App.tsx:85-88 | the count never exceeds the number of recorded entries |
| Selection.SelectedCountCountsOn | mod-cycles-visualizer/src/App.tsx:85-88 | the count equals the number of series whose entry is true |
| Selection.ToggleCount | mod-cycles-visualizer/src/App.tsx:85-88 | a toggle lowers the count by one when the series was on and raises it by one when it was off |
| Selection.ToggleOnSet | mod-cycles-visualizer/src/App.tsx:153 | a toggle removes the series from the drawn set when it was drawn and adds it otherwise; no other series changes |
| SeriesOrder.CompareSwap | mod-cycles-visualizer/src/App.tsx:60-61 | swapping the arguments negates the comparator, so any two items are ordered one way or the other |
| SeriesOrder.Compare | mod-cycles-visualizer/src/App.tsx:60-61 | the comparator orders items by (length, index) lexicographically, length ascending or descending by mode, and is zero only for equal length and index |
| SeriesOrder.HeadPrecedesAll | mod-cycles-visualizer/src/App.tsx:60-61 | in a sorted list the head precedes every later item |
| SeriesOrder.PrecedesPermutation | mod-cycles-visualizer/src/App.tsx:60-61 | an item preceding every element of a list precedes every element of any permutation of it |
| SeriesOrder.Insert | mod-cycles-visualizer/src/App.tsx:60-61 | insertion into a sorted list keeps it sorted and adds exactly the item |
| SeriesOrder.Sort | mod-cycles-visualizer/src/App.tsx:60-61 | the result is sorted under the comparator and a permutation of the input |
| SeriesOrder.DistinctCount | mod-cycles-visualizer/src/App.tsx:59 | in a list with distinct indices no item occurs twice |
| SeriesOrder.PermutationKeepsDistinct | mod-cycles-visualizer/src/App.tsx:60-61 | a permutation of items with distinct indices has distinct indices |
| SeriesOrder.ItemsByIdx | mod-cycles-visualizer/src/App.tsx:59 | the items have distinct indices and each is the item at its own index |
| SeriesOrder.SortedItemsContents | mod-cycles-visualizer/src/App.tsx:59-61 | every sorted item is the series its index names, with that series' length |
| SeriesOrder.SortedStrict | mod-cycles-visualizer/src/App.tsx:60-61 | sorted distinct-index items are strictly ordered by key, then index |
| SeriesOrder.SequenceList | mod-cycles-visualizer/src/App.tsx:57-63 | no response gives an empty list; otherwise every series appears once with its own length; original order is by index; `lenAsc`/`lenDesc` are strictly increasing/decreasing in length with ties by ascending index |
| CellIndex.Stack | mod-cycles-visualizer/src/App.tsx:260 | a non-empty stack is read only from a key; in an index with no empty stack, the empty default is read exactly for the cells that are not keys |
| CellIndex.Push | mod-cycles-visualizer/src/App.tsx:76-77 | an entry goes on top of its cell's stack, created if absent; other cells are unchanged |
| CellIndex.AppendPairs | mod-cycles-visualizer/src/App.tsx:73-78 | one series' pairs add its visits on top of each cell's stack, in pair order, and leave no stack empty |
| CellIndex.BuildCells | mod-cycles-visualizer/src/App.tsx:70-79 | every cell's stack is the reference stack (drawn series ascending, pairs in order, no deduplication) and a cell is a key exactly when that stack is non-empty |
| CellIndex.Grid | mod-cycles-visualizer/src/App.tsx:65-82 | no response gives an empty index sized by the requested base; otherwise the built index sized by the response's base |
| CellIndex.CellsDeterminedByStacks | mod-cycles-visualizer/src/App.tsx:67-79 | two indices with equal stacks and no empty stack are equal |
| CellIndex.VisitsCount | mod-cycles-visualizer/src/App.tsx:74-78 | a series puts as many entries on a cell as it has pairs equal to that cell |
| CellIndex.VisitsShape | mod-cycles-visualizer/src/App.tsx:74-78 | each entry names its cell and carries its series' colour; a series has entries at a cell exactly when it has that pair |
| CellIndex.ContributionsNonEmpty | mod-cycles-visualizer/src/App.tsx:70-79 | a cell is occupied exactly when some drawn series has a circular pair there; undrawn series contribute nothing |
| CellIndex.ContributionsEntries | mod-cycles-visualizer/src/App.tsx:70-79 | every stack entry has the cell as label and the colour of a drawn series reaching the cell |
| CellIndex.ToggleSeriesStack | mod-cycles-visualizer/src/App.tsx:70-79 | toggling a series removes exactly its entries from a stack, or puts them back between lower and higher series' entries |
| CellIndex.TopSeriesIsHighest | mod-cycles-visualizer/src/App.tsx:70-79 | the top series is the highest-index drawn series reaching the cell |
| CellIndex.TopOfContributions | mod-cycles-visualizer/src/App.tsx:70-79 | the stack is empty exactly when no series is on top; otherwise its last entry has the top series' colour |
| GridView.CellPx | mod-cycles-visualizer/src/App.tsx:225-229 | 0 exactly when the base or a box side is 0; otherwise at least 6, and above 6 it is the largest size at which `base` cells fit the shorter side |
| GridView.GridSidePx | mod-cycles-visualizer/src/App.tsx:225-231 | zero without a base or box area; when six pixels per cell fit, the grid is at most the shorter box side and wastes less than one cell of it; otherwise it is `6 * base` |
| GridView.RowInRange | mod-cycles-visualizer/src/App.tsx:237-241 | enumeration position `p` lies in row `p div base`, which is inside the grid |
| GridView.Rows | mod-cycles-visualizer/src/App.tsx:237-241 | the first `n` rows hold `n * base` cells, position `p` being `(p mod base, base-1 - p div base)` |
| GridView.Keys | mod-cycles-visualizer/src/App.tsx:235-243 | `base * base` keys, row by row from `y = base-1` down, `x` ascending |
| GridView.KeyAt | mod-cycles-visualizer/src/App.tsx:235-243 | the key at `r * base + c` is `(c, base-1-r)` |
| GridView.KeysEnumerateGrid | mod-cycles-visualizer/src/App.tsx:235-243 | the keys are pairwise distinct, inside the grid, and cover every grid cell |
| GridView.Render | mod-cycles-visualizer/src/App.tsx:259-286 | one view per key, position `p` showing cell `(p mod base, base-1 - p div base)` |
| GridView.RenderedColor | mod-cycles-visualizer/src/App.tsx:70-79 | a cell no drawn series reaches is white; otherwise it has the colour of the highest-index drawn series reaching it |
| GridView.RenderedCell | mod-cycles-visualizer/src/App.tsx:259-283 | grid position `p` shows white when no drawn series reaches its cell, else the colour of the highest-index drawn series reaching it; with labels on its title is the cell, and it has text exactly when some drawn series reaches it |
| FibStates.Step | backend/main.py:25-26 | the new first component is the old second one, and states in range stay in range |
| FibStates.StepInverse | backend/main.py:25-26 | `T` and its predecessor map undo each other on the state space |
| FibStates.StepInjective | backend/main.py:25-26 | two states with the same successor are equal |
| FibStates.StateSpaceCard | backend/main.py:32-34 | the state space has `base * base` states |
| FibStates.RangeSetCard | backend/main.py:40-43 | a set of in-range states has at most `base * base` members, fewer when a state is missing, which bounds every walk |
| FibStates.IterAdd | backend/main.py:40-43 | `a + b` steps are `a` steps then `b` steps |
| CycleShape.Rotate | backend/main.py:56 | rotation by `m` keeps length and moves each state `m` places |
| CycleShape.RotateKeepsStates | backend/main.py:55-56 | rotation keeps the multiset of states and the absence of repetitions |
| CycleShape.RotateKeepsClosed | backend/main.py:55-56 | rotating a closed walk leaves it closed |
| CycleShape.ClosedIter | backend/main.py:40-47 | along a closed walk, `k` steps of `T` move `k` places |
| CycleShape.ClosedIterIn | backend/main.py:40-47 | a closed walk contains every iterate of each of its states |
| CycleShape.ClosedReach | backend/main.py:40-47 | every state of a closed walk is reached from every other |
| CycleShape.SharedStateSameStates | backend/main.py:40-47 | closed walks sharing a state contain the same states |
| CycleShape.SameStartSameCycle | backend/main.py:40-47 | repetition-free closed walks from the same state are equal |
| CycleShape.ReturnsEarly | backend/main.py:40-47 | a repetition-free closed walk is not longer than any closed walk from the same state |
| CycleShape.SharedStateSameCycle | backend/main.py:55-67 | two returned-shape cycles sharing any state are the same list |
| Enumerate.ArgMin | backend/main.py:55 | the position of the least state, the first one when the least state repeats |
| Enumerate.Canonicalize | backend/main.py:55-56 | the rotation starts at the least state and keeps the multiset of states and their distinctness |
| Enumerate.CanonicalizeKeepsClosed | backend/main.py:55-56 | the canonical rotation of a closed walk is closed |
| Enumerate.Walk | backend/main.py:38-46 | the walk starts at its start state, follows `T`, stays in range, never repeats, is at most `base * base` long, and `T` of its last state is the state at `start` |
| Enumerate.WalkReturnsToStart | backend/main.py:45-47 | `start` is always 0, so `path[start:]` is the whole path and a closed cycle of `T` |
| Enumerate.CanonicalizeKeepsCycle | backend/main.py:47-57 | the collected cycle has the returned shape and exactly the walk's states |
| Enumerate.Explore | backend/main.py:34-57 | one outer step marks its start visited and keeps every collected cycle well-shaped and every visited state covered |
| Enumerate.CollectKeepsInvariant | backend/main.py:50-57 | appending a returned-shape cycle through the walked states keeps the collected invariants |
| Enumerate.CoveredGrows | backend/main.py:57 | appending a cycle keeps earlier coverage and covers the new cycle's states |
| Enumerate.FirstOccurrencesShape | backend/main.py:59-67 | the deduplicated list holds each input cycle exactly once |
| Enumerate.FirstOccurrencesOfDistinct | backend/main.py:59-67 | dedup leaves a repetition-free list unchanged |
| Enumerate.Dedup | backend/main.py:59-67 | the loop returns the first occurrences in input order |
| Enumerate.EnumerateCycles | backend/main.py:28-67 | every returned cycle is closed, repetition-free, starts at its least state, stays in range and fits in `base * base`; no cycle is returned twice; every state lies on some returned cycle |
| Centered.ToCentered | backend/main.py:70-77 | the float test `x > base/2` equals the integer test `2x > base`; the result is `x` or `x - base`; a residue maps into `(-base/2, base/2]` |
| Centered.Uncenter | backend/main.py:70-77 | reduction modulo the base lands in `[0, base)` |
| Centered.CenteredRoundTrip | backend/main.py:70-77 | centring and reduction are inverse bijections between `[0, base)` and `(-base/2, base/2]` |
| Centered.CenteredInjective | backend/main.py:70-77 | distinct residues stay distinct after centring |
| Centered.CenterCycle | backend/main.py:100-103 | every state of a cycle is centred, in order |
| Centered.CenterKeepsChained | backend/main.py:100-104 | centring keeps consecutive states chained |
| Centered.UncenterCycle | backend/main.py:100-103 | reduction of every state of a centred cycle |
| Centered.UncenterCenterCycle | backend/main.py:100-103 | a cycle of residue states is recovered from its centred form |
| CyclesApi.ClosedChained | backend/main.py:43 | in a closed walk each state's second component is the next state's first |
| CyclesApi.EnumerationPartitions | backend/main.py:28-67 | no state lies on two returned cycles: the cycles partition the state space |
| CyclesApi.ProjectionRebuilds | backend/main.py:100-108 | for raw and centred cycles alike, the circular pairs of each returned sequence are exactly its cycle |
| CyclesApi.CenterAllRoundTrip | backend/main.py:100-104 | reducing the centred cycles gives back the raw cycles, and every centred sequence value lies in `(-base/2, base/2]` |
| CyclesApi.GetCycles | backend/main.py:80-110 | an out-of-range base is refused; otherwise each sequence is its cycle's first components and its circular pairs rebuild the cycle; raw cycles meet the enumeration guarantees; centred cycles are the centring of cycles that do, with every value in `(-base/2, base/2]` |
| KnownCycles.Cycles2Shape | backend/main.py:91-92 | the two cycles modulo 2 have the returned shape |
| KnownCycles.Cycles2Cover | backend/main.py:91-92 | they cover all four states |
| KnownCycles.Cycles2Distinct | backend/main.py:91-92 | the two cycles differ and each starts at a state `(0, b)` |
| KnownCycles.Cycles3Shape | backend/main.py:93 | the two cycles modulo 3 have the returned shape |
| KnownCycles.Cycles3Cover | backend/main.py:93 | they cover all nine states |
| KnownCycles.Cycles3Distinct | backend/main.py:93 | the two cycles differ and each starts at a state `(0, b)` |
| KnownCycles.Cycles4Shape | backend/main.py:94 | the four cycles modulo 4 have the returned shape |
| KnownCycles.Cycles4Cover | backend/main.py:94 | they cover all sixteen states |
| KnownCycles.Cycles4Distinct | backend/main.py:94 | the four cycles differ and each starts at a state `(0, b)` |
| KnownCycles.EnumerationUnique | backend/main.py:28-67 | two lists meeting the enumeration guarantees for one modulus hold the same cycles and have the same length |
| KnownCycles.EnumerationIncluded | backend/main.py:28-67 | every cycle of one list meeting the enumeration guarantees appears in any other such list for the same modulus |
| KnownCycles.Base2Sequences | backend/main.py:91-92 | modulo 2 there are two sequences, `[0]` and `[0, 1, 1]`; `[1, 1, 0]` is not returned |
| KnownCycles.Base3Sequences | backend/main.py:93 | modulo 3 there are two sequences, `[0]` and `[0, 1, 1, 2, 0, 2, 2, 1]`; the listed rotation is not returned |
| KnownCycles.Base4Sequences | backend/main.py:94 | modulo 4 there are four sequences, `[0]`, `[0, 1, 1, 2, 3, 1]`, `[0, 2, 2]` and `[0, 3, 3, 2, 1, 3]`; `[1, 1, 2, 3, 1, 0]` is not returned |
| KnownCycles.Cycles2Firsts | backend/main.py:108 | the projections of the cycles modulo 2 |
| KnownCycles.Cycles3Firsts | backend/main.py:108 | the projections of the cycles modulo 3 |
| KnownCycles.Cycles4Firsts | backend/main.py:108 | the projections of the cycles modulo 4 |

## Left out

- Fetching (`App.tsx:38-55`) is left out: `fetch`, `useEffect`, the loading and error state, and `API_BASE` are I/O. Their effect on the model is the reset of the selection, modelled as `Selection.Reset`. Stale responses are not guarded in the code, so there is nothing to model there.
- The `ResizeObserver` subscription, the JSX and the style objects are left out. The box is a parameter with natural-number width and height; the browser reports fractional sizes, which are not modelled.
- `fontPx` (`App.tsx:232`) is cosmetic floating-point arithmetic and is left out.
- Palette colours are `Palette.Rgb(hex)` values, with the hex number of each CSS colour string and a separate `White` for the CSS keyword `white` (`App.tsx:261`). This is a one-to-one encoding of the twelve distinct strings.
- Keys and labels are integer pairs, not the strings `` `${x},${y}` `` and `` `(${x},${y})` ``. The string form is an injective packing of the pair.
- The order mode is not an input of the cell index: `CellIndex.Grid` takes no order, so ordering cannot change the grid. This is structural and carries no lemma.
- The FastAPI app, the CORS middleware and the `print` calls in `get_cycles` are framework and logging code. The `Query(ge=1, le=700)` bounds are modelled as `GetCycles` returning `None`; the framework's 422 body is not modelled.
- The response field `cycles_pairs` is named `cyclesPairs`, and `types.ts` is mirrored by `Types.CyclesResponse` only.
- `GridModel.size` is the grid's side in cells: `data.base` from the response (`App.tsx:81`), or the input base when there is no data (`App.tsx:68`); both are kept as `int`. The input base comes from `parseInt(…, 10)` (`App.tsx:102`), which can give a negative number or `NaN`; `NaN` is not modelled. The `Grid` component receives `data.base` (`App.tsx:191`), which `GetCycles` bounds to `[1, 700]`, so `GridView` takes `base: nat`.
- `Enumerate.EnumerateCycles`: the order of the returned cycles is not stated. The proved facts fix which cycles are returned and how many, but not their order.
- Python's tuple order on states is modelled by `LexLe`/`LexLt` on integer pairs; the values involved are always integers.
