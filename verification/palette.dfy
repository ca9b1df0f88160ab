/** The fixed repeating palette and the per-series colour rule. */
module Palette {

  /** A CSS colour: a `#rrggbb` value, or the keyword `white` that paints
      a cell no series visits. */
  datatype Color = Rgb(hex: nat) | White

  /** The twelve palette entries, in order. */
  const Colors: seq<Color> := [
    Rgb(0x1f77b4), Rgb(0xff7f0e), Rgb(0x2ca02c), Rgb(0xd62728),
    Rgb(0x9467bd), Rgb(0x8c564b), Rgb(0xe377c2), Rgb(0x7f7f7f),
    Rgb(0xbcbd22), Rgb(0x17becf), Rgb(0x393b79), Rgb(0x637939)
  ]

  /** `palette[idx % palette.length]`: the colour of series `idx`, used both
      for its list entry and for its grid cells. */
  function ColorOf(idx: nat): (c: Color)
    ensures c in Colors && c != White
  {
    Colors[idx % |Colors|]
  }

  /** Every series colour is one of the twelve palette entries, never the
      white of an empty cell, and it repeats every twelve series. */
  lemma {:induction false} ColorInPalette(idx: nat)
    ensures ColorOf(idx) in Colors && ColorOf(idx) != White
    ensures ColorOf(idx) == ColorOf(idx + 12)
  {
    assert (idx + 12) % 12 == idx % 12;
  }

  /** The palette entries are pairwise distinct. */
  lemma {:induction false} ColorsDistinct()
    ensures forall i, j :: 0 <= i < j < |Colors| ==> Colors[i] != Colors[j]
  {
  }

  /** Two series share a colour exactly when their indices agree modulo
      the palette length. */
  lemma {:induction false} SameColorIffSameResidue(i: nat, j: nat)
    ensures ColorOf(i) == ColorOf(j) <==> i % 12 == j % 12
  {
    ColorsDistinct();
    if i % 12 < j % 12 {
      assert Colors[i % 12] != Colors[j % 12];
    } else if j % 12 < i % 12 {
      assert Colors[j % 12] != Colors[i % 12];
    }
  }
}
