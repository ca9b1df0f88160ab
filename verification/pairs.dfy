/** The pair generator: a sequence read as a closed loop, each element
    paired with its successor and the last one wrapping to the first. */
module CircularPairs {
  import opened Types

  /** The sequence rotated one place to the left. */
  function RotateLeft(s: seq<int>): (r: seq<int>)
    ensures |r| == |s|
  {
    if s == [] then [] else s[1..] + [s[0]]
  }

  /** Element-wise pairing of two sequences of equal length. */
  function Zip(a: seq<int>, b: seq<int>): (r: seq<Pair>)
    requires |a| == |b|
    ensures |r| == |a|
    ensures forall i :: 0 <= i < |r| ==> r[i] == (a[i], b[i])
  {
    if a == [] then [] else [(a[0], b[0])] + Zip(a[1..], b[1..])
  }

  /** `makePairsCircular`: the sequence zipped with its left rotation. An
      empty sequence gives no pairs and a singleton one self-pair. */
  function Circular(s: seq<int>): (r: seq<Pair>)
    ensures |r| == |s|
    ensures |s| == 1 ==> r == [(s[0], s[0])]
  {
    Zip(s, RotateLeft(s))
  }

  /** Position i of the left rotation holds the successor of s[i]. */
  lemma RotateLeftAt(s: seq<int>, i: int)
    requires 0 <= i < |s|
    ensures RotateLeft(s)[i] == s[(i + 1) % |s|]
  {
    if i + 1 < |s| {
      assert (i + 1) % |s| == i + 1;
    } else {
      assert (i + 1) % |s| == 0;
    }
  }

  /** Pair i of `makePairsCircular(s)` is (s[i], s[(i+1) mod |s|]): each
      element with its successor, the last wrapping to the first. */
  lemma {:induction false} CircularAt(s: seq<int>)
    ensures forall i {:trigger Circular(s)[i]} :: 0 <= i < |s| ==>
      Circular(s)[i] == (s[i], s[(i + 1) % |s|])
  {
    forall i | 0 <= i < |s|
      ensures Circular(s)[i] == (s[i], s[(i + 1) % |s|])
    {
      RotateLeftAt(s, i);
    }
  }

  /** The first component of every pair, in order. */
  function Firsts(ps: seq<Pair>): (r: seq<int>)
    ensures |r| == |ps|
    ensures forall i :: 0 <= i < |ps| ==> r[i] == ps[i].0
  {
    if ps == [] then [] else [ps[0].0] + Firsts(ps[1..])
  }

  /** A pair sequence is chained when each pair's second component is the
      next pair's first component, the last one wrapping to the first. */
  ghost predicate Chained(ps: seq<Pair>)
  {
    forall i, j :: 0 <= i < |ps| && j == (i + 1) % |ps| ==> ps[i].1 == ps[j].0
  }

  /** Circular pairing inverts first-component projection exactly on the
      chained pair sequences: the sequence of first components rebuilds
      the pairs. */
  lemma {:induction false} CircularOfFirsts(ps: seq<Pair>)
    ensures Circular(Firsts(ps)) == ps <==> Chained(ps)
  {
    var c := Circular(Firsts(ps));
    CircularAt(Firsts(ps));
    if Chained(ps) {
      forall i | 0 <= i < |ps|
        ensures c[i] == ps[i]
      {
        var j := (i + 1) % |ps|;
        assert ps[i].1 == ps[j].0;
      }
    }
    if c == ps {
      forall i, j | 0 <= i < |ps| && j == (i + 1) % |ps|
        ensures ps[i].1 == ps[j].0
      {
        assert c[i] == ps[i];
      }
    }
  }

  /** Projecting circular pairs back to first components returns the
      sequence itself. */
  lemma {:induction false} FirstsOfCircular(s: seq<int>)
    ensures Firsts(Circular(s)) == s
  {
    CircularAt(s);
  }
}
