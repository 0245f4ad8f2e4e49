/** Sorting one column of pixels by brightness, and what the sorted,
    opaque column written back to the display buffer is promised to be. */
module ColumnSort {
  import opened Raster

  /** The sort key. p5's `brightness` of an RGB colour is its HSB
      brightness, max(r, g, b) scaled from 0..255 to 0..100; the scaling is
      strictly increasing, so ordering by the unscaled maximum is the same
      order. Alpha takes no part. */
  function Brightness(p: Pixel): (k: int)
    ensures 0 <= k < 256
    ensures k == p.r || k == p.g || k == p.b
    ensures p.r <= k && p.g <= k && p.b <= k
  {
    if p.r >= p.g && p.r >= p.b then p.r
    else if p.g >= p.b then p.g
    else p.b
  }

  /** The pixel as written back: its colour with alpha forced to 255. */
  function Opaque(p: Pixel): (q: Pixel)
    ensures q.a == 255
    ensures q.r == p.r && q.g == p.g && q.b == p.b
    ensures Brightness(q) == Brightness(p)
  {
    p.(a := 255)
  }

  /** Applies f to every element, keeping the order. */
  function Map<A, B>(f: A -> B, s: seq<A>): (r: seq<B>)
    ensures |r| == |s|
    ensures forall i :: 0 <= i < |s| ==> r[i] == f(s[i])
  {
    if s == [] then [] else [f(s[0])] + Map(f, s[1..])
  }

  lemma MapConcat<A, B>(f: A -> B, s: seq<A>, t: seq<A>)
    ensures Map(f, s + t) == Map(f, s) + Map(f, t)
  {
    assert |Map(f, s + t)| == |Map(f, s) + Map(f, t)|;
    forall i | 0 <= i < |s + t|
      ensures Map(f, s + t)[i] == (Map(f, s) + Map(f, t))[i]
    {
      if i < |s| {
        assert (s + t)[i] == s[i];
      } else {
        assert (s + t)[i] == t[i - |s|];
      }
    }
  }

  /** The elements of t are t[k] and those of t with position k removed. */
  lemma RemoveAt<A>(t: seq<A>, k: nat)
    requires k < |t|
    ensures multiset(t) == multiset(t[..k] + t[k + 1..]) + multiset{t[k]}
    ensures multiset(t[..k] + t[k + 1..]) == multiset(t) - multiset{t[k]}
  {
    assert t == t[..k] + [t[k]] + t[k + 1..];
  }

  /** Mapping commutes with removing position k. */
  lemma MapRemoveAt<A, B>(f: A -> B, t: seq<A>, k: nat)
    requires k < |t|
    ensures multiset(Map(f, t)) == multiset(Map(f, t[..k] + t[k + 1..])) + multiset{f(t[k])}
  {
    MapConcat(f, t[..k], t[k + 1..]);
    MapConcat(f, t[..k], [t[k]]);
    MapConcat(f, t[..k] + [t[k]], t[k + 1..]);
    assert t == t[..k] + [t[k]] + t[k + 1..];
  }

  /** Mapping a function over two permutations of each other gives two
      permutations of each other. */
  lemma {:induction false} MapPermutation<A, B>(f: A -> B, s: seq<A>, t: seq<A>)
    requires multiset(s) == multiset(t)
    ensures multiset(Map(f, s)) == multiset(Map(f, t))
    decreases |s|
  {
    if s == [] {
      assert |t| == |multiset(t)| == 0;
    } else {
      var v := s[0];
      assert v in t by {
        assert v in multiset(s);
      }
      var k :| 0 <= k < |t| && t[k] == v;
      var rest := t[..k] + t[k + 1..];
      assert multiset(s[1..]) == multiset(rest) by {
        RemoveAt(s, 0);
        assert s[..0] + s[1..] == s[1..];
        RemoveAt(t, k);
      }
      MapPermutation(f, s[1..], rest);
      MapPermutationStep(f, s, t, k);
    }
  }

  /** The inductive step: matching s[0] with t[k] and the rest with the rest. */
  lemma MapPermutationStep<A, B>(f: A -> B, s: seq<A>, t: seq<A>, k: nat)
    requires s != [] && k < |t| && t[k] == s[0]
    requires multiset(Map(f, s[1..])) == multiset(Map(f, t[..k] + t[k + 1..]))
    ensures multiset(Map(f, s)) == multiset(Map(f, t))
  {
    MapRemoveAt(f, s, 0);
    assert s[..0] + s[1..] == s[1..];
    MapRemoveAt(f, t, k);
  }

  /** Every pixel of the column made opaque. */
  function AllOpaque(s: seq<Pixel>): (r: seq<Pixel>)
    ensures |r| == |s|
    ensures forall i :: 0 <= i < |s| ==> r[i].a == 255 && Opaque(s[i]) == r[i]
  {
    Map(Opaque, s)
  }

  /** Brightness does not decrease from top to bottom. */
  ghost predicate SortedByBrightness(s: seq<Pixel>)
  {
    forall i, j :: 0 <= i < j < |s| ==> Brightness(s[i]) <= Brightness(s[j])
  }

  /** What a column of the display buffer holds once it has been sorted:
      brightness ascends from top to bottom, every alpha is 255, and the
      pixels are those of the original column, made opaque, rearranged. */
  ghost predicate IsSortedColumnOf(col: seq<Pixel>, orig: seq<Pixel>)
  {
    SortedByBrightness(col)
    && (forall y :: 0 <= y < |col| ==> col[y].a == 255)
    && multiset(col) == multiset(AllOpaque(orig))
  }

  /** Writing back a sorted rearrangement of a column, made opaque, gives a
      sorted column of the original. */
  lemma OpaqueSortedIsSortedColumn(sorted: seq<Pixel>, orig: seq<Pixel>)
    requires SortedByBrightness(sorted)
    requires multiset(sorted) == multiset(orig)
    ensures IsSortedColumnOf(AllOpaque(sorted), orig)
  {
    MapPermutation(Opaque, sorted, orig);
  }

  /** Two sorted columns of the same original have the same brightness at
      every row: the sort fixes the picture up to the order of pixels of
      equal brightness. */
  lemma SortedColumnBrightnessUnique(c1: seq<Pixel>, c2: seq<Pixel>, orig: seq<Pixel>)
    requires IsSortedColumnOf(c1, orig) && IsSortedColumnOf(c2, orig)
    ensures |c1| == |c2|
    ensures forall y :: 0 <= y < |c1| ==> Brightness(c1[y]) == Brightness(c2[y])
  {
    assert |c1| == |multiset(c1)| == |multiset(c2)| == |c2|;
    MapPermutation(Brightness, c1, c2);
    SortedIntsUnique(Map(Brightness, c1), Map(Brightness, c2));
  }

  ghost predicate Ascending(s: seq<int>)
  {
    forall i, j :: 0 <= i < j < |s| ==> s[i] <= s[j]
  }

  /** The head of an ascending sequence is its least element. */
  lemma HeadIsLeast(s: seq<int>, v: int)
    requires Ascending(s) && v in multiset(s)
    ensures s != [] && s[0] <= v
  {
    var j :| 0 <= j < |s| && s[j] == v;
  }

  /** Two ascending sequences with the same elements start alike, and
      their tails again have the same elements. */
  lemma SameHead(s: seq<int>, t: seq<int>)
    requires Ascending(s) && Ascending(t) && s != []
    requires multiset(s) == multiset(t)
    ensures t != [] && s[0] == t[0]
    ensures multiset(s[1..]) == multiset(t[1..])
  {
    assert s[0] in multiset(s);
    HeadIsLeast(t, s[0]);
    HeadIsLeast(s, t[0]);
    assert s == [s[0]] + s[1..];
    assert t == [t[0]] + t[1..];
    assert multiset(s[1..]) == multiset(s) - multiset{s[0]};
    assert multiset(t[1..]) == multiset(t) - multiset{t[0]};
  }

  /** An ascending sequence is determined by its multiset. */
  lemma {:induction false} SortedIntsUnique(s: seq<int>, t: seq<int>)
    requires Ascending(s) && Ascending(t)
    requires multiset(s) == multiset(t)
    ensures s == t
    decreases |s|
  {
    if s == [] {
      assert |t| == |multiset(t)| == 0;
    } else {
      SameHead(s, t);
      assert Ascending(s[1..]) && Ascending(t[1..]);
      SortedIntsUnique(s[1..], t[1..]);
      assert s == [s[0]] + s[1..] && t == [t[0]] + t[1..];
    }
  }

  method Swap(a: array<Pixel>, i: nat, j: nat)
    requires i < a.Length && j < a.Length
    modifies a
    ensures a[..] == old(a[..])[i := old(a[j])][j := old(a[i])]
    ensures multiset(a[..]) == old(multiset(a[..]))
  {
    a[i], a[j] := a[j], a[i];
  }

  /** Moves a[i] leftwards past the brighter pixels before it, so that a
      sorted prefix a[..i] becomes a sorted prefix a[..i + 1]. */
  method InsertLeft(a: array<Pixel>, i: nat)
    requires i < a.Length
    requires forall m, n :: 0 <= m < n < i ==> Brightness(a[m]) <= Brightness(a[n])
    modifies a
    ensures forall m, n :: 0 <= m < n <= i ==> Brightness(a[m]) <= Brightness(a[n])
    ensures multiset(a[..]) == old(multiset(a[..]))
  {
    var j := i;
    while j > 0 && Brightness(a[j - 1]) > Brightness(a[j])
      invariant 0 <= j <= i
      invariant forall m, n :: 0 <= m < n <= i && m != j && n != j ==> Brightness(a[m]) <= Brightness(a[n])
      invariant forall n :: j < n <= i ==> Brightness(a[j]) <= Brightness(a[n])
      invariant multiset(a[..]) == old(multiset(a[..]))
    {
      Swap(a, j - 1, j);
      j := j - 1;
    }
  }

  /** Sorts the column in place, ascending by brightness (the comparator
      `brightness(a) - brightness(b)`). JavaScript's Array.prototype.sort is
      stable, so the source keeps equally bright pixels in their top-to-bottom
      order; the contract deliberately requires only a sorted permutation
      (SortedColumnBrightnessUnique shows the brightness of every row is
      fixed regardless). This implementation is an insertion sort. */
  method SortByBrightness(a: array<Pixel>)
    modifies a
    ensures SortedByBrightness(a[..])
    ensures multiset(a[..]) == old(multiset(a[..]))
  {
    for i := 0 to a.Length
      invariant forall m, n :: 0 <= m < n < i ==> Brightness(a[m]) <= Brightness(a[n])
      invariant multiset(a[..]) == old(multiset(a[..]))
    {
      InsertLeft(a, i);
    }
  }
}
