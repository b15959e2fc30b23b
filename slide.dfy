/**
 * The canonical move on one row, "slide right", as an independent reference
 * definition: keep the non-zero values in order, merge equal neighbours
 * greedily starting from the high end (each tile at most once), and pad with
 * zeros on the low end. The in-place scan of Board.getAfterMoveData is proved
 * to compute exactly this.
 */
module RowSlide {
  import opened Grids

  function Last(s: seq<int>): int
    requires |s| > 0
  {
    s[|s| - 1]
  }

  function Init(s: seq<int>): seq<int>
    requires |s| > 0
  {
    s[..|s| - 1]
  }

  /** The non-zero values of `s`, in order. */
  function NonZeros(s: seq<int>): (r: seq<int>)
    ensures |r| <= |s|
    ensures forall k :: 0 <= k < |r| ==> r[k] != 0
  {
    if s == [] then [] else NonZeros(Init(s)) + (if Last(s) == 0 then [] else [Last(s)])
  }

  /**
   * Greedy merge from the high end: if the last two values are equal they
   * become one tile of twice the value, otherwise the last value stays.
   */
  function Merge(xs: seq<int>): (r: seq<int>)
    ensures |r| <= |xs|
    decreases |xs|
  {
    if |xs| == 0 then []
    else if |xs| >= 2 && xs[|xs| - 1] == xs[|xs| - 2] then Merge(xs[..|xs| - 2]) + [2 * xs[|xs| - 1]]
    else Merge(Init(xs)) + [Last(xs)]
  }

  /**
   * The values the greedy merge creates, from the high end down: one
   * doubled value for every pair that Merge joins.
   */
  function Merges(xs: seq<int>): seq<int>
    decreases |xs|
  {
    if |xs| == 0 then []
    else if |xs| >= 2 && xs[|xs| - 1] == xs[|xs| - 2] then [2 * xs[|xs| - 1]] + Merges(xs[..|xs| - 2])
    else Merges(Init(xs))
  }

  /** Each pair joined costs one value: the merged list and the merges account for every input value. */
  lemma {:induction false} MergesCount(xs: seq<int>)
    ensures |Merge(xs)| + |Merges(xs)| == |xs|
    decreases |xs|
  {
    if |xs| >= 2 && xs[|xs| - 1] == xs[|xs| - 2] {
      MergesCount(xs[..|xs| - 2]);
    } else if |xs| > 0 {
      MergesCount(Init(xs));
    }
  }

  /** Every value a merge creates is a value of the merged row. */
  lemma {:induction false} MergesShown(xs: seq<int>)
    ensures forall v :: v in Merges(xs) ==> v in Merge(xs)
    decreases |xs|
  {
    if |xs| >= 2 && xs[|xs| - 1] == xs[|xs| - 2] {
      MergesShown(xs[..|xs| - 2]);
    } else if |xs| > 0 {
      MergesShown(Init(xs));
    }
  }

  function Zeros(k: nat): (z: seq<int>)
    ensures |z| == k && forall i :: 0 <= i < k ==> z[i] == 0
  {
    seq(k, _ => 0)
  }

  /** The row after sliding right. */
  function Slide(s: seq<int>): (r: seq<int>)
    ensures |r| == |s|
  {
    var m := Merge(NonZeros(s));
    Zeros(|s| - |m|) + m
  }

  function Sum(s: seq<int>): int {
    if s == [] then 0 else Sum(Init(s)) + Last(s)
  }

  /** No zero sits to the right of a non-zero value. */
  predicate Compacted(s: seq<int>) {
    forall k, l :: 0 <= k < l < |s| && s[k] != 0 ==> s[l] != 0
  }

  lemma {:induction false} NonZerosAppend(s: seq<int>, t: seq<int>)
    ensures NonZeros(s + t) == NonZeros(s) + NonZeros(t)
    decreases |t|
  {
    if t == [] {
      assert s + t == s;
    } else {
      assert Init(s + t) == s + Init(t);
      NonZerosAppend(s, Init(t));
    }
  }

  lemma {:induction false} NonZerosOfZeros(s: seq<int>)
    requires forall k :: 0 <= k < |s| ==> s[k] == 0
    ensures NonZeros(s) == []
    decreases |s|
  {
    if s != [] {
      NonZerosOfZeros(Init(s));
    }
  }

  /** A row without non-zero values is all zeros. */
  lemma {:induction false} NoNonZerosIsZeros(s: seq<int>)
    requires NonZeros(s) == []
    ensures forall k :: 0 <= k < |s| ==> s[k] == 0
    decreases |s|
  {
    if s != [] {
      NoNonZerosIsZeros(Init(s));
      assert s == Init(s) + [Last(s)];
    }
  }

  /** A row without zeros is its own list of non-zero values. */
  lemma {:induction false} NonZerosOfFull(s: seq<int>)
    requires forall k :: 0 <= k < |s| ==> s[k] != 0
    ensures NonZeros(s) == s
    decreases |s|
  {
    if s != [] {
      NonZerosOfFull(Init(s));
    }
  }

  lemma {:induction false} SumAppend(s: seq<int>, t: seq<int>)
    ensures Sum(s + t) == Sum(s) + Sum(t)
    decreases |t|
  {
    if t == [] {
      assert s + t == s;
    } else {
      assert Init(s + t) == s + Init(t);
      SumAppend(s, Init(t));
    }
  }

  lemma {:induction false} SumOfZeros(s: seq<int>)
    requires forall k :: 0 <= k < |s| ==> s[k] == 0
    ensures Sum(s) == 0
    decreases |s|
  {
    if s != [] {
      SumOfZeros(Init(s));
    }
  }

  lemma {:induction false} SumNonZeros(s: seq<int>)
    ensures Sum(NonZeros(s)) == Sum(s)
    decreases |s|
  {
    if s != [] {
      SumNonZeros(Init(s));
      SumAppend(NonZeros(Init(s)), if Last(s) == 0 then [] else [Last(s)]);
    }
  }

  /** A merge turns v, v into 2v, so merging keeps the total. */
  lemma {:induction false} SumMerge(xs: seq<int>)
    ensures Sum(Merge(xs)) == Sum(xs)
    decreases |xs|
  {
    if |xs| >= 2 && xs[|xs| - 1] == xs[|xs| - 2] {
      var rest, v := xs[..|xs| - 2], xs[|xs| - 1];
      assert Merge(xs) == Merge(rest) + [2 * v];
      SumMerge(rest);
      SumSnoc(Merge(rest), 2 * v);
      assert xs == rest + [v] + [v];
      SumSnoc(rest + [v], v);
      SumSnoc(rest, v);
    } else if |xs| > 0 {
      var init, v := Init(xs), Last(xs);
      assert Merge(xs) == Merge(init) + [v];
      SumMerge(init);
      SumSnoc(Merge(init), v);
      assert xs == init + [v];
      SumSnoc(init, v);
    }
  }

  lemma SumSnoc(s: seq<int>, x: int)
    ensures Sum(s + [x]) == Sum(s) + x
  {
    assert Init(s + [x]) == s;
  }

  /** Sliding a row keeps the sum of its values. */
  lemma SlideSum(s: seq<int>)
    ensures Sum(Slide(s)) == Sum(s)
  {
    var m := Merge(NonZeros(s));
    SumAppend(Zeros(|s| - |m|), m);
    SumOfZeros(Zeros(|s| - |m|));
    SumMerge(NonZeros(s));
    SumNonZeros(s);
  }

  /** Merging values that are all non-zero gives values that are all non-zero. */
  lemma {:induction false} MergeNonZero(xs: seq<int>)
    requires forall k :: 0 <= k < |xs| ==> xs[k] != 0
    ensures forall k :: 0 <= k < |Merge(xs)| ==> Merge(xs)[k] != 0
    decreases |xs|
  {
    if |xs| >= 2 && xs[|xs| - 1] == xs[|xs| - 2] {
      MergeNonZero(xs[..|xs| - 2]);
    } else if |xs| > 0 {
      MergeNonZero(Init(xs));
    }
  }

  /** After sliding, the row is compacted toward the high index. */
  lemma SlideCompacted(s: seq<int>)
    ensures Compacted(Slide(s))
  {
    MergeNonZero(NonZeros(s));
  }

  /** Merging tiles gives tiles: doubling a power of two is a power of two. */
  lemma {:induction false} MergeTiles(xs: seq<int>)
    requires forall k :: 0 <= k < |xs| ==> IsTile(xs[k])
    ensures forall k :: 0 <= k < |Merge(xs)| ==> IsTile(Merge(xs)[k])
    decreases |xs|
  {
    if |xs| >= 2 && xs[|xs| - 1] == xs[|xs| - 2] {
      MergeTiles(xs[..|xs| - 2]);
      var v := xs[|xs| - 1];
      assert IsTile(2 * v) by {
        if v != 0 {
          assert (2 * v) / 2 == v;
        }
      }
    } else if |xs| > 0 {
      MergeTiles(Init(xs));
    }
  }

  lemma {:induction false} NonZerosTiles(s: seq<int>)
    requires forall k :: 0 <= k < |s| ==> IsTile(s[k])
    ensures forall k :: 0 <= k < |NonZeros(s)| ==> IsTile(NonZeros(s)[k])
    decreases |s|
  {
    if s != [] {
      NonZerosTiles(Init(s));
    }
  }

  /** Sliding a row of tiles gives a row of tiles. */
  lemma SlideTiles(s: seq<int>)
    requires forall k :: 0 <= k < |s| ==> IsTile(s[k])
    ensures forall k :: 0 <= k < |s| ==> IsTile(Slide(s)[k])
  {
    NonZerosTiles(s);
    MergeTiles(NonZeros(s));
  }

  /** No two neighbouring cells of `s` hold the same value. */
  predicate NoEqualNeighbours(s: seq<int>) {
    forall k :: 0 <= k < |s| - 1 ==> s[k] != s[k + 1]
  }

  lemma {:induction false} MergeNoEqualNeighbours(xs: seq<int>)
    requires NoEqualNeighbours(xs)
    ensures Merge(xs) == xs
    decreases |xs|
  {
    if |xs| > 0 {
      var init := Init(xs);
      assert NoEqualNeighbours(init) by {
        forall k | 0 <= k < |init| - 1
          ensures init[k] != init[k + 1]
        {
          assert init[k] == xs[k] && init[k + 1] == xs[k + 1];
        }
      }
      MergeNoEqualNeighbours(init);
      if |xs| >= 2 {
        assert xs[|xs| - 2] != xs[|xs| - 1];
      }
      assert xs == init + [Last(xs)];
    }
  }

  /** A full row with no two equal neighbours cannot slide: it is unchanged. */
  lemma SlideBlocked(s: seq<int>)
    requires forall k :: 0 <= k < |s| ==> s[k] != 0
    requires NoEqualNeighbours(s)
    ensures Slide(s) == s
  {
    NonZerosOfFull(s);
    MergeNoEqualNeighbours(s);
    assert Zeros(0) + s == s;
  }

  /**
   * Closing one anchor of the scan: if the values of the prefix `p` merge into
   * those of the shorter prefix `q` followed by `y`, sliding `p` is sliding `q`
   * and then `y` at the high end.
   */
  lemma SlideSnoc(p: seq<int>, q: seq<int>, y: int)
    requires |p| == |q| + 1
    requires Merge(NonZeros(p)) == Merge(NonZeros(q)) + [y]
    ensures Slide(p) == Slide(q) + [y]
  {
    var m := Merge(NonZeros(q));
    assert |m| <= |q| by {
      assert |NonZeros(q)| <= |q|;
    }
    assert Zeros(|p| - |m| - 1) == Zeros(|q| - |m|);
  }

  /** An all-zero row slides to itself. */
  lemma SlideZeros(p: seq<int>)
    requires forall k :: 0 <= k < |p| ==> p[k] == 0
    ensures Slide(p) == p
  {
    NonZerosOfZeros(p);
  }

  /** A lone tile slides to the high end of the row. */
  lemma SlideLoneTile()
    ensures Slide([2, 0, 0, 0]) == [0, 0, 0, 2]
  {
    var s := [2, 0, 0, 0];
    assert s == [2] + [0, 0, 0];
    NonZerosAppend([2], [0, 0, 0]);
    NonZerosOfZeros([0, 0, 0]);
    NonZerosOfFull([2]);
    assert NonZeros(s) == [2];
    assert Merge([2]) == [2] by {
      assert Init([2]) == [];
    }
    assert Zeros(3) == [0, 0, 0];
  }

  /** An equal pair merges into one tile of twice the value. */
  lemma SlidePair()
    ensures Slide([2, 2, 0, 0]) == [0, 0, 0, 4]
  {
    NonZerosAppend([2, 2], [0, 0]);
    NonZerosOfZeros([0, 0]);
    NonZerosOfFull([2, 2]);
    assert [2, 2] + [0, 0] == [2, 2, 0, 0];
    assert Merge([2, 2]) == [4] by {
      assert [2, 2][..0] == [];
    }
    assert Zeros(3) == [0, 0, 0];
  }

  /** Four equal tiles make two merges, never one tile of four times the value. */
  lemma SlideFourEqual()
    ensures Slide([2, 2, 2, 2]) == [0, 0, 4, 4]
  {
    var row := [2, 2, 2, 2];
    NonZerosOfFull(row);
    assert Merge([2, 2]) == [4] by {
      assert [2, 2][..0] == [];
    }
    assert Merge(row) == Merge(row[..2]) + [4];
    assert row[..2] == [2, 2];
    assert Merge(row) == [4, 4];
    assert Zeros(2) == [0, 0];
    assert Slide(row) == Zeros(4 - 2) + [4, 4];
  }

  /** The full row 2, 4, 2, 4 cannot move right. */
  lemma SlideAlternating()
    ensures Slide([2, 4, 2, 4]) == [2, 4, 2, 4]
  {
    SlideBlocked([2, 4, 2, 4]);
  }

  // ---------------------------------------------------------------------
  // The steps of the in-place scan, one anchor at a time

  lemma NonZerosStep(s: seq<int>, j: int)
    requires 0 <= j < |s|
    ensures NonZeros(s[..j + 1]) == NonZeros(s[..j]) + NonZeros([s[j]])
  {
    assert s[..j + 1] == s[..j] + [s[j]];
    NonZerosAppend(s[..j], [s[j]]);
  }

  /** Zeros after a prefix add no values. */
  lemma NonZerosPadded(b: seq<int>, j: int, i: int)
    requires 0 <= j <= i <= |b|
    requires forall k :: j <= k < i ==> b[k] == 0
    ensures NonZeros(b[..i]) == NonZeros(b[..j])
  {
    assert b[..i] == b[..j] + b[j..i];
    NonZerosAppend(b[..j], b[j..i]);
    NonZerosOfZeros(b[j..i]);
  }

  /**
   * The anchor i took the equal value v from probe j: the prefix up to the
   * anchor slides to the rest of the row, now zero from j on, and the doubled anchor.
   */
  lemma CloseMerged(a: seq<int>, b: seq<int>, j: int, i: int, v: int)
    requires 0 <= j < i < |a| == |b|
    requires a[..j] == b[..j] && (forall k :: j <= k < i ==> b[k] == 0)
    requires a[j] == v && v != 0 && b[i] == 2 * v
    requires NonZeros(a[..i + 1]) == NonZeros(a[..j + 1]) + NonZeros([v])
    ensures Slide(a[..i + 1]) == Slide(b[..i]) + [b[i]]
    ensures Merges(NonZeros(a[..i + 1])) == [b[i]] + Merges(NonZeros(b[..i]))
  {
    var x := NonZeros(a[..j]);
    NonZerosStep(a, j);
    assert NonZeros([v]) == [v];
    var xs := x + [v, v];
    assert NonZeros(a[..i + 1]) == xs;
    assert xs[..|xs| - 2] == x;
    assert Merge(xs) == Merge(x) + [2 * v];
    assert Merges(xs) == [2 * v] + Merges(x);
    NonZerosPadded(b, j, i);
    assert b[..j] == a[..j];
    SlideSnoc(a[..i + 1], b[..i], b[i]);
  }

  /**
   * The anchor i holds a value different from the non-zero probe j: the
   * anchor keeps its value and the scan moves on.
   */
  lemma CloseBlocked(a: seq<int>, b: seq<int>, j: int, i: int)
    requires 0 <= j < i < |a| == |b|
    requires a[..j + 1] == b[..j + 1] && (forall k :: j < k < i ==> b[k] == 0)
    requires b[j] != 0 && b[i] != 0 && b[j] != b[i]
    requires NonZeros(a[..i + 1]) == NonZeros(a[..j + 1]) + NonZeros([b[i]])
    ensures Slide(a[..i + 1]) == Slide(b[..i]) + [b[i]]
    ensures Merges(NonZeros(a[..i + 1])) == Merges(NonZeros(b[..i]))
  {
    var y := NonZeros(a[..j + 1]);
    NonZerosStep(a, j);
    assert a[j] == b[j];
    assert NonZeros([b[j]]) == [b[j]];
    assert NonZeros([b[i]]) == [b[i]];
    var xs := y + [b[i]];
    assert Last(y) == b[j];
    assert Init(xs) == y;
    assert Merge(xs) == Merge(y) + [b[i]];
    assert Merges(xs) == Merges(y);
    NonZerosPadded(b, j + 1, i);
    SlideSnoc(a[..i + 1], b[..i], b[i]);
  }

  /** Every probe below the anchor was zero or has been moved into it. */
  lemma CloseExhausted(a: seq<int>, b: seq<int>, i: int)
    requires 0 <= i < |a| == |b|
    requires forall k :: 0 <= k < i ==> b[k] == 0
    requires NonZeros(a[..i + 1]) == NonZeros(a[..0]) + NonZeros([b[i]])
    ensures Slide(a[..i + 1]) == Slide(b[..i]) + [b[i]]
    ensures Merges(NonZeros(a[..i + 1])) == Merges(NonZeros(b[..i])) == []
  {
    NonZerosOfZeros(b[..i]);
    assert a[..0] == [];
    if b[i] != 0 {
      assert NonZeros([b[i]]) == [b[i]];
      assert Merge([b[i]]) == Merge([]) + [b[i]];
      assert Merges([b[i]]) == Merges([]);
      SlideSnoc(a[..i + 1], b[..i], b[i]);
    } else {
      assert NonZeros([b[i]]) == [];
      NoNonZerosIsZeros(a[..i + 1]);
      SlideZeros(a[..i + 1]);
      SlideZeros(b[..i]);
      assert a[..i + 1] == b[..i] + [b[i]];
    }
  }

  lemma SlideSingle(s: seq<int>)
    requires |s| == 1
    ensures Slide(s) == s
  {
    if s[0] == 0 {
      SlideZeros(s);
    } else {
      assert Init(s) == [];
      assert NonZeros(s) == s;
      assert Zeros(0) + s == s;
    }
  }
}
