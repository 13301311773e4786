/** Draw order (painter's algorithm): the render list is sorted by ascending
    (row, column) of the anchor with a stable sort, so items further down the
    room are drawn later, in front of the ones above them. */
module DepthSort {
  import opened Geometry
  import opened Furniture

  /** One entry of the render list: a placement, and whether it is the cursor preview. */
  datatype Sprite = Sprite(placement: Placement, preview: bool)

  function Key(s: Sprite): Cell { s.placement.anchor }

  /** The sort key order: (row, column) compared lexicographically. */
  predicate KeyLe(a: Cell, b: Cell) {
    a.y < b.y || (a.y == b.y && a.x <= b.x)
  }

  predicate Sorted(xs: seq<Sprite>) {
    forall i, j :: 0 <= i < j < |xs| ==> KeyLe(Key(xs[i]), Key(xs[j]))
  }

  /** The entries with anchor `k`, in list order. A sort is stable when it keeps
      every such subsequence unchanged. */
  function WithKey(xs: seq<Sprite>, k: Cell): seq<Sprite> {
    if |xs| == 0 then []
    else (if Key(xs[0]) == k then [xs[0]] else []) + WithKey(xs[1..], k)
  }

  lemma {:induction false} WithKeyAppend(a: seq<Sprite>, b: seq<Sprite>, k: Cell)
    ensures WithKey(a + b, k) == WithKey(a, k) + WithKey(b, k)
  {
    if |a| == 0 {
      assert a + b == b;
    } else {
      assert (a + b)[1..] == a[1..] + b;
      WithKeyAppend(a[1..], b, k);
    }
  }

  lemma {:induction false} WithKeyAbsent(xs: seq<Sprite>, k: Cell)
    requires forall i :: 0 <= i < |xs| ==> Key(xs[i]) != k
    ensures WithKey(xs, k) == []
  {
    if |xs| > 0 {
      WithKeyAbsent(xs[1..], k);
    }
  }

  /** Inserts `s` after every entry whose key is not greater than its own. */
  function Insert(xs: seq<Sprite>, s: Sprite): (r: seq<Sprite>)
    ensures multiset(r) == multiset(xs) + multiset{s}
    ensures forall e :: e in r <==> e in xs || e == s
  {
    if |xs| == 0 then [s]
    else if !KeyLe(Key(xs[0]), Key(s)) then [s] + xs
    else
      assert xs == [xs[0]] + xs[1..];
      [xs[0]] + Insert(xs[1..], s)
  }

  lemma {:induction false} InsertSorted(xs: seq<Sprite>, s: Sprite)
    requires Sorted(xs)
    ensures Sorted(Insert(xs, s))
  {
    if |xs| > 0 && KeyLe(Key(xs[0]), Key(s)) {
      InsertSorted(xs[1..], s);
      var tail := Insert(xs[1..], s);
      forall i | 0 <= i < |tail|
        ensures KeyLe(Key(xs[0]), Key(tail[i]))
      {
        assert tail[i] in tail;
        if tail[i] != s {
          var j :| 0 <= j < |xs[1..]| && xs[1..][j] == tail[i];
          assert xs[1..][j] == xs[j + 1];
        }
      }
    }
  }

  /** Insertion keeps every same-anchor subsequence, with `s` last among its equals. */
  lemma {:induction false} InsertStable(xs: seq<Sprite>, s: Sprite, k: Cell)
    requires Sorted(xs)
    ensures WithKey(Insert(xs, s), k) == WithKey(xs, k) + (if Key(s) == k then [s] else [])
  {
    var extra := if Key(s) == k then [s] else [];
    if |xs| == 0 {
      assert Insert(xs, s) == [s];
      assert WithKey([s], k) == extra + WithKey([s][1..], k);
    } else if !KeyLe(Key(xs[0]), Key(s)) {
      var r := [s] + xs;
      assert Insert(xs, s) == r;
      assert r[0] == s && r[1..] == xs;
      assert WithKey(r, k) == extra + WithKey(xs, k);
      if Key(s) == k {
        assert forall i :: 0 <= i < |xs| ==> KeyLe(Key(xs[0]), Key(xs[i]));
        WithKeyAbsent(xs, k);
      }
    } else {
      var tail := Insert(xs[1..], s);
      var r := [xs[0]] + tail;
      var head := if Key(xs[0]) == k then [xs[0]] else [];
      assert Insert(xs, s) == r;
      assert r[0] == xs[0] && r[1..] == tail;
      assert WithKey(r, k) == head + WithKey(tail, k);
      assert Sorted(xs[1..]);
      InsertStable(xs[1..], s, k);
      assert WithKey(xs, k) == head + WithKey(xs[1..], k);
    }
  }

  /** Stable insertion sort by anchor, consuming the list front to back. */
  function Sort(xs: seq<Sprite>): (r: seq<Sprite>)
    ensures Sorted(r)
    ensures multiset(r) == multiset(xs)
    ensures forall k :: WithKey(r, k) == WithKey(xs, k)
  {
    if |xs| == 0 then []
    else
      var n := |xs| - 1;
      var sorted := Sort(xs[..n]);
      InsertSorted(sorted, xs[n]);
      SortStep(xs, sorted);
      assert xs == xs[..n] + [xs[n]];
      Insert(sorted, xs[n])
  }

  /** Appending the last entry to the sorted prefix extends each same-anchor subsequence by it. */
  lemma SortStep(xs: seq<Sprite>, sorted: seq<Sprite>)
    requires |xs| > 0 && Sorted(sorted)
    requires forall k :: WithKey(sorted, k) == WithKey(xs[..|xs| - 1], k)
    ensures forall k :: WithKey(Insert(sorted, xs[|xs| - 1]), k) == WithKey(xs, k)
  {
    var n := |xs| - 1;
    forall k
      ensures WithKey(Insert(sorted, xs[n]), k) == WithKey(xs, k)
    {
      SortStepAt(xs, sorted, k);
    }
  }

  lemma SortStepAt(xs: seq<Sprite>, sorted: seq<Sprite>, k: Cell)
    requires |xs| > 0 && Sorted(sorted)
    requires WithKey(sorted, k) == WithKey(xs[..|xs| - 1], k)
    ensures WithKey(Insert(sorted, xs[|xs| - 1]), k) == WithKey(xs, k)
  {
    var n := |xs| - 1;
    var last := [xs[n]];
    assert xs == xs[..n] + last;
    InsertStable(sorted, xs[n], k);
    WithKeyAppend(xs[..n], last, k);
    assert last[1..] == [];
    assert WithKey(last, k) == (if Key(xs[n]) == k then [xs[n]] else []) + WithKey(last[1..], k);
  }
}
