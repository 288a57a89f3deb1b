/** Three-way comparison functions (the `CompareFunc` callbacks of the tree)
    and strictly ascending sequences under them. */
module Orders {

  /** `cmp` is a total order whose only "equal" pairs are equal values:
      negative, zero or positive as `a` is below, equal to or above `b`. */
  ghost predicate TotalOrder<K(!new)>(cmp: (K, K) -> int) {
    && (forall a, b :: cmp(a, b) == 0 <==> a == b)
    && (forall a, b :: cmp(a, b) < 0 <==> cmp(b, a) > 0)
    && (forall a, b, c :: cmp(a, b) < 0 && cmp(b, c) < 0 ==> cmp(a, c) < 0)
  }

  /** Every element is strictly below every later one. */
  ghost predicate Ascending<K>(cmp: (K, K) -> int, s: seq<K>) {
    forall i, j :: 0 <= i < j < |s| ==> cmp(s[i], s[j]) < 0
  }

  /** `x` lies strictly above everything in `lo` and strictly below everything in `hi`. */
  ghost predicate Between<K>(cmp: (K, K) -> int, lo: seq<K>, x: K, hi: seq<K>) {
    && (forall i :: 0 <= i < |lo| ==> cmp(lo[i], x) < 0)
    && (forall i :: 0 <= i < |hi| ==> cmp(x, hi[i]) < 0)
  }

  /** A value below `d`, which is below all of `rh`, is below `d` and all of `rh`. */
  lemma BetweenBelow<K(!new)>(cmp: (K, K) -> int, lo: seq<K>, x: K, hi: seq<K>, d: K, rh: seq<K>)
    requires TotalOrder(cmp) && Between(cmp, lo, x, hi) && cmp(x, d) < 0
    requires forall i :: 0 <= i < |rh| ==> cmp(d, rh[i]) < 0
    ensures Between(cmp, lo, x, [d] + rh)
  {
    forall i | 0 <= i < |rh| ensures cmp(x, rh[i]) < 0 {
      assert cmp(d, rh[i]) < 0;
    }
  }

  /** A value above `d`, which is above all of `ll`, is above all of `ll` and `d`. */
  lemma BetweenAbove<K(!new)>(cmp: (K, K) -> int, lo: seq<K>, x: K, hi: seq<K>, d: K, ll: seq<K>)
    requires TotalOrder(cmp) && Between(cmp, lo, x, hi) && cmp(d, x) < 0
    requires forall i :: 0 <= i < |ll| ==> cmp(ll[i], d) < 0
    ensures Between(cmp, ll + [d], x, hi)
  {
    forall i | 0 <= i < |ll| ensures cmp(ll[i], x) < 0 {
      assert cmp(ll[i], d) < 0;
    }
  }

  lemma AscendingMiddle<K>(cmp: (K, K) -> int, a: seq<K>, b: seq<K>, c: seq<K>)
    requires Ascending(cmp, a + b + c)
    ensures Ascending(cmp, b)
  {
    var s := a + b + c;
    forall i, j | 0 <= i < j < |b|
      ensures cmp(b[i], b[j]) < 0
    {
      assert b[i] == s[|a| + i] && b[j] == s[|a| + j];
    }
  }

  /** The pivot of an ascending `a + [d] + b` separates `a` from `b`. */
  lemma AscendingPivot<K>(cmp: (K, K) -> int, a: seq<K>, d: K, b: seq<K>)
    requires Ascending(cmp, a + [d] + b)
    ensures Ascending(cmp, a) && Ascending(cmp, b)
    ensures Between(cmp, a, d, b)
  {
    var s := a + [d] + b;
    assert s[|a|] == d;
    forall i | 0 <= i < |a| ensures cmp(a[i], d) < 0 {
      assert a[i] == s[i];
    }
    forall i | 0 <= i < |b| ensures cmp(d, b[i]) < 0 {
      assert b[i] == s[|a| + 1 + i];
    }
    assert s == [] + a + ([d] + b);
    AscendingMiddle(cmp, [], a, [d] + b);
    assert s == (a + [d]) + b + [];
    AscendingMiddle(cmp, a + [d], b, []);
  }

  /** A value between the two halves of an ascending sequence can be put between them. */
  lemma AscendingInsert<K(!new)>(cmp: (K, K) -> int, a: seq<K>, x: K, b: seq<K>)
    requires TotalOrder(cmp)
    requires Ascending(cmp, a + b) && Between(cmp, a, x, b)
    ensures Ascending(cmp, a + [x] + b)
  {
    var s, t := a + b, a + [x] + b;
    forall i, j | 0 <= i < j < |t|
      ensures cmp(t[i], t[j]) < 0
    {
      if j < |a| {
        assert t[i] == s[i] && t[j] == s[j];
      } else if j == |a| {
        assert t[i] == a[i] && t[j] == x;
      } else if i == |a| {
        assert t[j] == b[j - |a| - 1];
      } else if i < |a| {
        assert t[i] == s[i] && t[j] == s[j - 1];
      } else {
        assert t[i] == s[i - 1] && t[j] == s[j - 1];
      }
    }
  }

  /** Leaving one element out of an ascending sequence keeps it ascending. */
  lemma AscendingRemove<K>(cmp: (K, K) -> int, a: seq<K>, x: K, b: seq<K>)
    requires Ascending(cmp, a + [x] + b)
    ensures Ascending(cmp, a + b)
  {
    var s, t := a + [x] + b, a + b;
    forall i, j | 0 <= i < j < |t|
      ensures cmp(t[i], t[j]) < 0
    {
      var i', j' := if i < |a| then i else i + 1, if j < |a| then j else j + 1;
      assert t[i] == s[i'] && t[j] == s[j'];
    }
  }

  /** In an ascending sequence a value occurs at most once. */
  lemma AscendingDistinct<K(!new)>(cmp: (K, K) -> int, s: seq<K>, i: int, j: int)
    requires TotalOrder(cmp) && Ascending(cmp, s)
    requires 0 <= i < |s| && 0 <= j < |s| && s[i] == s[j]
    ensures i == j
  {
  }

  /** The element left out of an ascending sequence occurs nowhere else in it. */
  lemma AscendingOnce<K(!new)>(cmp: (K, K) -> int, a: seq<K>, x: K, b: seq<K>)
    requires TotalOrder(cmp) && Ascending(cmp, a + [x] + b)
    ensures x !in a && x !in b
  {
    var s := a + [x] + b;
    assert s[|a|] == x;
    if x in a {
      var i :| 0 <= i < |a| && a[i] == x;
      AscendingDistinct(cmp, s, i, |a|);
    }
    if x in b {
      var j :| 0 <= j < |b| && b[j] == x;
      AscendingDistinct(cmp, s, |a| + 1 + j, |a|);
    }
  }
}
