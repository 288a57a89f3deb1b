/** The payload adapters of Ex3/Structs.c: the compare functions for
    strings and vectors, the visitor that appends words to a text buffer,
    the squared norm, and the running-maximum visitor behind
    `findMaxNormVectorInTree`.  Vector coordinates are integers, so the
    norm is the exact sum of squares; a vector is its sequence of
    coordinates (a null coordinate array is the empty sequence). */
module Structs {
  import opened Wrappers
  import opened Orders
  import opened RBWalk
  import opened RedBlackTree

  // ---------------------------------------------------------------------
  // Lexicographic order

  /** Three-way lexicographic comparison: the first position where the
      two sequences differ decides, and a proper prefix is smaller. */
  function LexCmp(a: seq<int>, b: seq<int>): (r: int)
    ensures -1 <= r <= 1
    ensures r == 0 <==> a == b
  {
    if a == [] then (if b == [] then 0 else -1)
    else if b == [] then 1
    else if a[0] > b[0] then 1
    else if a[0] < b[0] then -1
    else
      assert a == [a[0]] + a[1..] && b == [b[0]] + b[1..];
      LexCmp(a[1..], b[1..])
  }

  /** With the first `k` positions equal, position `k` decides; when one
      sequence ends there, the lengths decide. */
  lemma {:induction false} LexFirstDiff(a: seq<int>, b: seq<int>, k: nat)
    requires k <= |a| && k <= |b| && a[..k] == b[..k]
    ensures k < |a| && k < |b| && a[k] > b[k] ==> LexCmp(a, b) == 1
    ensures k < |a| && k < |b| && a[k] < b[k] ==> LexCmp(a, b) == -1
    ensures k == |a| || k == |b| ==>
              LexCmp(a, b) == (if |a| == |b| then 0 else if |a| < |b| then -1 else 1)
  {
    if k > 0 {
      assert a[0] == a[..k][0] == b[..k][0] == b[0];
      assert a[1..][..k - 1] == a[..k][1..] == b[..k][1..] == b[1..][..k - 1];
      LexFirstDiff(a[1..], b[1..], k - 1);
    }
  }

  lemma {:induction false} LexAntisymmetric(a: seq<int>, b: seq<int>)
    ensures LexCmp(a, b) == -LexCmp(b, a)
  {
    if a != [] && b != [] && a[0] == b[0] {
      LexAntisymmetric(a[1..], b[1..]);
    }
  }

  lemma {:induction false} LexTransitive(a: seq<int>, b: seq<int>, c: seq<int>)
    requires LexCmp(a, b) < 0 && LexCmp(b, c) < 0
    ensures LexCmp(a, c) < 0
  {
    if a != [] && b != [] && c != [] && a[0] == b[0] == c[0] {
      LexTransitive(a[1..], b[1..], c[1..]);
    }
  }

  /** The lexicographic comparison is a total order in the sense the tree
      needs: zero exactly on equal values, antisymmetric, transitive. */
  lemma LexTotal()
    ensures TotalOrder(LexCmp)
  {
    forall a, b ensures LexCmp(a, b) < 0 <==> LexCmp(b, a) > 0 {
      LexAntisymmetric(a, b);
    }
    forall a, b, c | LexCmp(a, b) < 0 && LexCmp(b, c) < 0 ensures LexCmp(a, c) < 0 {
      LexTransitive(a, b, c);
    }
  }

  /** `a` comes strictly before `b` in dictionary order. */
  ghost predicate LexLess<T>(less: (T, T) -> bool, a: seq<T>, b: seq<T>) {
    exists k :: 0 <= k <= |a| && k <= |b| && a[..k] == b[..k]
                && (k == |a| < |b| || (k < |a| && k < |b| && less(a[k], b[k])))
  }

  /** The length of the longest common prefix. */
  function CommonPrefix<T(==)>(a: seq<T>, b: seq<T>): (k: nat)
    ensures k <= |a| && k <= |b| && a[..k] == b[..k]
    ensures k < |a| && k < |b| ==> a[k] != b[k]
  {
    if a == [] || b == [] || a[0] != b[0] then 0
    else
      var k := CommonPrefix(a[1..], b[1..]);
      assert a[..k + 1] == [a[0]] + a[1..][..k];
      assert b[..k + 1] == [b[0]] + b[1..][..k];
      k + 1
  }

  /** Every witness of dictionary order sits at the common prefix. */
  lemma LexLessAtPrefix<T>(less: (T, T) -> bool, a: seq<T>, b: seq<T>)
    requires forall x :: !less(x, x)
    ensures LexLess(less, a, b) <==>
              var k := CommonPrefix(a, b);
              k == |a| < |b| || (k < |a| && k < |b| && less(a[k], b[k]))
  {
    var k := CommonPrefix(a, b);
    if LexLess(less, a, b) {
      var j :| 0 <= j <= |a| && j <= |b| && a[..j] == b[..j]
               && (j == |a| < |b| || (j < |a| && j < |b| && less(a[j], b[j])));
      PrefixAgree(a, b, j);
      PrefixAgree(a, b, k);
    }
  }

  /** Equal prefixes agree position by position. */
  lemma PrefixAgree<T>(a: seq<T>, b: seq<T>, j: nat)
    requires j <= |a| && j <= |b| && a[..j] == b[..j]
    ensures forall i :: 0 <= i < j ==> a[i] == b[i]
  {
    forall i | 0 <= i < j ensures a[i] == b[i] {
      assert a[i] == a[..j][i];
    }
  }

  // ---------------------------------------------------------------------
  // stringCompare

  /** Character codes, the values `strcmp` compares. */
  function Codes(s: string): (c: seq<int>)
    ensures |c| == |s| && forall i :: 0 <= i < |s| ==> c[i] == s[i] as int
  {
    seq(|s|, i requires 0 <= i < |s| => s[i] as int)
  }

  lemma CodesPrefix(a: string, b: string, k: nat)
    requires k <= |a| && k <= |b|
    ensures Codes(a)[..k] == Codes(b)[..k] <==> a[..k] == b[..k]
  {
    if Codes(a)[..k] == Codes(b)[..k] {
      forall i | 0 <= i < k ensures a[i] == b[i] {
        assert Codes(a)[i] == Codes(a)[..k][i] == Codes(b)[..k][i] == Codes(b)[i];
      }
    }
  }

  /** `stringCompare`: `strcmp` on the two strings.  Only the sign of the
      result is modelled (-1, 0 or 1). */
  function StringCompare(a: string, b: string): (r: int)
    ensures -1 <= r <= 1
  {
    LexCmp(Codes(a), Codes(b))
  }

  /** The documented promise: zero exactly for equal strings, negative
      exactly when `a` precedes `b` in dictionary order, positive exactly
      when `b` precedes `a`. */
  lemma StringCompareOrder(a: string, b: string)
    ensures StringCompare(a, b) == 0 <==> a == b
    ensures StringCompare(a, b) < 0 <==> LexLess((x: char, y: char) => x < y, a, b)
    ensures StringCompare(a, b) > 0 <==> LexLess((x: char, y: char) => x < y, b, a)
  {
    var less := (x: char, y: char) => x < y;
    var k := CommonPrefix(a, b);
    CodesPrefix(a, b, k);
    LexFirstDiff(Codes(a), Codes(b), k);
    LexLessAtPrefix(less, a, b);
    LexLessAtPrefix(less, b, a);
    assert CommonPrefix(b, a) == k by {
      CommonPrefixSymmetric(a, b);
    }
    if a == b {
      assert Codes(a) == Codes(b);
    }
  }

  lemma CommonPrefixSymmetric<T>(a: seq<T>, b: seq<T>)
    ensures CommonPrefix(a, b) == CommonPrefix(b, a)
  {
    var k, j := CommonPrefix(a, b), CommonPrefix(b, a);
    PrefixAgree(a, b, k);
    PrefixAgree(b, a, j);
  }

  /** A tree of strings ordered by `stringCompare` meets the tree's demand
      on its compare function. */
  lemma StringCompareTotal()
    ensures TotalOrder(StringCompare)
  {
    LexTotal();
    forall a, b ensures StringCompare(a, b) == 0 <==> a == b {
      StringCompareOrder(a, b);
    }
  }

  // ---------------------------------------------------------------------
  // concatenate

  /** The caller's character buffer that `concatenate` appends to. */
  class TextBuffer {
    var text: string

    constructor (s: string)
      ensures text == s
    {
      text := s;
    }
  }

  /** `concatenate`: appends the word and a newline to the buffer; a null
      word or buffer fails and nothing changes. */
  method Concatenate(word: Option<string>, pConcatenated: TextBuffer?) returns (r: int)
    modifies pConcatenated
    ensures r == (if word.Some? && pConcatenated != null then 1 else 0)
    ensures r == 1 ==> pConcatenated.text == old(pConcatenated.text) + word.value + "\n"
    ensures r == 0 && pConcatenated != null ==> pConcatenated.text == old(pConcatenated.text)
  {
    if word.None? || pConcatenated == null {
      return 0;
    }
    pConcatenated.text := pConcatenated.text + word.value;
    pConcatenated.text := pConcatenated.text + "\n";
    return 1;
  }

  /** `concatenate` as the visitor of `forEachRBTree`, the buffer's text
      being the state it threads. */
  function ConcatStep(word: string, text: string): (int, string) {
    (1, text + word + "\n")
  }

  /** The words one per line. */
  function Lines(words: seq<string>): string {
    if words == [] then "" else words[0] + "\n" + Lines(words[1..])
  }

  /** Visiting a sequence of words with `concatenate` never fails and
      leaves the buffer with the words appended one per line, in order. */
  lemma {:induction false} ConcatenateAll(words: seq<string>, text: string)
    ensures Steps(ConcatStep, words, text) == (true, text + Lines(words))
    decreases |words|
  {
    if words != [] {
      assert Steps(ConcatStep, words, text) == Steps(ConcatStep, words[1..], text + words[0] + "\n");
      ConcatenateAll(words[1..], text + words[0] + "\n");
      assert text + words[0] + "\n" + Lines(words[1..]) == text + Lines(words);
    } else {
      assert text + Lines(words) == text;
    }
  }

  // ---------------------------------------------------------------------
  // vectorCompare1By1

  /** `vectorCompare1By1`: the coordinates are compared one by one over
      the shorter length; the first that differ decide, otherwise the
      shorter vector is smaller. */
  method VectorCompare1By1(a: seq<int>, b: seq<int>) returns (r: int)
    ensures r == LexCmp(a, b)
  {
    var minLength := 0;
    if |a| <= |b| {
      minLength := |a|;
    } else {
      minLength := |b|;
    }
    var i := 0;
    while i < minLength
      invariant 0 <= i <= minLength && minLength <= |a| && minLength <= |b|
      invariant a[..i] == b[..i]
    {
      if a[i] > b[i] {
        LexFirstDiff(a, b, i);
        return 1;
      } else if a[i] < b[i] {
        LexFirstDiff(a, b, i);
        return -1;
      }
      assert a[..i + 1] == a[..i] + [a[i]];
      assert b[..i + 1] == b[..i] + [b[i]];
      i := i + 1;
    }
    LexFirstDiff(a, b, i);
    if |a| == |b| {
      return 0;
    } else if |a| < |b| {
      return -1;
    } else {
      return 1;
    }
  }

  /** The documented promise of `vectorCompare1By1`: zero exactly for
      equal vectors, otherwise dictionary order on the coordinates. */
  lemma VectorCompareOrder(a: seq<int>, b: seq<int>)
    ensures LexCmp(a, b) == 0 <==> a == b
    ensures LexCmp(a, b) < 0 <==> LexLess((x: int, y: int) => x < y, a, b)
    ensures LexCmp(a, b) == -LexCmp(b, a)
  {
    var less := (x: int, y: int) => x < y;
    var k := CommonPrefix(a, b);
    LexFirstDiff(a, b, k);
    LexLessAtPrefix(less, a, b);
    LexAntisymmetric(a, b);
  }

  // ---------------------------------------------------------------------
  // normCalc

  /** The squared Euclidean norm: the sum of the squared coordinates. */
  function SqNorm(v: seq<int>): (n: int)
    ensures n >= 0
  {
    if v == [] then 0
    else
      var x := v[|v| - 1];
      assert x * x >= 0 by {
        if x < 0 {
          assert x * x == (-x) * (-x);
        }
      }
      SqNorm(v[..|v| - 1]) + x * x
  }

  /** A vector has squared norm zero exactly when all its coordinates are zero. */
  lemma {:induction false} SqNormZero(v: seq<int>)
    ensures SqNorm(v) == 0 <==> forall i :: 0 <= i < |v| ==> v[i] == 0
  {
    if v != [] {
      var w, x := v[..|v| - 1], v[|v| - 1];
      SqNormZero(w);
      if x != 0 {
        assert x * x > 0 by {
          if x < 0 {
            assert x * x == (-x) * (-x);
          }
        }
      }
      assert forall i :: 0 <= i < |w| ==> w[i] == v[i];
    }
  }

  /** `normCalc`: the running sum of squares over the coordinates. */
  method NormCalc(v: seq<int>) returns (sum: int)
    ensures sum == SqNorm(v)
  {
    sum := 0;
    var i := 0;
    while i < |v|
      invariant 0 <= i <= |v|
      invariant sum == SqNorm(v[..i])
    {
      assert v[..i + 1][..i] == v[..i];
      sum := sum + v[i] * v[i];
      i := i + 1;
    }
    assert v[..i] == v;
  }

  // ---------------------------------------------------------------------
  // copyIfNormIsLarger and findMaxNormVectorInTree

  /** The `Vector` record used as the running maximum: `None` is a null
      coordinate array, i.e. nothing kept yet. */
  class Vector {
    var vector: Option<seq<int>>

    /** `malloc(sizeof(Vector))` followed by `vector = NULL`. */
    constructor ()
      ensures vector.None?
    {
      vector := None;
    }
  }

  /** One activation of `copyIfNormIsLarger` on the running maximum: an
      empty vector fails; otherwise the vector is kept when nothing was
      kept yet or when its squared norm is strictly larger. */
  function CopyStep(v: seq<int>, max: Option<seq<int>>): (r: (int, Option<seq<int>>))
    ensures r.0 == 0 <==> |v| == 0
    ensures r.0 == 0 ==> r.1 == max
    ensures r.0 == 1 ==> r.1.Some? && (r.1 == Some(v) || r.1 == max)
  {
    if |v| == 0 then (0, max)
    else if max.None? then (1, Some(v))
    else if SqNorm(v) > SqNorm(max.value) then (1, Some(v))
    else (1, max)
  }

  /** `copyIfNormIsLarger`: a null argument fails and changes nothing;
      otherwise the activation is `CopyStep` on the record's contents. */
  method CopyIfNormIsLarger(pVector: Option<seq<int>>, pMaxVector: Vector?) returns (r: int)
    modifies pMaxVector
    ensures pVector.None? || pMaxVector == null ==> r == 0
    ensures pVector.None? && pMaxVector != null ==> pMaxVector.vector == old(pMaxVector.vector)
    ensures pVector.Some? && pMaxVector != null ==>
              (r, pMaxVector.vector) == CopyStep(pVector.value, old(pMaxVector.vector))
  {
    if pVector.None? || pMaxVector == null {
      return 0;
    }
    var vec := pVector.value;
    if |vec| == 0 {
      return 0;
    }
    var pVectorNorm := NormCalc(vec);
    if pMaxVector.vector.None? {
      pMaxVector.vector := Some(vec);
    } else {
      var maxNorm := NormCalc(pMaxVector.vector.value);
      if pVectorNorm > maxNorm {
        pMaxVector.vector := Some(vec);
      }
    }
    return 1;
  }

  /** `k` is the first position holding a vector of maximal squared norm. */
  ghost predicate FirstMaxNorm(vs: seq<seq<int>>, k: int) {
    && 0 <= k < |vs|
    && (forall j :: 0 <= j < |vs| ==> SqNorm(vs[j]) <= SqNorm(vs[k]))
    && (forall j :: 0 <= j < k ==> SqNorm(vs[j]) < SqNorm(vs[k]))
  }

  /** Visiting vectors in order from an empty maximum succeeds exactly when
      none is empty, and then keeps the first one of maximal squared norm
      (a later vector of equal norm does not replace it). */
  lemma {:induction false} MaxNormSteps(vs: seq<seq<int>>)
    ensures Steps(CopyStep, vs, None).0 <==> forall i :: 0 <= i < |vs| ==> |vs[i]| > 0
    ensures Steps(CopyStep, vs, None).0 && vs == [] ==> Steps(CopyStep, vs, None).1 == None
    ensures Steps(CopyStep, vs, None).0 && vs != [] ==>
              exists k :: FirstMaxNorm(vs, k) && Steps(CopyStep, vs, None).1 == Some(vs[k])
    decreases |vs|
  {
    if vs != [] {
      var n := |vs| - 1;
      var front, x := vs[..n], vs[n];
      assert vs == front + [x];
      MaxNormSteps(front);
      StepsAppend(CopyStep, front, [x], None);
      var (ok, max) := Steps(CopyStep, front, None);
      if ok && |x| > 0 {
        if front == [] {
          assert FirstMaxNorm(vs, 0);
        } else {
          var k :| FirstMaxNorm(front, k) && max == Some(front[k]);
          if SqNorm(x) > SqNorm(front[k]) {
            assert FirstMaxNorm(vs, n);
          } else {
            assert FirstMaxNorm(vs, k);
          }
        }
      } else if !ok {
        var i :| 0 <= i < |front| && |front[i]| == 0;
        assert vs[i] == front[i];
      }
    }
  }

  /** `findMaxNormVectorInTree`: a fresh record, empty at first, is the
      state of a traversal with `copyIfNormIsLarger`.  A null tree gives
      null, and so does a failed traversal (some stored vector is empty);
      otherwise the record holds the first vector, in ascending order, of
      maximal squared norm, or nothing for an empty tree. */
  method FindMaxNormVectorInTree(t: RBTree?<seq<int>>) returns (maxNorm: Vector?)
    requires t != null ==> t.Valid()
    ensures t == null ==> maxNorm == null
    ensures t != null ==> (maxNorm == null <==> exists i :: 0 <= i < |t.Keys()| && |t.Keys()[i]| == 0)
    ensures maxNorm != null ==> fresh(maxNorm)
    ensures t != null && maxNorm != null && t.Keys() == [] ==> maxNorm.vector.None?
    ensures t != null && maxNorm != null && t.Keys() != [] ==>
              exists k :: FirstMaxNorm(t.Keys(), k) && maxNorm.vector == Some(t.Keys()[k])
  {
    if t == null {
      return null;
    }
    maxNorm := new Vector();
    var res, out := ForEachRBTree(t, CopyStep, maxNorm.vector);
    MaxNormSteps(t.Keys());
    if res == 0 {
      return null;
    }
    maxNorm.vector := out;
  }
}
