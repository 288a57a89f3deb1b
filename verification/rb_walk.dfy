/** The in-order traversal behind `forEachRBTree` (Ex3/RBTree.c), on values.
    The visitor `forEachFunc(data, args)` is a function of a payload and the
    state behind `args`, giving back its `int` result and the new state. */
module RBWalk {
  import opened RBTrees

  /** The activations the documentation promises: each payload in turn,
      stopping after the first one that returns 0; `ok` says none did. */
  function Steps<K, S>(func: (K, S) -> (int, S), xs: seq<K>, s: S): (r: (bool, S))
    ensures xs == [] ==> r == (true, s)
    ensures r.0 && xs != [] ==> func(xs[0], s).0 != 0
    decreases |xs|
  {
    if xs == [] then (true, s)
    else
      var (v, s1) := func(xs[0], s);
      if v == 0 then (false, s1) else Steps(func, xs[1..], s1)
  }

  /** Running two stretches of payloads is running the first, then, if it
      went through, the second from where the first left the state. */
  lemma {:induction false} StepsAppend<K, S>(func: (K, S) -> (int, S), a: seq<K>, b: seq<K>, s: S)
    ensures Steps(func, a + b, s) ==
      if Steps(func, a, s).0 then Steps(func, b, Steps(func, a, s).1) else Steps(func, a, s)
    decreases |a|
  {
    if a == [] {
      assert a + b == b;
    } else {
      assert (a + b)[0] == a[0] && (a + b)[1..] == a[1..] + b;
      var (v, s1) := func(a[0], s);
      if v != 0 {
        StepsAppend(func, a[1..], b, s1);
      }
    }
  }

  /** `forEachRBTreeHelper` on a subtree: the left subtree, the node, the
      right subtree; a failed subtree returns 0 at once, but a node whose own
      activation failed still has its right subtree visited, and the node's
      own result is what a fully visited subtree returns. */
  function Walk<K, S>(func: (K, S) -> (int, S), t: Tree<K>, s: S): (r: (int, S))
    ensures t.Nil? ==> r == (0, s)
  {
    match t
    case Nil => (0, s)
    case Node(_, _, l, x, rt) =>
      var (rl, s1) := if l.Node? then Walk(func, l, s) else (1, s);
      if rl == 0 then (0, s1)
      else
        var (v, s2) := func(x, s1);
        if rt.Node? then
          var (rr, s3) := Walk(func, rt, s2);
          if rr == 0 then (0, s3) else (v, s3)
        else (v, s2)
  }

  /** On a non-empty subtree the helper succeeds exactly when every
      activation along the in-order sequence does, and then it has left the
      state as visiting the payloads in ascending order does. */
  lemma {:induction false} WalkInOrder<K, S>(func: (K, S) -> (int, S), t: Tree<K>, s: S)
    requires t.Node?
    ensures Walk(func, t, s).0 != 0 <==> Steps(func, InOrder(t), s).0
    ensures Steps(func, InOrder(t), s).0 ==> Walk(func, t, s).1 == Steps(func, InOrder(t), s).1
  {
    var l, x, rt := t.left, t.data, t.right;
    StepsAppend(func, InOrder(l) + [x], InOrder(rt), s);
    StepsAppend(func, InOrder(l), [x], s);
    assert InOrder(t) == InOrder(l) + [x] + InOrder(rt);
    if l.Node? {
      WalkInOrder(func, l, s);
    }
    var s1 := Steps(func, InOrder(l), s).1;
    if rt.Node? {
      WalkInOrder(func, rt, func(x, s1).1);
    }
  }

  /** The helper does not stop at the first failed activation: a root whose
      activation fails still has its right child visited.  With a visitor
      that counts its calls and fails on every one, the two-node tree below
      is visited twice, where the documented behaviour stops after one. */
  lemma WalkVisitsPastFailure()
    ensures var func := (x: int, n: int) => (0, n + 1);
            var t := Node(0, Black, Nil, 1, Node(1, Red, Nil, 2, Nil));
            Walk(func, t, 0) == (0, 2) && Steps(func, InOrder(t), 0) == (false, 1)
  {
  }
}
