/** The red-black argument behind `deleteFromRBTree` (Ex3/RBTree.c), on
    values.  A node with at most one child is spliced out (cases 1 and 2);
    a black leaf leaves its side one black node short, and `deleteCase3`
    climbs with the leaf still in place until that is repaired.  The repair
    only rewrites the frames above the focus, so it is stated on paths: the
    real tree is the path plugged with the real focus, the tree the repair
    is about is the same path plugged with the focus minus the leaf. */
module RBDelete {
  import opened RBTrees

  // ---------------------------------------------------------------------
  // The double-black invariant and the shape of the brother

  /** While `deleteCase3` runs: the focus (without the leaf being deleted)
      is a black, sound subtree whose black-height is one short of what its
      path needs; that is the only defect. */
  ghost predicate DelInv<K>(path: Path<K>, g: Tree<K>) {
    && ColorOf(g) == Black && RedOk(g) && Balanced(g)
    && PathBalanced(path, BH(g) + 1) && PathRed(path, Black) && RootBlack(path)
  }

  /** `findCloseChild`: the brother's child on the focus's side. */
  function Close<K>(fr: Frame<K>): Tree<K>
    requires fr.sib.Node?
  {
    if fr.dir == Left then fr.sib.left else fr.sib.right
  }

  /** `findFarChild`: the brother's child away from the focus. */
  function Far<K>(fr: Frame<K>): Tree<K>
    requires fr.sib.Node?
  {
    if fr.dir == Left then fr.sib.right else fr.sib.left
  }

  /** Black frames above the focus: what a climbing step uses up. */
  function BlackFrames<K>(path: Path<K>): nat
    decreases |path|
  {
    if path == [] then 0 else BlackCount(path[0].color) + BlackFrames(path[1..])
  }

  /** How far the case at the bottom of `path` is from a case that climbs or
      finishes: a red brother (3C) leads to 3B1, 3D or 3E, and 3D leads to 3E. */
  function Rank<K>(path: Path<K>): nat {
    if path == [] || path[0].sib.Nil? then 0
    else if path[0].sib.color == Red then 2
    else if ColorOf(Close(path[0])) == Red && ColorOf(Far(path[0])) == Black then 1
    else 0
  }

  /** The focus of the repair has a brother: its side is one black node taller. */
  lemma DelBrother<K>(path: Path<K>, g: Tree<K>)
    requires DelInv(path, g) && path != []
    ensures path[0].sib.Node?
  {
  }

  // ---------------------------------------------------------------------
  // What each case does to the frames above the focus

  /** Context equalities shared by the cases: the payloads left and right of
      the focus and the slots above it. */
  ghost predicate SameContext<K>(p: Path<K>, q: Path<K>) {
    LeftCtx(p) == LeftCtx(q) && RightCtx(p) == RightCtx(q) && PathIds(p) == PathIds(q)
    && (p == [] <==> q == []) && (p != [] ==> p[0].id == q[0].id && p[0].dir == q[0].dir)
  }

  /** Replacing the innermost frame by one with the same slot, side and
      payload and a sibling with the same payloads and slots changes no context. */
  lemma SameContextHead<K>(path: Path<K>, fr: Frame<K>)
    requires path != [] && fr.id == path[0].id && fr.dir == path[0].dir && fr.data == path[0].data
    requires InOrder(fr.sib) == InOrder(path[0].sib) && Ids(fr.sib) == Ids(path[0].sib)
    ensures SameContext([fr] + path[1..], path)
  {
    assert ([fr] + path[1..])[1..] == path[1..];
  }

  /** The same frame added outside two paths with the same context. */
  lemma SameContextCons<K>(fr: Frame<K>, p: Path<K>, q: Path<K>)
    requires SameContext(p, q)
    ensures SameContext([fr] + p, [fr] + q)
  {
    assert ([fr] + p)[1..] == p && ([fr] + q)[1..] == q;
  }

  /** `deleteCase3B1` (parent red) and the recolouring of `deleteCase3B2`
      (parent already black): the parent ends black, the brother red. */
  function Recolor3B<K>(path: Path<K>): (r: Path<K>)
    requires path != [] && path[0].sib.Node?
    ensures SameContext(r, path) && |r| == |path| && r[1..] == path[1..]
  {
    var p := path[0];
    var r := [p.(color := Black, sib := p.sib.(color := Red))] + path[1..];
    SetColorShape(p.sib, p.sib.id, Red);
    assert p.sib.(color := Red) == SetColor(p.sib, p.sib.id, Red);
    SameContextHead(path, r[0]);
    r
  }

  /** `deleteCase3C`: brother black, parent red, then the rotation at the
      parent towards the focus; the focus gets two frames, the old parent
      (red, with the brother's near child as sibling) below the old brother. */
  function Rotate3C<K>(path: Path<K>): (r: Path<K>)
    requires path != [] && path[0].sib.Node?
    ensures SameContext(r, path) && |r| == |path| + 1 && r[2..] == path[1..]
  {
    var p, b := path[0], path[0].sib;
    var r := [Frame(p.dir, p.id, Red, p.data, Close(p)), Frame(p.dir, b.id, Black, b.data, Far(p))] + path[1..];
    TwoFrames(path, r, b);
    r
  }

  /** `deleteCase3D`: near child black, brother red, then the rotation at the
      brother away from the focus; the near child becomes the brother. */
  function Rotate3D<K>(path: Path<K>): (r: Path<K>)
    requires path != [] && path[0].sib.Node? && Close(path[0]).Node?
    ensures SameContext(r, path) && |r| == |path| && r[1..] == path[1..]
  {
    var p, b := path[0], path[0].sib;
    var c := Close(p);
    var nb := if p.dir == Left then Node(c.id, Black, c.left, c.data, Node(b.id, Red, c.right, b.data, b.right))
              else Node(c.id, Black, Node(b.id, Red, b.left, b.data, c.left), c.data, c.right);
    var r := [p.(sib := nb)] + path[1..];
    assert Ids(nb) == Ids(b) && InOrder(nb) == InOrder(b);
    SameContextHead(path, r[0]);
    r
  }

  /** `deleteCase3E`: brother and parent swap colours, the rotation at the
      parent towards the focus, and the far child turns black. */
  function Rotate3E<K>(path: Path<K>): (r: Path<K>)
    requires path != [] && path[0].sib.Node? && Far(path[0]).Node?
    ensures SameContext(r, path) && |r| == |path| + 1 && r[2..] == path[1..]
  {
    var p, b := path[0], path[0].sib;
    var fc := Far(p);
    var r := [Frame(p.dir, p.id, Black, p.data, Close(p)), Frame(p.dir, b.id, p.color, b.data, fc.(color := Black))] + path[1..];
    TwoFrames(path, r, Node(b.id, b.color, if p.dir == Left then Close(p) else fc.(color := Black), b.data,
                                          if p.dir == Left then fc.(color := Black) else Close(p)));
    r
  }

  /** A rotation at the parent towards the focus, seen from the focus: the
      parent and the brother `b` (with the parent's slot and side, and the
      brother's payloads and slots) become two frames. */
  lemma TwoFrames<K>(path: Path<K>, r: Path<K>, b: Tree<K>)
    requires path != [] && b.Node? && InOrder(b) == InOrder(path[0].sib) && Ids(b) == Ids(path[0].sib)
    requires |r| == |path| + 1 && r[2..] == path[1..]
    requires r[0].dir == path[0].dir && r[1].dir == path[0].dir
    requires r[0].id == path[0].id && r[0].data == path[0].data && r[1].id == b.id && r[1].data == b.data
    requires r[0].sib == (if path[0].dir == Left then b.left else b.right)
    requires r[1].sib == (if path[0].dir == Left then b.right else b.left)
    ensures SameContext(r, path)
  {
    var rest, p := path[1..], path[0];
    var two := [r[0], r[1]];
    assert r == two + rest && path == [p] + rest;
    CtxAppend(two, rest);
    CtxAppend([p], rest);
    TwoFramesCtx(p, r[0], r[1], b);
  }

  /** `TwoFrames` for the two frames alone. */
  lemma TwoFramesCtx<K>(p: Frame<K>, r0: Frame<K>, r1: Frame<K>, b: Tree<K>)
    requires b.Node? && InOrder(b) == InOrder(p.sib) && Ids(b) == Ids(p.sib)
    requires r0.dir == p.dir && r1.dir == p.dir
    requires r0.id == p.id && r0.data == p.data && r1.id == b.id && r1.data == b.data
    requires r0.sib == (if p.dir == Left then b.left else b.right)
    requires r1.sib == (if p.dir == Left then b.right else b.left)
    ensures LeftCtx([r0, r1]) == LeftCtx([p]) && RightCtx([r0, r1]) == RightCtx([p])
    ensures PathIds([r0, r1]) == PathIds([p])
  {
    var two := [r0, r1];
    assert two[1..] == [r1] && [r1][1..] == [] && [p][1..] == [];
    var A, C := InOrder(b.left), InOrder(b.right);
    assert InOrder(b) == A + [b.data] + C;
    assert Ids(b) == {b.id} + Ids(b.left) + Ids(b.right);
    if p.dir == Left {
      assert RightCtx([r1]) == [b.data] + C;
      assert RightCtx(two) == [p.data] + A + ([b.data] + C);
      Assoc(A, [p.data], [b.data], C);
    } else {
      assert LeftCtx([r1]) == A + [b.data];
      assert LeftCtx(two) == (A + [b.data]) + (C + [p.data]);
      Assoc(A, [b.data], C, [p.data]);
    }
  }

  lemma Assoc<T>(a: seq<T>, x: seq<T>, y: seq<T>, c: seq<T>)
    ensures x + a + (y + c) == x + (a + y + c)
    ensures (a + x) + (y + c) == (a + x + y) + c
  {
  }

  // ---------------------------------------------------------------------
  // The cases, on the tree the repair is about

  lemma PathRedWeaken<K>(path: Path<K>, c: Color)
    requires PathRed(path, c)
    ensures PathRed(path, Black)
  {
  }

  /** No parent: the focus is the whole tree and already red-black. */
  lemma Del3RootCase<K>(g: Tree<K>)
    requires DelInv([], g)
    ensures IsRB(g)
  {
  }

  /** Case 3B1 (black brother with black children, red parent): the
      recolouring finishes the repair. */
  lemma {:induction false} Del3B1Case<K>(path: Path<K>, g: Tree<K>)
    requires DelInv(path, g) && path != [] && path[0].sib.Node? && path[0].sib.color == Black
    requires ColorOf(path[0].sib.left) == Black && ColorOf(path[0].sib.right) == Black
    requires path[0].color == Red
    ensures IsRB(Plug(Recolor3B(path), g))
  {
    var r := Recolor3B(path);
    var rest := path[1..];
    assert r[1..] == rest;
    assert PathRed(rest, Red);
    PathRedWeaken(rest, Red);
    assert PathBalanced(r, BH(g));
    assert PathRed(r, Black);
    if rest != [] {
      assert r[|r| - 1] == path[|path| - 1];
    }
    IsRBPlug(r, g);
  }

  /** Case 3B2 (black brother with black children, black parent): after the
      brother turns red the parent is the new focus, one black node short,
      one black frame higher up. */
  lemma {:induction false} Del3B2Case<K>(path: Path<K>, g: Tree<K>)
    requires DelInv(path, g) && path != [] && path[0].sib.Node? && path[0].sib.color == Black
    requires ColorOf(path[0].sib.left) == Black && ColorOf(path[0].sib.right) == Black
    requires path[0].color == Black
    ensures DelInv(path[1..], Fill(Recolor3B(path)[0], g))
    ensures BlackFrames(path[1..]) < BlackFrames(path)
  {
    var r := Recolor3B(path);
    var g2 := Fill(r[0], g);
    assert BH(g2) == BH(g) + 1;
    if path[1..] != [] {
      assert path[1..][|path[1..]| - 1] == path[|path| - 1];
    }
  }

  /** Case 3C (red brother): after the recolouring and the rotation the
      focus has a black brother and a red parent, at the same black depth. */
  lemma {:induction false} Del3CCase<K>(path: Path<K>, g: Tree<K>)
    requires DelInv(path, g) && path != [] && path[0].sib.Node? && path[0].sib.color == Red
    ensures DelInv(Rotate3C(path), g)
    ensures BlackFrames(Rotate3C(path)) == BlackFrames(path) && Rank(Rotate3C(path)) < Rank(path)
  {
    var r := Rotate3C(path);
    var p, b := path[0], path[0].sib;
    var rest := path[1..];
    assert p.color == Black;
    assert r[1..] == [r[1]] + rest && r[1..][1..] == rest;
    assert BH(Close(p)) == BH(g) + 1 && BH(Far(p)) == BH(g) + 1;
    assert PathBalanced(r[1..], BH(g) + 1);
    assert PathBalanced(r, BH(g) + 1);
    assert PathRed(r[1..], Red);
    assert PathRed(r, Black);
    if rest != [] {
      assert r[|r| - 1] == path[|path| - 1];
    }
    assert BlackFrames(r[1..]) == BlackFrames(path);
  }

  /** Case 3D (black brother, red near child, black far child): after the
      recolouring and the rotation at the brother, the new brother's far
      child is red, which is case 3E. */
  lemma {:induction false} Del3DCase<K>(path: Path<K>, g: Tree<K>)
    requires DelInv(path, g) && path != [] && path[0].sib.Node? && path[0].sib.color == Black
    requires ColorOf(Close(path[0])) == Red && ColorOf(Far(path[0])) == Black
    ensures DelInv(Rotate3D(path), g)
    ensures BlackFrames(Rotate3D(path)) == BlackFrames(path) && Rank(Rotate3D(path)) < Rank(path)
    ensures Rotate3D(path)[0].sib.color == Black && ColorOf(Far(Rotate3D(path)[0])) == Red
  {
    var r := Rotate3D(path);
    var p, b := path[0], path[0].sib;
    var c := Close(p);
    assert Balanced(b) && RedOk(b);
    assert Balanced(c) && RedOk(c) && Balanced(Far(p)) && RedOk(Far(p));
    assert BH(c) == BH(g) && BH(Far(p)) == BH(g);
    assert BH(c.left) == BH(g) && BH(c.right) == BH(g) && Balanced(c.left) && Balanced(c.right);
    assert ColorOf(c.left) == Black && ColorOf(c.right) == Black && RedOk(c.left) && RedOk(c.right);
    var inner := if p.dir == Left then Node(b.id, Red, c.right, b.data, b.right)
                 else Node(b.id, Red, b.left, b.data, c.left);
    assert Balanced(inner) && BH(inner) == BH(g) && RedOk(inner);
    assert r[0].sib == if p.dir == Left then Node(c.id, Black, c.left, c.data, inner)
                       else Node(c.id, Black, inner, c.data, c.right);
    assert Balanced(r[0].sib) && BH(r[0].sib) == BH(g) + 1 && RedOk(r[0].sib);
    assert r[1..] == path[1..];
    assert PathBalanced(r, BH(g) + 1);
    assert PathRed(r, Black);
    if path[1..] != [] {
      assert r[|r| - 1] == path[|path| - 1];
    }
  }

  /** Case 3E (black brother, red far child): the colour swap, the rotation
      at the parent and the far child turning black finish the repair. */
  lemma {:induction false} Del3ECase<K>(path: Path<K>, g: Tree<K>)
    requires DelInv(path, g) && path != [] && path[0].sib.Node? && path[0].sib.color == Black
    requires ColorOf(Far(path[0])) == Red
    ensures IsRB(Plug(Rotate3E(path), g))
  {
    var r := Rotate3E(path);
    var p, b := path[0], path[0].sib;
    var rest := path[1..];
    assert r[1..] == [r[1]] + rest && r[1..][1..] == rest;
    var fc := Far(p);
    assert BH(Close(p)) == BH(g) && BH(fc) == BH(g) && RedOk(fc) && Balanced(fc);
    assert BH(fc.(color := Black)) == BH(g) + 1 && Balanced(fc.(color := Black)) && RedOk(fc.(color := Black));
    assert PathBalanced(rest, BH(g) + 1 + BlackCount(p.color)) && PathRed(rest, p.color);
    assert PathBalanced(r[1..], BH(g) + 1);
    assert PathBalanced(r, BH(g));
    assert PathRed(r[1..], Black);
    assert PathRed(r, Black);
    if rest != [] {
      assert r[|r| - 1] == path[|path| - 1];
    } else {
      assert RootBlack(path);
    }
    IsRBPlug(r, g);
  }

  // ---------------------------------------------------------------------
  // Removing a node with at most one child

  /** The child `findChild` returns: the left one if there is one. */
  function OnlyChild<K>(t: Tree<K>): Tree<K>
    requires t.Node?
  {
    if t.left.Node? then t.left else t.right
  }

  /** A node with at most one child in a red-black tree: if it is red, or
      black with no red child, it has no child at all; if black with a red
      child, that child is a red leaf. */
  lemma {:induction false} SpliceShape<K>(path: Path<K>, d: Tree<K>)
    requires IsRB(Plug(path, d)) && d.Node? && (d.left.Nil? || d.right.Nil?)
    ensures d.color == Red || ColorOf(OnlyChild(d)) == Black ==> d.left.Nil? && d.right.Nil?
    ensures OnlyChild(d).Node? ==> OnlyChild(d).color == Red && OnlyChild(d).left.Nil? && OnlyChild(d).right.Nil?
  {
    IsRBPlug(path, d);
    var c := OnlyChild(d);
    assert BH(c) == 0;
    if c.Node? {
      assert c.color == Red;
      assert BH(c.left) == 0 && BH(c.right) == 0;
    }
  }

  /** Case 1: a red node to delete is a leaf, and unlinking it keeps the
      tree red-black. */
  lemma {:induction false} Del1Case<K>(path: Path<K>, d: Tree<K>)
    requires IsRB(Plug(path, d)) && d.Node? && (d.left.Nil? || d.right.Nil?) && d.color == Red
    ensures d.left.Nil? && d.right.Nil? && IsRB(Plug(path, Nil))
  {
    SpliceShape(path, d);
    IsRBPlug(path, d);
    IsRBPlug(path, Nil);
    PathRedWeaken(path, Red);
  }

  /** Case 2 and the root's removal: a black node is replaced by its child,
      which is then painted black. */
  lemma {:induction false} Del2Case<K>(path: Path<K>, d: Tree<K>)
    requires IsRB(Plug(path, d)) && d.Node? && (d.left.Nil? || d.right.Nil?) && d.color == Black
    requires OnlyChild(d).Node? && OnlyChild(d).color == Red
    ensures IsRB(Plug(path, OnlyChild(d).(color := Black)))
  {
    SpliceShape(path, d);
    IsRBPlug(path, d);
    IsRBPlug(path, OnlyChild(d).(color := Black));
  }

  /** The root with no child is removed, leaving the empty tree; with one
      child, the child (a red leaf) painted black is the new tree. */
  lemma {:induction false} DelRootCase<K>(d: Tree<K>)
    requires IsRB(d) && d.Node? && (d.left.Nil? || d.right.Nil?)
    ensures OnlyChild(d).Node? ==> IsRB(OnlyChild(d).(color := Black))
  {
    SpliceShape([], d);
  }

  /** The payloads around a node, split at the node: those before it and
      those after it; removing a node with at most one child leaves just
      those two stretches. */
  lemma RemoveSplit<K>(path: Path<K>, f: Tree<K>)
    requires f.Node?
    ensures InOrder(Plug(path, f))
            == (LeftCtx(path) + InOrder(f.left)) + [f.data] + (InOrder(f.right) + RightCtx(path))
    ensures LeftCtx(path) + InOrder(f.left) + InOrder(f.right) + RightCtx(path)
            == (LeftCtx(path) + InOrder(f.left)) + (InOrder(f.right) + RightCtx(path))
    ensures f.left.Nil? || f.right.Nil? ==>
              LeftCtx(path) + InOrder(OnlyChild(f)) + RightCtx(path)
              == (LeftCtx(path) + InOrder(f.left)) + (InOrder(f.right) + RightCtx(path))
  {
    InOrderPlug(path, f);
    var l, a, b, r := LeftCtx(path), InOrder(f.left), InOrder(f.right), RightCtx(path);
    Regroup4(l, a, [f.data], b, r);
    Regroup4(l, a, [], b, r);
    if f.left.Nil? {
      Regroup4(l, [], [], b, r);
    } else if f.right.Nil? {
      Regroup4(l, a, [], [], r);
    }
  }

  /** Concatenation regrouped around its middle stretch. */
  lemma Regroup4<K>(l: seq<K>, a: seq<K>, m: seq<K>, b: seq<K>, r: seq<K>)
    ensures l + (a + m + b) + r == (l + a) + m + (b + r)
    ensures l + a + m + b + r == (l + a) + m + (b + r)
    ensures l + a + b + r == (l + a) + (b + r)
    ensures l + [] == l && [] + r == r && a + [] == a
  {
  }

  /** What removing a node with at most one child leaves, whichever case
      did it: the child (recoloured or not) under frames with the same
      context, so the order loses just the node's payload ... */
  lemma SpliceOrder<K>(path: Path<K>, path': Path<K>, d: Tree<K>, c: Tree<K>)
    requires SameContext(path', path) && d.Node? && InOrder(c) == InOrder(OnlyChild(d))
    ensures InOrder(Plug(path', c)) == LeftCtx(path) + InOrder(OnlyChild(d)) + RightCtx(path)
  {
    InOrderPlug(path', c);
  }

  /** ... and the arena just its slot. */
  lemma SpliceIds<K>(path: Path<K>, path': Path<K>, d: Tree<K>, c: Tree<K>)
    requires SameContext(path', path) && Unique(Plug(path, d)) && d.Node? && (d.left.Nil? || d.right.Nil?)
    requires Ids(c) == Ids(OnlyChild(d))
    ensures Ids(Plug(path', c)) == Ids(Plug(path, d)) - {d.id}
  {
    var oc := OnlyChild(d);
    assert Ids(d) == {d.id} + Ids(oc) && d.id !in Ids(oc) && d.id !in PathIds(path) by {
      UniquePlug(path, d);
      if d.left.Node? {
        assert Ids(d.right) == {};
      }
    }
    IdsPlug(path', c);
    IdsPlug(path, d);
  }

  /** Case 3: a black leaf is where the repair starts, its side already
      counted without it. */
  lemma {:induction false} Del3Start<K>(path: Path<K>, d: Tree<K>)
    requires IsRB(Plug(path, d)) && d.Node? && d.left.Nil? && d.right.Nil? && d.color == Black
    ensures DelInv(path, Nil)
  {
    IsRBPlug(path, d);
  }

  // ---------------------------------------------------------------------
  // The successor

  /** The leftmost node of `t` and the frames from it up to `t`'s root:
      where `findSuccessor` ends. */
  function Leftmost<K>(t: Tree<K>): (r: (Path<K>, Tree<K>))
    requires t.Node?
    ensures r.1.Node? && r.1.left.Nil?
  {
    if t.left.Nil? then ([], t)
    else
      var (q, m) := Leftmost(t.left);
      (q + [Frame(Left, t.id, t.color, t.data, t.right)], m)
  }

  /** The leftmost node has no left child, holds the smallest payload of
      `t` and is followed in order by its right subtree and then by
      everything its frames hold. */
  lemma {:induction false} LeftmostFacts<K>(t: Tree<K>)
    requires t.Node?
    ensures var (q, m) := Leftmost(t);
            && Plug(q, m) == t && m.Node? && m.left.Nil? && LeftCtx(q) == []
            && InOrder(t) == [m.data] + InOrder(m.right) + RightCtx(q)
  {
    if t.left.Node? {
      var (q, m) := Leftmost(t.left);
      LeftmostFacts(t.left);
      var fr := Frame(Left, t.id, t.color, t.data, t.right);
      PlugAppend(q, [fr], m);
      CtxAppend(q, [fr]);
      assert [fr][1..] == [];
      assert LeftCtx([fr]) == [] && RightCtx([fr]) == [t.data] + InOrder(t.right) + [];
      LeftmostRegroup(m.data, InOrder(m.right), RightCtx(q), t.data, InOrder(t.right));
    }
  }

  lemma LeftmostRegroup<K>(x: K, b: seq<K>, c: seq<K>, d: K, e: seq<K>)
    ensures ([x] + b + c) + [d] + e == [x] + b + (c + ([d] + e + []))
  {
  }

  /** The contexts of a path made of an inner and an outer stretch. */
  lemma {:induction false} CtxAppend<K>(p: Path<K>, q: Path<K>)
    ensures LeftCtx(p + q) == LeftCtx(q) + LeftCtx(p)
    ensures RightCtx(p + q) == RightCtx(p) + RightCtx(q)
    ensures PathIds(p + q) == PathIds(p) + PathIds(q)
    decreases |p|
  {
    if p == [] {
      assert p + q == q;
    } else {
      var fr, p' := p[0], p[1..];
      assert (p + q)[0] == fr && (p + q)[1..] == p' + q;
      CtxAppend(p', q);
      var xl := if fr.dir == Right then InOrder(fr.sib) + [fr.data] else [];
      var xr := if fr.dir == Left then [fr.data] + InOrder(fr.sib) else [];
      Assoc3(LeftCtx(q), LeftCtx(p'), xl);
      Assoc3(xr, RightCtx(p'), RightCtx(q));
    }
  }

  lemma Assoc3<K>(a: seq<K>, b: seq<K>, c: seq<K>)
    ensures (a + b) + c == a + (b + c)
  {
  }
}
