/** The value-level picture of a red-black tree (Ex3/RBTree.c): the shape the
    linked nodes describe, the red-black and search-order invariants, and a
    zipper (a path of ancestor frames, innermost first) that stands for a
    node's chain of `parent` back-links. */
module RBTrees {

  datatype Color = Red | Black

  /** A subtree; `id` names the arena slot of the node (its "address"). */
  datatype Tree<K> = Nil | Node(id: nat, color: Color, left: Tree<K>, data: K, right: Tree<K>)

  /** Which child slot of a frame's node holds the hole. */
  datatype Dir = Left | Right

  /** One ancestor of the focus: its node fields and the other child (`sib`). */
  datatype Frame<K> = Frame(dir: Dir, id: nat, color: Color, data: K, sib: Tree<K>)

  type Path<K> = seq<Frame<K>>

  function Fill<K>(fr: Frame<K>, t: Tree<K>): Tree<K> {
    if fr.dir == Left then Node(fr.id, fr.color, t, fr.data, fr.sib)
    else Node(fr.id, fr.color, fr.sib, fr.data, t)
  }

  /** The whole tree rebuilt around the focus `t`, `path[0]` being its parent. */
  function Plug<K>(path: Path<K>, t: Tree<K>): Tree<K>
    decreases |path|
  {
    if path == [] then t else Plug(path[1..], Fill(path[0], t))
  }

  function InOrder<K>(t: Tree<K>): seq<K> {
    match t
    case Nil => []
    case Node(_, _, l, d, r) => InOrder(l) + [d] + InOrder(r)
  }

  function PostOrder<K>(t: Tree<K>): seq<K> {
    match t
    case Nil => []
    case Node(_, _, l, d, r) => PostOrder(l) + PostOrder(r) + [d]
  }

  function Ids<K>(t: Tree<K>): set<nat> {
    match t
    case Nil => {}
    case Node(id, _, l, _, r) => {id} + Ids(l) + Ids(r)
  }

  /** No arena slot is used twice. */
  ghost predicate Unique<K>(t: Tree<K>) {
    match t
    case Nil => true
    case Node(id, _, l, _, r) =>
      Unique(l) && Unique(r) && Ids(l) !! Ids(r) && id !in Ids(l) && id !in Ids(r)
  }

  /** An absent child is a virtual black leaf. */
  function ColorOf<K>(t: Tree<K>): Color {
    if t.Nil? then Black else t.color
  }

  function BlackCount(c: Color): nat {
    if c == Black then 1 else 0
  }

  /** Black nodes on the leftmost path (the black-height when `Balanced`). */
  function BH<K>(t: Tree<K>): nat {
    match t
    case Nil => 0
    case Node(_, c, l, _, _) => BH(l) + BlackCount(c)
  }

  /** Every path from a node down to a virtual leaf meets the same number of black nodes. */
  ghost predicate Balanced<K>(t: Tree<K>) {
    match t
    case Nil => true
    case Node(_, _, l, _, r) => Balanced(l) && Balanced(r) && BH(l) == BH(r)
  }

  /** No red node has a red child. */
  ghost predicate RedOk<K>(t: Tree<K>) {
    match t
    case Nil => true
    case Node(_, c, l, _, r) =>
      RedOk(l) && RedOk(r) && (c == Red ==> ColorOf(l) == Black && ColorOf(r) == Black)
  }

  /** The red-black invariants: black root, no red-red edge, equal black-height. */
  ghost predicate IsRB<K>(t: Tree<K>) {
    ColorOf(t) == Black && RedOk(t) && Balanced(t)
  }

  // ---------------------------------------------------------------------
  // The path (zipper) view of a tree

  /** In-order payloads left of the hole. */
  function LeftCtx<K>(path: Path<K>): seq<K>
    decreases |path|
  {
    if path == [] then []
    else LeftCtx(path[1..]) + (if path[0].dir == Right then InOrder(path[0].sib) + [path[0].data] else [])
  }

  /** In-order payloads right of the hole. */
  function RightCtx<K>(path: Path<K>): seq<K>
    decreases |path|
  {
    if path == [] then []
    else (if path[0].dir == Left then [path[0].data] + InOrder(path[0].sib) else []) + RightCtx(path[1..])
  }

  function PathIds<K>(path: Path<K>): set<nat>
    decreases |path|
  {
    if path == [] then {} else {path[0].id} + Ids(path[0].sib) + PathIds(path[1..])
  }

  ghost predicate UniquePath<K>(path: Path<K>)
    decreases |path|
  {
    path == [] ||
    (&& Unique(path[0].sib) && path[0].id !in Ids(path[0].sib)
     && ({path[0].id} + Ids(path[0].sib)) !! PathIds(path[1..])
     && UniquePath(path[1..]))
  }

  /** The siblings along the path have the black-heights a hole of black-height `h` needs. */
  ghost predicate PathBalanced<K>(path: Path<K>, h: nat)
    decreases |path|
  {
    path == [] ||
    (Balanced(path[0].sib) && BH(path[0].sib) == h &&
     PathBalanced(path[1..], h + BlackCount(path[0].color)))
  }

  /** No red-red edge along the path, given that the hole's root has colour `c`. */
  ghost predicate PathRed<K>(path: Path<K>, c: Color)
    decreases |path|
  {
    path == [] ||
    (RedOk(path[0].sib) &&
     (path[0].color == Red ==> c == Black && ColorOf(path[0].sib) == Black) &&
     PathRed(path[1..], path[0].color))
  }

  /** The outermost frame, when there is one, is the (black) root. */
  ghost predicate RootBlack<K>(path: Path<K>) {
    path == [] || path[|path| - 1].color == Black
  }

  lemma PlugAppend<K>(p: Path<K>, q: Path<K>, t: Tree<K>)
    ensures Plug(p + q, t) == Plug(q, Plug(p, t))
    decreases |p|
  {
    if p != [] {
      assert (p + q)[0] == p[0] && (p + q)[1..] == p[1..] + q;
      PlugAppend(p[1..], q, Fill(p[0], t));
    } else {
      assert p + q == q;
    }
  }

  lemma InOrderPlug<K>(path: Path<K>, t: Tree<K>)
    ensures InOrder(Plug(path, t)) == LeftCtx(path) + InOrder(t) + RightCtx(path)
    decreases |path|
  {
    if path != [] {
      var fr, p := path[0], path[1..];
      InOrderPlug(p, Fill(fr, t));
      var l, m, s, r := LeftCtx(p), InOrder(t), InOrder(fr.sib), RightCtx(p);
      if fr.dir == Left {
        CatLeft(l, m, fr.data, s, r);
      } else {
        CatRight(l, s, fr.data, m, r);
      }
    }
  }

  /** Concatenations regrouped around a focus stretch `m`. */
  lemma CatLeft<K>(l: seq<K>, m: seq<K>, d: K, s: seq<K>, r: seq<K>)
    ensures l + (m + [d] + s) + r == (l + []) + m + (([d] + s) + r)
  {
  }

  lemma CatRight<K>(l: seq<K>, s: seq<K>, d: K, m: seq<K>, r: seq<K>)
    ensures l + (s + [d] + m) + r == (l + (s + [d])) + m + ([] + r)
  {
  }

  lemma IdsPlug<K>(path: Path<K>, t: Tree<K>)
    ensures Ids(Plug(path, t)) == Ids(t) + PathIds(path)
    decreases |path|
  {
    if path != [] {
      IdsPlug(path[1..], Fill(path[0], t));
    }
  }

  lemma UniquePlug<K>(path: Path<K>, t: Tree<K>)
    ensures Unique(Plug(path, t)) <==> Unique(t) && UniquePath(path) && Ids(t) !! PathIds(path)
    decreases |path|
  {
    if path != [] {
      UniquePlug(path[1..], Fill(path[0], t));
    }
  }

  lemma BalancedPlug<K>(path: Path<K>, t: Tree<K>)
    ensures Balanced(Plug(path, t)) <==> Balanced(t) && PathBalanced(path, BH(t))
    decreases |path|
  {
    if path != [] {
      BalancedPlug(path[1..], Fill(path[0], t));
    }
  }

  lemma RedOkPlug<K>(path: Path<K>, t: Tree<K>)
    ensures RedOk(Plug(path, t)) <==> RedOk(t) && PathRed(path, ColorOf(t))
    decreases |path|
  {
    if path != [] {
      RedOkPlug(path[1..], Fill(path[0], t));
    }
  }

  lemma ColorPlug<K>(path: Path<K>, t: Tree<K>)
    ensures ColorOf(Plug(path, t)) == if path == [] then ColorOf(t) else path[|path| - 1].color
    decreases |path|
  {
    if path != [] {
      ColorPlug(path[1..], Fill(path[0], t));
    }
  }

  /** The whole red-black invariant, read off a focus and its path. */
  lemma IsRBPlug<K>(path: Path<K>, t: Tree<K>)
    ensures IsRB(Plug(path, t)) <==>
      && Balanced(t) && PathBalanced(path, BH(t))
      && RedOk(t) && PathRed(path, ColorOf(t))
      && (if path == [] then ColorOf(t) == Black else RootBlack(path))
  {
    BalancedPlug(path, t);
    RedOkPlug(path, t);
    ColorPlug(path, t);
  }

  // ---------------------------------------------------------------------
  // Finding a node by its arena slot (what following `parent` links gives)

  /** The frames from node `id` up to the root of `t`. */
  function PathTo<K>(t: Tree<K>, id: nat): Path<K> {
    match t
    case Nil => []
    case Node(i, c, l, d, r) =>
      if i == id then []
      else if id in Ids(l) then PathTo(l, id) + [Frame(Left, i, c, d, r)]
      else if id in Ids(r) then PathTo(r, id) + [Frame(Right, i, c, d, l)]
      else []
  }

  /** The subtree rooted at node `id`. */
  function SubAt<K>(t: Tree<K>, id: nat): Tree<K> {
    match t
    case Nil => Nil
    case Node(i, _, l, _, r) =>
      if i == id then t
      else if id in Ids(l) then SubAt(l, id)
      else if id in Ids(r) then SubAt(r, id)
      else Nil
  }

  lemma SubAtPathTo<K>(t: Tree<K>, id: nat)
    requires id in Ids(t)
    ensures SubAt(t, id).Node? && SubAt(t, id).id == id
    ensures Plug(PathTo(t, id), SubAt(t, id)) == t
  {
    match t
    case Node(i, c, l, d, r) =>
      if i != id {
        if id in Ids(l) {
          SubAtPathTo(l, id);
          PlugAppend(PathTo(l, id), [Frame(Left, i, c, d, r)], SubAt(l, id));
        } else {
          SubAtPathTo(r, id);
          PlugAppend(PathTo(r, id), [Frame(Right, i, c, d, l)], SubAt(r, id));
        }
      }
  }

  /** A focus with distinct slots is found again by its slot, along its own path. */
  lemma PathToPlug<K>(path: Path<K>, f: Tree<K>)
    requires f.Node? && Unique(Plug(path, f))
    ensures PathTo(Plug(path, f), f.id) == path
    ensures SubAt(Plug(path, f), f.id) == f
    decreases |path|
  {
    if path != [] {
      var n := |path|;
      var fr, inner := path[n - 1], path[..n - 1];
      assert path == inner + [fr];
      PlugAppend(inner, [fr], f);
      var t := Plug(inner, f);
      UniquePlug(path, f);
      UniquePlug(inner, f);
      IdsPlug(inner, f);
      UniquePathSplit(inner, [fr]);
      assert Plug(path, f) == Fill(fr, t);
      PathToPlug(inner, f);
    }
  }

  lemma UniquePathSplit<K>(p: Path<K>, q: Path<K>)
    requires UniquePath(p + q)
    ensures UniquePath(p) && UniquePath(q) && PathIds(p) !! PathIds(q)
    ensures PathIds(p + q) == PathIds(p) + PathIds(q)
    decreases |p|
  {
    if p != [] {
      assert (p + q)[0] == p[0] && (p + q)[1..] == p[1..] + q;
      UniquePathSplit(p[1..], q);
    } else {
      assert p + q == q;
    }
  }

  // ---------------------------------------------------------------------
  // Rotations (the value-level effect of rotateLeft / rotateRight)

  /** `x` with right child `y` becomes the left child of `y`. */
  function RotL<K>(t: Tree<K>): (r: Tree<K>)
    requires t.Node? && t.right.Node?
    ensures r.Node? && r.left.Node?
  {
    var y := t.right;
    Node(y.id, y.color, Node(t.id, t.color, t.left, t.data, y.left), y.data, y.right)
  }

  /** `x` with left child `y` becomes the right child of `y`. */
  function RotR<K>(t: Tree<K>): (r: Tree<K>)
    requires t.Node? && t.left.Node?
    ensures r.Node? && r.right.Node?
  {
    var y := t.left;
    Node(y.id, y.color, y.left, y.data, Node(t.id, t.color, y.right, t.data, t.right))
  }

  lemma RotLFacts<K>(t: Tree<K>)
    requires t.Node? && t.right.Node?
    ensures InOrder(RotL(t)) == InOrder(t) && Ids(RotL(t)) == Ids(t)
    ensures Unique(t) ==> Unique(RotL(t))
  {
    var y := t.right;
    var inner := Node(t.id, t.color, t.left, t.data, y.left);
    assert RotL(t) == Node(y.id, y.color, inner, y.data, y.right);
    RotShape(t.left, t.id, t.color, t.data, y.left, y.id, y.color, y.data, y.right);
  }

  lemma RotRFacts<K>(t: Tree<K>)
    requires t.Node? && t.left.Node?
    ensures InOrder(RotR(t)) == InOrder(t) && Ids(RotR(t)) == Ids(t)
    ensures Unique(t) ==> Unique(RotR(t))
  {
    var y := t.left;
    var inner := Node(t.id, t.color, y.right, t.data, t.right);
    assert RotR(t) == Node(y.id, y.color, y.left, y.data, inner);
    RotShape(y.left, y.id, y.color, y.data, y.right, t.id, t.color, t.data, t.right);
  }

  /** The two shapes a single rotation converts between have the same keys, slots and distinctness. */
  lemma RotShape<K>(a: Tree<K>, i: nat, ci: Color, di: K, b: Tree<K>, j: nat, cj: Color, dj: K, c: Tree<K>)
    ensures var s1 := Node(i, ci, a, di, Node(j, cj, b, dj, c));
            var s2 := Node(j, cj, Node(i, ci, a, di, b), dj, c);
            InOrder(s1) == InOrder(s2) && Ids(s1) == Ids(s2) && Unique(s1) == Unique(s2)
  {
    var s1 := Node(i, ci, a, di, Node(j, cj, b, dj, c));
    var s2 := Node(j, cj, Node(i, ci, a, di, b), dj, c);
    var A, B, C := InOrder(a), InOrder(b), InOrder(c);
    assert InOrder(s1) == A + [di] + (B + [dj] + C);
    assert InOrder(s2) == (A + [di] + B) + [dj] + C;
    assert Ids(s1) == {i} + Ids(a) + ({j} + Ids(b) + Ids(c));
    assert Ids(s2) == {j} + ({i} + Ids(a) + Ids(b)) + Ids(c);
  }

  /** A rotation anywhere in a tree keeps its payload order, its slots and their distinctness. */
  lemma RotPlugFacts<K>(path: Path<K>, t: Tree<K>)
    requires t.Node?
    ensures t.right.Node? ==>
      && InOrder(Plug(path, RotL(t))) == InOrder(Plug(path, t))
      && Ids(Plug(path, RotL(t))) == Ids(Plug(path, t))
      && (Unique(Plug(path, t)) ==> Unique(Plug(path, RotL(t))))
    ensures t.left.Node? ==>
      && InOrder(Plug(path, RotR(t))) == InOrder(Plug(path, t))
      && Ids(Plug(path, RotR(t))) == Ids(Plug(path, t))
      && (Unique(Plug(path, t)) ==> Unique(Plug(path, RotR(t))))
  {
    InOrderPlug(path, t);
    IdsPlug(path, t);
    UniquePlug(path, t);
    if t.right.Node? {
      RotLFacts(t);
      InOrderPlug(path, RotL(t));
      IdsPlug(path, RotL(t));
      UniquePlug(path, RotL(t));
    }
    if t.left.Node? {
      RotRFacts(t);
      InOrderPlug(path, RotR(t));
      IdsPlug(path, RotR(t));
      UniquePlug(path, RotR(t));
    }
  }

  lemma RotationsInverse<K>(t: Tree<K>)
    requires t.Node? && t.right.Node?
    ensures RotR(RotL(t)) == t
  {
  }

  // ---------------------------------------------------------------------
  // In-place field writes seen on the value tree

  /** `t` with the node in slot `id` recoloured `c`. */
  function SetColor<K>(t: Tree<K>, id: nat, c: Color): Tree<K> {
    match t
    case Nil => Nil
    case Node(i, ci, l, d, r) =>
      if i == id then Node(i, c, l, d, r) else Node(i, ci, SetColor(l, id, c), d, SetColor(r, id, c))
  }

  /** `t` with the payload of the node in slot `id` replaced by `x`. */
  function SetData<K>(t: Tree<K>, id: nat, x: K): Tree<K> {
    match t
    case Nil => Nil
    case Node(i, c, l, d, r) =>
      if i == id then Node(i, c, l, x, r) else Node(i, c, SetData(l, id, x), d, SetData(r, id, x))
  }

  lemma SetColorAbsent<K>(t: Tree<K>, id: nat, c: Color)
    requires id !in Ids(t)
    ensures SetColor(t, id, c) == t
  {
    match t
    case Nil =>
    case Node(_, _, l, _, r) =>
      SetColorAbsent(l, id, c);
      SetColorAbsent(r, id, c);
  }

  lemma SetDataAbsent<K>(t: Tree<K>, id: nat, x: K)
    requires id !in Ids(t)
    ensures SetData(t, id, x) == t
  {
    match t
    case Nil =>
    case Node(_, _, l, _, r) =>
      SetDataAbsent(l, id, x);
      SetDataAbsent(r, id, x);
  }

  /** Recolouring keeps the shape, the slots and the payload order. */
  lemma SetColorShape<K>(t: Tree<K>, id: nat, c: Color)
    ensures InOrder(SetColor(t, id, c)) == InOrder(t)
    ensures Ids(SetColor(t, id, c)) == Ids(t)
    ensures Unique(SetColor(t, id, c)) == Unique(t)
    ensures SetColor(t, id, c).Nil? == t.Nil?
    ensures t.Node? ==> SetColor(t, id, c).id == t.id
  {
    match t
    case Nil =>
    case Node(_, _, l, _, r) =>
      SetColorShape(l, id, c);
      SetColorShape(r, id, c);
  }

  /** Writing a payload keeps the shape and the slots. */
  lemma SetDataShape<K>(t: Tree<K>, id: nat, x: K)
    ensures Ids(SetData(t, id, x)) == Ids(t)
    ensures Unique(SetData(t, id, x)) == Unique(t)
    ensures SetData(t, id, x).Nil? == t.Nil?
    ensures t.Node? ==> SetData(t, id, x).id == t.id && SetData(t, id, x).color == t.color
    ensures BH(SetData(t, id, x)) == BH(t) && Balanced(SetData(t, id, x)) == Balanced(t)
    ensures RedOk(SetData(t, id, x)) == RedOk(t)
  {
    match t
    case Nil =>
    case Node(_, _, l, _, r) =>
      SetDataShape(l, id, x);
      SetDataShape(r, id, x);
  }

  /** A write to a slot inside the focus happens inside the focus. */
  lemma SetColorPlug<K>(path: Path<K>, t: Tree<K>, id: nat, c: Color)
    requires id !in PathIds(path)
    ensures SetColor(Plug(path, t), id, c) == Plug(path, SetColor(t, id, c))
    decreases |path|
  {
    if path != [] {
      SetColorAbsent(path[0].sib, id, c);
      SetColorPlug(path[1..], Fill(path[0], t), id, c);
    }
  }

  lemma SetDataPlug<K>(path: Path<K>, t: Tree<K>, id: nat, x: K)
    requires id !in PathIds(path)
    ensures SetData(Plug(path, t), id, x) == Plug(path, SetData(t, id, x))
    decreases |path|
  {
    if path != [] {
      SetDataAbsent(path[0].sib, id, x);
      SetDataPlug(path[1..], Fill(path[0], t), id, x);
    }
  }

  // ---------------------------------------------------------------------
  // Counting and releasing

  lemma PostOrderPermutation<K>(t: Tree<K>)
    ensures multiset(PostOrder(t)) == multiset(InOrder(t))
  {
    match t
    case Nil =>
    case Node(_, _, l, d, r) =>
      PostOrderPermutation(l);
      PostOrderPermutation(r);
  }

  lemma UniqueCount<K>(t: Tree<K>)
    requires Unique(t)
    ensures |Ids(t)| == |InOrder(t)|
  {
    match t
    case Nil =>
    case Node(id, _, l, _, r) =>
      UniqueCount(l);
      UniqueCount(r);
      assert |Ids(l) + Ids(r)| == |Ids(l)| + |Ids(r)|;
  }
}
