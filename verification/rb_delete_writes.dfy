/** The field writes of the `deleteCase3*` functions (Ex3/RBTree.c) seen on
    the value tree: each recolouring rewrites one frame of the path above
    the focus, and each rotation that follows leaves exactly the frames
    `RBDelete` describes. */
module RBDeleteWrites {
  import opened RBTrees
  import opened RBDelete

  /** Recolouring the focus's parent rewrites the innermost frame only. */
  lemma PaintFrame<K>(path: Path<K>, f: Tree<K>, c: Color)
    requires path != [] && Unique(Plug(path, f))
    ensures SetColor(Plug(path, f), path[0].id, c) == Plug([path[0].(color := c)] + path[1..], f)
  {
    var p, rest := path[0], path[1..];
    UniquePlug(path, f);
    assert p.id in PathIds(path);
    SetColorPlug(rest, Fill(p, f), p.id, c);
    SetColorAbsent(f, p.id, c);
    SetColorAbsent(p.sib, p.id, c);
    assert ([p.(color := c)] + rest)[1..] == rest;
  }

  /** Recolouring a node inside the brother's subtree rewrites the innermost
      frame's sibling only. */
  lemma PaintSib<K>(path: Path<K>, f: Tree<K>, id: nat, c: Color)
    requires path != [] && Unique(Plug(path, f)) && id in Ids(path[0].sib)
    ensures SetColor(Plug(path, f), id, c) == Plug([path[0].(sib := SetColor(path[0].sib, id, c))] + path[1..], f)
  {
    var p, rest := path[0], path[1..];
    UniquePlug(path, f);
    assert Ids(p.sib) <= PathIds(path);
    SetColorPlug(rest, Fill(p, f), id, c);
    SetColorAbsent(f, id, c);
    assert ([p.(sib := SetColor(p.sib, id, c))] + rest)[1..] == rest;
  }

  /** `deleteCase3B1` (parent black, then brother red) and `deleteCase3B2`
      (brother red, the parent being black already) both leave `Recolor3B`. */
  lemma Del3BWrites<K>(path: Path<K>, f: Tree<K>)
    requires path != [] && path[0].sib.Node? && Unique(Plug(path, f))
    ensures SetColor(SetColor(Plug(path, f), path[0].id, Black), path[0].sib.id, Red) == Plug(Recolor3B(path), f)
    ensures path[0].color == Black ==> SetColor(Plug(path, f), path[0].sib.id, Red) == Plug(Recolor3B(path), f)
  {
    var p, b, rest := path[0], path[0].sib, path[1..];
    assert SetColor(b, b.id, Red) == b.(color := Red);
    PaintFrame(path, f, Black);
    var q := [p.(color := Black)] + rest;
    SetColorShape(Plug(path, f), p.id, Black);
    assert q[0] == p.(color := Black) && q[1..] == rest;
    PaintSib(q, f, b.id, Red);
    if p.color == Black {
      PaintSib(path, f, b.id, Red);
    }
  }

  /** `deleteCase3C`: brother black, parent red; the rotation at the parent
      towards the focus then leaves `Rotate3C`. */
  lemma Del3CWrites<K>(path: Path<K>, f: Tree<K>)
    requires path != [] && path[0].sib.Node? && Unique(Plug(path, f))
    ensures var p, b := path[0], path[0].sib;
            var top := Fill(p.(color := Red, sib := b.(color := Black)), f);
            && SetColor(SetColor(Plug(path, f), b.id, Black), p.id, Red) == Plug(path[1..], top)
            && (p.dir == Left ==> top.right.Node? && Plug(path[1..], RotL(top)) == Plug(Rotate3C(path), f))
            && (p.dir == Right ==> top.left.Node? && Plug(path[1..], RotR(top)) == Plug(Rotate3C(path), f))
  {
    var p, b, rest := path[0], path[0].sib, path[1..];
    assert SetColor(b, b.id, Black) == b.(color := Black);
    PaintSib(path, f, b.id, Black);
    var q := [p.(sib := b.(color := Black))] + rest;
    SetColorShape(Plug(path, f), b.id, Black);
    assert q[0] == p.(sib := b.(color := Black)) && q[1..] == rest;
    PaintFrame(q, f, Red);
    var r := Rotate3C(path);
    assert r[1..][1..] == rest;
    assert Plug(r, f) == Plug(rest, Fill(r[1], Fill(r[0], f)));
  }

  /** The parent frame seen from the brother's side: the same node, with
      the focus as the other child. */
  function Flip<K>(p: Frame<K>, f: Tree<K>): Frame<K> {
    Frame(if p.dir == Left then Right else Left, p.id, p.color, p.data, f)
  }

  /** `deleteCase3D`: near child black, brother red; the rotation at the
      brother away from the focus then leaves `Rotate3D`. */
  lemma Del3DWrites<K>(path: Path<K>, f: Tree<K>)
    requires path != [] && path[0].sib.Node? && Close(path[0]).Node? && Unique(Plug(path, f))
    ensures var p, b, c := path[0], path[0].sib, Close(path[0]);
            var nb := SetColor(SetColor(b, c.id, Black), b.id, Red);
            var up := [Flip(p, f)] + path[1..];
            && nb == (if p.dir == Left then b.(color := Red, left := c.(color := Black))
                      else b.(color := Red, right := c.(color := Black)))
            && (p.dir == Right ==> nb.left.Nil? || nb.left.id != c.id)
            && SetColor(SetColor(Plug(path, f), c.id, Black), b.id, Red) == Plug(up, nb)
            && (p.dir == Left ==> Plug(up, RotR(nb)) == Plug(Rotate3D(path), f))
            && (p.dir == Right ==> Plug(up, RotL(nb)) == Plug(Rotate3D(path), f))
  {
    var p, b, c, rest := path[0], path[0].sib, Close(path[0]), path[1..];
    UniquePlug(path, f);
    assert Unique(b);
    var b1 := SetColor(b, c.id, Black);
    assert c.id != b.id && SetColor(c, c.id, Black) == c.(color := Black);
    if p.dir == Left {
      SetColorAbsent(b.right, c.id, Black);
      assert b1 == b.(left := c.(color := Black));
    } else {
      SetColorAbsent(b.left, c.id, Black);
      assert b1 == b.(right := c.(color := Black));
    }
    assert c.id in Ids(b);
    PaintSib(path, f, c.id, Black);
    var q := [p.(sib := b1)] + rest;
    SetColorShape(Plug(path, f), c.id, Black);
    assert q[0] == p.(sib := b1) && q[1..] == rest;
    PaintSib(q, f, b.id, Red);
    var nb := SetColor(b1, b.id, Red);
    assert Plug(q, f) == Plug(rest, Fill(q[0], f));
    assert Fill(q[0], f) == Fill(Flip(p, f), b1);
    var up := [Flip(p, f)] + rest;
    assert up[1..] == rest;
    assert Plug([p.(sib := nb)] + rest, f) == Plug(up, nb);
    var r := Rotate3D(path);
    assert r[1..] == rest;
    assert Plug(r, f) == Plug(rest, Fill(r[0], f));
  }

  /** `deleteCase3E` with a black brother: the colour swap, the rotation at
      the parent towards the focus, and the far child turning black leave
      `Rotate3E`. */
  lemma Del3EWrites<K>(path: Path<K>, f: Tree<K>)
    requires path != [] && path[0].sib.Node? && path[0].sib.color == Black && Far(path[0]).Node?
    requires Unique(Plug(path, f))
    ensures var p, b := path[0], path[0].sib;
            var top := Fill(p.(color := Black, sib := b.(color := p.color)), f);
            && SetColor(SetColor(Plug(path, f), b.id, p.color), p.id, Black) == Plug(path[1..], top)
            && Far(path[0]).id in Ids(Plug(path, f))
            && (p.dir == Left ==>
                  top.right.Node? && SetColor(Plug(path[1..], RotL(top)), Far(p).id, Black) == Plug(Rotate3E(path), f))
            && (p.dir == Right ==>
                  top.left.Node? && SetColor(Plug(path[1..], RotR(top)), Far(p).id, Black) == Plug(Rotate3E(path), f))
  {
    var p, b, rest, fc := path[0], path[0].sib, path[1..], Far(path[0]);
    assert SetColor(b, b.id, p.color) == b.(color := p.color);
    PaintSib(path, f, b.id, p.color);
    var q := [p.(sib := b.(color := p.color))] + rest;
    SetColorShape(Plug(path, f), b.id, p.color);
    assert q[0] == p.(sib := b.(color := p.color)) && q[1..] == rest;
    PaintFrame(q, f, Black);
    var top := Fill(p.(color := Black, sib := b.(color := p.color)), f);
    IdsPlug(path, f);
    IdsPlug(rest, top);
    UniquePlug(path, f);
    assert fc.id in Ids(b) && Ids(b) <= PathIds(path);
    var cl := Close(p);
    assert fc.id !in Ids(cl) && fc.id !in Ids(f) && fc.id !in PathIds(rest) && fc.id != p.id && fc.id != b.id;
    SetColorAbsent(cl, fc.id, Black);
    SetColorAbsent(f, fc.id, Black);
    var r := Rotate3E(path);
    assert r[1..][1..] == rest;
    assert Plug(r, f) == Plug(rest, Fill(r[1], Fill(r[0], f)));
    if p.dir == Left {
      SetColorPlug(rest, RotL(top), fc.id, Black);
      assert SetColor(RotL(top), fc.id, Black) == Fill(r[1], Fill(r[0], f));
    } else {
      SetColorPlug(rest, RotR(top), fc.id, Black);
      assert SetColor(RotR(top), fc.id, Black) == Fill(r[1], Fill(r[0], f));
    }
  }

  /** `changeWithSuccessor`: the payloads of a node with two children and of
      the leftmost node of its right subtree are swapped.  The successor's
      node is then the focus, below the frames down to it, holding the
      payload being deleted. */
  lemma SwapWithSuccessor<K>(path: Path<K>, f: Tree<K>)
    requires f.Node? && f.right.Node? && Unique(Plug(path, f))
    ensures var (q, m) := Leftmost(f.right);
            && m.id in Ids(f.right)
            && SetData(SetData(Plug(path, f), f.id, m.data), m.id, f.data)
               == Plug(q + [Frame(Right, f.id, f.color, m.data, f.left)] + path, m.(data := f.data))
  {
    var (q, m) := Leftmost(f.right);
    LeftmostFacts(f.right);
    var fr := Frame(Right, f.id, f.color, m.data, f.left);
    UniquePlug(path, f);
    IdsPlug(q, m);
    // The first write, at the node itself.
    assert f.id in PathIds(path) + Ids(f) && f.id !in PathIds(path);
    SetDataPlug(path, f, f.id, m.data);
    var f1 := Node(f.id, f.color, f.left, m.data, f.right);
    assert SetData(f, f.id, m.data) == f1;
    // The second write, at the successor.
    assert m.id !in PathIds(path) && m.id != f.id && m.id !in Ids(f.left);
    SetDataPlug(path, f1, m.id, f.data);
    SetDataAbsent(f.left, m.id, f.data);
    UniquePlug(q, m);
    SetDataPlug(q, m, m.id, f.data);
    SetDataAbsent(m.right, m.id, f.data);
    var m2 := m.(data := f.data);
    assert SetData(m, m.id, f.data) == m2;
    assert SetData(f1, m.id, f.data) == Fill(fr, Plug(q, m2));
    PlugAppend(q + [fr], path, m2);
    PlugAppend(q, [fr], m2);
  }

  /** After the swap, the payloads left and right of the successor's node
      (with its right subtree) are those around the original node. */
  lemma {:induction false} SuccessorCtx<K>(path: Path<K>, f: Tree<K>)
    requires f.Node? && f.right.Node?
    ensures var (q, m) := Leftmost(f.right);
            var down := q + [Frame(Right, f.id, f.color, m.data, f.left)] + path;
            LeftCtx(down) + InOrder(m.right) + RightCtx(down)
              == LeftCtx(path) + InOrder(f.left) + InOrder(f.right) + RightCtx(path)
  {
    var (q, m) := Leftmost(f.right);
    LeftmostFacts(f.right);
    var fr := Frame(Right, f.id, f.color, m.data, f.left);
    CtxAppend(q + [fr], path);
    CtxAppend(q, [fr]);
    assert [fr][1..] == [];
    assert LeftCtx([fr]) == InOrder(f.left) + [m.data] && RightCtx([fr]) == [];
    Regroup(LeftCtx(path), InOrder(f.left), m.data, InOrder(m.right), RightCtx(q), RightCtx(path));
  }

  lemma Regroup<T>(l: seq<T>, a: seq<T>, x: T, b: seq<T>, c: seq<T>, r: seq<T>)
    ensures (l + ((a + [x]) + [])) + b + ((c + []) + r) == l + a + ([x] + b + c) + r
  {
  }
}
