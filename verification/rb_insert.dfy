/** The red-black argument behind `insertRepairs` (Ex3/RBTree.c), on values:
    the invariant the repair keeps while it climbs, and what each of its
    cases (root, black parent, red uncle, black uncle) turns it into. */
module RBInsert {
  import opened RBTrees

  /** While `insertRepairs` runs: the focus is a red node that is sound in
      itself, the rest of the tree fits around it, and the one defect allowed
      is that the focus's parent may be red too. */
  ghost predicate InsInv<K>(path: Path<K>, f: Tree<K>) {
    && f.Node? && f.color == Red && RedOk(f) && Balanced(f)
    && PathBalanced(path, BH(f)) && PathRed(path, Black) && RootBlack(path)
  }

  /** A fresh red leaf hung in an empty slot of a red-black tree starts the repair. */
  lemma InsStart<K>(path: Path<K>, n: nat, x: K)
    requires IsRB(Plug(path, Nil))
    ensures InsInv(path, Node(n, Red, Nil, x, Nil))
  {
    IsRBPlug(path, Nil);
  }

  /** Case "no parent": blackening the focus finishes the repair. */
  lemma InsRootCase<K>(f: Tree<K>)
    requires InsInv([], f)
    ensures IsRB(SetColor(f, f.id, Black))
  {
  }

  /** Case "black parent": nothing is left to repair. */
  lemma InsBlackParentCase<K>(path: Path<K>, f: Tree<K>)
    requires InsInv(path, f) && path != [] && path[0].color == Black
    ensures IsRB(Plug(path, f))
  {
    IsRBPlug(path, f);
  }

  /** A red parent is never the root, so the grandparent exists, and it is black. */
  lemma InsRedParent<K>(path: Path<K>, f: Tree<K>)
    requires InsInv(path, f) && path != [] && path[0].color == Red
    ensures |path| >= 2 && path[1].color == Black
  {
    assert |path| != 1;
    assert PathRed(path[1..], Red);
    assert path[1..][0] == path[1];
  }

  /** The grandparent's subtree after `redFatherRedUncle`: parent and uncle
      black, grandparent red. */
  function RedUncleLift<K>(path: Path<K>, f: Tree<K>): (g: Tree<K>)
    requires |path| >= 2 && path[1].sib.Node?
    ensures g.Node? && g.id == path[1].id
  {
    var p, gp := path[0], path[1];
    var u := gp.sib;
    Fill(gp.(color := Red, sib := u.(color := Black)), Fill(p.(color := Black), f))
  }

  /** Case "red uncle": the red moves up two levels and the invariant holds there. */
  lemma InsRedUncleCase<K>(path: Path<K>, f: Tree<K>)
    requires InsInv(path, f) && path != [] && path[0].color == Red
    requires |path| >= 2 && ColorOf(path[1].sib) == Red
    ensures InsInv(path[2..], RedUncleLift(path, f))
  {
    var p, gp := path[0], path[1];
    assert PathBalanced(path[1..], BH(f));
    assert PathRed(path[1..], Red);
    assert path[2..] == path[1..][1..];
    if path[2..] != [] {
      assert path[2..][|path[2..]| - 1] == path[|path| - 1];
    }
  }

  /** The same tree with the red uncle case's three writes done one by one. */
  lemma RedUncleWrites<K>(path: Path<K>, f: Tree<K>)
    requires |path| >= 2 && path[1].sib.Node? && f.Node?
    requires Unique(Plug(path, f))
    ensures var t1 := SetColor(Plug(path, f), path[0].id, Black);
            var t2 := SetColor(t1, path[1].sib.id, Black);
            SetColor(t2, path[1].id, Red) == Plug(path[2..], RedUncleLift(path, f))
  {
    var p, gp := path[0], path[1];
    var u := gp.sib;
    var rest := path[2..];
    var P := Fill(p, f);
    var G := Fill(gp, P);
    assert Plug(path, f) == Plug(rest, G) by {
      assert path[1..][1..] == rest;
    }
    UniquePlug(rest, G);
    IdsPlug(rest, G);
    assert p.id !in PathIds(rest) && u.id !in PathIds(rest) && gp.id !in PathIds(rest);
    SetColorPlug(rest, G, p.id, Black);
    SetColorAbsent(u, p.id, Black);
    SetColorAbsent(f, p.id, Black);
    SetColorAbsent(p.sib, p.id, Black);
    var G1 := Fill(gp, Fill(p.(color := Black), f));
    assert SetColor(G, p.id, Black) == G1;
    SetColorPlug(rest, G1, u.id, Black);
    SetColorAbsent(Fill(p.(color := Black), f), u.id, Black);
    var G2 := Fill(gp.(sib := u.(color := Black)), Fill(p.(color := Black), f));
    assert SetColor(G1, u.id, Black) == G2;
    SetColorPlug(rest, G2, gp.id, Red);
  }

  /** The grandparent's subtree after `secondStep` when focus, parent and
      grandparent lie on a straight line: the parent on top, black, with the
      focus and the grandparent as its red children. */
  function InsRotated<K>(path: Path<K>, f: Tree<K>): (r: Tree<K>)
    requires |path| >= 2
    ensures r.Node? && r.id == path[0].id
  {
    var p, gp := path[0], path[1];
    if p.dir == Left then
      Node(p.id, Black, f, p.data, Node(gp.id, Red, p.sib, gp.data, gp.sib))
    else
      Node(p.id, Black, Node(gp.id, Red, gp.sib, gp.data, p.sib), p.data, f)
  }

  /** Case "black uncle", straight line: one rotation at the grandparent and
      two recolourings make the whole tree red-black. */
  lemma InsRotateCase<K>(path: Path<K>, f: Tree<K>)
    requires InsInv(path, f) && path != [] && path[0].color == Red
    requires |path| >= 2 && ColorOf(path[1].sib) == Black && path[0].dir == path[1].dir
    ensures IsRB(Plug(path[2..], InsRotated(path, f)))
  {
    var rest := path[2..];
    var r := InsRotated(path, f);
    assert PathBalanced(path[1..], BH(f));
    assert PathRed(path[1..], Red);
    assert rest == path[1..][1..];
    var p, gp := path[0], path[1];
    assert path[1..][0] == gp;
    assert BH(p.sib) == BH(f) && BH(gp.sib) == BH(f) && Balanced(p.sib) && Balanced(gp.sib);
    assert BH(r) == BH(f) + 1;
    assert RedOk(p.sib) && ColorOf(p.sib) == Black && RedOk(gp.sib);
    assert RedOk(r);
    assert PathRed(rest, Black);
    if rest != [] {
      assert rest[|rest| - 1] == path[|path| - 1];
      assert RootBlack(rest);
    } else {
      assert ColorOf(r) == Black;
    }
    if p.dir == Left {
      var inner := Node(gp.id, Red, p.sib, gp.data, gp.sib);
      assert Balanced(inner) && BH(inner) == BH(f);
      assert r == Node(p.id, Black, f, p.data, inner);
    } else {
      var inner := Node(gp.id, Red, gp.sib, gp.data, p.sib);
      assert Balanced(inner) && BH(inner) == BH(f);
      assert r == Node(p.id, Black, inner, p.data, f);
    }
    assert Balanced(r);
    IsRBPlug(rest, r);
  }

  /** The rotation and the recolourings of the straight-line case, one by one. */
  lemma InsRotateWrites<K>(path: Path<K>, f: Tree<K>)
    requires |path| >= 2 && path[0].dir == path[1].dir && f.Node?
    requires Unique(Plug(path, f))
    ensures var G := Fill(path[1], Fill(path[0], f));
            var R := if path[0].dir == Left then RotR(G) else RotL(G);
            Plug(path, f) == Plug(path[2..], G) &&
            SetColor(SetColor(Plug(path[2..], R), path[0].id, Black), path[1].id, Red)
              == Plug(path[2..], InsRotated(path, f))
  {
    var p, gp := path[0], path[1];
    var rest := path[2..];
    var G := Fill(gp, Fill(p, f));
    var R := if p.dir == Left then RotR(G) else RotL(G);
    assert Plug(path, f) == Plug(rest, G) by {
      assert path[1..][1..] == rest;
    }
    UniquePlug(rest, G);
    IdsPlug(rest, G);
    SetColorPlug(rest, R, p.id, Black);
    SetColorAbsent(f, p.id, Black);
    SetColorAbsent(p.sib, p.id, Black);
    SetColorAbsent(gp.sib, p.id, Black);
    var R1 := SetColor(R, p.id, Black);
    SetColorPlug(rest, R1, gp.id, Red);
    SetColorAbsent(f, gp.id, Red);
    SetColorAbsent(p.sib, gp.id, Red);
    SetColorAbsent(gp.sib, gp.id, Red);
  }

  /** Case "black uncle", zig-zag: after the rotation at the parent the old
      parent is the focus, on a straight line below the grandparent, and the
      invariant still holds. */
  lemma InsZigZagCase<K>(path: Path<K>, f: Tree<K>)
    requires InsInv(path, f) && path != [] && path[0].color == Red
    requires |path| >= 2 && ColorOf(path[1].sib) == Black && path[0].dir != path[1].dir
    ensures var P := Fill(path[0], f);
            var R := if path[0].dir == Right then RotL(P) else RotR(P);
            var f2 := if path[0].dir == Right then R.left else R.right;
            var path2 := [Frame(path[1].dir, f.id, Red, f.data,
                                if path[0].dir == Right then f.right else f.left)] + path[1..];
            && Plug(path2, f2) == Plug(path[1..], R)
            && InsInv(path2, f2) && path2[0].color == Red && path2[0].dir == path2[1].dir
            && path2[1] == path[1] && path2[2..] == path[2..]
  {
    var p := path[0];
    var P := Fill(p, f);
    var R := if p.dir == Right then RotL(P) else RotR(P);
    var f2 := if p.dir == Right then R.left else R.right;
    var path2 := [Frame(path[1].dir, f.id, Red, f.data, if p.dir == Right then f.right else f.left)] + path[1..];
    assert path2[1..] == path[1..];
    assert PathBalanced(path[1..], BH(f));
    assert PathRed(path[1..], Red);
    assert BH(f2) == BH(f);
    assert PathBalanced(path2, BH(f2));
    assert PathRed(path2, Black);
    if path[1..] != [] {
      assert path2[|path2| - 1] == path[|path| - 1];
    }
  }
}
