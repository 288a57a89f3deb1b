/** The linked representation of Ex3/RBTree.c: every `Node` is a record in an
    arena (a map from slot numbers to records), and a `Node*` is a slot number
    or null.  `Linked` ties the arena to the value tree of `RBTrees`, including
    the `parent` back-links, and the lemmas here say how each kind of field
    write in the C code moves that picture. */
module RBLinks {
  import opened RBTrees

  datatype Ptr = Null | Ref(id: nat)

  /** The fields of a C `Node`. */
  datatype Rec<K> = Rec(data: K, color: Color, left: Ptr, right: Ptr, parent: Ptr)

  type Heap<K> = map<nat, Rec<K>>

  function PtrOf<K>(t: Tree<K>): Ptr {
    if t.Nil? then Null else Ref(t.id)
  }

  /** The `parent` link of a focus reached along `path`. */
  function ParentPtr<K>(path: Path<K>): Ptr {
    if path == [] then Null else Ref(path[0].id)
  }

  /** The record of an ancestor whose hole-side child link is `hole`. */
  function FrameRec<K>(fr: Frame<K>, hole: Ptr, up: Ptr): Rec<K> {
    if fr.dir == Left then Rec(fr.data, fr.color, hole, PtrOf(fr.sib), up)
    else Rec(fr.data, fr.color, PtrOf(fr.sib), hole, up)
  }

  /** Every node of `t` is stored at its slot with its colour, payload, child
      links and `parent` link (`up` for the root of `t`). */
  ghost predicate Linked<K>(h: Heap<K>, t: Tree<K>, up: Ptr) {
    match t
    case Nil => true
    case Node(id, c, l, d, r) =>
      && id in h && h[id] == Rec(d, c, PtrOf(l), PtrOf(r), up)
      && Linked(h, l, Ref(id)) && Linked(h, r, Ref(id))
  }

  /** The ancestors along `path` (and their other subtrees) are stored, the
      innermost one pointing at `hole`. */
  ghost predicate PathLinked<K>(h: Heap<K>, path: Path<K>, hole: Ptr)
    decreases |path|
  {
    path == [] ||
    (&& path[0].id in h && h[path[0].id] == FrameRec(path[0], hole, ParentPtr(path[1..]))
     && Linked(h, path[0].sib, Ref(path[0].id))
     && PathLinked(h, path[1..], Ref(path[0].id)))
  }

  /** `h2` holds the same records as `h` on the slots `s`. */
  ghost predicate Agree<K>(h: Heap<K>, h2: Heap<K>, s: set<nat>) {
    s <= h.Keys && s <= h2.Keys && forall id | id in s :: h2[id] == h[id]
  }

  lemma LinkedPlug<K>(h: Heap<K>, path: Path<K>, t: Tree<K>)
    ensures Linked(h, Plug(path, t), Null) <==> Linked(h, t, ParentPtr(path)) && PathLinked(h, path, PtrOf(t))
    decreases |path|
  {
    if path != [] {
      LinkedPlug(h, path[1..], Fill(path[0], t));
    }
  }

  lemma LinkedIds<K>(h: Heap<K>, t: Tree<K>, up: Ptr)
    requires Linked(h, t, up)
    ensures Ids(t) <= h.Keys
  {
    match t
    case Nil =>
    case Node(_, _, l, _, r) =>
      LinkedIds(h, l, Ref(t.id));
      LinkedIds(h, r, Ref(t.id));
  }

  lemma PathLinkedIds<K>(h: Heap<K>, path: Path<K>, hole: Ptr)
    requires PathLinked(h, path, hole)
    ensures PathIds(path) <= h.Keys
    decreases |path|
  {
    if path != [] {
      LinkedIds(h, path[0].sib, Ref(path[0].id));
      PathLinkedIds(h, path[1..], Ref(path[0].id));
    }
  }

  /** Records outside a subtree's slots do not matter to it. */
  lemma LinkedFrame<K>(h: Heap<K>, h2: Heap<K>, t: Tree<K>, up: Ptr)
    requires Linked(h, t, up) && Agree(h, h2, Ids(t))
    ensures Linked(h2, t, up)
  {
    match t
    case Nil =>
    case Node(_, _, l, _, r) =>
      LinkedFrame(h, h2, l, Ref(t.id));
      LinkedFrame(h, h2, r, Ref(t.id));
  }

  lemma PathLinkedFrame<K>(h: Heap<K>, h2: Heap<K>, path: Path<K>, hole: Ptr)
    requires PathLinked(h, path, hole) && Agree(h, h2, PathIds(path))
    ensures PathLinked(h2, path, hole)
    decreases |path|
  {
    if path != [] {
      LinkedFrame(h, h2, path[0].sib, Ref(path[0].id));
      PathLinkedFrame(h, h2, path[1..], Ref(path[0].id));
    }
  }

  /** Rewriting only the root record of a subtree to a new `parent` link. */
  lemma LinkedReparent<K>(h: Heap<K>, h2: Heap<K>, t: Tree<K>, up: Ptr, up2: Ptr)
    requires Linked(h, t, up) && Unique(t)
    requires t.Node? ==> t.id in h2 && h2[t.id] == h[t.id].(parent := up2)
    requires t.Node? ==> Agree(h, h2, Ids(t.left) + Ids(t.right))
    ensures Linked(h2, t, up2)
  {
    if t.Node? {
      LinkedFrame(h, h2, t.left, Ref(t.id));
      LinkedFrame(h, h2, t.right, Ref(t.id));
    }
  }

  /** Rewriting only the innermost ancestor's hole-side child link. */
  lemma PathLinkedRehole<K>(h: Heap<K>, h2: Heap<K>, path: Path<K>, hole: Ptr, hole2: Ptr)
    requires path != [] && PathLinked(h, path, hole)
    requires path[0].id in h2 && h2[path[0].id] == FrameRec(path[0], hole2, ParentPtr(path[1..]))
    requires Agree(h, h2, Ids(path[0].sib) + PathIds(path[1..]))
    ensures PathLinked(h2, path, hole2)
  {
    LinkedFrame(h, h2, path[0].sib, Ref(path[0].id));
    PathLinkedFrame(h, h2, path[1..], Ref(path[0].id));
  }

  /** `node->color = c` on a node of a linked tree. */
  lemma LinkedSetColor<K>(h: Heap<K>, t: Tree<K>, up: Ptr, id: nat, c: Color)
    requires Linked(h, t, up) && Unique(t) && id in Ids(t)
    ensures id in h && Linked(h[id := h[id].(color := c)], SetColor(t, id, c), up)
  {
    LinkedIds(h, t, up);
    var h2 := h[id := h[id].(color := c)];
    match t
    case Node(i, ci, l, d, r) =>
      SetColorShape(l, id, c);
      SetColorShape(r, id, c);
      if i == id {
        LinkedFrame(h, h2, l, Ref(i));
        LinkedFrame(h, h2, r, Ref(i));
      } else if id in Ids(l) {
        LinkedSetColor(h, l, Ref(i), id, c);
        SetColorAbsent(r, id, c);
        LinkedFrame(h, h2, r, Ref(i));
      } else {
        LinkedSetColor(h, r, Ref(i), id, c);
        SetColorAbsent(l, id, c);
        LinkedFrame(h, h2, l, Ref(i));
      }
  }

  /** `node->data = x` on a node of a linked tree. */
  lemma LinkedSetData<K>(h: Heap<K>, t: Tree<K>, up: Ptr, id: nat, x: K)
    requires Linked(h, t, up) && Unique(t) && id in Ids(t)
    ensures id in h && Linked(h[id := h[id].(data := x)], SetData(t, id, x), up)
  {
    LinkedIds(h, t, up);
    var h2 := h[id := h[id].(data := x)];
    match t
    case Node(i, ci, l, d, r) =>
      SetDataShape(l, id, x);
      SetDataShape(r, id, x);
      if i == id {
        LinkedFrame(h, h2, l, Ref(i));
        LinkedFrame(h, h2, r, Ref(i));
      } else if id in Ids(l) {
        LinkedSetData(h, l, Ref(i), id, x);
        SetDataAbsent(r, id, x);
        LinkedFrame(h, h2, r, Ref(i));
      } else {
        LinkedSetData(h, r, Ref(i), id, x);
        SetDataAbsent(l, id, x);
        LinkedFrame(h, h2, l, Ref(i));
      }
  }

  /** The slots a single rotation at the root of `t` (below `path`) writes:
      the two rotating nodes, the subtree that changes sides, and the parent. */
  function RotTouched<K>(path: Path<K>, x: nat, y: nat, moved: Tree<K>): set<nat> {
    {x, y} + (if moved.Nil? then {} else {moved.id}) + (if path == [] then {} else {path[0].id})
  }

  /** `rotateLeft` seen on the records: after its writes the arena links the
      rotated tree. */
  lemma LinkedRotL<K>(h: Heap<K>, h2: Heap<K>, path: Path<K>, t: Tree<K>)
    requires t.Node? && t.right.Node?
    requires Linked(h, Plug(path, t), Null) && Unique(Plug(path, t))
    requires h2.Keys == h.Keys && RotTouched(path, t.id, t.right.id, t.right.left) <= h.Keys
    requires var y := t.right;
      && h2[t.id] == Rec(t.data, t.color, PtrOf(t.left), PtrOf(y.left), Ref(y.id))
      && h2[y.id] == Rec(y.data, y.color, Ref(t.id), PtrOf(y.right), ParentPtr(path))
      && (y.left.Node? ==> h2[y.left.id] == h[y.left.id].(parent := Ref(t.id)))
      && (path != [] ==> h2[path[0].id] == FrameRec(path[0], Ref(y.id), ParentPtr(path[1..])))
      && forall id | id in h && id !in RotTouched(path, t.id, y.id, y.left) :: h2[id] == h[id]
    ensures Linked(h2, Plug(path, RotL(t)), Null)
  {
    var x, y := t, t.right;
    var a, b, c := x.left, y.left, y.right;
    LinkedPlug(h, path, t);
    UniquePlug(path, t);
    LinkedIds(h, t, ParentPtr(path));
    PathLinkedIds(h, path, Ref(x.id));
    var touched := RotTouched(path, x.id, y.id, b);
    assert Ids(a) !! touched && Ids(c) !! touched;
    if path != [] {
      assert PathIds(path) == {path[0].id} + Ids(path[0].sib) + PathIds(path[1..]);
      assert Ids(path[0].sib) !! touched && PathIds(path[1..]) !! touched;
    }
    LinkedFrame(h, h2, a, Ref(x.id));
    LinkedFrame(h, h2, c, Ref(y.id));
    if b.Node? {
      assert Unique(y) && Unique(b);
      assert Ids(b) <= Ids(y) <= Ids(t);
      assert Ids(b.left) + Ids(b.right) <= Ids(b) - {b.id};
      assert x.id !in Ids(b) && y.id !in Ids(b);
      assert Ids(b.left) + Ids(b.right) !! touched;
    }
    LinkedReparent(h, h2, b, Ref(y.id), Ref(x.id));
    assert Linked(h2, RotL(t), ParentPtr(path));
    if path != [] {
      PathLinkedRehole(h, h2, path, Ref(x.id), Ref(y.id));
    }
    LinkedPlug(h2, path, RotL(t));
  }

  /** `rotateRight` seen on the records, the mirror image of `LinkedRotL`. */
  lemma LinkedRotR<K>(h: Heap<K>, h2: Heap<K>, path: Path<K>, t: Tree<K>)
    requires t.Node? && t.left.Node?
    requires Linked(h, Plug(path, t), Null) && Unique(Plug(path, t))
    requires h2.Keys == h.Keys && RotTouched(path, t.id, t.left.id, t.left.right) <= h.Keys
    requires var y := t.left;
      && h2[t.id] == Rec(t.data, t.color, PtrOf(y.right), PtrOf(t.right), Ref(y.id))
      && h2[y.id] == Rec(y.data, y.color, PtrOf(y.left), Ref(t.id), ParentPtr(path))
      && (y.right.Node? ==> h2[y.right.id] == h[y.right.id].(parent := Ref(t.id)))
      && (path != [] ==> h2[path[0].id] == FrameRec(path[0], Ref(y.id), ParentPtr(path[1..])))
      && forall id | id in h && id !in RotTouched(path, t.id, y.id, y.right) :: h2[id] == h[id]
    ensures Linked(h2, Plug(path, RotR(t)), Null)
  {
    var x, y := t, t.left;
    var a, b, c := y.left, y.right, x.right;
    LinkedPlug(h, path, t);
    UniquePlug(path, t);
    LinkedIds(h, t, ParentPtr(path));
    PathLinkedIds(h, path, Ref(x.id));
    var touched := RotTouched(path, x.id, y.id, b);
    assert Ids(a) !! touched && Ids(c) !! touched;
    if path != [] {
      assert PathIds(path) == {path[0].id} + Ids(path[0].sib) + PathIds(path[1..]);
      assert Ids(path[0].sib) !! touched && PathIds(path[1..]) !! touched;
    }
    LinkedFrame(h, h2, a, Ref(y.id));
    LinkedFrame(h, h2, c, Ref(x.id));
    if b.Node? {
      assert Unique(y) && Unique(b);
      assert Ids(b) <= Ids(y) <= Ids(t);
      assert Ids(b.left) + Ids(b.right) <= Ids(b) - {b.id};
      assert x.id !in Ids(b) && y.id !in Ids(b);
      assert Ids(b.left) + Ids(b.right) !! touched;
    }
    LinkedReparent(h, h2, b, Ref(y.id), Ref(x.id));
    assert Linked(h2, RotR(t), ParentPtr(path));
    if path != [] {
      PathLinkedRehole(h, h2, path, Ref(x.id), Ref(y.id));
    }
    LinkedPlug(h2, path, RotR(t));
  }

  /** Splicing out a node with at most one child `ch` (possibly none): the
      parent's link and the child's `parent` link now skip the node. */
  lemma LinkedSplice<K>(h: Heap<K>, h2: Heap<K>, path: Path<K>, t: Tree<K>, ch: Tree<K>)
    requires t.Node? && (t.left.Nil? || t.right.Nil?) && ch == (if t.left.Node? then t.left else t.right)
    requires Linked(h, Plug(path, t), Null) && Unique(Plug(path, t))
    requires h2.Keys == h.Keys
    requires path != [] ==> path[0].id in h && h2[path[0].id] == FrameRec(path[0], PtrOf(ch), ParentPtr(path[1..]))
    requires ch.Node? ==> ch.id in h && h2[ch.id] == h[ch.id].(parent := ParentPtr(path))
    requires forall id | id in h && Ref(id) != PtrOf(ch) && Ref(id) != ParentPtr(path) :: h2[id] == h[id]
    ensures Linked(h2, Plug(path, ch), Null) && Unique(Plug(path, ch))
  {
    LinkedPlug(h, path, t);
    UniquePlug(path, t);
    UniquePlug(path, ch);
    LinkedIds(h, t, ParentPtr(path));
    PathLinkedIds(h, path, Ref(t.id));
    SpliceChild(h, h2, t, ch, ParentPtr(path));
    if path != [] {
      assert PathIds(path) == {path[0].id} + Ids(path[0].sib) + PathIds(path[1..]);
      assert Agree(h, h2, Ids(path[0].sib) + PathIds(path[1..]));
      PathLinkedRehole(h, h2, path, Ref(t.id), PtrOf(ch));
    }
    LinkedPlug(h2, path, ch);
  }

  lemma SpliceChild<K>(h: Heap<K>, h2: Heap<K>, t: Tree<K>, ch: Tree<K>, up: Ptr)
    requires t.Node? && (t.left.Nil? || t.right.Nil?) && ch == (if t.left.Node? then t.left else t.right)
    requires Linked(h, t, up) && Unique(t)
    requires ch.Node? ==> ch.id in h && ch.id in h2 && h2[ch.id] == h[ch.id].(parent := up)
    requires forall id | id in Ids(ch) && Ref(id) != PtrOf(ch) :: id in h && id in h2 && h2[id] == h[id]
    ensures Linked(h2, ch, up)
  {
    var i := t.id;
    assert Unique(ch) && Linked(h, ch, Ref(i));
    if ch.Node? {
      var l, r := ch.left, ch.right;
      assert Unique(l) && Unique(r) && ch.id !in Ids(l) && ch.id !in Ids(r);
      assert Ids(l) <= Ids(ch) && Ids(r) <= Ids(ch);
      assert Agree(h, h2, Ids(l) + Ids(r));
      LinkedReparent(h, h2, ch, Ref(i), up);
    }
  }

  /** `hangNode`: a fresh record `n` hung in the empty slot at the end of `path`. */
  lemma LinkedHang<K>(h: Heap<K>, h2: Heap<K>, path: Path<K>, n: nat, x: K)
    requires Linked(h, Plug(path, Nil), Null) && Unique(Plug(path, Nil)) && n !in h
    requires h2.Keys == h.Keys + {n}
    requires h2[n] == Rec(x, Red, Null, Null, ParentPtr(path))
    requires path != [] ==> path[0].id in h && h2[path[0].id] == FrameRec(path[0], Ref(n), ParentPtr(path[1..]))
    requires forall id | id in h && Ref(id) != ParentPtr(path) :: h2[id] == h[id]
    ensures Linked(h2, Plug(path, Node(n, Red, Nil, x, Nil)), Null)
    ensures Unique(Plug(path, Node(n, Red, Nil, x, Nil)))
    ensures Ids(Plug(path, Node(n, Red, Nil, x, Nil))) == Ids(Plug(path, Nil)) + {n}
  {
    var t: Tree<K> := Node(n, Red, Nil, x, Nil);
    LinkedPlug(h, path, Nil);
    UniquePlug(path, Nil);
    UniquePlug(path, t);
    IdsPlug(path, Nil);
    IdsPlug(path, t);
    PathLinkedIds(h, path, Null);
    if path != [] {
      assert PathIds(path) == {path[0].id} + Ids(path[0].sib) + PathIds(path[1..]);
      PathLinkedRehole(h, h2, path, Null, Ref(n));
    }
    LinkedPlug(h2, path, t);
  }

  /** What the arena says about a focus and its ancestors, read off `Linked`. */
  lemma FocusView<K>(h: Heap<K>, path: Path<K>, t: Tree<K>)
    requires Linked(h, Plug(path, t), Null) && Unique(Plug(path, t))
    ensures Linked(h, t, ParentPtr(path)) && PathLinked(h, path, PtrOf(t))
    ensures Unique(t) && UniquePath(path) && Ids(t) !! PathIds(path)
    ensures Ids(t) <= h.Keys && PathIds(path) <= h.Keys
    ensures path != [] ==>
      && path[0].id in h && h[path[0].id] == FrameRec(path[0], PtrOf(t), ParentPtr(path[1..]))
      && PathIds(path) == {path[0].id} + Ids(path[0].sib) + PathIds(path[1..])
      && (t.Node? ==> PtrOf(path[0].sib) != PtrOf(t))
  {
    LinkedPlug(h, path, t);
    UniquePlug(path, t);
    LinkedIds(h, t, ParentPtr(path));
    PathLinkedIds(h, path, PtrOf(t));
    if path != [] && t.Node? && path[0].sib.Node? {
      assert path[0].sib.id in PathIds(path);
    }
  }

  /** The records `rotateLeft` reads and writes, read off `Linked`: the two
      rotating nodes, the subtree that changes sides, and the parent, all in
      distinct slots. */
  lemma RotLView<K>(h: Heap<K>, path: Path<K>, t: Tree<K>)
    requires t.Node? && t.right.Node?
    requires Linked(h, Plug(path, t), Null) && Unique(Plug(path, t))
    ensures t.id in h && h[t.id] == Rec(t.data, t.color, PtrOf(t.left), Ref(t.right.id), ParentPtr(path))
    ensures t.right.id in h && h[t.right.id] == Rec(t.right.data, t.right.color, PtrOf(t.right.left), PtrOf(t.right.right), Ref(t.id))
    ensures t.id != t.right.id
    ensures t.right.left.Node? ==> t.right.left.id in h && h[t.right.left.id].parent == Ref(t.right.id)
    ensures t.right.left.Node? ==> t.right.left.id != t.id && t.right.left.id != t.right.id
    ensures path != [] ==> path[0].id in h && h[path[0].id] == FrameRec(path[0], Ref(t.id), ParentPtr(path[1..]))
    ensures path != [] ==> path[0].id != t.id && path[0].id != t.right.id
    ensures path != [] && t.right.left.Node? ==> path[0].id != t.right.left.id
    ensures path != [] ==> PtrOf(path[0].sib) != Ref(t.id)
  {
    FocusView(h, path, t);
    var y := t.right;
    assert Unique(y) && Ids(y) <= Ids(t);
    if y.left.Node? {
      assert y.left.id in Ids(y);
      assert Linked(h, y, Ref(t.id)) && Linked(h, y.left, Ref(y.id));
      assert y.left.id in Ids(t);
    }
    if path != [] {
      assert path[0].id in PathIds(path);
    }
  }

  /** The records `rotateRight` reads and writes, the mirror image of `RotLView`. */
  lemma RotRView<K>(h: Heap<K>, path: Path<K>, t: Tree<K>)
    requires t.Node? && t.left.Node?
    requires Linked(h, Plug(path, t), Null) && Unique(Plug(path, t))
    ensures t.id in h && h[t.id] == Rec(t.data, t.color, Ref(t.left.id), PtrOf(t.right), ParentPtr(path))
    ensures t.left.id in h && h[t.left.id] == Rec(t.left.data, t.left.color, PtrOf(t.left.left), PtrOf(t.left.right), Ref(t.id))
    ensures t.id != t.left.id
    ensures t.left.right.Node? ==> t.left.right.id in h && h[t.left.right.id].parent == Ref(t.left.id)
    ensures t.left.right.Node? ==> t.left.right.id != t.id && t.left.right.id != t.left.id
    ensures path != [] ==> path[0].id in h && h[path[0].id] == FrameRec(path[0], Ref(t.id), ParentPtr(path[1..]))
    ensures path != [] ==> path[0].id != t.id && path[0].id != t.left.id
    ensures path != [] && t.left.right.Node? ==> path[0].id != t.left.right.id
    ensures path != [] ==> PtrOf(path[0].sib) != Ref(t.id)
  {
    FocusView(h, path, t);
    var y := t.left;
    assert Unique(y) && Ids(y) <= Ids(t);
    if y.right.Node? {
      assert y.right.id in Ids(y);
      assert Linked(h, y, Ref(t.id)) && Linked(h, y.right, Ref(y.id));
      assert y.right.id in Ids(t);
    }
    if path != [] {
      assert path[0].id in PathIds(path);
    }
  }

  /** The record of the node an empty slot hangs from, read off `Linked`. */
  lemma HoleView<K>(h: Heap<K>, path: Path<K>)
    requires path != [] && Linked(h, Plug(path, Nil), Null)
    ensures path[0].id in h && h[path[0].id] == FrameRec(path[0], Null, ParentPtr(path[1..]))
  {
    LinkedPlug(h, path, Nil);
  }

  /** The record of a focus node and of its children, read off `Linked`. */
  lemma NodeView<K>(h: Heap<K>, path: Path<K>, f: Tree<K>)
    requires f.Node? && Linked(h, Plug(path, f), Null)
    ensures f.id in h && h[f.id] == Rec(f.data, f.color, PtrOf(f.left), PtrOf(f.right), ParentPtr(path))
    ensures f.left.Node? ==> f.left.id in h
    ensures f.left.Node? ==>
      h[f.left.id] == Rec(f.left.data, f.left.color, PtrOf(f.left.left), PtrOf(f.left.right), Ref(f.id))
    ensures f.right.Node? ==> f.right.id in h
    ensures f.right.Node? ==>
      h[f.right.id] == Rec(f.right.data, f.right.color, PtrOf(f.right.left), PtrOf(f.right.right), Ref(f.id))
  {
    LinkedPlug(h, path, f);
  }

  /** The record of a focus node's parent and of its other child, read off `Linked`. */
  lemma ParentView<K>(h: Heap<K>, path: Path<K>, f: Tree<K>)
    requires path != [] && f.Node? && Linked(h, Plug(path, f), Null) && Unique(Plug(path, f))
    ensures path[0].id in h && h[path[0].id] == FrameRec(path[0], Ref(f.id), ParentPtr(path[1..]))
    ensures path[0].id != f.id && PtrOf(path[0].sib) != Ref(f.id)
    ensures path[0].sib.Node? ==> path[0].sib.id in h
    ensures path[0].sib.Node? ==>
      h[path[0].sib.id] == Rec(path[0].sib.data, path[0].sib.color, PtrOf(path[0].sib.left),
                               PtrOf(path[0].sib.right), Ref(path[0].id))
  {
    var p := Fill(path[0], f);
    assert Plug(path, f) == Plug(path[1..], p);
    UniquePlug(path[1..], p);
    LinkedPlug(h, path[1..], p);
    assert Linked(h, p, ParentPtr(path[1..]));
  }
}
