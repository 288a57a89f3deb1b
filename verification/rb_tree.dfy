/** Ex3/RBTree.c: a red-black tree over an abstract payload type, ordered by a
    compare function fixed when the tree is made.  Nodes are records in the
    tree's arena (`heap`), linked by slot numbers with `parent` back-links as
    in the C structs; the ghost `tree` is the value the links spell out, and
    the ghost `freed` log lists the payloads handed to `freeFunc`. */
module RedBlackTree {
  import opened Wrappers
  import opened Orders
  import opened RBTrees
  import opened RBLinks
  import opened RBInsert
  import opened RBWalk
  import opened RBDelete
  import opened RBDeleteWrites

  // ---------------------------------------------------------------------
  // Searching by comparison

  /** `x` belongs in the hole at the end of `path`. */
  ghost predicate Fits<K>(cmp: (K, K) -> int, path: Path<K>, x: K) {
    Between(cmp, LeftCtx(path), x, RightCtx(path))
  }

  /** A value that fits the hole is stored in the tree iff it is in the focus. */
  lemma FitsMember<K(!new)>(cmp: (K, K) -> int, path: Path<K>, f: Tree<K>, x: K)
    requires TotalOrder(cmp) && Fits(cmp, path, x)
    ensures x in InOrder(Plug(path, f)) <==> x in InOrder(f)
  {
    InOrderPlug(path, f);
    var lo, hi := LeftCtx(path), RightCtx(path);
    forall i | 0 <= i < |lo| ensures lo[i] != x {
      assert cmp(lo[i], x) < 0;
    }
    forall i | 0 <= i < |hi| ensures hi[i] != x {
      assert cmp(x, hi[i]) < 0;
    }
  }

  /** One step of the search loops: a focus payload above `x` sends the
      search left, one below sends it right, and equal means found. */
  lemma Descend<K(!new)>(cmp: (K, K) -> int, path: Path<K>, f: Tree<K>, x: K)
    requires TotalOrder(cmp) && f.Node? && Ascending(cmp, InOrder(Plug(path, f)))
    requires Fits(cmp, path, x)
    ensures cmp(f.data, x) == 0 ==> f.data == x
    ensures cmp(f.data, x) > 0 ==> Fits(cmp, [Frame(Left, f.id, f.color, f.data, f.right)] + path, x)
    ensures cmp(f.data, x) < 0 ==> Fits(cmp, [Frame(Right, f.id, f.color, f.data, f.left)] + path, x)
  {
    var lo, hi := LeftCtx(path), RightCtx(path);
    var l, d, r := InOrder(f.left), f.data, InOrder(f.right);
    RemoveSplit(path, f);
    AscendingPivot(cmp, lo + l, d, r + hi);
    if cmp(d, x) > 0 {
      DescendLeft(cmp, path, f, x);
    } else if cmp(d, x) < 0 {
      DescendRight(cmp, path, f, x);
    }
  }

  lemma DescendLeft<K(!new)>(cmp: (K, K) -> int, path: Path<K>, f: Tree<K>, x: K)
    requires TotalOrder(cmp) && f.Node? && Fits(cmp, path, x) && cmp(f.data, x) > 0
    requires Between(cmp, LeftCtx(path) + InOrder(f.left), f.data, InOrder(f.right) + RightCtx(path))
    ensures Fits(cmp, [Frame(Left, f.id, f.color, f.data, f.right)] + path, x)
  {
    var rh := InOrder(f.right) + RightCtx(path);
    CtxStepLeft(path, f);
    BetweenBelow(cmp, LeftCtx(path), x, RightCtx(path), f.data, rh);
  }

  lemma DescendRight<K(!new)>(cmp: (K, K) -> int, path: Path<K>, f: Tree<K>, x: K)
    requires TotalOrder(cmp) && f.Node? && Fits(cmp, path, x) && cmp(f.data, x) < 0
    requires Between(cmp, LeftCtx(path) + InOrder(f.left), f.data, InOrder(f.right) + RightCtx(path))
    ensures Fits(cmp, [Frame(Right, f.id, f.color, f.data, f.left)] + path, x)
  {
    var ll := LeftCtx(path) + InOrder(f.left);
    CtxStepRight(path, f);
    BetweenAbove(cmp, LeftCtx(path), x, RightCtx(path), f.data, ll);
  }

  /** The payloads around the hole one step further down. */
  lemma CtxStepLeft<K>(path: Path<K>, f: Tree<K>)
    requires f.Node?
    ensures var pl := [Frame(Left, f.id, f.color, f.data, f.right)] + path;
      LeftCtx(pl) == LeftCtx(path) && RightCtx(pl) == [f.data] + (InOrder(f.right) + RightCtx(path))
  {
    var pl := [Frame(Left, f.id, f.color, f.data, f.right)] + path;
    assert pl[1..] == path;
    assert RightCtx(pl) == ([f.data] + InOrder(f.right)) + RightCtx(path);
  }

  lemma CtxStepRight<K>(path: Path<K>, f: Tree<K>)
    requires f.Node?
    ensures var pr := [Frame(Right, f.id, f.color, f.data, f.left)] + path;
      RightCtx(pr) == RightCtx(path) && LeftCtx(pr) == (LeftCtx(path) + InOrder(f.left)) + [f.data]
  {
    var pr := [Frame(Right, f.id, f.color, f.data, f.left)] + path;
    assert pr[1..] == path;
  }

  /** Where the search loops of `RBTreeContains` and `findLocation` stop
      for `x` when started at the focus `t` below `path`: the ancestors
      passed, and the subtree reached (the node holding `x`, or an empty slot). */
  function Locate<K>(cmp: (K, K) -> int, path: Path<K>, t: Tree<K>, x: K): (Path<K>, Tree<K>)
    decreases t
  {
    match t
    case Nil => (path, Nil)
    case Node(i, c, l, d, r) =>
      if cmp(d, x) == 0 then (path, t)
      else if cmp(d, x) > 0 then Locate(cmp, [Frame(Left, i, c, d, r)] + path, l, x)
      else Locate(cmp, [Frame(Right, i, c, d, l)] + path, r, x)
  }

  /** In a search tree the search stops at the node holding `x` when there
      is one, and otherwise at the empty slot where `x` belongs. */
  lemma {:induction false} LocateFacts<K(!new)>(cmp: (K, K) -> int, path: Path<K>, t: Tree<K>, x: K)
    requires TotalOrder(cmp) && Ascending(cmp, InOrder(Plug(path, t))) && Fits(cmp, path, x)
    ensures var (p, f) := Locate(cmp, path, t, x);
      && Plug(p, f) == Plug(path, t) && Fits(cmp, p, x)
      && (f.Node? ==> f.data == x)
      && (x in InOrder(Plug(path, t)) <==> f.Node?)
    decreases t
  {
    match t
    case Nil =>
      FitsMember(cmp, path, t, x);
    case Node(i, c, l, d, r) =>
      Descend(cmp, path, t, x);
      if cmp(d, x) == 0 {
        assert x in InOrder(t);
        FitsMember(cmp, path, t, x);
      } else if cmp(d, x) > 0 {
        LocateFacts(cmp, [Frame(Left, i, c, d, r)] + path, l, x);
      } else {
        LocateFacts(cmp, [Frame(Right, i, c, d, l)] + path, r, x);
      }
  }

  /** Hanging a fresh red leaf holding `x` in the slot where `x` belongs
      keeps the payloads ascending. */
  lemma HangOrder<K(!new)>(cmp: (K, K) -> int, path: Path<K>, n: nat, x: K)
    requires TotalOrder(cmp) && Ascending(cmp, InOrder(Plug(path, Nil))) && Fits(cmp, path, x)
    ensures Ascending(cmp, InOrder(Plug(path, Node(n, Red, Nil, x, Nil))))
  {
    var lo, hi := LeftCtx(path), RightCtx(path);
    InOrderPlug(path, Nil);
    InOrderPlug(path, Node(n, Red, Nil, x, Nil));
    assert InOrder(Plug(path, Nil)) == lo + hi;
    assert InOrder(Plug(path, Node(n, Red, Nil, x, Nil))) == lo + [x] + hi;
    AscendingInsert(cmp, lo, x, hi);
  }

  /** Hanging a leaf holding `x` adds `x` once to the payloads and its slot to the slots. */
  lemma HangCount<K>(path: Path<K>, n: nat, x: K)
    ensures var s1, s2 := InOrder(Plug(path, Nil)), InOrder(Plug(path, Node(n, Red, Nil, x, Nil)));
      && (forall y :: y in s2 <==> y in s1 || y == x)
      && |s2| == |s1| + 1
    ensures Ids(Plug(path, Node(n, Red, Nil, x, Nil))) == Ids(Plug(path, Nil)) + {n}
  {
    var leaf := Node(n, Red, Nil, x, Nil);
    var lo, hi := LeftCtx(path), RightCtx(path);
    var s1, s2 := InOrder(Plug(path, Nil)), InOrder(Plug(path, leaf));
    assert s1 == lo + hi by { InOrderPlug(path, Nil); }
    assert s2 == lo + [x] + hi by { InOrderPlug(path, leaf); }
    IdsPlug(path, Nil);
    IdsPlug(path, leaf);
  }

  /** The hole a fitting value belongs in is on the side the comparison with
      the hole's parent picks. */
  lemma FitsSide<K(!new)>(cmp: (K, K) -> int, path: Path<K>, x: K)
    requires TotalOrder(cmp) && path != [] && Fits(cmp, path, x)
    ensures path[0].dir == Left <==> cmp(path[0].data, x) > 0
  {
    if path[0].dir == Left {
      assert RightCtx(path)[0] == path[0].data;
    } else {
      assert LeftCtx(path)[|LeftCtx(path)| - 1] == path[0].data;
    }
  }

  /** The arena `h` links exactly the tree `t`, in distinct slots below `next`. */
  ghost predicate ArenaOf<K>(h: Heap<K>, t: Tree<K>, next: nat) {
    Unique(t) && Linked(h, t, Null) && forall id | id in h :: id < next
  }

  /** Removing three sets of keys one after the other. */
  lemma MinusThree<K>(h: Heap<K>, a: set<nat>, b: set<nat>, n: nat)
    ensures h - a - b - {n} == h - (a + b + {n})
  {
  }

  /** `t` is a red-black tree whose payloads ascend under the total order `cmp`. */
  ghost predicate SearchRB<K(!new)>(cmp: (K, K) -> int, t: Tree<K>) {
    TotalOrder(cmp) && IsRB(t) && Ascending(cmp, InOrder(t))
  }

  // ---------------------------------------------------------------------
  // The tree object

  class RBTree<K(!new)> {
    /** The arena: slot number to node record (the C heap, for this tree's nodes). */
    var heap: Heap<K>
    var root: Ptr
    var size: nat
    /** The next slot `malloc` hands out. */
    var nextId: nat
    ghost var tree: Tree<K>
    /** The payloads passed to `freeFunc`, in order. */
    ghost var freed: seq<K>
    /** Set once `freeRBTree` has given the tree object itself back. */
    ghost var released: bool
    const cmp: (K, K) -> int

    /** The arena links exactly the ghost tree, with distinct slots below `nextId`. */
    ghost predicate Shaped()
      reads this
    {
      ArenaOf(heap, tree, nextId)
    }

    /** Between public calls: no other records, `root` and `size` agree, and
        the tree is a red-black search tree under `cmp`. */
    ghost predicate Valid()
      reads this
    {
      && Shaped() && heap.Keys == Ids(tree) && root == PtrOf(tree) && size == |InOrder(tree)|
      && SearchRB(cmp, tree)
    }

    /** The payloads stored, in ascending order. */
    ghost function Keys(): seq<K>
      reads this
    {
      InOrder(tree)
    }

    /** `newRBTree`: an empty tree with the given compare function. */
    constructor (compFunc: (K, K) -> int)
      requires TotalOrder(compFunc)
      ensures Valid() && cmp == compFunc
      ensures root == Null && size == 0 && Keys() == [] && freed == [] && !released
    {
      cmp := compFunc;
      heap := map[];
      root := Null;
      size := 0;
      nextId := 0;
      tree := Nil;
      freed := [];
      released := false;
    }

    /** `initNode`: a fresh red record with no links. */
    method InitNode(x: K) returns (n: nat)
      requires Shaped()
      modifies this
      ensures Shaped() && n !in old(heap) && n !in Ids(tree)
      ensures heap == old(heap)[n := Rec(x, Red, Null, Null, Null)]
      ensures tree == old(tree) && root == old(root) && size == old(size) && freed == old(freed)
    {
      LinkedIds(heap, tree, Null);
      n := nextId;
      LinkedFrame(heap, heap[n := Rec(x, Red, Null, Null, Null)], tree, Null);
      heap := heap[n := Rec(x, Red, Null, Null, Null)];
      nextId := nextId + 1;
    }

    /** `hangNode`: the fresh record `n` becomes the child, on `x`'s side, of
        the node `findLocation` returned (or the root of an empty tree). */
    method HangNode(parent: Ptr, n: nat, ghost path: Path<K>)
      requires Shaped() && TotalOrder(cmp)
      requires tree == Plug(path, Nil) && parent == ParentPtr(path)
      requires n in heap && n !in Ids(tree) && heap[n] == Rec(heap[n].data, Red, Null, Null, Null)
      requires Fits(cmp, path, heap[n].data)
      modifies this
      ensures Shaped() && tree == Plug(path, Node(n, Red, Nil, old(heap[n].data), Nil))
      ensures heap.Keys == old(heap.Keys)
      ensures root == (if parent == Null then Ref(n) else old(root))
      ensures size == old(size) && freed == old(freed)
    {
      ghost var h0 := heap;
      ghost var x := heap[n].data;
      ghost var hold := h0 - {n};
      LinkedIds(h0, tree, Null);
      LinkedFrame(h0, hold, tree, Null);
      if parent == Null {
        root := Ref(n);
      } else {
        HoleView(h0, path);
        var h := heap;
        h := h[n := h[n].(parent := parent)];
        var p := parent.id;
        if cmp(h[p].data, h[n].data) > 0 {
          h := h[p := h[p].(left := Ref(n))];
        } else {
          h := h[p := h[p].(right := Ref(n))];
        }
        heap := h;
        FitsSide(cmp, path, x);
      }
      LinkedHang(hold, heap, path, n, x);
      tree := Plug(path, Node(n, Red, Nil, x, Nil));
    }
  
    /** `initNode` then `hangNode`, as `insertToRBTree` calls them: a red
        leaf holding `x` fills the empty slot where the search for `x`
        ended, which keeps the order and starts the red-black repair. */
    method AddLeaf(parent: Ptr, x: K, ghost path: Path<K>) returns (n: nat)
      requires Shaped() && heap.Keys == Ids(tree) && SearchRB(cmp, tree)
      requires tree == Plug(path, Nil) && parent == ParentPtr(path) && Fits(cmp, path, x)
      modifies this
      ensures Shaped() && tree == Plug(path, Node(n, Red, Nil, x, Nil)) && heap.Keys == Ids(tree) && n in heap
      ensures InsInv(path, Node(n, Red, Nil, x, Nil)) && Ascending(cmp, InOrder(tree))
      ensures forall y :: y in InOrder(tree) <==> y in old(InOrder(tree)) || y == x
      ensures |InOrder(tree)| == |old(InOrder(tree))| + 1
      ensures size == old(size) && freed == old(freed)
    {
      ghost var h0 := heap;
      n := InitNode(x);
      HangNode(parent, n, path);
      HangOrder(cmp, path, n, x);
      HangCount(path, n, x);
      InsStart(path, n, x);
    }

    /** `rotateLeft`: the right child of `x` takes its place; the in-order
        sequence is kept and every child and `parent` link stays mutual. */
    method RotateLeft(x: nat, ghost path: Path<K>, ghost t: Tree<K>)
      requires Shaped() && tree == Plug(path, t) && t.Node? && t.id == x && t.right.Node?
      modifies this
      ensures Shaped() && tree == Plug(path, RotL(t))
      ensures InOrder(tree) == old(InOrder(tree)) && Ids(tree) == old(Ids(tree))
      ensures heap.Keys == old(heap.Keys)
      ensures root == old(root) && size == old(size) && freed == old(freed)
    {
      ghost var h0 := heap;
      RotLView(heap, path, t);
      // The writes go to a copy of the arena, which is stored back at the end.
      // `rightChild` is not NULL: every caller rotates towards an existing child.
      var h := heap;
      var rightChild := h[x].right;
      var parent := h[x].parent;
      var y := rightChild.id;
      h := h[x := h[x].(right := h[y].left)];
      h := h[y := h[y].(left := Ref(x))];
      h := h[x := h[x].(parent := rightChild)];
      if h[x].right != Null {
        var m := h[x].right.id;
        h := h[m := h[m].(parent := Ref(x))];
      }
      if parent != Null {
        if h[parent.id].left == Ref(x) {
          h := h[parent.id := h[parent.id].(left := rightChild)];
        } else if h[parent.id].right == Ref(x) {
          h := h[parent.id := h[parent.id].(right := rightChild)];
        }
      }
      h := h[y := h[y].(parent := parent)];
      heap := h;
      LinkedRotL(h0, heap, path, t);
      RotPlugFacts(path, t);
      tree := Plug(path, RotL(t));
    }

    /** `rotateRight`: the mirror image of `RotateLeft`. */
    method RotateRight(x: nat, ghost path: Path<K>, ghost t: Tree<K>)
      requires Shaped() && tree == Plug(path, t) && t.Node? && t.id == x && t.left.Node?
      modifies this
      ensures Shaped() && tree == Plug(path, RotR(t))
      ensures InOrder(tree) == old(InOrder(tree)) && Ids(tree) == old(Ids(tree))
      ensures heap.Keys == old(heap.Keys)
      ensures root == old(root) && size == old(size) && freed == old(freed)
    {
      ghost var h0 := heap;
      RotRView(heap, path, t);
      // The writes go to a copy of the arena, which is stored back at the end.
      // `leftChild` is not NULL: every caller rotates towards an existing child.
      var h := heap;
      var leftChild := h[x].left;
      var parent := h[x].parent;
      var y := leftChild.id;
      h := h[x := h[x].(left := h[y].right)];
      h := h[y := h[y].(right := Ref(x))];
      h := h[x := h[x].(parent := leftChild)];
      if h[x].left != Null {
        var m := h[x].left.id;
        h := h[m := h[m].(parent := Ref(x))];
      }
      if parent != Null {
        if h[parent.id].left == Ref(x) {
          h := h[parent.id := h[parent.id].(left := leftChild)];
        } else if h[parent.id].right == Ref(x) {
          h := h[parent.id := h[parent.id].(right := leftChild)];
        }
      }
      h := h[y := h[y].(parent := parent)];
      heap := h;
      LinkedRotR(h0, heap, path, t);
      RotPlugFacts(path, t);
      tree := Plug(path, RotR(t));
    }

    /** `node->color = c`, the field write every recolouring is made of. */
    method Paint(id: nat, c: Color)
      requires Shaped() && id in Ids(tree)
      modifies this
      ensures Shaped() && tree == SetColor(old(tree), id, c)
      ensures id in old(heap) && heap == old(heap)[id := old(heap[id]).(color := c)] && heap.Keys == old(heap.Keys)
      ensures InOrder(tree) == old(InOrder(tree)) && Ids(tree) == old(Ids(tree))
      ensures root == old(root) && size == old(size) && freed == old(freed)
    {
      LinkedSetColor(heap, tree, Null, id, c);
      SetColorShape(tree, id, c);
      heap := heap[id := heap[id].(color := c)];
      tree := SetColor(tree, id, c);
    }

    // ---------------------------------------------------------------------
    // Insertion repairs

    /** `getUncle`: the grandparent's child that is not the parent. */
    function GetUncle(parent: nat, grandParent: nat, ghost path: Path<K>, ghost f: Tree<K>): (u: Ptr)
      reads this
      requires Shaped() && tree == Plug(path, f) && f.Node? && |path| >= 2
      requires parent == path[0].id && grandParent == path[1].id
      ensures u == PtrOf(path[1].sib)
    {
      ParentView(heap, path[1..], Fill(path[0], f));
      if heap[grandParent].right == Ref(parent) then heap[grandParent].left else heap[grandParent].right
    }

    /** `redFatherRedUncle`: parent and uncle turn black, the grandparent red. */
    method RedFatherRedUncle(parent: nat, grandParent: nat, uncle: nat, ghost path: Path<K>, ghost f: Tree<K>)
      requires Shaped() && tree == Plug(path, f) && f.Node? && |path| >= 2 && path[1].sib.Node?
      requires parent == path[0].id && grandParent == path[1].id && uncle == path[1].sib.id
      modifies this
      ensures Shaped() && tree == Plug(path[2..], RedUncleLift(path, f))
      ensures InOrder(tree) == old(InOrder(tree)) && Ids(tree) == old(Ids(tree)) && heap.Keys == old(heap.Keys)
      ensures root == old(root) && size == old(size) && freed == old(freed)
    {
      IdsPlug(path, f);
      assert path[1..][0] == path[1];
      assert {parent, grandParent, uncle} <= PathIds(path);
      Paint(parent, Black);
      Paint(uncle, Black);
      Paint(grandParent, Red);
      RedUncleWrites(path, f);
    }

    /** `secondStep`: on a straight line focus-parent-grandparent, rotate the
        grandparent towards the parent, then parent black and grandparent red. */
    method SecondStep(n: nat, ghost path: Path<K>, ghost f: Tree<K>)
      requires Shaped() && tree == Plug(path, f) && f.Node? && f.id == n
      requires |path| >= 2 && path[0].dir == path[1].dir
      modifies this
      ensures Shaped() && tree == Plug(path[2..], InsRotated(path, f))
      ensures InOrder(tree) == old(InOrder(tree)) && Ids(tree) == old(Ids(tree)) && heap.Keys == old(heap.Keys)
      ensures root == old(root) && size == old(size) && freed == old(freed)
    {
      NodeView(heap, path, f);
      ParentView(heap, path, f);
      ParentView(heap, path[1..], Fill(path[0], f));
      InsRotateWrites(path, f);
      ghost var G := Fill(path[1], Fill(path[0], f));
      var parent := heap[n].parent.id;
      var grandParent := heap[parent].parent.id;
      if Ref(n) == heap[parent].left {
        RotateRight(grandParent, path[2..], G);
      } else {
        RotateLeft(grandParent, path[2..], G);
      }
      IdsPlug(path, f);
      assert path[1..][0] == path[1];
      Paint(parent, Black);
      Paint(grandParent, Red);
    }

    /** `redFatherBlackUncle`: a zig-zag is first turned into a straight line
        by a rotation at the parent; `secondStep` then finishes the repair. */
    method RedFatherBlackUncle(n: nat, parent: nat, grandParent: nat, ghost path: Path<K>, ghost f: Tree<K>)
      requires Shaped() && tree == Plug(path, f) && InsInv(path, f) && f.id == n
      requires |path| >= 2 && path[0].color == Red && ColorOf(path[1].sib) == Black
      requires parent == path[0].id && grandParent == path[1].id
      modifies this
      ensures Shaped() && IsRB(tree)
      ensures InOrder(tree) == old(InOrder(tree)) && Ids(tree) == old(Ids(tree)) && heap.Keys == old(heap.Keys)
      ensures root == old(root) && size == old(size) && freed == old(freed)
    {
      ParentView(heap, path, f);
      ParentView(heap, path[1..], Fill(path[0], f));
      var node := n;
      ghost var path2, f2 := path, f;
      if Ref(n) == heap[parent].right && Ref(parent) == heap[grandParent].left {
        InsZigZagCase(path, f);
        ghost var P := Fill(path[0], f);
        RotateLeft(parent, path[1..], P);
        NodeView(heap, path[1..], RotL(P));
        node := heap[node].left.id;
        path2 := [Frame(path[1].dir, f.id, Red, f.data, f.right)] + path[1..];
        f2 := RotL(P).left;
      } else if Ref(n) == heap[parent].left && Ref(parent) == heap[grandParent].right {
        InsZigZagCase(path, f);
        ghost var P := Fill(path[0], f);
        RotateRight(parent, path[1..], P);
        NodeView(heap, path[1..], RotR(P));
        node := heap[node].right.id;
        path2 := [Frame(path[1].dir, f.id, Red, f.data, f.left)] + path[1..];
        f2 := RotR(P).right;
      }
      SecondStep(node, path2, f2);
      InsRotateCase(path2, f2);
    }

    /** `insertRepairs`: restores the red-black rules after a red node is
        hung, climbing two levels per red uncle. */
    method InsertRepairs(parent: Ptr, n: nat, ghost path: Path<K>, ghost f: Tree<K>)
      requires Shaped() && tree == Plug(path, f) && InsInv(path, f) && f.id == n && parent == ParentPtr(path)
      modifies this
      ensures Shaped() && IsRB(tree)
      ensures InOrder(tree) == old(InOrder(tree)) && Ids(tree) == old(Ids(tree)) && heap.Keys == old(heap.Keys)
      ensures root == old(root) && size == old(size) && freed == old(freed)
      decreases |path|
    {
      if parent == Null {
        InsRootCase(f);
        Paint(n, Black);
      } else {
        ParentView(heap, path, f);
        if heap[parent.id].color == Black {
          InsBlackParentCase(path, f);
        } else {
          InsRedParent(path, f);
          ParentView(heap, path[1..], Fill(path[0], f));
          var p := parent.id;
          var grandParent := heap[p].parent.id;
          var uncle := GetUncle(p, grandParent, path, f);
          if uncle == Null || heap[uncle.id].color == Black {
            RedFatherBlackUncle(n, p, grandParent, path, f);
          } else {
            InsRedUncleCase(path, f);
            RedFatherRedUncle(p, grandParent, uncle.id, path, f);
            ghost var g := RedUncleLift(path, f);
            NodeView(heap, path[2..], g);
            InsertRepairs(heap[grandParent].parent, grandParent, path[2..], g);
          }
        }
      }
    }

    /** `findNewRoot`: follows `parent` links from a node to the root. */
    method FindNewRoot(n: nat) returns (r: nat)
      requires Shaped() && n in Ids(tree)
      ensures tree.Node? && r == tree.id
    {
      SubAtPathTo(tree, n);
      ghost var path := PathTo(tree, n);
      ghost var f := SubAt(tree, n);
      r := n;
      NodeView(heap, path, f);
      while heap[r].parent != Null
        invariant tree == Plug(path, f) && f.Node? && f.id == r
        invariant r in heap && heap[r].parent == ParentPtr(path)
        decreases |path|
      {
        r := heap[r].parent.id;
        f := Fill(path[0], f);
        path := path[1..];
        NodeView(heap, path, f);
      }
    }

    /** `forEachRBTreeHelper`: visits the subtree at `cur` as `Walk` says. */
    method ForEachHelper<S>(cur: Ptr, func: (K, S) -> (int, S), args: S, ghost path: Path<K>, ghost f: Tree<K>)
      returns (res: int, out: S)
      requires Shaped() && tree == Plug(path, f) && cur == PtrOf(f)
      ensures (res, out) == Walk(func, f, args)
      decreases f
    {
      if cur == Null {
        return 0, args;
      }
      NodeView(heap, path, f);
      var n := cur.id;
      out := args;
      if heap[n].left != Null {
        var r;
        r, out := ForEachHelper(heap[n].left, func, out, [Frame(Left, n, f.color, f.data, f.right)] + path, f.left);
        if r == 0 {
          return 0, out;
        }
      }
      var step := func(heap[n].data, out);
      var val := step.0;
      out := step.1;
      if heap[n].right != Null {
        var r;
        r, out := ForEachHelper(heap[n].right, func, out, [Frame(Right, n, f.color, f.data, f.left)] + path, f.right);
        if r == 0 {
          return 0, out;
        }
      }
      return val, out;
    }

    // ---------------------------------------------------------------------
    // Deletion

    /** `node->data = x`, the write `changeWithSuccessor` is made of. */
    method Store(id: nat, x: K)
      requires Shaped() && id in Ids(tree)
      modifies this
      ensures Shaped() && tree == SetData(old(tree), id, x)
      ensures id in old(heap) && heap == old(heap)[id := old(heap[id]).(data := x)]
      ensures Ids(tree) == old(Ids(tree)) && IsRB(tree) == old(IsRB(tree))
      ensures root == old(root) && size == old(size) && freed == old(freed)
    {
      LinkedSetData(heap, tree, Null, id, x);
      SetDataShape(tree, id, x);
      heap := heap[id := heap[id].(data := x)];
      tree := SetData(tree, id, x);
    }

    /** `findSuccessor`: the leftmost node of the subtree at `n`. */
    function FindSuccessor(n: nat, ghost path: Path<K>, ghost f: Tree<K>): (s: nat)
      reads this
      requires Shaped() && tree == Plug(path, f) && f.Node? && f.id == n
      ensures s == Leftmost(f).1.id
      decreases f
    {
      NodeView(heap, path, f);
      if heap[n].left == Null then n
      else FindSuccessor(heap[n].left.id, [Frame(Left, n, f.color, f.data, f.right)] + path, f.left)
    }

    /** `changeWithSuccessor`: a node with two children swaps payloads with
        the leftmost node of its right subtree, which is returned: that node
        now holds the payload being deleted, has no left child, and the
        payloads around it are those that were around the original node. */
    method ChangeWithSuccessor(del: nat, ghost path: Path<K>, ghost f: Tree<K>)
      returns (succ: nat, ghost down: Path<K>, ghost s: Tree<K>)
      requires Shaped() && tree == Plug(path, f) && f.Node? && f.id == del && f.right.Node?
      modifies this
      ensures Shaped() && tree == Plug(down, s) && s.Node? && s.id == succ && s.left.Nil? && s.data == f.data
      ensures LeftCtx(down) + InOrder(s.right) + RightCtx(down)
              == LeftCtx(path) + InOrder(f.left) + InOrder(f.right) + RightCtx(path)
      ensures Ids(tree) == old(Ids(tree)) && IsRB(tree) == old(IsRB(tree)) && heap.Keys == old(heap.Keys)
      ensures PtrOf(tree) == old(PtrOf(tree))
      ensures root == old(root) && size == old(size) && freed == old(freed)
    {
      NodeView(heap, path, f);
      ghost var (q, m) := Leftmost(f.right);
      LeftmostFacts(f.right);
      SwapWithSuccessor(path, f);
      SuccessorCtx(path, f);
      ghost var fr := Frame(Right, del, f.color, f.data, f.left);
      PlugAppend(q + [fr], path, m);
      PlugAppend(q, [fr], m);
      NodeView(heap, q + [fr] + path, m);
      IdsPlug(path, f);
      succ := FindSuccessor(heap[del].right.id, [fr] + path, f.right);
      var temp := heap[del].data;
      Store(del, heap[succ].data);
      Store(succ, temp);
      down := q + [Frame(Right, f.id, f.color, m.data, f.left)] + path;
      s := m.(data := f.data);
    }

    /** `findChild`: the left child if there is one, else the right one. */
    function FindChild(n: nat, ghost path: Path<K>, ghost f: Tree<K>): (c: Ptr)
      reads this
      requires Shaped() && tree == Plug(path, f) && f.Node? && f.id == n
      ensures c == PtrOf(OnlyChild(f))
    {
      NodeView(heap, path, f);
      if heap[n].left != Null then heap[n].left
      else if heap[n].right != Null then heap[n].right
      else Null
    }

    /** `findBrother`: the parent's other child, or null at the root. */
    function FindBrother(n: nat, ghost path: Path<K>, ghost f: Tree<K>): (b: Ptr)
      reads this
      requires Shaped() && tree == Plug(path, f) && f.Node? && f.id == n
      ensures b == if path == [] then Null else PtrOf(path[0].sib)
    {
      NodeView(heap, path, f);
      if heap[n].parent == Null then Null
      else
        ParentView(heap, path, f);
        var p := heap[n].parent.id;
        if heap[p].left == Ref(n) then heap[p].right else heap[p].left
    }

    /** `findFarChild`: the brother's child away from the node. */
    function FindFarChild(del: nat, brother: nat, ghost path: Path<K>, ghost f: Tree<K>): (c: Ptr)
      reads this
      requires Shaped() && tree == Plug(path, f) && f.Node? && f.id == del
      requires path != [] && path[0].sib.Node? && brother == path[0].sib.id
      ensures c == PtrOf(Far(path[0]))
    {
      NodeView(heap, path, f);
      ParentView(heap, path, f);
      if heap[heap[del].parent.id].right == Ref(del) then heap[brother].left else heap[brother].right
    }

    /** `findCloseChild`: the brother's child on the node's side. */
    function FindCloseChild(del: nat, brother: nat, ghost path: Path<K>, ghost f: Tree<K>): (c: Ptr)
      reads this
      requires Shaped() && tree == Plug(path, f) && f.Node? && f.id == del
      requires path != [] && path[0].sib.Node? && brother == path[0].sib.id
      ensures c == PtrOf(Close(path[0]))
    {
      NodeView(heap, path, f);
      ParentView(heap, path, f);
      if heap[heap[del].parent.id].right == Ref(del) then heap[brother].right else heap[brother].left
    }

    /** `deleteCase1`: the parent forgets the node, a leaf. */
    method DeleteCase1(del: nat, parent: nat, ghost path: Path<K>, ghost d: Tree<K>)
      requires Shaped() && tree == Plug(path, d) && d.Node? && d.id == del && d.left.Nil? && d.right.Nil?
      requires path != [] && parent == path[0].id
      modifies this
      ensures Shaped() && tree == Plug(path, Nil)
      ensures heap.Keys == old(heap.Keys) && del in old(heap) && heap[del] == old(heap[del])
      ensures root == old(root) && size == old(size) && freed == old(freed)
    {
      ghost var h0 := heap;
      ParentView(heap, path, d);
      NodeView(heap, path, d);
      if heap[parent].left == Ref(del) {
        heap := heap[parent := heap[parent].(left := Null)];
      } else {
        heap := heap[parent := heap[parent].(right := Null)];
      }
      LinkedSplice(h0, heap, path, d, Nil);
      tree := Plug(path, Nil);
    }

    /** `deleteCase2`: the node's only child takes its place under the
        parent and turns black. */
    method DeleteCase2(del: nat, child: nat, parent: nat, ghost path: Path<K>, ghost d: Tree<K>)
      requires Shaped() && tree == Plug(path, d) && d.Node? && d.id == del && (d.left.Nil? || d.right.Nil?)
      requires OnlyChild(d).Node? && child == OnlyChild(d).id
      requires path != [] && parent == path[0].id
      modifies this
      ensures Shaped() && tree == Plug(path, OnlyChild(d).(color := Black))
      ensures heap.Keys == old(heap.Keys) && del in old(heap) && heap[del] == old(heap[del])
      ensures root == old(root) && size == old(size) && freed == old(freed)
    {
      ghost var h0 := heap;
      ghost var c := OnlyChild(d);
      assert && parent in h0 && h0[parent] == FrameRec(path[0], Ref(del), ParentPtr(path[1..]))
             && PtrOf(path[0].sib) != Ref(del) && child in h0 && del in h0
             && child != parent && child != del && parent != del by {
        ParentView(heap, path, d);
        NodeView(heap, path, d);
        UniquePlug(path, d);
        IdsPlug(path, d);
        assert child in Ids(d) && parent in PathIds(path);
      }
      var h := heap;
      if h[parent].right == Ref(del) {
        h := h[parent := h[parent].(right := Ref(child))];
        h := h[child := h[child].(parent := Ref(parent))];
      } else {
        h := h[parent := h[parent].(left := Ref(child))];
        h := h[child := h[child].(parent := Ref(parent))];
      }
      heap := h;
      assert Linked(heap, Plug(path, c), Null) && Unique(Plug(path, c)) by {
        LinkedSplice(h0, heap, path, d, c);
      }
      tree := Plug(path, c);
      assert child in Ids(tree) && SetColor(tree, child, Black) == Plug(path, c.(color := Black)) by {
        IdsPlug(path, c);
        UniquePlug(path, c);
        SetColorPlug(path, c, child, Black);
      }
      Paint(child, Black);
    }

    /** `deleteCase3B1`: the parent turns black and the brother red. */
    method DeleteCase3B1(parent: nat, brother: nat, ghost path: Path<K>, ghost f: Tree<K>)
      requires Shaped() && tree == Plug(path, f) && path != [] && path[0].sib.Node?
      requires parent == path[0].id && brother == path[0].sib.id
      modifies this
      ensures Shaped() && tree == Plug(Recolor3B(path), f)
      ensures heap.Keys == old(heap.Keys) && root == old(root) && size == old(size) && freed == old(freed)
    {
      IdsPlug(path, f);
      Del3BWrites(path, f);
      Paint(parent, Black);
      Paint(brother, Red);
    }

    /** `deleteCase3B2`: the brother turns red and the repair moves up to
        the (black) parent, one black frame higher. */
    method DeleteCase3B2(parent: nat, brother: nat, ghost path: Path<K>, ghost f: Tree<K>, ghost g: Tree<K>)
      returns (ghost path': Path<K>)
      requires Shaped() && tree == Plug(path, f) && f.Node? && DelInv(path, g)
      requires path != [] && path[0].sib.Node? && path[0].sib.color == Black && path[0].color == Black
      requires ColorOf(path[0].sib.left) == Black && ColorOf(path[0].sib.right) == Black
      requires parent == path[0].id && brother == path[0].sib.id
      modifies this
      ensures Shaped() && tree == Plug(path', f) && IsRB(Plug(path', g)) && SameContext(path', path)
      ensures heap.Keys == old(heap.Keys) && root == old(root) && size == old(size) && freed == old(freed)
      decreases BlackFrames(path), Rank(path), 0
    {
      IdsPlug(path, f);
      Del3BWrites(path, f);
      Del3B2Case(path, g);
      Paint(brother, Red);
      ghost var r := Recolor3B(path);
      ghost var up := Fill(r[0], f);
      assert tree == Plug(path[1..], up);
      NodeView(heap, path[1..], up);
      ghost var path2 := DeleteCase3(parent, heap[parent].parent, FindBrother(parent, path[1..], up),
                                     path[1..], up, Fill(r[0], g));
      path' := [r[0]] + path2;
      assert path'[1..] == path2;
      SameContextCons(r[0], path2, path[1..]);
    }

    /** `deleteCase3C`: a red brother turns black, the parent red, and the
        parent is rotated towards the node; the node then has a black brother. */
    method DeleteCase3C(del: nat, parent: nat, brother: nat, ghost path: Path<K>, ghost f: Tree<K>, ghost g: Tree<K>)
      returns (ghost path': Path<K>)
      requires Shaped() && tree == Plug(path, f) && f.Node? && f.id == del && DelInv(path, g)
      requires path != [] && path[0].sib.Node? && path[0].sib.color == Red
      requires parent == path[0].id && brother == path[0].sib.id
      modifies this
      ensures Shaped() && tree == Plug(path', f) && IsRB(Plug(path', g)) && SameContext(path', path)
      ensures heap.Keys == old(heap.Keys) && root == old(root) && size == old(size) && freed == old(freed)
      decreases BlackFrames(path), Rank(path), 0
    {
      ghost var p, b := path[0], path[0].sib;
      IdsPlug(path, f);
      Del3CWrites(path, f);
      Del3CCase(path, g);
      ParentView(heap, path, f);
      Paint(brother, Black);
      Paint(parent, Red);
      ghost var top := Fill(p.(color := Red, sib := b.(color := Black)), f);
      assert tree == Plug(path[1..], top);
      if heap[parent].left == Ref(del) {
        RotateLeft(parent, path[1..], top);
      } else {
        RotateRight(parent, path[1..], top);
      }
      ghost var r := Rotate3C(path);
      NodeView(heap, r, f);
      path' := DeleteCase3(del, Ref(parent), FindBrother(del, r, f), r, f, g);
    }

    /** `deleteCase3D`: the near child turns black, the brother red, and the
        brother is rotated away from the node; the far child is then red. */
    method DeleteCase3D(del: nat, parent: nat, brother: nat, closeChild: nat,
                        ghost path: Path<K>, ghost f: Tree<K>, ghost g: Tree<K>)
      returns (ghost path': Path<K>)
      requires Shaped() && tree == Plug(path, f) && f.Node? && f.id == del && DelInv(path, g)
      requires path != [] && path[0].sib.Node? && path[0].sib.color == Black
      requires ColorOf(Close(path[0])) == Red && ColorOf(Far(path[0])) == Black
      requires parent == path[0].id && brother == path[0].sib.id && closeChild == Close(path[0]).id
      modifies this
      ensures Shaped() && tree == Plug(path', f) && IsRB(Plug(path', g)) && SameContext(path', path)
      ensures heap.Keys == old(heap.Keys) && root == old(root) && size == old(size) && freed == old(freed)
      decreases BlackFrames(path), Rank(path), 0
    {
      ghost var p, b, c := path[0], path[0].sib, Close(path[0]);
      IdsPlug(path, f);
      assert closeChild in Ids(b);
      Del3DWrites(path, f);
      Del3DCase(path, g);
      Paint(closeChild, Black);
      Paint(brother, Red);
      ghost var up := [Flip(p, f)] + path[1..];
      ghost var nb := SetColor(SetColor(b, c.id, Black), b.id, Red);
      assert tree == Plug(up, nb);
      NodeView(heap, up, nb);
      if heap[brother].left == Ref(closeChild) {
        RotateRight(brother, up, nb);
      } else {
        RotateLeft(brother, up, nb);
      }
      ghost var r := Rotate3D(path);
      NodeView(heap, r, f);
      path' := DeleteCase3(del, Ref(parent), FindBrother(del, r, f), r, f, g);
    }

    /** `deleteCase3E`: brother and parent swap colours, the parent is
        rotated towards the node and the far child turns black. */
    method DeleteCase3E(del: nat, parent: nat, brother: nat, farChild: nat, ghost path: Path<K>, ghost f: Tree<K>)
      requires Shaped() && tree == Plug(path, f) && f.Node? && f.id == del
      requires path != [] && path[0].sib.Node? && path[0].sib.color == Black && Far(path[0]).Node?
      requires parent == path[0].id && brother == path[0].sib.id && farChild == Far(path[0]).id
      modifies this
      ensures Shaped() && tree == Plug(Rotate3E(path), f)
      ensures heap.Keys == old(heap.Keys) && root == old(root) && size == old(size) && freed == old(freed)
    {
      ghost var p, b := path[0], path[0].sib;
      IdsPlug(path, f);
      Del3EWrites(path, f);
      ParentView(heap, path, f);
      var temp := heap[brother].color;
      Paint(brother, heap[parent].color);
      Paint(parent, temp);
      ghost var top := Fill(p.(color := Black, sib := b.(color := p.color)), f);
      assert tree == Plug(path[1..], top);
      if heap[parent].right == Ref(del) {
        RotateRight(parent, path[1..], top);
      } else {
        RotateLeft(parent, path[1..], top);
      }
      Paint(farChild, Black);
    }

    /** `deleteCase3`: the repair above a black leaf about to be unlinked.
        Against the tree without the leaf (`g` in the place of the focus `f`),
        the path ends red-black; the leaf's slot, the payloads around it and
        the slots above it stay as they were. */
    method DeleteCase3(del: nat, parent: Ptr, brother: Ptr, ghost path: Path<K>, ghost f: Tree<K>, ghost g: Tree<K>)
      returns (ghost path': Path<K>)
      requires Shaped() && tree == Plug(path, f) && f.Node? && f.id == del && DelInv(path, g)
      requires parent == ParentPtr(path) && brother == (if path == [] then Null else PtrOf(path[0].sib))
      modifies this
      ensures Shaped() && tree == Plug(path', f) && IsRB(Plug(path', g)) && SameContext(path', path)
      ensures heap.Keys == old(heap.Keys) && root == old(root) && size == old(size) && freed == old(freed)
      decreases BlackFrames(path), Rank(path), 1
    {
      assert del in heap && heap[del].parent == ParentPtr(path) by {
        NodeView(heap, path, f);
      }
      if heap[del].parent == Null {
        Del3RootCase(g);
        return path;
      }
      DelBrother(path, g);
      ghost var b := path[0].sib;
      var bro := brother.id;
      assert && bro in heap && heap[bro].color == b.color
             && heap[bro].left == PtrOf(b.left) && heap[bro].right == PtrOf(b.right)
             && (b.left.Node? ==> b.left.id in heap && heap[b.left.id].color == b.left.color)
             && (b.right.Node? ==> b.right.id in heap && heap[b.right.id].color == b.right.color)
             && path[0].id in heap && heap[path[0].id].color == path[0].color by {
        ParentView(heap, path, f);
        assert tree == Plug([Flip(path[0], f)] + path[1..], b);
        NodeView(heap, [Flip(path[0], f)] + path[1..], b);
      }
      var par := parent.id;
      if heap[bro].color == Black && (heap[bro].left == Null || heap[heap[bro].left.id].color == Black)
         && (heap[bro].right == Null || heap[heap[bro].right.id].color == Black)
      {
        if heap[par].color == Red {
          DeleteCase3B1(par, bro, path, f);
          Del3B1Case(path, g);
          path' := Recolor3B(path);
        } else {
          path' := DeleteCase3B2(par, bro, path, f, g);
        }
      } else if heap[bro].color == Red {
        path' := DeleteCase3C(del, par, bro, path, f, g);
      } else {
        var farChild := FindFarChild(del, bro, path, f);
        var closeChild := FindCloseChild(del, bro, path, f);
        if heap[bro].color == Black && (closeChild != Null && heap[closeChild.id].color == Red)
           && (farChild == Null || heap[farChild.id].color == Black)
        {
          path' := DeleteCase3D(del, par, bro, closeChild.id, path, f, g);
        } else {
          DeleteCase3E(del, par, bro, farChild.id, path, f);
          Del3ECase(path, g);
          path' := Rotate3E(path);
        }
      }
    }

    /** The third branch of `deleteCases`: `deleteCase3` on a black leaf,
        then the parent's link to the leaf is cleared. */
    method DeleteCase3Unlink(del: nat, parent: nat, brother: Ptr, ghost path: Path<K>, ghost d: Tree<K>)
      returns (ghost path': Path<K>)
      requires Shaped() && tree == Plug(path, d) && d.Node? && d.id == del && d.left.Nil? && d.right.Nil?
      requires DelInv(path, Nil) && path != [] && parent == path[0].id && brother == PtrOf(path[0].sib)
      modifies this
      ensures Shaped() && tree == Plug(path', Nil) && IsRB(tree) && SameContext(path', path)
      ensures heap.Keys == old(heap.Keys) && del in heap && heap[del].data == d.data
      ensures root == old(root) && size == old(size) && freed == old(freed)
    {
      path' := DeleteCase3(del, Ref(parent), brother, path, d, Nil);
      ghost var h0 := heap;
      assert && parent in h0 && h0[parent] == FrameRec(path'[0], Ref(del), ParentPtr(path'[1..]))
             && PtrOf(path'[0].sib) != Ref(del) && parent != del && del in h0 && h0[del].data == d.data by {
        ParentView(heap, path', d);
        NodeView(heap, path', d);
      }
      if heap[parent].right == Ref(del) {
        heap := heap[parent := heap[parent].(right := Null)];
      } else {
        heap := heap[parent := heap[parent].(left := Null)];
      }
      assert Linked(heap, Plug(path', Nil), Null) && Unique(Plug(path', Nil)) by {
        LinkedSplice(h0, heap, path', d, Nil);
      }
      tree := Plug(path', Nil);
    }

    /** `deleteCases`: a node with a parent and at most one child is
        removed, by case 1, case 2 or the case 3 repair followed by the
        unlinking of the leaf.  The tree stays red-black, the node's child
        (if any) takes its place in the order, and the node's record is
        left as it was, for `freeFunc` and `free`. */
    method DeleteCases(del: nat, parent: nat, child: Ptr, brother: Ptr, ghost path: Path<K>, ghost d: Tree<K>)
      requires Shaped() && tree == Plug(path, d) && IsRB(tree)
      requires d.Node? && d.id == del && (d.left.Nil? || d.right.Nil?)
      requires path != [] && parent == path[0].id && child == PtrOf(OnlyChild(d)) && brother == PtrOf(path[0].sib)
      modifies this
      ensures Shaped() && IsRB(tree) && heap.Keys == old(heap.Keys)
      ensures InOrder(tree) == LeftCtx(path) + InOrder(OnlyChild(d)) + RightCtx(path)
      ensures Ids(tree) == old(Ids(tree)) - {del} && parent in Ids(tree)
      ensures del in heap && heap[del].data == d.data
      ensures root == old(root) && size == old(size) && freed == old(freed)
    {
      assert && del in heap && heap[del].color == d.color && heap[del].data == d.data
             && (child.Ref? ==> child.id in heap && heap[child.id].color == OnlyChild(d).color)
             && parent in Ids(tree) && parent != del by {
        NodeView(heap, path, d);
        ParentView(heap, path, d);
        IdsPlug(path, d);
        assert parent in PathIds(path);
      }
      SpliceShape(path, d);
      ghost var path', c := path, OnlyChild(d);
      if heap[del].color == Red {
        Del1Case(path, d);
        DeleteCase1(del, parent, path, d);
      } else if child != Null && heap[del].color == Black && heap[child.id].color == Red {
        Del2Case(path, d);
        DeleteCase2(del, child.id, parent, path, d);
        c := OnlyChild(d).(color := Black);
      } else {
        Del3Start(path, d);
        path' := DeleteCase3Unlink(del, parent, brother, path, d);
      }
      SpliceOrder(path, path', d, c);
      SpliceIds(path, path', d, c);
    }

    /** The root branch of `deleteFromRBTree`: the root (with at most one
        child) is replaced by its child, which turns black and loses its
        parent link; with no child the tree becomes empty. */
    method RemoveRoot(n: nat, child: Ptr, ghost d: Tree<K>)
      requires Shaped() && tree == d && IsRB(d) && d.Node? && d.id == n && (d.left.Nil? || d.right.Nil?)
      requires child == PtrOf(OnlyChild(d))
      modifies this
      ensures Shaped() && IsRB(tree) && root == PtrOf(tree)
      ensures InOrder(tree) == InOrder(OnlyChild(d)) && Ids(tree) == Ids(d) - {n}
      ensures heap.Keys == old(heap.Keys) && n in heap && heap[n].data == d.data
      ensures size == old(size) && freed == old(freed)
    {
      ghost var c := OnlyChild(d);
      assert && n in heap && heap[n].data == d.data && Unique(c) && n !in Ids(c)
             && Ids(d) == {n} + Ids(c) by {
        NodeView(heap, [], d);
        if d.left.Node? {
          assert Ids(d.right) == {};
        }
      }
      DelRootCase(d);
      root := child;
      if child != Null {
        ghost var c' := c.(color := Black);
        ghost var d' := if d.left.Node? then d.(left := c') else d.(right := c');
        assert child.id in Ids(tree) && SetColor(tree, child.id, Black) == d' by {
          if d.left.Node? {
            SetColorAbsent(d.right, child.id, Black);
          } else {
            SetColorAbsent(d.left, child.id, Black);
          }
        }
        Paint(child.id, Black);
        ghost var h0 := heap;
        assert child.id in h0 && child.id != n by {
          NodeView(heap, [], d');
        }
        heap := heap[child.id := heap[child.id].(parent := Null)];
        assert Linked(heap, c', Null) && Unique(c') by {
          LinkedSplice(h0, heap, [], d', c');
        }
        tree := c';
      } else {
        tree := Nil;
      }
    }

    /** The removal step of `deleteFromRBTree`, once the node holding the
        payload is found: a node with two children first swaps payloads
        with its successor; the node then removed has at most one child
        and is spliced out (at the root directly, elsewhere by
        `deleteCases`), the root is found again, and the payload is freed.
        The payloads left are those before and those after the removed one. */
    method Remove(n: nat, ghost path: Path<K>, ghost f: Tree<K>)
      requires Valid() && tree == Plug(path, f) && f.Node? && f.id == n
      modifies this
      ensures Valid()
      ensures InOrder(tree) == (LeftCtx(path) + InOrder(f.left)) + (InOrder(f.right) + RightCtx(path))
      ensures size == old(size) - 1 && freed == old(freed) + [f.data]
    {
      ghost var a, b := LeftCtx(path) + InOrder(f.left), InOrder(f.right) + RightCtx(path);
      assert Ascending(cmp, a + b) by {
        RemoveSplit(path, f);
        AscendingRemove(cmp, a, f.data, b);
      }
      RemoveSplit(path, f);
      var m := n;
      ghost var pathD, d := path, f;
      assert n in heap && heap[n].left == PtrOf(f.left) && heap[n].right == PtrOf(f.right) by {
        NodeView(heap, path, f);
      }
      if heap[n].right != Null && heap[n].left != Null {
        m, pathD, d := ChangeWithSuccessor(n, path, f);
        assert LeftCtx(pathD) + InOrder(OnlyChild(d)) + RightCtx(pathD) == a + b;
      }
      assert LeftCtx(pathD) + InOrder(OnlyChild(d)) + RightCtx(pathD) == a + b;
      Unlink(m, pathD, d);
      Release(m);
      size := size - 1;
      assert InOrder(tree) == a + b;
      assert Ascending(cmp, a + b);
    }

    /** The splice of `deleteFromRBTree`: a node with at most one child
        leaves the tree, at the root directly and elsewhere through
        `deleteCases`, and the root is found again.  Its record stays
        allocated, and the payloads left are those around it. */
    method Unlink(m: nat, ghost path: Path<K>, ghost d: Tree<K>)
      requires Shaped() && heap.Keys == Ids(tree) && root == PtrOf(tree) && IsRB(tree)
      requires tree == Plug(path, d) && d.Node? && d.id == m && (d.left.Nil? || d.right.Nil?)
      modifies this
      ensures Shaped() && heap.Keys == old(heap.Keys) && Ids(tree) == old(Ids(tree)) - {m}
      ensures root == PtrOf(tree) && IsRB(tree)
      ensures InOrder(tree) == LeftCtx(path) + InOrder(OnlyChild(d)) + RightCtx(path)
      ensures m in heap && heap[m].data == d.data
      ensures size == old(size) && freed == old(freed)
    {
      var child := FindChild(m, path, d);
      var brother := FindBrother(m, path, d);
      assert heap[m].parent == ParentPtr(path) by {
        NodeView(heap, path, d);
      }
      var parent := heap[m].parent;
      if parent == Null {
        RemoveRoot(m, child, d);
      } else {
        DeleteCases(m, parent.id, child, brother, path, d);
        var r := FindNewRoot(parent.id);
        root := Ref(r);
      }
    }

    /** `freeNode`: the subtree below `n` is released bottom-up, left
        subtree, right subtree, then the node; each payload goes to
        `freeFunc` just before its record is freed. */
    method FreeNode(n: nat, ghost t: Tree<K>, ghost up: Ptr)
      requires Linked(heap, t, up) && Unique(t) && t.Node? && t.id == n
      modifies this
      ensures heap == old(heap) - Ids(t) && freed == old(freed) + PostOrder(t)
      ensures tree == old(tree) && root == old(root) && size == old(size)
      decreases t
    {
      ghost var h0 := heap;
      var l, r := heap[n].left, heap[n].right;
      if l != Null {
        FreeNode(l.id, t.left, Ref(n));
      }
      assert heap == h0 - Ids(t.left);
      assert Linked(heap, t.right, Ref(n)) && n in heap && heap[n].data == t.data by {
        LinkedIds(h0, t.right, Ref(n));
        LinkedFrame(h0, heap, t.right, Ref(n));
      }
      ghost var h1 := heap;
      if r != Null {
        FreeNode(r.id, t.right, Ref(n));
      }
      assert heap == h1 - Ids(t.right);
      freed := freed + [heap[n].data];
      heap := heap - {n};
      assert heap == h0 - Ids(t) by {
        assert Ids(t) == Ids(t.left) + Ids(t.right) + {n};
        MinusThree(h0, Ids(t.left), Ids(t.right), n);
      }
    }

    /** `tree->freeFunc(deleteNode->data); free(deleteNode)`: the payload
        of a record no longer in the tree is released, then the record. */
    method Release(n: nat)
      requires Shaped() && n in heap && n !in Ids(tree)
      modifies this
      ensures Shaped() && heap == old(heap) - {n} && freed == old(freed) + [old(heap[n].data)]
      ensures tree == old(tree) && root == old(root) && size == old(size)
    {
      freed := freed + [heap[n].data];
      LinkedIds(heap, tree, Null);
      LinkedFrame(heap, heap - {n}, tree, Null);
      heap := heap - {n};
    }
  }

  // ---------------------------------------------------------------------
  // The public operations; a null `RBTree*` or a null payload is `null` / `None`

  /** `RBTreeContains`: a search from the root, comparing at each node. */
  method RBTreeContains<K(!new)>(t: RBTree?<K>, x: Option<K>) returns (found: bool)
    requires t != null ==> t.Valid()
    ensures found <==> t != null && x.Some? && x.value in t.Keys()
  {
    if t == null || x.None? {
      return false;
    }
    var runner := t.root;
    ghost var path: Path<K> := [];
    ghost var f := t.tree;
    while runner != Null
      invariant t.tree == Plug(path, f) && runner == PtrOf(f) && Fits(t.cmp, path, x.value)
      decreases f
    {
      NodeView(t.heap, path, f);
      Descend(t.cmp, path, f, x.value);
      var res := t.cmp(t.heap[runner.id].data, x.value);
      if res == 0 {
        InOrderPlug(path, f);
        return true;
      }
      if res > 0 {
        runner := t.heap[runner.id].left;
        path, f := [Frame(Left, f.id, f.color, f.data, f.right)] + path, f.left;
      } else {
        runner := t.heap[runner.id].right;
        path, f := [Frame(Right, f.id, f.color, f.data, f.left)] + path, f.right;
      }
    }
    FitsMember(t.cmp, path, f, x.value);
    return false;
  }

  /** `findLocation`: the node holding `x`, or else the node whose empty
      child slot `x` belongs in (null for an empty or null tree). */
  method FindLocation<K(!new)>(t: RBTree?<K>, x: K) returns (location: Ptr)
    requires t != null ==> t.Valid()
    ensures t == null ==> location == Null
    ensures t != null ==>
      var (p, f) := Locate(t.cmp, [], t.tree, x);
      location == if f.Node? then Ref(f.id) else ParentPtr(p)
  {
    if t == null {
      return Null;
    }
    var runner := t.root;
    location := Null;
    ghost var path: Path<K> := [];
    ghost var f := t.tree;
    while runner != Null
      invariant t.tree == Plug(path, f) && runner == PtrOf(f) && location == Null
      invariant path != [] ==> f.Node?
      invariant Locate(t.cmp, path, f, x) == Locate(t.cmp, [], t.tree, x)
      decreases f
    {
      NodeView(t.heap, path, f);
      if t.cmp(t.heap[runner.id].data, x) == 0 {
        return runner;
      }
      if t.cmp(t.heap[runner.id].data, x) > 0 {
        if t.heap[runner.id].left == Null {
          location := runner;
          break;
        }
        runner := t.heap[runner.id].left;
        path, f := [Frame(Left, f.id, f.color, f.data, f.right)] + path, f.left;
      } else {
        if t.heap[runner.id].right == Null {
          location := runner;
          break;
        }
        runner := t.heap[runner.id].right;
        path, f := [Frame(Right, f.id, f.color, f.data, f.left)] + path, f.right;
      }
    }
    return location;
  }

  /** `insertToRBTree`: a payload not yet stored is hung where the search
      for it ends, the red-black rules are repaired, and the root is found
      again; a null tree, a null payload or one already stored is refused. */
  method InsertToRBTree<K(!new)>(t: RBTree?<K>, x: Option<K>) returns (ok: bool)
    requires t != null ==> t.Valid()
    modifies t
    ensures t != null ==> t.Valid() && t.freed == old(t.freed)
    ensures ok <==> t != null && x.Some? && x.value !in old(t.Keys())
    ensures t != null && ok ==>
      (forall y :: y in t.Keys() <==> y in old(t.Keys()) || y == x.value) && t.size == old(t.size) + 1
    ensures t != null && !ok ==> t.Keys() == old(t.Keys()) && t.size == old(t.size)
    ensures t != null && !ok ==> t.tree == old(t.tree) && t.heap == old(t.heap) && t.root == old(t.root)
  {
    if t == null || x.None? {
      return false;
    }
    var present := RBTreeContains(t, x);
    if present {
      return false;
    }
    var parent := FindLocation(t, x.value);
    ghost var (path, hole) := Locate(t.cmp, [], t.tree, x.value);
    LocateFacts(t.cmp, [], t.tree, x.value);
    var n := t.AddLeaf(parent, x.value, path);
    t.InsertRepairs(parent, n, path, Node(n, Red, Nil, x.value, Nil));
    t.size := t.size + 1;
    var r := t.FindNewRoot(n);
    t.root := Ref(r);
    return true;
  }

  /** `deleteFromRBTree`: a stored payload is removed and handed to
      `freeFunc`; a null tree, a null payload or one not stored is
      refused and nothing changes. */
  method DeleteFromRBTree<K(!new)>(t: RBTree?<K>, x: Option<K>) returns (ok: bool)
    requires t != null ==> t.Valid()
    modifies t
    ensures t != null ==> t.Valid()
    ensures ok <==> t != null && x.Some? && x.value in old(t.Keys())
    ensures t != null && ok ==>
      && (forall y :: y in t.Keys() <==> y in old(t.Keys()) && y != x.value)
      && t.size == old(t.size) - 1 && t.freed == old(t.freed) + [x.value]
    ensures t != null && !ok ==> t.Keys() == old(t.Keys()) && t.size == old(t.size) && t.freed == old(t.freed)
    ensures t != null && !ok ==> t.tree == old(t.tree) && t.heap == old(t.heap) && t.root == old(t.root)
  {
    if x.None? {
      return false;
    }
    var present := RBTreeContains(t, x);
    if !present {
      return false;
    }
    var deleteNode := FindLocation(t, x.value);
    ghost var (path, f) := Locate(t.cmp, [], t.tree, x.value);
    LocateFacts(t.cmp, [], t.tree, x.value);
    RemoveSplit(path, f);
    ghost var a, b := LeftCtx(path) + InOrder(f.left), InOrder(f.right) + RightCtx(path);
    AscendingOnce(t.cmp, a, x.value, b);
    t.Remove(deleteNode.id, path, f);
    return true;
  }

  /** `forEachRBTree`: a null tree fails, an empty one succeeds at once;
      otherwise the result is 1 exactly when every activation, in ascending
      order, returned nonzero, and the state is then what those activations
      left.  See `WalkVisitsPastFailure` for what happens after a failure. */
  method ForEachRBTree<K(!new), S>(t: RBTree?<K>, func: (K, S) -> (int, S), args: S) returns (res: int, out: S)
    requires t != null ==> t.Valid()
    ensures res == 0 || res == 1
    ensures t == null ==> res == 0 && out == args
    ensures t != null ==> (res == 1 <==> Steps(func, t.Keys(), args).0)
    ensures t != null && res == 1 ==> out == Steps(func, t.Keys(), args).1
  {
    if t == null {
      return 0, args;
    }
    if t.root == Null {
      return 1, args;
    }
    var r;
    r, out := t.ForEachHelper(t.root, func, args, [], t.tree);
    WalkInOrder(func, t.tree, args);
    if r == 0 {
      return 0, out;
    }
    return 1, out;
  }

  /** `freeRBTree`: every record of a tree is released, each payload passed
      to `freeFunc` exactly once, then the tree object itself is released
      (its fields cleared, `released` set) and the caller's handle becomes
      null; a null handle stays null. */
  method FreeRBTree<K(!new)>(t: RBTree?<K>) returns (handle: RBTree?<K>)
    requires t != null ==> t.Valid()
    modifies t
    ensures handle == null
    ensures t != null ==> t.heap == map[] && t.freed == old(t.freed) + PostOrder(old(t.tree))
    ensures t != null ==> multiset(t.freed) == multiset(old(t.freed)) + multiset(old(t.Keys()))
    ensures t != null ==> t.root == Null && t.tree == Nil && t.size == 0 && t.released
  {
    if t != null {
      if t.root != Null {
        t.FreeNode(t.root.id, t.tree, Null);
      }
      PostOrderPermutation(old(t.tree));
      t.root, t.size := Null, 0;
      t.tree, t.released := Nil, true;
    }
    return null;
  }

}
