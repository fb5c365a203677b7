/**
 The in-place tree of kernel/system/mem_mgmt/vmm/avl_tree.c: nodes on the heap,
 relinked and overwritten where they are. Each method is proved against the
 function of the same name in `AvlTree`; the ghost tree passed along says which
 node sits where.
 */
module AvlHeap {
  import opened AvlTree
  import opened Words

  class AvlNode {
    var addr: nat
    var pageCount: nat
    var alloc: bool
    var left: AvlNode?
    var right: AvlNode?
    var height: nat

    /** `create_node` and the assignments that follow it. */
    constructor (addr: nat, pageCount: nat)
      ensures this.addr == addr && this.pageCount == pageCount && !alloc
      ensures left == null && right == null && height == 0
    {
      this.addr, this.pageCount, this.alloc := addr, pageCount, false;
      this.left, this.right, this.height := null, null, 0;
    }
  }

  type Shape = Tree<AvlNode>

  ghost function Nodes(t: Shape): set<AvlNode> {
    if t.Nil? then {} else {t.e.ptr} + Nodes(t.left) + Nodes(t.right)
  }

  /** No node occurs twice. */
  ghost predicate Separate(t: Shape) {
    t.Node? ==>
      && t.e.ptr !in Nodes(t.left) && t.e.ptr !in Nodes(t.right) && Nodes(t.left) !! Nodes(t.right)
      && Separate(t.left) && Separate(t.right)
  }

  /** The heap structure at `n` is the tree `t`. */
  ghost predicate Holds(n: AvlNode?, t: Shape)
    reads Nodes(t)
  {
    if t.Nil? then n == null
    else
      && n == t.e.ptr && n.addr == t.e.addr && n.pageCount == t.e.pages && n.alloc == t.e.alloc
      && n.height == t.height && Holds(n.left, t.left) && Holds(n.right, t.right)
  }

  // ------------------------------------------------------------------ shapes

  lemma RotateLeftNodes(t: Shape)
    requires t.Node? && t.right.Node? && Separate(t)
    ensures Nodes(RotateLeft(t)) == Nodes(t) && Separate(RotateLeft(t))
  {
  }

  lemma RotateRightNodes(t: Shape)
    requires t.Node? && t.left.Node? && Separate(t)
    ensures Nodes(RotateRight(t)) == Nodes(t) && Separate(RotateRight(t))
  {
  }

  lemma RebalanceNodes(t: Shape)
    requires t.Node? && Separate(t)
    ensures Nodes(Rebalance(t)) == Nodes(t) && Separate(Rebalance(t))
  {
    if Balance(t) == -2 {
      if Balance(t.left) == 1 { RotateLeftNodes(t.left); }
      RotateRightNodes(t.(left := if Balance(t.left) == 1 then RotateLeft(t.left) else t.left));
    } else if Balance(t) == 2 {
      if Balance(t.right) == -1 { RotateRightNodes(t.right); }
      RotateLeftNodes(t.(right := if Balance(t.right) == -1 then RotateRight(t.right) else t.right));
    }
  }

  // --------------------------------------------------------------- heights

  function RankOf(n: AvlNode?): nat
    reads n
  {
    if n == null then 0 else n.height + 1
  }

  function HeightOf(n: AvlNode): nat
    reads n, n.left, n.right
  {
    Max(RankOf(n.left), RankOf(n.right))
  }

  function BalanceOf(n: AvlNode?): int
    reads n, if n == null then {} else {n.left, n.right}
  {
    if n == null then 0 else RankOf(n.right) - RankOf(n.left)
  }

  lemma HeldBalance(n: AvlNode?, t: Shape)
    requires Holds(n, t)
    ensures RankOf(n) == Rank(t) && BalanceOf(n) == Balance(t)
    ensures n != null ==> HeightOf(n) == Height(t)
  {
  }

  // ------------------------------------------------- folding and unfolding

  lemma Open(n: AvlNode?, t: Shape)
    requires Holds(n, t) && t.Node?
    ensures n == t.e.ptr && n.addr == t.e.addr && n.pageCount == t.e.pages && n.alloc == t.e.alloc
    ensures n.height == t.height && Holds(n.left, t.left) && Holds(n.right, t.right)
  {
  }

  lemma Close(n: AvlNode, t: Shape)
    requires t.Node? && n == t.e.ptr && n.addr == t.e.addr && n.pageCount == t.e.pages && n.alloc == t.e.alloc
    requires n.height == t.height && Holds(n.left, t.left) && Holds(n.right, t.right)
    ensures Holds(n, t)
  {
  }

  lemma Parts(t: Shape)
    requires t.Node? && Separate(t)
    ensures Nodes(t) == {t.e.ptr} + Nodes(t.left) + Nodes(t.right)
    ensures t.e.ptr !in Nodes(t.left) && t.e.ptr !in Nodes(t.right) && Nodes(t.left) !! Nodes(t.right)
    ensures Separate(t.left) && Separate(t.right)
  {
  }

  lemma {:induction false} NodesExist(t: Shape)
    ensures forall o :: o in Nodes(t) ==> allocated(o)
  {
    if t.Node? { NodesExist(t.left); NodesExist(t.right); }
  }

  // -------------------------------------------------------------- rotations

  method RotateLeftNode(x: AvlNode, ghost t: Shape) returns (z: AvlNode)
    requires Holds(x, t) && Separate(t) && t.Node? && t.right.Node?
    modifies Nodes(t)
    ensures Holds(z, RotateLeft(t))
  {
    hide Holds, Nodes, Separate;
    ghost var a, b, c := t.left, t.right.left, t.right.right;
    Parts(t);
    Parts(t.right);
    Open(x, t);
    z := x.right;
    Open(z, t.right);
    x.right := z.left;
    z.left := x;
    HeldBalance(x.left, a);
    HeldBalance(x.right, b);
    x.height := HeightOf(x);
    Close(x, Fresh(t.e, a, b));
    HeldBalance(x, Fresh(t.e, a, b));
    HeldBalance(z.right, c);
    z.height := HeightOf(z);
    Close(x, Fresh(t.e, a, b));
    Close(z, RotateLeft(t));
  }

  method RotateRightNode(x: AvlNode, ghost t: Shape) returns (z: AvlNode)
    requires Holds(x, t) && Separate(t) && t.Node? && t.left.Node?
    modifies Nodes(t)
    ensures Holds(z, RotateRight(t))
  {
    hide Holds, Nodes, Separate;
    ghost var a, b, c := t.left.left, t.left.right, t.right;
    Parts(t);
    Parts(t.left);
    Open(x, t);
    z := x.left;
    Open(z, t.left);
    x.left := z.right;
    z.right := x;
    HeldBalance(x.left, b);
    HeldBalance(x.right, c);
    x.height := HeightOf(x);
    Close(x, Fresh(t.e, b, c));
    HeldBalance(x, Fresh(t.e, b, c));
    HeldBalance(z.left, a);
    z.height := HeightOf(z);
    Close(x, Fresh(t.e, b, c));
    Close(z, RotateRight(t));
  }

  /** `node->left = rotate_left(node->left)`, with the rest of the node untouched. */
  method RotateLeftChild(n: AvlNode, ghost t: Shape)
    requires Holds(n, t) && Separate(t) && t.Node? && t.left.Node? && t.left.right.Node?
    modifies Nodes(t)
    ensures Holds(n, t.(left := RotateLeft(t.left)))
  {
    hide Holds, Separate, RotateLeft;
    Parts(t);
    Open(n, t);
    Open(n.left, t.left);
    NodesExist(t.right);
    var c := RotateLeftNode(n.left, t.left);
    assert Holds(n.right, t.right);
    n.left := c;
    assert Holds(n.right, t.right);
    RotateLeftNodes(t.left);
    assert Holds(n.left, RotateLeft(t.left));
    Close(n, t.(left := RotateLeft(t.left)));
  }

  method RotateRightChild(n: AvlNode, ghost t: Shape)
    requires Holds(n, t) && Separate(t) && t.Node? && t.right.Node? && t.right.left.Node?
    modifies Nodes(t)
    ensures Holds(n, t.(right := RotateRight(t.right)))
  {
    hide Holds, Separate, RotateRight;
    Parts(t);
    Open(n, t);
    Open(n.right, t.right);
    NodesExist(t.left);
    var c := RotateRightNode(n.right, t.right);
    assert Holds(n.left, t.left);
    n.right := c;
    RotateRightNodes(t.right);
    Close(n, t.(right := RotateRight(t.right)));
  }

  lemma RotateLeftChildNodes(t: Shape)
    requires t.Node? && Separate(t) && t.left.Node? && t.left.right.Node?
    ensures var u := t.(left := RotateLeft(t.left)); Nodes(u) == Nodes(t) && Separate(u) && u.left.Node?
  {
    RotateLeftNodes(t.left);
  }

  lemma RotateRightChildNodes(t: Shape)
    requires t.Node? && Separate(t) && t.right.Node? && t.right.left.Node?
    ensures var u := t.(right := RotateRight(t.right)); Nodes(u) == Nodes(t) && Separate(u) && u.right.Node?
  {
    RotateRightNodes(t.right);
  }

  /** `node->height = height(node)`. */
  method RefreshHeight(n: AvlNode, ghost t: Shape)
    requires Holds(n, t) && t.Node? && Separate(t)
    modifies n
    ensures Holds(n, t.(height := Height(t)))
  {
    hide Holds, Nodes, Separate;
    HeldBalance(n, t);
    Open(n, t);
    Parts(t);
    n.height := HeightOf(n);
    Close(n, t.(height := Height(t)));
  }

  lemma RotatedHeight(t: Shape)
    requires t.Node? && Separate(t)
    ensures t.right.Node? ==> var z := RotateLeft(t);
      z.Node? && z.(height := Height(z)) == z && z.e.ptr in Nodes(t) && Separate(z)
    ensures t.left.Node? ==> var z := RotateRight(t);
      z.Node? && z.(height := Height(z)) == z && z.e.ptr in Nodes(t) && Separate(z)
  {
    if t.right.Node? { RotateLeftNodes(t); }
    if t.left.Node? { RotateRightNodes(t); }
  }

  /** The rebalancing tail of `_insert_node` and `_delete_node`. */
  method RebalanceNode(n: AvlNode, ghost t: Shape) returns (r: AvlNode)
    requires Holds(n, t) && Separate(t) && t.Node?
    modifies Nodes(t)
    ensures Holds(r, Rebalance(t))
  {
    hide Holds, Nodes, Separate, RotateLeft, RotateRight;
    HeldBalance(n, t);
    Open(n, t);
    Parts(t);
    r := n;
    ghost var u := t;
    var b := BalanceOf(n);
    if b == -2 {
      HeldBalance(n.left, t.left);
      if BalanceOf(n.left) == 1 {
        u := t.(left := RotateLeft(t.left));
        RotateLeftChildNodes(t);
        RotateLeftChild(n, t);
      }
      r := RotateRightNode(n, u);
      RotatedHeight(u);
      u := RotateRight(u);
    } else if b == 2 {
      HeldBalance(n.right, t.right);
      if BalanceOf(n.right) == -1 {
        u := t.(right := RotateRight(t.right));
        RotateRightChildNodes(t);
        RotateRightChild(n, t);
      }
      r := RotateLeftNode(n, u);
      RotatedHeight(u);
      u := RotateLeft(u);
    }
    Open(r, u);
    RefreshHeight(r, u);
  }

  // -------------------------------------------------------------- insertion

  /** `_insert_node`: `p` is the node created, if one was. */
  method InsertNode(n: AvlNode?, ghost t: Shape, addr: nat, pages: nat) returns (r: AvlNode, ghost p: AvlNode)
    requires Holds(n, t) && Separate(t)
    modifies Nodes(t)
    ensures Holds(r, Insert(t, p, addr, pages)) && Separate(Insert(t, p, addr, pages))
    ensures Nodes(t) <= Nodes(Insert(t, p, addr, pages)) <= Nodes(t) + {p} && (fresh(p) || p in Nodes(t))
    ensures Find(t, addr) == Missing ==> fresh(p)
    decreases t
  {
    if n == null {
      r := new AvlNode(addr, pages);
      p := r;
    } else {
      r, p := InsertBelow(n, t, addr, pages);
    }
  }

  method InsertBelow(n: AvlNode, ghost t: Shape, addr: nat, pages: nat) returns (r: AvlNode, ghost p: AvlNode)
    requires Holds(n, t) && Separate(t) && t.Node?
    modifies Nodes(t)
    ensures Holds(r, Insert(t, p, addr, pages)) && Separate(Insert(t, p, addr, pages))
    ensures Nodes(t) <= Nodes(Insert(t, p, addr, pages)) <= Nodes(t) + {p} && (fresh(p) || p in Nodes(t))
    ensures Find(t, addr) == Missing ==> fresh(p)
    decreases t, 0
  {
    hide Holds, Nodes, Separate, Rebalance;
    Parts(t);
    Open(n, t);
    NodesExist(t.left);
    NodesExist(t.right);
    ghost var u := t;
    if addr < n.addr {
      var c;
      c, p := InsertNode(n.left, t.left, addr, pages);
      n.left := c;
      u := t.(left := Insert(t.left, p, addr, pages));
    } else if addr > n.addr {
      var c;
      c, p := InsertNode(n.right, t.right, addr, pages);
      n.right := c;
      u := t.(right := Insert(t.right, p, addr, pages));
    } else {
      n.addr, n.pageCount, n.alloc := addr, pages, false;
      u := t.(e := Entry(t.e.ptr, addr, pages, false));
      r, p := n, n;
      Close(n, u);
      Grown(u, t);
      return;
    }
    Close(n, u);
    Joined(u);
    r := RebalanceNode(n, u);
    RebalanceNodes(u);
  }

  lemma Joined(t: Shape)
    requires t.Node? && t.e.ptr !in Nodes(t.left) && t.e.ptr !in Nodes(t.right)
    requires Nodes(t.left) !! Nodes(t.right) && Separate(t.left) && Separate(t.right)
    ensures Separate(t) && Nodes(t) == {t.e.ptr} + Nodes(t.left) + Nodes(t.right)
  {
  }

  lemma Grown(u: Shape, t: Shape)
    requires t.Node? && u.Node? && Separate(t) && u.e.ptr == t.e.ptr && u.left == t.left && u.right == t.right
    ensures Separate(u) && Nodes(u) == Nodes(t)
  {
  }

  // --------------------------------------------------------------- deletion

  /** The `k`-th node on the way to the successor. */
  ghost function Spine(t: Shape, k: nat): Shape
    decreases k
  {
    if k == 0 || t.Nil? then t else Spine(t.left, k - 1)
  }

  /** Nodes met on the way, the successor included. */
  ghost function SpineLength(t: Shape): nat {
    if t.Nil? then 0 else 1 + SpineLength(t.left)
  }

  /** Node `s.e.ptr` is as the shape says, except that its left link is `next`. */
  ghost predicate Row(s: Shape, next: AvlNode?)
    requires s.Node?
    reads s.e.ptr, Nodes(s.right)
  {
    var n := s.e.ptr;
    && n.addr == s.e.addr && n.pageCount == s.e.pages && n.alloc == s.e.alloc && n.height == s.height
    && n.left == next && Holds(n.right, s.right)
  }

  ghost function PtrOf(t: Shape): AvlNode? { if t.Nil? then null else t.e.ptr }

  lemma {:induction false} SpineNext(t: Shape, k: nat)
    ensures Spine(t, k + 1) == (if Spine(t, k).Nil? then Nil else Spine(t, k).left)
    ensures k < SpineLength(t) <==> Spine(t, k).Node?
    decreases k
  {
    if k > 0 && t.Node? { SpineNext(t.left, k - 1); }
  }

  lemma {:induction false} SpineRow(n: AvlNode?, t: Shape, k: nat)
    requires Holds(n, t) && k < SpineLength(t)
    ensures Spine(t, k).Node? && Row(Spine(t, k), PtrOf(Spine(t, k + 1)))
    ensures Spine(t, k).e.ptr in Nodes(t)
    decreases k
  {
    if k > 0 { SpineRow(n.left, t.left, k - 1); }
  }

  lemma {:induction false} SpineIn(t: Shape, k: nat)
    requires k < SpineLength(t)
    ensures Spine(t, k).Node? && Spine(t, k).e.ptr in Nodes(t) && Nodes(Spine(t, k).right) <= Nodes(t)
    decreases k
  {
    if k > 0 { SpineIn(t.left, k - 1); }
  }

  /** The nodes on the spine and what hangs to their right are all apart. */
  lemma {:induction false} SpineApart(t: Shape, j: nat, k: nat)
    requires Separate(t) && j < k < SpineLength(t)
    ensures Spine(t, j).Node? && Spine(t, k).Node?
    ensures Spine(t, k).e.ptr != Spine(t, j).e.ptr && Spine(t, k).e.ptr !in Nodes(Spine(t, j).right)
    ensures Spine(t, k).e.ptr !in Nodes(Spine(t, k).right)
    decreases j
  {
    SpineIn(t.left, k - 1);
    if j > 0 { SpineApart(t.left, j - 1, k - 1); } else { SpineOwn(t.left, k - 1); }
  }

  lemma {:induction false} SpineOwn(t: Shape, k: nat)
    requires Separate(t) && k < SpineLength(t)
    ensures Spine(t, k).Node? && Spine(t, k).e.ptr !in Nodes(Spine(t, k).right)
    decreases k
  {
    if k > 0 { SpineOwn(t.left, k - 1); }
  }

  lemma {:induction false} SpineEnd(t: Shape)
    requires t.Node?
    ensures SpineLength(t) > 0 && Spine(t, SpineLength(t) - 1) == SpineMin(t)
    decreases t
  {
    if t.left.Node? { SpineEnd(t.left); }
  }

  /** With the last link redirected past the successor, the heap holds the cut tree. */
  lemma {:induction false} RowsCut(t: Shape, w: AvlNode?)
    requires SpineLength(t) > 1
    requires forall k: nat :: k < SpineLength(t) - 2 ==> Spine(t, k).Node? && Row(Spine(t, k), PtrOf(Spine(t, k + 1)))
    requires Spine(t, SpineLength(t) - 2).Node? && Row(Spine(t, SpineLength(t) - 2), w)
    requires Holds(w, SpineMin(t).right)
    ensures Holds(t.e.ptr, CutSpine(t))
    decreases t
  {
    if t.left.left.Nil? {
      assert SpineLength(t.left) == 1 && Spine(t, 0) == t;
      assert CutSpine(t.left) == t.left.right && SpineMin(t.left) == t.left;
      assert SpineMin(t) == t.left && CutSpine(t) == t.(left := t.left.right);
    } else {
      forall k: nat | k < SpineLength(t.left) - 2
        ensures Spine(t.left, k).Node? && Row(Spine(t.left, k), PtrOf(Spine(t.left, k + 1)))
      {
        assert Spine(t.left, k) == Spine(t, k + 1) && Spine(t.left, k + 1) == Spine(t, k + 2);
      }
      assert Spine(t, 0) == t && Spine(t, 1) == t.left;
      assert Row(Spine(t, 0), PtrOf(Spine(t, 0 + 1)));
      RowsCut(t.left, w);
    }
  }

  /** The loop that looks for the successor of `n`; it reads only. */
  method FindSuccessor(n: AvlNode, ghost t: Shape) returns (ptr: AvlNode, parent: AvlNode?)
    requires Holds(n, t) && t.Node?
    ensures ptr == SpineMin(t).e.ptr
    ensures t.left.Node? ==> SpineLength(t) > 1 && Spine(t, SpineLength(t) - 2).Node?
    ensures parent == if t.left.Nil? then null else Spine(t, SpineLength(t) - 2).e.ptr
  {
    ptr, parent := n, null;
    ghost var k := 0;
    while ptr.left != null
      invariant k < SpineLength(t) && Spine(t, k).Node? && ptr == Spine(t, k).e.ptr
      invariant k > 0 ==> Spine(t, k - 1).Node?
      invariant Holds(n, t)
      invariant parent == if k == 0 then null else Spine(t, k - 1).e.ptr
      decreases SpineLength(t) - k
    {
      SpineRow(n, t, k);
      SpineNext(t, k);
      SpineNext(t, k + 1);
      parent := ptr;
      ptr := ptr.left;
      k := k + 1;
    }
    SpineRow(n, t, k);
    SpineNext(t, k);
    SpineNext(t, k + 1);
    SpineEnd(t);
    assert k == SpineLength(t) - 1;
  }

  /** Unhooks the successor below `n`'s right child from its parent. */
  method UnhookBelow(n: AvlNode, ghost t: Shape, parent: AvlNode, w: AvlNode?)
    requires Holds(n, t) && Separate(t) && t.Node? && t.left.Node?
    requires SpineLength(t) > 1 && Spine(t, SpineLength(t) - 2).Node? && parent == Spine(t, SpineLength(t) - 2).e.ptr
    requires w == SpineMin(t).e.ptr.right && Holds(w, SpineMin(t).right) && parent !in Nodes(SpineMin(t).right)
    modifies parent
    ensures Holds(n, CutSpine(t))
  {
    hide Holds, Nodes, Separate, CutSpine, SpineMin, Spine, SpineLength;
    ghost var len := SpineLength(t);
    forall k: nat | k < len ensures Spine(t, k).Node? && Row(Spine(t, k), PtrOf(Spine(t, k + 1))) {
      SpineRow(n, t, k);
    }
    forall k: nat | k < len - 2
      ensures Spine(t, k).Node? && parent != Spine(t, k).e.ptr && parent !in Nodes(Spine(t, k).right)
    {
      SpineApart(t, k, len - 2);
    }
    SpineOwn(t, len - 2);
    Open(n, t);
    assert Row(Spine(t, len - 2), PtrOf(Spine(t, len - 2 + 1)));
    parent.left := w;
    forall k: nat | k < len - 2 ensures Row(Spine(t, k), PtrOf(Spine(t, k + 1))) {
    }
    assert Row(Spine(t, len - 2), w);
    RowsCut(t, w);
  }

  lemma {:induction false} SpineMinApart(t: Shape)
    requires t.Node? && Separate(t)
    ensures SpineMin(t).e.ptr in Nodes(t) && Nodes(SpineMin(t).right) <= Nodes(t)
    ensures t.left.Node? ==>
      && SpineLength(t) > 1 && Spine(t, SpineLength(t) - 2).Node?
      && Spine(t, SpineLength(t) - 2).e.ptr !in Nodes(SpineMin(t).right)
      && Spine(t, SpineLength(t) - 2).e.ptr in Nodes(t)
    decreases t
  {
    if t.left.Node? {
      SpineMinApart(t.left);
      if t.left.left.Nil? { assert SpineLength(t.left) == 1 && Spine(t, 0) == t && SpineMin(t) == t.left; }
    }
  }

  lemma {:induction false} CutSpineNodes(t: Shape)
    requires t.Node? && Separate(t)
    ensures Nodes(CutSpine(t)) <= Nodes(t) && Separate(CutSpine(t))
    decreases t
  {
    if t.left.Node? { CutSpineNodes(t.left); }
  }

  lemma {:induction false} SpineMinHolds(n: AvlNode?, t: Shape)
    requires t.Node? && Holds(n, t)
    ensures var m := SpineMin(t).e.ptr;
      && m.addr == SpineMin(t).e.addr && m.pageCount == SpineMin(t).e.pages
      && m.alloc == SpineMin(t).e.alloc && Holds(m.right, SpineMin(t).right)
    decreases t
  {
    if t.left.Node? { SpineMinHolds(n.left, t.left); }
  }

  /** The two-children case: the successor's interval moves into `n`, and the successor is unhooked
      wherever it is. The last branch is missing in the source. */
  method TakeSuccessor(n: AvlNode, ghost t: Shape)
    requires Holds(n, t) && Separate(t) && t.Node? && t.left.Node? && t.right.Node?
    modifies Nodes(t)
    ensures Holds(n, TakeOver(t, SpineMin(t.right).e, CutSpine(t.right)))
  {
    hide Holds, Nodes, Separate, CutSpine, SpineMin, Spine, SpineLength;
    Parts(t);
    NodesExist(t.left);
    NodesExist(t.right);
    Open(n, t);
    Open(n.right, t.right);
    SpineMinApart(t.right);
    SpineMinHolds(n.right, t.right);
    var ptr, parent := FindSuccessor(n.right, t.right);
    n.addr, n.pageCount, n.alloc := ptr.addr, ptr.pageCount, ptr.alloc;
    SpineMinHolds(n.right, t.right);
    var w := ptr.right;
    if parent == null {
      n.right := w;
      assert CutSpine(t.right) == t.right.right && SpineMin(t.right) == t.right by { CutShort(t.right); }
    } else {
      Open(n.right, t.right);
      UnhookBelow(n.right, t.right, parent, w);
    }
    Close(n, TakeOver(t, SpineMin(t.right).e, CutSpine(t.right)));
  }

  lemma CutShort(t: Shape)
    requires t.Node? && t.left.Nil?
    ensures CutSpine(t) == t.right && SpineMin(t) == t
  {
  }

  /** `_delete_node`. */
  method DeleteNode(n: AvlNode?, ghost t: Shape, addr: nat) returns (r: AvlNode?)
    requires Holds(n, t) && Separate(t)
    modifies Nodes(t)
    ensures Holds(r, Delete(t, addr)) && Separate(Delete(t, addr)) && Nodes(Delete(t, addr)) <= Nodes(t)
    decreases t
  {
    if n == null {
      r := null;
    } else {
      r := DeleteBelow(n, t, addr);
    }
  }

  method DeleteBelow(n: AvlNode, ghost t: Shape, addr: nat) returns (r: AvlNode?)
    requires Holds(n, t) && Separate(t) && t.Node?
    modifies Nodes(t)
    ensures Holds(r, Delete(t, addr)) && Separate(Delete(t, addr)) && Nodes(Delete(t, addr)) <= Nodes(t)
    decreases t, 0
  {
    hide Holds, Nodes, Separate, Rebalance, CutSpine, SpineMin;
    Parts(t);
    Open(n, t);
    NodesExist(t.left);
    NodesExist(t.right);
    var node := n;
    ghost var u := t;
    if addr < n.addr {
      var c := DeleteNode(n.left, t.left, addr);
      n.left := c;
      u := t.(left := Delete(t.left, addr));
      Close(n, u);
      Joined(u);
    } else if addr > n.addr {
      var c := DeleteNode(n.right, t.right, addr);
      n.right := c;
      u := t.(right := Delete(t.right, addr));
      Close(n, u);
      Joined(u);
    } else {
      Empty(n.left, t.left);
      Empty(n.right, t.right);
      if n.left == null && n.right == null {
        r := null;
        NilFacts();
        return;
      } else if n.left != null && n.right == null {
        node, u := n.left, t.left;
      } else if n.left == null && n.right != null {
        node, u := n.right, t.right;
      } else {
        CutSpineNodes(t.right);
        TakeSuccessor(n, t);
        u := TakeOver(t, SpineMin(t.right).e, CutSpine(t.right));
        Joined(u);
      }
    }
    r := RebalanceNode(node, u);
    RebalanceNodes(u);
  }

  lemma Empty(n: AvlNode?, t: Shape)
    requires Holds(n, t)
    ensures n == null <==> t.Nil?
  {
  }

  lemma NilFacts()
    ensures Holds(null, Nil) && Separate(Nil) && Nodes(Nil) == {}
  {
  }

  // --------------------------------------------------------------- searches

  ghost function Target(f: Found<AvlNode>): AvlNode? { if f.Hit? then f.e.ptr else null }

  /** `avl_min_size`. */
  function MinSizeNode(n: AvlNode?, ghost t: Shape, pages: nat): (r: AvlNode?)
    requires Holds(n, t)
    reads Nodes(t)
    ensures r == Target(MinSize(t, pages))
    decreases t
  {
    if n == null then null
    else
      var r := MinSizeNode(n.right, t.right, pages);
      if r != null then r
      else if n.pageCount >= pages && !n.alloc then n
      else MinSizeNode(n.left, t.left, pages)
  }

  /** `avl_below`. */
  function BelowNode(n: AvlNode?, ghost t: Shape, addr: nat): (r: AvlNode?)
    requires Holds(n, t)
    reads Nodes(t)
    ensures r == Target(Below(t, addr))
    decreases t
  {
    if n == null then null
    else
      var diff := Int32(addr - (n.addr + n.pageCount * 0x1000));
      if diff == 0 then n
      else if diff < 0 then BelowNode(n.left, t.left, addr)
      else BelowNode(n.right, t.right, addr)
  }

  /** `avl_find`. */
  function FindNode(n: AvlNode?, ghost t: Shape, addr: nat): (r: AvlNode?)
    requires Holds(n, t)
    reads Nodes(t)
    ensures r == Target(Find(t, addr))
    decreases t
  {
    if n == null then null
    else if n.addr == addr then n
    else if addr < n.addr then FindNode(n.left, t.left, addr)
    else FindNode(n.right, t.right, addr)
  }

  /** A node met by a search is a node of the tree and holds the entry found. */
  lemma {:induction false} EntryHeld(n: AvlNode?, t: Shape, e: Entry<AvlNode>)
    requires Holds(n, t) && e in InOrder(t)
    ensures e.ptr in Nodes(t) && e.ptr.addr == e.addr && e.ptr.pageCount == e.pages && e.ptr.alloc == e.alloc
    decreases t
  {
    if e in InOrder(t.left) { EntryHeld(n.left, t.left, e); }
    else if e in InOrder(t.right) { EntryHeld(n.right, t.right, e); }
  }

  // ---------------------------------------------------------- pointer writes

  datatype Fields = Fields(addr: nat, pages: nat, alloc: bool, left: AvlNode?, right: AvlNode?, height: nat)

  ghost function FieldsOf(o: AvlNode): Fields
    reads o
  {
    Fields(o.addr, o.pageCount, o.alloc, o.left, o.right, o.height)
  }

  /** The contents of a set of nodes at one moment. */
  ghost function Snap(s: set<AvlNode>): map<AvlNode, Fields>
    reads s
  {
    map o | o in s :: FieldsOf(o)
  }

  ghost predicate HoldsIn(m: map<AvlNode, Fields>, n: AvlNode?, t: Shape) {
    if t.Nil? then n == null
    else
      && n == t.e.ptr && n in m && m[n].addr == t.e.addr && m[n].pages == t.e.pages && m[n].alloc == t.e.alloc
      && m[n].height == t.height && HoldsIn(m, m[n].left, t.left) && HoldsIn(m, m[n].right, t.right)
  }

  lemma {:induction false} SnapHolds(s: set<AvlNode>, n: AvlNode?, t: Shape)
    requires Nodes(t) <= s
    ensures Holds(n, t) <==> HoldsIn(Snap(s), n, t)
    decreases t
  {
    if t.Node? && n == t.e.ptr {
      SnapHolds(s, n.left, t.left);
      SnapHolds(s, n.right, t.right);
    }
  }

  lemma {:induction false} WrittenIn(m: map<AvlNode, Fields>, n: AvlNode?, t: Shape, p: AvlNode, pages: nat, alloc: bool)
    requires HoldsIn(m, n, t) && p in m
    ensures HoldsIn(m[p := m[p].(pages := pages, alloc := alloc)], n, SetFields(t, p, pages, alloc))
    decreases t
  {
    if t.Node? {
      WrittenIn(m, m[n].left, t.left, p, pages, alloc);
      WrittenIn(m, m[n].right, t.right, p, pages, alloc);
    }
  }

  /** `p->page_count = pages; p->allocated = alloc` somewhere in the tree. */
  method WriteNode(n: AvlNode?, ghost t: Shape, p: AvlNode, pages: nat, alloc: bool)
    requires Holds(n, t) && p in Nodes(t)
    modifies p
    ensures Holds(n, SetFields(t, p, pages, alloc))
  {
    hide Holds, Nodes, SetFields;
    ghost var s := Nodes(t);
    ghost var m := Snap(s);
    SnapHolds(s, n, t);
    WrittenIn(m, n, t, p, pages, alloc);
    p.pageCount, p.alloc := pages, alloc;
    assert Snap(s) == m[p := m[p].(pages := pages, alloc := alloc)];
    SetFieldsNodes(t, p, pages, alloc);
    SnapHolds(s, n, SetFields(t, p, pages, alloc));
  }

  lemma {:induction false} SetFieldsNodes(t: Shape, p: AvlNode, pages: nat, alloc: bool)
    ensures Nodes(SetFields(t, p, pages, alloc)) == Nodes(t)
    ensures Separate(t) ==> Separate(SetFields(t, p, pages, alloc))
    decreases t
  {
    if t.Node? { SetFieldsNodes(t.left, p, pages, alloc); SetFieldsNodes(t.right, p, pages, alloc); }
  }
}
