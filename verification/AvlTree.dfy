/**
 The interval index of kernel/system/mem_mgmt/vmm/avl_tree.c as a value: every
 node keeps the pointer it lives at, so moving an entry from one node to
 another (which `_delete_node` does) is visible.

 Balances are unbounded integers here; `BalanceFitsInt8` says when the 8-bit
 value of the kernel agrees with them.
 */
module AvlTree {
  import opened Words

  /** The payload of one node: where it lives and the interval it describes. */
  datatype Entry<P> = Entry(ptr: P, addr: nat, pages: nat, alloc: bool)

  datatype Tree<P> = Nil | Node(e: Entry<P>, height: nat, left: Tree<P>, right: Tree<P>)

  // ---------------------------------------------------------------- heights

  /** What a parent adds for this child: stored height plus one, zero if absent. */
  function Rank<P>(t: Tree<P>): nat {
    if t.Nil? then 0 else t.height + 1
  }

  function Max(a: nat, b: nat): nat { if a > b then a else b }

  /** `height`: recomputed from the stored heights of the children. */
  function Height<P>(t: Tree<P>): nat {
    if t.Nil? then 0 else Max(Rank(t.left), Rank(t.right))
  }

  function Balance<P>(t: Tree<P>): int {
    if t.Nil? then 0 else Rank(t.right) - Rank(t.left)
  }

  // -------------------------------------------------------------- rotations

  /** A node whose height has just been recomputed. */
  function Fresh<P>(e: Entry<P>, left: Tree<P>, right: Tree<P>): Tree<P> {
    Node(e, Max(Rank(left), Rank(right)), left, right)
  }

  function RotateLeft<P>(x: Tree<P>): Tree<P>
    requires x.Node? && x.right.Node?
  {
    var z := x.right;
    Fresh(z.e, Fresh(x.e, x.left, z.left), z.right)
  }

  function RotateRight<P>(x: Tree<P>): Tree<P>
    requires x.Node? && x.left.Node?
  {
    var z := x.left;
    Fresh(z.e, z.left, Fresh(x.e, z.right, x.right))
  }

  /** The tail shared by insertion and deletion: at most one (double) rotation, then the height.
      It is well formed on every tree, whatever the stored heights say: a balance of 2 or -2
      cannot come from a missing child. */
  function Rebalance<P>(t: Tree<P>): Tree<P>
    requires t.Node?
  {
    var b := Balance(t);
    if b == -2 then
      var l := if Balance(t.left) == 1 then RotateLeft(t.left) else t.left;
      RotateRight(t.(left := l))
    else if b == 2 then
      var r := if Balance(t.right) == -1 then RotateRight(t.right) else t.right;
      RotateLeft(t.(right := r))
    else Fresh(t.e, t.left, t.right)
  }

  // -------------------------------------------------------------- insertion

  /** `_insert_node`; `p` is the node that `create_node` would hand out. */
  function Insert<P>(t: Tree<P>, p: P, addr: nat, pages: nat): Tree<P> {
    if t.Nil? then Node(Entry(p, addr, pages, false), 0, Nil, Nil)
    else if addr < t.e.addr then Rebalance(t.(left := Insert(t.left, p, addr, pages)))
    else if addr > t.e.addr then Rebalance(t.(right := Insert(t.right, p, addr, pages)))
    else t.(e := Entry(t.e.ptr, addr, pages, false))
  }

  // --------------------------------------------------------------- deletion

  /** The in-order successor found by following left children. */
  function SpineMin<P>(t: Tree<P>): Tree<P>
    requires t.Node?
    ensures SpineMin(t).Node? && SpineMin(t).left.Nil?
  {
    if t.left.Nil? then t else SpineMin(t.left)
  }

  /** Unhooks the successor. No height on the way is recomputed. */
  function CutSpine<P>(t: Tree<P>): Tree<P>
    requires t.Node?
  {
    if t.left.Nil? then t.right else t.(left := CutSpine(t.left))
  }

  /** The node stays where it is and takes the successor's interval. */
  function TakeOver<P>(t: Tree<P>, s: Entry<P>, right: Tree<P>): Tree<P>
    requires t.Node?
  {
    Node(Entry(t.e.ptr, s.addr, s.pages, s.alloc), t.height, t.left, right)
  }

  /** `_delete_node` with `parent` starting out null and the successor always unhooked. */
  function Delete<P>(t: Tree<P>, addr: nat): Tree<P> {
    if t.Nil? then Nil
    else if addr < t.e.addr then Rebalance(t.(left := Delete(t.left, addr)))
    else if addr > t.e.addr then Rebalance(t.(right := Delete(t.right, addr)))
    else if t.left.Nil? && t.right.Nil? then Nil
    else if t.right.Nil? then Rebalance(t.left)
    else if t.left.Nil? then Rebalance(t.right)
    else Rebalance(TakeOver(t, SpineMin(t.right).e, CutSpine(t.right)))
  }

  /** `_delete_node` line by line (`parent` starting out null): when the successor is the right
      child itself and a leaf, none of the three branches unhooks it. */
  function DeleteAsWritten<P>(t: Tree<P>, addr: nat): Tree<P> {
    if t.Nil? then Nil
    else if addr < t.e.addr then Rebalance(t.(left := DeleteAsWritten(t.left, addr)))
    else if addr > t.e.addr then Rebalance(t.(right := DeleteAsWritten(t.right, addr)))
    else if t.left.Nil? && t.right.Nil? then Nil
    else if t.right.Nil? then Rebalance(t.left)
    else if t.left.Nil? then Rebalance(t.right)
    else if t.right.left.Nil? && t.right.right.Nil? then
      Rebalance(TakeOver(t, t.right.e, t.right))
    else Rebalance(TakeOver(t, SpineMin(t.right).e, CutSpine(t.right)))
  }

  /** The node whose memory `free_node` gets back. */
  function Freed<P>(t: Tree<P>, addr: nat): set<P> {
    if t.Nil? then {}
    else if addr < t.e.addr then Freed(t.left, addr)
    else if addr > t.e.addr then Freed(t.right, addr)
    else if t.left.Nil? || t.right.Nil? then {t.e.ptr}
    else {SpineMin(t.right).e.ptr}
  }

  /** Overwrites the interval stored at node `p`, as the manager does through a node pointer. */
  function SetFields<P(==)>(t: Tree<P>, p: P, pages: nat, alloc: bool): Tree<P> {
    if t.Nil? then Nil
    else
      var e := if t.e.ptr == p then Entry(p, t.e.addr, pages, alloc) else t.e;
      Node(e, t.height, SetFields(t.left, p, pages, alloc), SetFields(t.right, p, pages, alloc))
  }

  // --------------------------------------------------------------- searches

  datatype Found<P> = Missing | Hit(e: Entry<P>)

  /** `avl_min_size`: right subtree first, then the node, then the left subtree. The three searches
      are extended to the empty tree, which the manager never searches. */
  function MinSize<P>(t: Tree<P>, pages: nat): Found<P> {
    if t.Nil? then Missing
    else
      var r := MinSize(t.right, pages);
      if r.Hit? then r
      else if t.e.pages >= pages && !t.e.alloc then Hit(t.e)
      else MinSize(t.left, pages)
  }

  function EndOf<P>(e: Entry<P>): nat { e.addr + e.pages * 0x1000 }

  /** `avl_below`: the node ending at `addr`, with the difference in a 32-bit `int`. */
  function Below<P>(t: Tree<P>, addr: nat): Found<P> {
    if t.Nil? then Missing
    else
      var diff := Int32(addr - EndOf(t.e));
      if diff == 0 then Hit(t.e)
      else if diff < 0 then Below(t.left, addr)
      else Below(t.right, addr)
  }

  /** `avl_find`: the node starting at `addr`. */
  function Find<P>(t: Tree<P>, addr: nat): Found<P> {
    if t.Nil? then Missing
    else if t.e.addr == addr then Hit(t.e)
    else if addr < t.e.addr then Find(t.left, addr)
    else Find(t.right, addr)
  }

  // ------------------------------------------------------- the ordered list

  function InOrder<P>(t: Tree<P>): seq<Entry<P>> {
    if t.Nil? then [] else InOrder(t.left) + [t.e] + InOrder(t.right)
  }

  ghost predicate Sorted<P>(s: seq<Entry<P>>) {
    forall i, j :: 0 <= i < j < |s| ==> s[i].addr < s[j].addr
  }

  /** Stored heights are the real ones and no node leans by more than one. */
  predicate Avl<P>(t: Tree<P>) {
    t.Node? ==> t.height == Height(t) && -1 <= Balance(t) <= 1 && Avl(t.left) && Avl(t.right)
  }

  function Count<P>(t: Tree<P>): nat {
    if t.Nil? then 0 else 1 + Count(t.left) + Count(t.right)
  }
}
