/**
 Why the span of a manager matters: in a range of more than 0x8_0001 pages the
 32-bit difference of `avl_below` (kernel/system/mem_mgmt/vmm/avl_tree.c) misses
 a neighbour, and `free_pages` leaves two free intervals side by side.
 */
module WideSpans {
  import opened AvlTree
  import opened VmmTree
  import opened Words
  import I = Intervals

  /** One page more than `avl_below` can look across. */
  const MIDDLE := MAX_SPAN

  lemma FreeSkips(t: Tree<int>, u: Tree<int>, n: Entry<int>)
    requires Find(t, n.addr) == Hit(n) && n.alloc && u == SetFields(t, n.ptr, n.pages, false)
    requires var b := Below(u, n.addr); b.Missing? || b.e.alloc
    requires var f := Find(u, EndOf(n)); f.Missing? || f.e.alloc
    ensures FreeVirt(t, n.addr) == u
  {
    hide Find, Below, SetFields;
    assert EndOf(n.(alloc := false)) == EndOf(n);
  }

  // --------------------------------------------------------------------- runs

  datatype Op = Take(pages: nat, p: int) | Give(addr: nat)

  function Step(t: Tree<int>, op: Op): Tree<int> {
    match op
    case Take(pages, p) => (match AllocVirt(t, pages, p) case Failed => t case Put(_, t') => t')
    case Give(addr) => FreeVirt(t, addr)
  }

  function Run(t: Tree<int>, ops: seq<Op>): Tree<int> {
    if ops == [] then t else Step(Run(t, ops[..|ops| - 1]), ops[|ops| - 1])
  }

  function Create(a: nat, pages: nat): Tree<int> { Insert(Nil, 0, a, pages) }

  function Leaf(p: int, addr: nat, pages: nat, alloc: bool): Tree<int> { Node(Entry(p, addr, pages, alloc), 0, Nil, Nil) }

  // -------------------------------------------------- three blocks, or only two

  /** One page, the middle block above it, and the rest. */
  function Three(a: nat, pages: nat, low: bool, mid: bool, high: bool): Tree<int>
    requires pages > MIDDLE + 1
  {
    Node(Entry(1, a + 0x1000, MIDDLE, mid), 1, Leaf(0, a, 1, low), Leaf(2, a + (MIDDLE + 1) * 0x1000, pages - MIDDLE - 1, high))
  }

  /** One page, and a block above it. */
  function Two(a: nat, n: nat, low: bool, high: bool): Tree<int> {
    Node(Entry(1, a + 0x1000, n, high), 1, Leaf(0, a, 1, low), Nil)
  }

  /** The tree before the last free: a balanced search tree that tiles the range, with a free interval
      below the block to be freed. */
  function Wide(a: nat, pages: nat): Tree<int>
    requires pages > MAX_SPAN
  {
    if pages == MIDDLE + 1 then Two(a, MIDDLE, false, true) else Three(a, pages, false, true, true)
  }

  lemma ThreeList(a: nat, pages: nat, low: bool, mid: bool, high: bool)
    requires pages > MIDDLE + 1
    ensures var t := Three(a, pages, low, mid, high);
      && InOrder(t) == [t.left.e, t.e, t.right.e] && Avl(t) && DistinctPtrs(InOrder(t))
      && ListOf(t) == [I.Iv(a, 1, low), I.Iv(a + 0x1000, MIDDLE, mid), I.Iv(a + (MIDDLE + 1) * 0x1000, pages - MIDDLE - 1, high)]
  {
    var t := Three(a, pages, low, mid, high);
    assert InOrder(t.left) == [t.left.e] && InOrder(t.right) == [t.right.e];
  }

  lemma TwoList(a: nat, n: nat, low: bool, high: bool)
    ensures var t := Two(a, n, low, high);
      && InOrder(t) == [t.left.e, t.e] && Avl(t) && DistinctPtrs(InOrder(t))
      && ListOf(t) == [I.Iv(a, 1, low), I.Iv(a + 0x1000, n, high)]
  {
    var t := Two(a, n, low, high);
    assert InOrder(t.left) == [t.left.e];
  }

  /** The differences that wrap. */
  lemma Wrapped()
    ensures Int32(-(MIDDLE * 0x1000)) > 0 && Int32(-((MIDDLE + 1) * 0x1000)) > 0
  {
  }

  /** For every larger span there is a balanced tree that tiles it, on which `avl_below` does not find
      the interval that ends where the second one starts. */
  lemma BelowMisses(a: nat, pages: nat)
    requires pages > MAX_SPAN
    ensures var t := Wide(a, pages);
      && Avl(t) && DistinctPtrs(InOrder(t)) && I.Tiles(ListOf(t), a, a + pages * 4096) && |InOrder(t)| >= 2
      && EndOf(InOrder(t)[0]) == InOrder(t)[1].addr && Below(t, InOrder(t)[1].addr) != Hit(InOrder(t)[0])
  {
    var t := Wide(a, pages);
    Wrapped();
    if pages == MIDDLE + 1 {
      TwoList(a, MIDDLE, false, true);
      assert a + 0x1000 - EndOf(t.e) == -(MIDDLE * 0x1000);
    } else {
      ThreeList(a, pages, false, true, true);
      assert a + 0x1000 - EndOf(t.e) == -(MIDDLE * 0x1000);
      assert Below(t, a + 0x1000) == Below(t.right, a + 0x1000);
    }
  }

  // ------------------------------------------------------------------ the run

  function Script(a: nat, pages: nat): seq<Op>
    requires pages > MAX_SPAN
  {
    if pages == MIDDLE + 1 then
      [Take(1, 1), Take(1, 2), Give(a + 0x1000), Take(MIDDLE, 3), Give(a), Give(a + 0x1000)]
    else
      [Take(1, 1), Take(MIDDLE, 2), Take(pages - MIDDLE - 1, 3), Give(a), Give(a + 0x1000)]
  }

  /** After the first allocation. */
  function Split(a: nat, pages: nat): Tree<int>
    requires pages > 1
  {
    Node(Entry(0, a, 1, true), 1, Nil, Leaf(1, a + 0x1000, pages - 1, false))
  }

  lemma FirstTake(a: nat, pages: nat)
    requires pages > 2
    ensures Step(Create(a, pages), Take(1, 1)) == Split(a, pages)
  {
    var t := Create(a, pages);
    assert t == Leaf(0, a, pages, false);
    assert MinSize(t, 1) == Hit(t.e);
    var t1 := Insert(t, 1, a + 0x1000, pages - 1);
    assert t1 == Node(t.e, 1, Nil, Leaf(1, a + 0x1000, pages - 1, false)) by {
      assert Insert(Nil, 1, a + 0x1000, pages - 1) == Leaf(1, a + 0x1000, pages - 1, false);
    }
    assert SetFields(t1.right, 0, 1, true) == t1.right;
    assert SetFields(t1, 0, 1, true) == Split(a, pages);
  }

  /** The second allocation, of `n` pages, rotates the tree. */
  lemma SecondTake(a: nat, pages: nat, n: nat)
    requires 0 < n && n + 1 < pages
    ensures Step(Split(a, pages), Take(n, 2)) ==
      Node(Entry(1, a + 0x1000, n, true), 1, Leaf(0, a, 1, true), Leaf(2, a + (n + 1) * 0x1000, pages - n - 1, false))
  {
    var t, x := Split(a, pages), a + (n + 1) * 0x1000;
    assert MinSize(t.right, n) == Hit(t.right.e);
    assert MinSize(t, n) == Hit(t.right.e);
    assert t.right.e.addr + n * 4096 == x;
    var r := Insert(t.right, 2, x, pages - n - 1);
    assert Insert(Nil, 2, x, pages - n - 1) == Leaf(2, x, pages - n - 1, false);
    assert r == Node(t.right.e, 1, Nil, Leaf(2, x, pages - n - 1, false));
    var t1 := Insert(t, 2, x, pages - n - 1);
    assert t1 == Rebalance(t.(right := r));
    assert t1 == Node(t.right.e, 1, Leaf(0, a, 1, true), Leaf(2, x, pages - n - 1, false));
    assert SetFields(t1.left, 1, n, true) == t1.left && SetFields(t1.right, 1, n, true) == t1.right;
  }

  lemma WideRun(a: nat, pages: nat)
    requires pages > MIDDLE + 1
    ensures Run(Create(a, pages), Script(a, pages)) == Three(a, pages, false, false, true)
  {
    var ops, t0 := Script(a, pages), Create(a, pages);
    FirstTake(a, pages);
    SecondTake(a, pages, MIDDLE);
    TakeRest(a, pages);
    GiveLow(a, pages);
    GiveMiddle(a, pages);
    hide Step, Create, Three, Split;
    RunFive(t0, ops);
  }

  lemma RunFive(t: Tree<int>, ops: seq<Op>)
    requires |ops| == 5
    ensures Run(t, ops) == Step(Step(Step(Step(Step(t, ops[0]), ops[1]), ops[2]), ops[3]), ops[4])
  {
    hide Step;
    assert ops[..4][..3] == ops[..3] && ops[..3][..2] == ops[..2] && ops[..2][..1] == ops[..1] && ops[..1][..0] == [];
    assert Run(t, ops[..1]) == Step(t, ops[0]);
    assert Run(t, ops[..2]) == Step(Run(t, ops[..1]), ops[1]);
    assert Run(t, ops[..3]) == Step(Run(t, ops[..2]), ops[2]);
    assert Run(t, ops[..4]) == Step(Run(t, ops[..3]), ops[3]);
  }

  lemma TakeRest(a: nat, pages: nat)
    requires pages > MIDDLE + 1
    ensures Step(Three(a, pages, true, true, false), Take(pages - MIDDLE - 1, 3)) == Three(a, pages, true, true, true)
  {
    var t, n := Three(a, pages, true, true, false), pages - MIDDLE - 1;
    assert MinSize(t.right, n) == Hit(t.right.e);
    assert SetFields(t.left, 2, n, true) == t.left;
    assert SetFields(t.right, 2, n, true) == Leaf(2, t.right.e.addr, n, true);
  }

  lemma GiveLow(a: nat, pages: nat)
    requires pages > MIDDLE + 1
    ensures Step(Three(a, pages, true, true, true), Give(a)) == Three(a, pages, false, true, true)
  {
    var t, u := Three(a, pages, true, true, true), Three(a, pages, false, true, true);
    assert Find(t.left, a) == Hit(t.left.e);
    assert Find(t, a) == Hit(t.left.e);
    assert SetFields(t.left, 0, 1, false) == u.left && SetFields(t.right, 0, 1, false) == u.right;
    assert SetFields(t, 0, 1, false) == u;
    Wrapped();
    assert a - EndOf(u.e) == -((MIDDLE + 1) * 0x1000);
    assert Below(u, a) == Below(u.right, a);
    assert Below(u.right, a) == Missing || Below(u.right, a) == Hit(u.right.e);
    assert Find(u, a + 0x1000) == Hit(u.e);
    FreeSkips(t, u, t.left.e);
  }

  lemma GiveMiddle(a: nat, pages: nat)
    requires pages > MIDDLE + 1
    ensures Step(Three(a, pages, false, true, true), Give(a + 0x1000)) == Three(a, pages, false, false, true)
  {
    var t, u := Three(a, pages, false, true, true), Three(a, pages, false, false, true);
    assert Find(t, a + 0x1000) == Hit(t.e);
    assert SetFields(t.left, 1, MIDDLE, false) == u.left && SetFields(t.right, 1, MIDDLE, false) == u.right;
    assert SetFields(t, 1, MIDDLE, false) == u;
    Wrapped();
    assert a + 0x1000 - EndOf(u.e) == -(MIDDLE * 0x1000);
    assert Below(u, a + 0x1000) == Below(u.right, a + 0x1000);
    assert EndOf(u.e) == u.right.e.addr;
    assert Find(u.right, u.right.e.addr) == Hit(u.right.e);
    assert Below(u.right, a + 0x1000) == Missing || Below(u.right, a + 0x1000) == Hit(u.right.e);
    assert Find(u, EndOf(u.e)) == Hit(u.right.e);
    FreeSkips(t, u, t.e);
  }

  // ------------------------------------------------- exactly one page too many

  lemma GiveSecond(a: nat, pages: nat)
    requires pages == MIDDLE + 1
    ensures Step(Node(Entry(1, a + 0x1000, 1, true), 1, Leaf(0, a, 1, true), Leaf(2, a + 0x2000, pages - 2, false)), Give(a + 0x1000)) ==
      Two(a, MIDDLE, true, false)
  {
    var l, r := Leaf(0, a, 1, true), Leaf(2, a + 0x2000, pages - 2, false);
    var t := Node(Entry(1, a + 0x1000, 1, true), 1, l, r);
    var u := t.(e := t.e.(alloc := false));
    assert Find(t, a + 0x1000) == Hit(t.e);
    assert SetFields(l, 1, 1, false) == l && SetFields(r, 1, 1, false) == r;
    assert SetFields(t, 1, 1, false) == u;
    assert Below(l, a + 0x1000) == Hit(l.e);
    assert Int32(a + 0x1000 - EndOf(u.e)) == -0x1000;
    assert Below(u, a + 0x1000) == Hit(l.e);
    assert Find(r, a + 0x2000) == Hit(r.e);
    assert EndOf(u.e) == a + 0x2000 && Find(u, a + 0x2000) == Hit(r.e);
    var v := SetFields(u, 1, 1 + (pages - 2), false);
    assert SetFields(l, 1, MIDDLE, false) == l && SetFields(r, 1, MIDDLE, false) == r;
    assert v == Node(Entry(1, a + 0x1000, MIDDLE, false), 1, l, r);
    assert Delete(r, a + 0x2000) == Nil;
    assert Delete(v, a + 0x2000) == Rebalance(v.(right := Nil));
  }

  lemma TakeWhole(a: nat)
    ensures Step(Two(a, MIDDLE, true, false), Take(MIDDLE, 3)) == Two(a, MIDDLE, true, true)
  {
    var t := Two(a, MIDDLE, true, false);
    assert MinSize(t, MIDDLE) == Hit(t.e);
    assert SetFields(t.left, 1, MIDDLE, true) == t.left;
  }

  lemma GiveBoth(a: nat)
    ensures Step(Step(Two(a, MIDDLE, true, true), Give(a)), Give(a + 0x1000)) == Two(a, MIDDLE, false, false)
  {
    var t, u, v := Two(a, MIDDLE, true, true), Two(a, MIDDLE, false, true), Two(a, MIDDLE, false, false);
    Wrapped();
    assert Find(t.left, a) == Hit(t.left.e);
    assert SetFields(t.left, 0, 1, false) == u.left;
    assert SetFields(t, 0, 1, false) == u;
    assert a - EndOf(u.e) == -((MIDDLE + 1) * 0x1000);
    assert Below(u, a) == Missing;
    assert Find(u, a + 0x1000) == Hit(u.e);
    FreeSkips(t, u, t.left.e);
    assert Step(t, Give(a)) == u;
    assert SetFields(u.left, 1, MIDDLE, false) == u.left;
    assert SetFields(u, 1, MIDDLE, false) == v;
    assert a + 0x1000 - EndOf(v.e) == -(MIDDLE * 0x1000);
    assert Below(v, a + 0x1000) == Missing;
    assert Find(v, EndOf(v.e)) == Missing;
    FreeSkips(u, v, u.e);
  }

  lemma NarrowRun(a: nat, pages: nat)
    requires pages == MIDDLE + 1
    ensures Run(Create(a, pages), Script(a, pages)) == Two(a, MIDDLE, false, false)
  {
    var ops, t0 := Script(a, pages), Create(a, pages);
    FirstTake(a, pages);
    SecondTake(a, pages, 1);
    GiveSecond(a, pages);
    TakeWhole(a);
    GiveBoth(a);
    hide Step, Create, Two, Split;
    RunFive(t0, ops[..5]);
    assert Run(t0, ops) == Step(Run(t0, ops[..5]), ops[5]);
  }

  // ------------------------------------------------------------------- result

  /** For every span of more than 0x8_0001 pages there is a run from creation on, of allocations and
      frees that all find what they look for, after which two free intervals lie side by side. */
  lemma WideSpanUnmerged(a: nat, pages: nat)
    requires pages > MAX_SPAN
    ensures var d := ListOf(Run(Create(a, pages), Script(a, pages)));
      && I.Tiles(d, a, a + pages * 4096) && |d| >= 2 && !d[0].alloc && !d[1].alloc
      && !I.Managed(d, a, a + pages * 4096)
  {
    if pages == MIDDLE + 1 {
      NarrowRun(a, pages);
      TwoList(a, MIDDLE, false, false);
    } else {
      WideRun(a, pages);
      ThreeList(a, pages, false, false, true);
    }
  }
}
