/**
 `struct memory_manager` and its operations, kernel/system/mem_mgmt/vmm/mem_mgmt.c,
 over heap nodes, page tables and the free stack.
 */
module MemoryManagers {
  import opened AvlTree
  import opened AvlHeap
  import opened AddressSpaces
  import opened PhysicalPages
  import opened PageTables
  import opened Frames
  import R = VmmRuns
  import V = VmmTree
  import I = Intervals
  import AvlSearch
  import L = LowPages

  class MemoryManager {
    const space: AddressSpace
    var tree: AvlNode?
    var lock: bool
    ghost var shape: Shape
    ghost var data: map<nat, nat>
    ghost const nodes: set<nat>
    ghost const a: nat
    ghost const b: nat

    /** The heap holds the tree, and the tree is an index of the managed range. */
    ghost predicate Valid()
      reads this, space, space.pmm, space.pmm.pages, Nodes(shape)
    {
      && space.Valid() && Holds(tree, shape) && Separate(shape)
      && V.Indexes(shape, a, b) && b - a <= V.MAX_SPAN * 4096
    }

    ghost function Pages(): Store
      requires space.Valid()
      reads this, space, space.pmm, space.pmm.pages
    {
      Store(space.State(), data, nodes)
    }

    ghost function State(): R.Manager<AvlNode>
      requires space.Valid()
      reads this, space, space.pmm, space.pmm.pages
    {
      R.Manager(shape, Pages())
    }

    ghost function Range(): R.Range { R.Range(space.root, a, b) }

    /** `create_mgr`: one free interval. */
    constructor (space: AddressSpace, start: nat, pages: nat, ghost nodes: set<nat>)
      requires space.Valid() && 0 < pages <= V.MAX_SPAN
      ensures Valid() && !lock && this.space == space && a == start && b == start + pages * 4096
      ensures tree != null && fresh(tree) && shape == R.Create<AvlNode>(start, pages, tree)
      ensures Pages() == Store(space.State(), map[], nodes)
    {
      this.space := space;
      var n := new AvlNode(start, pages);
      tree, lock, shape, data := n, false, Insert(Nil, n, start, pages), map[];
      this.nodes, a, b := nodes, start, start + pages * 4096;
      new;
      assert InOrder(shape) == [shape.e];
      assert V.ListOf(shape)[0] == V.DataOf(shape.e);
    }

    /** `alloc_virt`: the node found is shrunk through its pointer after the insertion has relinked
        the tree around it. */
    method AllocVirt(pages: nat) returns (addr: nat, ghost p: AvlNode)
      requires Valid() && pages > 0
      modifies this`tree, this`shape, Nodes(shape)
      ensures Valid() && (addr, shape) == R.PlacedAt(old(shape), pages, p)
      ensures V.UsesNode(old(shape), pages) ==> fresh(p)
      ensures fresh(Nodes(shape) - old(Nodes(shape)))
    {
      hide Holds, Nodes, Separate, Insert, SetFields, MinSize, V.Indexes, R.PlacedAt, V.UsesNode, L.Aligned, L.FramesOf;
      ghost var t := shape;
      NeverEmpty(tree, t, a, b);
      p := tree;
      var n := MinSizeNode(tree, t, pages);
      NodesExist(t);
      if n == null {
        addr := 0;
      } else {
        HitHeld(tree, t, MinSize(t, pages), pages);
        addr := n.addr;
        p := TakeNode(n, pages);
      }
      NodeIsUsed(t, pages);
      if V.UsesNode(t, pages) { FreshPtr(t, p); }
      PlacedIs(t, a, b, pages, p);
    }

    /** `alloc_virt` once the node is found. */
    method TakeNode(n: AvlNode, pages: nat) returns (ghost p: AvlNode)
      requires Valid() && pages > 0 && tree != null && MinSize(shape, pages).Hit? && n == MinSize(shape, pages).e.ptr
      requires n in Nodes(shape) && n.addr == MinSize(shape, pages).e.addr && n.pageCount == MinSize(shape, pages).e.pages >= pages
      modifies this`tree, this`shape, Nodes(shape)
      ensures Holds(tree, shape) && Separate(shape) && fresh(Nodes(shape) - old(Nodes(shape)))
      ensures old(n.pageCount) != pages ==> fresh(p)
      ensures shape == SetFields(
        if old(n.pageCount) == pages then old(shape)
        else Insert(old(shape), p, old(n.addr) + pages * 4096, old(n.pageCount) - pages), n, pages, true)
    {
      hide Holds, Nodes, Separate, Insert, SetFields, MinSize, V.Indexes, L.Aligned, L.FramesOf;
      ghost var t := shape;
      p := tree;
      NodesExist(t);
      var pagesDiff, rest := n.pageCount - pages, n.addr + pages * 4096;
      if pagesDiff != 0 {
        NodeIsUsed(t, pages);
        V.RemainderAbsent(t, a, b, pages);
        var r;
        r, p := InsertNode(tree, t, rest, pagesDiff);
        shape := Insert(t, p, rest, pagesDiff);
        tree := r;
      }
      WriteNode(tree, shape, n, pages, true);
      SetFieldsNodes(shape, n, pages, true);
      shape := SetFields(shape, n, pages, true);
    }

    /** `malloc_pages`: null (zero) for no pages, otherwise lock, place, map fresh frames, unlock. */
    method MallocPages(pages: nat, write: bool, exec: bool, kernel: bool) returns (addr: nat, ghost p: AvlNode)
      requires Valid() && !lock
      modifies this, space, space.pmm`index, Nodes(shape)
      ensures Valid() && !lock && fresh(Nodes(shape) - old(Nodes(shape)))
      ensures State() == R.DoMalloc(old(State()), Range(), pages, R.MallocFlags(write, exec, kernel), p)
      ensures addr == if pages == 0 then 0 else R.PlacedAt(old(shape), pages, p).0
    {
      hide Holds, Nodes, Separate, V.Indexes, MapPages, R.PlacedAt, L.Aligned, L.FramesOf;
      NeverEmpty(tree, shape, a, b);
      p := tree;
      if pages == 0 { return 0, p; }
      lock := true;
      addr, p := AllocVirt(pages);
      NodesExist(shape);
      MapFresh(addr, pages, R.MallocFlags(write, exec, kernel));
      lock := false;
    }

    /** `map_memory`: null for no pages or an unaligned address, otherwise map the given frames. */
    method MapMemory(mapAddr: nat, pages: nat, kernel: bool) returns (addr: nat, ghost p: AvlNode)
      requires Valid() && !lock
      modifies this, space, space.pmm`index, Nodes(shape)
      ensures Valid() && !lock && fresh(Nodes(shape) - old(Nodes(shape)))
      ensures State() == R.DoMap(old(State()), Range(), mapAddr, pages, R.MapFlags(kernel), p)
      ensures addr == if pages == 0 || mapAddr % 4096 != 0 then 0 else R.PlacedAt(old(shape), pages, p).0
    {
      hide Holds, Nodes, Separate, V.Indexes, MapPages, R.PlacedAt, L.Aligned, L.FramesOf;
      NeverEmpty(tree, shape, a, b);
      p := tree;
      if pages == 0 || mapAddr % 4096 != 0 { return 0, p; }
      lock := true;
      addr, p := AllocVirt(pages);
      NodesExist(shape);
      MapGiven(addr, mapAddr, pages, R.MapFlags(kernel));
      lock := false;
    }

    /** The mapping loop of `malloc_pages`. */
    method MapFresh(addr: nat, pages: nat, pf: PageFlags)
      requires space.Valid()
      modifies this`data, space, space.pmm`index
      ensures space.Valid() && Pages() == MapPages(old(Pages()), space.root, addr, pages, Fresh, pf)
    {
      hide MapPages, MapOne, L.Aligned, L.FramesOf;
      var i := 0;
      assert addr + 0 * 4096 == addr;
      while i < pages
        invariant i <= pages && space.Valid()
        invariant MapPages(Pages(), space.root, addr + i * 4096, pages - i, Fresh, pf)
          == MapPages(old(Pages()), space.root, addr, pages, Fresh, pf)
      {
        MapPagesTurn(Pages(), space.root, addr + i * 4096, pages - i, Fresh, pf);
        MapFreshOne(addr + i * 4096, pf);
        i := i + 1;
      }
      MapPagesDone(Pages(), space.root, addr + i * 4096, Fresh, pf);
    }

    method MapFreshOne(vaddr: nat, pf: PageFlags)
      requires space.Valid()
      modifies this`data, space, space.pmm`index
      ensures space.Valid() && Pages() == MapOne(old(Pages()), space.root, PageOf(vaddr), Fresh, pf)
    {
      hide SetPage, L.Aligned, L.FramesOf;
      var x := space.TakePage();
      space.SetPageAt(vaddr, x * 4096, pf);
      data := data[PageOf(vaddr) := x];
    }

    /** The mapping loop of `map_memory`. */
    method MapGiven(addr: nat, mapAddr: nat, pages: nat, pf: PageFlags)
      requires space.Valid() && mapAddr % 4096 == 0
      modifies space, space.pmm`index
      ensures space.Valid() && Pages() == MapPages(old(Pages()), space.root, addr, pages, Given(mapAddr / 4096), pf)
    {
      hide SetPage, L.Aligned, L.FramesOf;
      var i := 0;
      while i < pages
        invariant i <= pages && space.Valid() && data == old(data)
        invariant MapPages(Pages(), space.root, addr + i * 4096, pages - i, Given(mapAddr / 4096 + i), pf)
          == MapPages(old(Pages()), space.root, addr, pages, Given(mapAddr / 4096), pf)
      {
        space.SetPageAt(addr + i * 4096, mapAddr + i * 4096, pf);
        assert (mapAddr + i * 4096) / 4096 == mapAddr / 4096 + i;
        i := i + 1;
      }
    }

    /** `free_pages`: unknown or free addresses are ignored, and the lock is released on every path. */
    method FreePagesAt(addr: nat)
      requires Valid() && !lock && HasRoomFor(Find(shape, addr), Pages(), space.root, addr, space.pmm.pages.Length)
      modifies this, space, space.pmm`index, space.pmm.pages, Nodes(shape)
      ensures Valid() && !lock && Nodes(shape) <= old(Nodes(shape))
      ensures State() == R.DoFree(old(State()), Range(), addr)
    {
      hide Holds, Nodes, Separate, V.Coalesce, V.FreeVirt, SetFields, Find, FreePages, V.Indexes, R.DoFree, FreesFit, L.Aligned, L.FramesOf;
      lock := true;
      ghost var t, m := shape, State();
      NodesExist(t);
      var n := Lookup(addr);
      FreeIs(m, Range(), addr);
      if n == null || !n.alloc {
        lock := false;
        return;
      }
      FreeFound(n, addr);
      FreeKeepsIndex(t, a, b, addr);
      lock := false;
    }

    /** `avl_find`, and what the node found says of its block. */
    method Lookup(addr: nat) returns (n: AvlNode?)
      requires Holds(tree, shape)
      ensures n != null <==> Find(shape, addr).Hit?
      ensures n != null ==> n == Find(shape, addr).e.ptr && n.alloc == Find(shape, addr).e.alloc
    {
      n := FindNode(tree, shape, addr);
      if n != null { FoundHeld(tree, shape, addr); }
    }

    /** `free_pages` once the node is found and in use. */
    method FreeFound(n: AvlNode, addr: nat)
      requires Valid() && HasRoomFor(Find(shape, addr), Pages(), space.root, addr, space.pmm.pages.Length)
      requires Find(shape, addr).Hit? && Find(shape, addr).e.ptr == n && Find(shape, addr).e.alloc
      modifies this`tree, this`shape, this`data, space, space.pmm`index, space.pmm.pages, Nodes(shape)
      ensures space.Valid() && Holds(tree, shape) && Separate(shape) && Nodes(shape) <= old(Nodes(shape))
      ensures shape == V.FreeVirt(old(shape), addr)
      ensures Pages() == FreePages(old(Pages()), space.root, addr, old(Find(shape, addr).e.pages))
    {
      hide Holds, Nodes, Separate, V.Coalesce, SetFields, Find, FreePages, V.Indexes, FreesFit, InOrder, Standing, L.Aligned, L.FramesOf;
      ghost var e := Find(shape, addr).e;
      var pages;
      ghost var i;
      pages, i := MarkFree(n, addr);
      NodesExist(shape);
      FreeLoop(addr, pages);
      CoalesceNodes(n, addr, i);
    }

    /** The node found is marked free. */
    method MarkFree(n: AvlNode, addr: nat) returns (pages: nat, ghost i: nat)
      requires Valid() && Find(shape, addr).Hit? && Find(shape, addr).e.ptr == n && Find(shape, addr).e.alloc
      modifies this`shape, Nodes(shape)
      ensures pages == old(Find(shape, addr).e.pages) && shape == SetFields(old(shape), n, pages, false)
      ensures Nodes(shape) == old(Nodes(shape)) && Standing(i)
      ensures InOrder(shape)[i] == old(Find(shape, addr).e).(alloc := false) && InOrder(shape)[i].addr == addr
    {
      hide Holds, Nodes, Separate, SetFields, Find, V.Indexes, InOrder, L.Aligned, L.FramesOf;
      ghost var t := shape;
      NodesExist(t);
      FoundHeld(tree, t, addr);
      i := FreeStart(t, a, b, addr);
      pages := n.pageCount;
      WriteNode(tree, t, n, pages, false);
      SetFieldsNodes(t, n, pages, false);
      shape := SetFields(t, n, pages, false);
    }

    /** The loop of `free_pages` over the pages of the block. */
    method FreeLoop(addr: nat, pages: nat)
      requires space.Valid() && FreesFit(Pages(), space.root, addr, pages, space.pmm.pages.Length)
      modifies this`data, space, space.pmm`index, space.pmm.pages
      ensures space.Valid() && Pages() == FreePages(old(Pages()), space.root, addr, pages)
    {
      hide FreePages, FreeOne, FreesFit, L.Aligned, L.FramesOf;
      var i := 0;
      assert addr + 0 * 4096 == addr;
      while i < pages
        invariant i <= pages && space.Valid() && space.pmm.pages == old(space.pmm.pages)
        invariant FreesFit(Pages(), space.root, addr + i * 4096, pages - i, space.pmm.pages.Length)
        invariant FreePages(Pages(), space.root, addr + i * 4096, pages - i) == FreePages(old(Pages()), space.root, addr, pages)
      {
        FreePagesTurn(Pages(), space.root, addr + i * 4096, pages - i);
        FreesFitTurn(Pages(), space.root, addr + i * 4096, pages - i, space.pmm.pages.Length);
        FreeLoopOne(addr + i * 4096);
        i := i + 1;
      }
      FreePagesDone(Pages(), space.root, addr + i * 4096);
    }

    method FreeLoopOne(vaddr: nat)
      requires space.Valid() && |FreeOne(Pages(), space.root, PageOf(vaddr)).sys.stack| <= space.pmm.pages.Length
      modifies this`data, space, space.pmm`index, space.pmm.pages
      ensures space.Valid() && Pages() == FreeOne(old(Pages()), space.root, PageOf(vaddr))
    {
      hide FreePage, L.Aligned, L.FramesOf;
      space.FreePageAt(vaddr);
      data := data - {PageOf(vaddr)};
    }

    /** The two coalescing steps, through the pointers `n`, `prev` and `after`. */
    method CoalesceNodes(n: AvlNode, addr: nat, ghost i: nat)
      requires Standing(i) && InOrder(shape)[i].ptr == n && InOrder(shape)[i].addr == addr
      modifies this`tree, this`shape, Nodes(shape)
      ensures Holds(tree, shape) && Separate(shape) && Nodes(shape) <= old(Nodes(shape))
      ensures shape == V.Coalesce(old(shape), old(InOrder(shape)[i]))
    {
      hide Holds, Nodes, Separate, InOrder, Below, V.AbsorbAfter, V.AbsorbedBy, V.DistinctPtrs, I.Tiles, L.Aligned, L.FramesOf;
      ghost var t := shape;
      V.BelowAt(t, a, b, i);
      var prev := BelowNode(tree, t, addr);
      if i > 0 { EntryHeld(tree, t, InOrder(t)[i - 1]); }
      NodesExist(t);
      if prev != null && !prev.alloc {
        V.AbsorbedByList(t, a, b, i - 1);
        I.MergeTiles(V.ListOf(t), a, b, i - 1);
        AbsorbedByNode(prev, n, addr, i - 1);
        AbsorbAfterNode(prev, i - 1);
      } else {
        AbsorbAfterNode(n, i);
      }
    }

    /** The state between the steps of `free_pages`: entry `i` has just become free. */
    ghost predicate Standing(i: nat)
      reads this`tree, this`shape, Nodes(shape)
    {
      && Holds(tree, shape) && Separate(shape) && b - a <= V.MAX_SPAN * 4096
      && I.Tiles(V.ListOf(shape), a, b) && V.DistinctPtrs(InOrder(shape))
      && i < |InOrder(shape)| && !InOrder(shape)[i].alloc
    }

    /** `prev` takes over: its node survives the removal of its right neighbour. */
    method AbsorbedByNode(prev: AvlNode, n: AvlNode, addr: nat, ghost j: nat)
      requires Holds(tree, shape) && Separate(shape) && b - a <= V.MAX_SPAN * 4096
      requires I.Tiles(V.ListOf(shape), a, b) && V.DistinctPtrs(InOrder(shape)) && j + 1 < |InOrder(shape)|
      requires prev == InOrder(shape)[j].ptr && n == InOrder(shape)[j + 1].ptr && addr == InOrder(shape)[j + 1].addr
      modifies this`tree, this`shape, Nodes(shape)
      ensures Holds(tree, shape) && Separate(shape) && Nodes(shape) <= old(Nodes(shape))
      ensures shape == V.AbsorbedBy(old(shape), old(InOrder(shape)[j]), old(InOrder(shape)[j + 1]))
    {
      hide Holds, Nodes, Separate, InOrder, V.DistinctPtrs, Delete, SetFields, L.Aligned, L.FramesOf;
      ghost var t := shape;
      ghost var s := InOrder(t);
      EntryHeld(tree, t, s[j + 1]);
      V.TilesSorted(s, a, b);
      V.DeleteAt(t, j + 1);
      assert InOrder(Delete(t, addr))[j] == InOrder(Delete(t, addr))[..j + 1][j] == s[..j + 1][j];
      var pagesOld := n.pageCount;
      tree := DeleteNode(tree, t, addr);
      shape := Delete(t, addr);
      EntryHeld(tree, shape, s[j]);
      var pages, alloc := prev.pageCount + pagesOld, prev.alloc;
      SetFieldsNodes(shape, prev, pages, alloc);
      WriteNode(tree, shape, prev, pages, alloc);
      shape := SetFields(shape, prev, pages, alloc);
    }

    /** `n` takes over the free interval after it, if there is one. */
    method AbsorbAfterNode(n: AvlNode, ghost j: nat)
      requires Standing(j) && n == InOrder(shape)[j].ptr
      modifies this`tree, this`shape, Nodes(shape)
      ensures Holds(tree, shape) && Separate(shape) && Nodes(shape) <= old(Nodes(shape))
      ensures shape == V.AbsorbAfter(old(shape), old(InOrder(shape)[j]))
    {
      hide Holds, Nodes, Separate, InOrder, V.DistinctPtrs, Delete, SetFields, Find, I.Tiles, L.Aligned, L.FramesOf;
      ghost var t := shape;
      ghost var e := InOrder(t)[j];
      EntryHeld(tree, t, e);
      var after := FindNode(tree, t, n.addr + n.pageCount * 0x1000);
      if after != null {
        FoundHeldAt(tree, t, a, b, EndOf(e), j);
        if !after.alloc {
          ghost var f := Find(t, EndOf(e)).e;
          assert V.AbsorbAfter(t, e) == V.Absorbs(t, e, f);
          var pages, alloc := n.pageCount + after.pageCount, n.alloc;
          assert pages == e.pages + f.pages && alloc == e.alloc;
          SetFieldsNodes(t, n, pages, alloc);
          WriteNode(tree, t, n, pages, alloc);
          shape := SetFields(t, n, pages, alloc);
          var at := after.addr;
          assert at == f.addr;
          tree := DeleteNode(tree, shape, at);
          shape := Delete(shape, at);
        }
      }
    }
  }

  /** The stack buffer can take back the usable pages of the block, if a block in use was found. */
  ghost predicate HasRoomFor(f: Found<AvlNode>, st: Store, root: nat, addr: nat, cap: nat) {
    f.Hit? && f.e.alloc ==> FreesFit(st, root, addr, f.e.pages, cap)
  }

  lemma FreesFitTurn(st: Store, root: nat, addr: nat, n: nat, cap: nat)
    requires n > 0 && FreesFit(st, root, addr, n, cap)
    ensures |FreeOne(st, root, PageOf(addr)).sys.stack| <= cap
    ensures FreesFit(FreeOne(st, root, PageOf(addr)), root, addr + 4096, n - 1, cap)
  {
  }

  lemma FoundHeld(n: AvlNode?, t: Shape, addr: nat)
    requires Holds(n, t) && Find(t, addr).Hit?
    ensures var e := Find(t, addr).e;
      && e in InOrder(t) && e.ptr in Nodes(t) && e.addr == addr
      && e.ptr.addr == e.addr && e.ptr.pageCount == e.pages && e.ptr.alloc == e.alloc
  {
    FindSound(t, addr);
    EntryHeld(n, t, Find(t, addr).e);
  }

  lemma {:induction false} FindSound<P>(t: Tree<P>, addr: nat)
    ensures Find(t, addr).Hit? ==> Find(t, addr).e in InOrder(t) && Find(t, addr).e.addr == addr
    decreases t
  {
    if t.Node? { FindSound(t.left, addr); FindSound(t.right, addr); }
  }

  lemma FoundHeldAt(n: AvlNode?, t: Shape, a: nat, b: nat, addr: nat, j: nat)
    requires Holds(n, t) && Find(t, addr).Hit?
    requires I.Tiles(V.ListOf(t), a, b) && V.DistinctPtrs(InOrder(t)) && j < |InOrder(t)| && addr == EndOf(InOrder(t)[j])
    ensures var e := Find(t, addr).e;
      && e.ptr in Nodes(t) && e.ptr != InOrder(t)[j].ptr
      && e.ptr.addr == e.addr && e.ptr.pageCount == e.pages && e.ptr.alloc == e.alloc
  {
    FoundHeld(n, t, addr);
    var s := InOrder(t);
    V.TilesSorted(s, a, b);
    var k :| 0 <= k < |s| && s[k] == Find(t, addr).e;
    assert k != j;
  }

  /** Where `free_pages` starts: the entry marked free, in a list that still tiles the range. */
  lemma FreeStart(t: Shape, a: nat, b: nat, addr: nat) returns (i: nat)
    requires V.Indexes(t, a, b) && Find(t, addr).Hit? && Find(t, addr).e.alloc
    ensures var e := Find(t, addr).e;
      var u := SetFields(t, e.ptr, e.pages, false);
      && i < |InOrder(u)| && InOrder(u)[i] == e.(alloc := false)
      && I.Tiles(V.ListOf(u), a, b) && V.DistinctPtrs(InOrder(u)) && e.addr == addr
  {
    hide Find, SetFields, InOrder;
    FindSound(t, addr);
    var e, s := Find(t, addr).e, InOrder(t);
    i :| 0 <= i < |s| && s[i] == e;
    V.SetFieldsAt(t, i, e.pages, false);
    V.SetDistinct(s, i, e.pages, false);
    I.FlipTiles(V.ListOf(t), a, b, i);
    assert V.Data(s)[i] == V.DataOf(s[i]);
    assert V.Data(s[i := e.(alloc := false)]) == V.Data(s)[i := V.Data(s)[i].(alloc := false)];
  }

  lemma FreeKeepsIndex(t: Shape, a: nat, b: nat, addr: nat)
    requires V.Indexes(t, a, b) && b - a <= V.MAX_SPAN * 4096
    ensures V.Indexes(V.FreeVirt(t, addr), a, b)
  {
    hide V.Indexes, V.FreeVirt, V.ListOf, I.Free;
    V.FreeVirtRefines(t, a, b, addr);
  }

  /** `free_pages` by cases. */
  lemma FreeIs<P>(m: R.Manager<P>, r: R.Range, addr: nat)
    ensures R.DoFree(m, r, addr) ==
      if Find(m.tree, addr).Hit? && Find(m.tree, addr).e.alloc
      then R.Manager(V.FreeVirt(m.tree, addr), FreePages(m.store, r.root, addr, Find(m.tree, addr).e.pages))
      else m
  {
    hide V.FreeVirt, FreePages, Find;
  }

  lemma FreePagesTurn(st: Store, root: nat, addr: nat, n: nat)
    requires n > 0
    ensures FreePages(st, root, addr, n) == FreePages(FreeOne(st, root, PageOf(addr)), root, addr + 4096, n - 1)
  {
  }

  lemma FreePagesDone(st: Store, root: nat, addr: nat)
    ensures FreePages(st, root, addr, 0) == st
  {
  }

  lemma MapPagesTurn(st: Store, root: nat, addr: nat, n: nat, src: Source, pf: PageFlags)
    requires n > 0
    ensures MapPages(st, root, addr, n, src, pf)
      == MapPages(MapOne(st, root, PageOf(addr), src, pf), root, addr + 4096, n - 1, Advance(src), pf)
  {
  }

  lemma MapPagesDone(st: Store, root: nat, addr: nat, src: Source, pf: PageFlags)
    ensures MapPages(st, root, addr, 0, src, pf) == st
  {
  }

  lemma FreshPtr(t: Shape, p: AvlNode)
    requires p !in Nodes(t)
    ensures !V.HasPtr(InOrder(t), p)
  {
    PtrsAreNodes(t);
  }

  lemma {:induction false} PtrsAreNodes(t: Shape)
    ensures forall i :: 0 <= i < |InOrder(t)| ==> InOrder(t)[i].ptr in Nodes(t)
    decreases t
  {
    if t.Node? { PtrsAreNodes(t.left); PtrsAreNodes(t.right); }
  }

  lemma NodeIsUsed(t: Shape, pages: nat)
    ensures V.UsesNode(t, pages) <==> MinSize(t, pages).Hit? && MinSize(t, pages).e.pages > pages
  {
  }

  /** `alloc_virt` by cases, and the tree it leaves. */
  lemma PlacedIs(t: Shape, a: nat, b: nat, pages: nat, p: AvlNode)
    requires V.Indexes(t, a, b) && pages > 0 && (V.UsesNode(t, pages) ==> !V.HasPtr(InOrder(t), p))
    ensures R.PlacedAt(t, pages, p) ==
      if MinSize(t, pages).Missing? then (0, t)
      else
        var e := MinSize(t, pages).e;
        (e.addr, SetFields(if e.pages > pages then Insert(t, p, e.addr + pages * 4096, e.pages - pages) else t, e.ptr, pages, true))
    ensures V.Indexes(R.PlacedAt(t, pages, p).1, a, b)
  {
    hide Insert, SetFields, MinSize, V.Indexes, V.ListOf, I.Allocate, V.HasPtr;
    V.AllocVirtRefines(t, a, b, pages, p);
  }

  /** A tree that indexes a range has a root. */
  lemma NeverEmpty(n: AvlNode?, t: Shape, a: nat, b: nat)
    requires Holds(n, t) && V.Indexes(t, a, b)
    ensures t.Node? && n != null
  {
  }

  lemma HitHeld(n: AvlNode?, t: Shape, f: Found<AvlNode>, pages: nat)
    requires Holds(n, t) && f == MinSize(t, pages) && f.Hit?
    ensures f.e.ptr in Nodes(t) && f.e.ptr.addr == f.e.addr && f.e.ptr.pageCount == f.e.pages >= pages
  {
    AvlSearch.MinSizeIsScan(t, pages);
    V.ScanFitAt(InOrder(t), pages);
    EntryHeld(n, t, f.e);
  }
}
