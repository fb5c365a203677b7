/**
 Whole runs of the virtual memory manager: `create_mgr`, `malloc_pages`,
 `map_memory` and `free_pages` of kernel/system/mem_mgmt/vmm/mem_mgmt.c, with
 the interval tree, the page tables and the free stack in one state.
 */
module VmmRuns {
  import opened AvlTree
  import opened PageTables
  import opened PagingProofs
  import opened Frames
  import V = VmmTree
  import I = Intervals

  /** `root` is the top-level table, `[a, b)` the managed range of addresses. */
  datatype Manager<P> = Manager(tree: Tree<P>, store: Store)
  datatype Range = Range(root: nat, a: nat, b: nat)

  // ------------------------------------------------------------- operations

  datatype Op<P> =
    | Malloc(pages: nat, write: bool, exec: bool, kernel: bool, p: P)
    | MapMemory(addr: nat, pages: nat, kernel: bool, p: P)
    | FreePagesAt(addr: nat)
    | NodePageTaken
    | NodePageReturned(frame: nat)

  function MallocFlags(write: bool, exec: bool, kernel: bool): PageFlags {
    PageFlags(write, exec, kernel, true, true)
  }

  function MapFlags(kernel: bool): PageFlags { PageFlags(false, false, kernel, false, true) }

  /** Address and tree after `alloc_virt`; the null pointer is address 0. */
  function PlacedAt<P(==)>(t: Tree<P>, pages: nat, p: P): (nat, Tree<P>) {
    match V.AllocVirt(t, pages, p)
    case Failed => (0, t)
    case Put(addr, t') => (addr, t')
  }

  function DoMalloc<P(==)>(m: Manager<P>, r: Range, pages: nat, pf: PageFlags, p: P): Manager<P> {
    if pages == 0 then m
    else
      var (addr, t) := PlacedAt(m.tree, pages, p);
      Manager(t, MapPages(m.store, r.root, addr, pages, Fresh, pf))
  }

  function DoMap<P(==)>(m: Manager<P>, r: Range, at: nat, pages: nat, pf: PageFlags, p: P): Manager<P> {
    if pages == 0 || at % 4096 != 0 then m
    else
      var (addr, t) := PlacedAt(m.tree, pages, p);
      Manager(t, MapPages(m.store, r.root, addr, pages, Given(at / 4096), pf))
  }

  function DoFree<P(==)>(m: Manager<P>, r: Range, addr: nat): Manager<P> {
    match Find(m.tree, addr)
    case Missing => m
    case Hit(n) =>
      if !n.alloc then m
      else Manager(V.FreeVirt(m.tree, addr), FreePages(m.store, r.root, addr, n.pages))
  }

  /** The node allocator takes a page of its own from, and may return one to, the free stack. */
  function TakeNodePage(st: Store): Store {
    if st.sys.stack == [] then st else st.(sys := Pop(st.sys), nodes := st.nodes + {Top(st.sys)})
  }

  function ReturnNodePage(st: Store, x: nat): Store {
    if x in st.nodes then st.(sys := st.sys.(stack := st.sys.stack + [x]), nodes := st.nodes - {x}) else st
  }

  function Step<P(==)>(m: Manager<P>, r: Range, op: Op<P>): Manager<P> {
    match op
    case Malloc(pages, w, x, k, p) => DoMalloc(m, r, pages, MallocFlags(w, x, k), p)
    case MapMemory(at, pages, k, p) => DoMap(m, r, at, pages, MapFlags(k), p)
    case FreePagesAt(addr) => DoFree(m, r, addr)
    case NodePageTaken => m.(store := TakeNodePage(m.store))
    case NodePageReturned(x) => m.(store := ReturnNodePage(m.store, x))
  }

  /** Enough space and enough frames: what the kernel does not check before it maps. */
  ghost predicate Enabled<P>(m: Manager<P>, r: Range, op: Op<P>) {
    match op
    case Malloc(pages, w, x, k, p) => pages > 0 ==> HasRoom(m, r, pages, Fresh, MallocFlags(w, x, k), p)
    case MapMemory(at, pages, k, p) =>
      pages > 0 && at % 4096 == 0 ==> HasRoom(m, r, pages, Given(at / 4096), MapFlags(k), p)
    case FreePagesAt(addr) => true
    case NodePageTaken => true
    case NodePageReturned(x) => true
  }

  /** The range has room, and `p` is a new node if one is needed. */
  ghost predicate HasSpace<P>(m: Manager<P>, pages: nat, p: P) {
    V.AllocVirt(m.tree, pages, p).Put? && (V.UsesNode(m.tree, pages) ==> !V.HasPtr(InOrder(m.tree), p))
  }

  /** In addition the stack holds exactly what each page needs in its turn. */
  ghost predicate HasRoom<P>(m: Manager<P>, r: Range, pages: nat, src: Source, pf: PageFlags, p: P) {
    HasSpace(m, pages, p) && AllSuffice(m.store, r.root, PlacedAt(m.tree, pages, p).0, pages, src, pf)
  }

  // --------------------------------------------------------------- invariant

  ghost predicate RangeOk(r: Range) {
    r.a % 4096 == 0 && r.a < r.b && r.b - r.a <= V.MAX_SPAN * 4096
  }

  /** Address `x` lies in a block handed out. */
  ghost predicate HandedOut(s: seq<I.Iv>, x: nat) {
    exists v :: v in I.Blocks(s) && v.addr <= x < I.End(v)
  }

  /** A page of the range is mapped exactly when it is handed out, and only by 4 KiB pages. */
  ghost predicate PageLinked<P>(m: Manager<P>, r: Range, x: nat) {
    && (SlotOf(m.store.sys.mem, r.root, PageOf(x)).present <==> HandedOut(V.ListOf(m.tree), x))
    && NoBig(m.store.sys.mem, r.root, PageOf(x), 4)
  }

  ghost predicate Linked<P>(m: Manager<P>, r: Range) {
    forall x: nat :: r.a <= x < r.b && x % 4096 == 0 ==> PageLinked(m, r, x)
  }

  /** What every operation keeps: the tree lists intervals that tile the range, merged as far as
      possible; every frame has exactly one use and all frames together are `all`; and the page
      tables map exactly the blocks handed out. */
  ghost predicate Inv<P>(m: Manager<P>, r: Range, all: set<nat>) {
    RangeOk(r) && V.Indexes(m.tree, r.a, r.b) && Accounted(m.store, r.root, all) && Linked(m, r)
  }

  // ------------------------------------------------------------ page numbers

  /** Two pages of the range have different page numbers. */
  lemma PageOfInRange(r: Range, x: nat, y: nat)
    requires RangeOk(r) && r.a <= x < r.b && r.a <= y < r.b && x % 4096 == 0 && y % 4096 == 0
    requires PageOf(x) == PageOf(y)
    ensures x == y
  {
    if x < y { ModApart(x / 4096, y / 4096 - x / 4096); }
    if y < x { ModApart(y / 4096, x / 4096 - y / 4096); }
  }

  lemma PagesBetween(addr: nat, x: nat, n: nat) returns (k: nat)
    requires addr % 4096 == 0 && x % 4096 == 0 && addr <= x < addr + n * 4096
    ensures k < n && x == addr + k * 4096
  {
    k := x / 4096 - addr / 4096;
    assert x == x / 4096 * 4096 && addr == addr / 4096 * 4096;
  }

  /** Inside the range, the pages of a block are the pages with an address in it. */
  lemma WithinBlock(r: Range, addr: nat, n: nat, x: nat)
    requires RangeOk(r) && r.a <= addr && addr + n * 4096 <= r.b && addr % 4096 == 0
    requires r.a <= x < r.b && x % 4096 == 0
    ensures Within(PageOf(x), addr, n) <==> addr <= x < addr + n * 4096
  {
    hide PageOf;
    if addr <= x < addr + n * 4096 {
      var k := PagesBetween(addr, x, n);
      assert PageOf(x) == PageOf(addr + k * 4096);
    }
    if Within(PageOf(x), addr, n) {
      var k: nat :| k < n && PageOf(x) == PageOf(addr + k * 4096);
      PageOfInRange(r, x, addr + k * 4096);
    }
  }

  /** Every page number of a block in the range comes from an address in it. */
  lemma WithinGives(r: Range, addr: nat, n: nat, v: nat) returns (x: nat)
    requires RangeOk(r) && r.a <= addr && addr + n * 4096 <= r.b && addr % 4096 == 0
    requires Within(v, addr, n)
    ensures addr <= x < addr + n * 4096 && x % 4096 == 0 && PageOf(x) == v
  {
    hide PageOf;
    var k: nat :| k < n && v == PageOf(addr + k * 4096);
    x := addr + k * 4096;
  }

  // ------------------------------------------------------ blocks of the list

  lemma TilesAligned(s: seq<I.Iv>, a: nat, b: nat, i: nat)
    requires I.Tiles(s, a, b) && a % 4096 == 0 && i < |s|
    ensures s[i].addr % 4096 == 0
  {
    if i > 0 { TilesAligned(s, a, b, i - 1); assert I.End(s[i - 1]) == s[i].addr; }
  }

  /** A block handed out by allocation: inside the range, aligned, free before. */
  lemma NewBlock(s: seq<I.Iv>, a: nat, b: nat, pages: nat, x: nat)
    requires I.Managed(s, a, b) && a % 4096 == 0 && pages > 0 && I.Allocate(s, pages).Placed?
    ensures var p := I.Allocate(s, pages);
      && a <= p.addr && p.addr + pages * 4096 <= b && p.addr % 4096 == 0
      && (HandedOut(p.list, x) <==> HandedOut(s, x) || p.addr <= x < p.addr + pages * 4096)
      && (p.addr <= x < p.addr + pages * 4096 ==> !HandedOut(s, x))
  {
    var p, i := I.Allocate(s, pages), I.LastFit(s, pages);
    I.TilesBounds(s, a, b, i);
    TilesAligned(s, a, b, i);
    I.AllocateBlocks(s, pages);
    var n := I.Iv(p.addr, pages, true);
    if p.addr <= x < p.addr + pages * 4096 {
      assert n in I.Blocks(p.list) && x < I.End(n);
      if HandedOut(s, x) {
        var v :| v in I.Blocks(s) && v.addr <= x < I.End(v);
        var j :| 0 <= j < |s| && s[j] == v;
        if j < i { I.TilesOrder(s, a, b, j, i); } else if i < j { I.TilesOrder(s, a, b, i, j); }
      }
    }
  }

  lemma OldBlock(s: seq<I.Iv>, a: nat, b: nat, i: nat, x: nat)
    requires I.Managed(s, a, b) && a % 4096 == 0 && i < |s| && s[i].alloc
    ensures var n := s[i];
      && a <= n.addr && n.addr + n.pages * 4096 <= b && n.addr % 4096 == 0
      && (n.addr <= x < n.addr + n.pages * 4096 ==> HandedOut(s, x))
      && (HandedOut(I.Free(s, n.addr), x) <==> HandedOut(s, x) && !(n.addr <= x < n.addr + n.pages * 4096))
  {
    var n := s[i];
    I.TilesBounds(s, a, b, i);
    TilesAligned(s, a, b, i);
    I.FreeBlocks(s, a, b, n.addr);
    I.OnlyAt(s, a, b, n);
    assert n in I.Blocks(s);
    forall v | v in I.Blocks(s) && v != n && v.addr <= x < I.End(v) ensures !(n.addr <= x < I.End(n)) {
      var j :| 0 <= j < |s| && s[j] == v;
      if j < i { I.TilesOrder(s, a, b, j, i); } else if i < j { I.TilesOrder(s, a, b, i, j); }
    }
  }

  // -------------------------------------------------------------------- steps

  /** Allocating a block and mapping it: common to `malloc_pages` and `map_memory`. */
  function PlaceAndMap<P(==)>(m: Manager<P>, r: Range, pages: nat, src: Source, pf: PageFlags, p: P): Manager<P> {
    var (addr, t) := PlacedAt(m.tree, pages, p);
    Manager(t, MapPages(m.store, r.root, addr, pages, src, pf))
  }

  lemma BlockIsFree<P>(m: Manager<P>, r: Range, all: set<nat>, pages: nat, p: P)
    requires Inv(m, r, all) && pages > 0 && HasSpace(m, pages, p)
    ensures BlockFree(m.store, r.root, PlacedAt(m.tree, pages, p).0, pages)
  {
    hide Accounted, NoBig, SlotOf, PageOf, Within, DataAt, HandedOut, I.Managed, V.DistinctPtrs, V.AllocVirt;
    var s := V.ListOf(m.tree);
    V.AllocVirtRefines(m.tree, r.a, r.b, pages, p);
    var addr := PlacedAt(m.tree, pages, p).0;
    NewBlock(s, r.a, r.b, pages, addr);
    forall v: nat | v < FRAMES && Within(v, addr, pages)
      ensures v !in m.store.data && NoBig(m.store.sys.mem, r.root, v, 4)
    {
      var x := WithinGives(r, addr, pages, v);
      NewBlock(s, r.a, r.b, pages, x);
      assert PageLinked(m, r, x);
      UnmappedHasNoData(m.store, r.root, all, v);
    }
  }

  lemma UnmappedHasNoData(st: Store, root: nat, all: set<nat>, v: nat)
    requires Accounted(st, root, all) && v < FRAMES && !SlotOf(st.sys.mem, root, v).present
    ensures v !in st.data
  {
    assert DataAt(st, root, v);
  }

  lemma PlaceAndMapKeeps<P>(m: Manager<P>, r: Range, all: set<nat>, pages: nat, src: Source, pf: PageFlags, p: P)
    requires Inv(m, r, all) && pages > 0 && HasRoom(m, r, pages, src, pf, p) && pf.present && (pf.usable <==> src.Fresh?)
    ensures Inv(PlaceAndMap(m, r, pages, src, pf, p), r, all)
  {
    hide Accounted, NoBig, SlotOf, PageOf, Within, HandedOut, I.Managed, V.DistinctPtrs, V.AllocVirt, BlockFree,
         MapPages, Translate, AllSuffice;
    var m', s := PlaceAndMap(m, r, pages, src, pf, p), V.ListOf(m.tree);
    V.AllocVirtRefines(m.tree, r.a, r.b, pages, p);
    var addr := PlacedAt(m.tree, pages, p).0;
    BlockIsFree(m, r, all, pages, p);
    MapPagesKeeps(m.store, r.root, addr, pages, src, pf, all);
    forall x: nat | r.a <= x < r.b && x % 4096 == 0 ensures PageLinked(m', r, x) {
      NewBlock(s, r.a, r.b, pages, x);
      WithinBlock(r, addr, pages, x);
      PageBound(x);
      assert PageLinked(m, r, x);
      if !Within(PageOf(x), addr, pages) {
        assert SameTranslation(m.store.sys.mem, m'.store.sys.mem, r.root, PageOf(x));
      }
    }
  }

  /** With room in the range, placing and mapping a block keeps the invariant if and only if the frames
      it needs are there. */
  lemma PlaceAndMapKeepsIff<P>(m: Manager<P>, r: Range, all: set<nat>, pages: nat, src: Source, pf: PageFlags, p: P)
    requires Inv(m, r, all) && pages > 0 && HasSpace(m, pages, p) && pf.present && (pf.usable <==> src.Fresh?) && 0 !in all
    ensures Inv(PlaceAndMap(m, r, pages, src, pf, p), r, all) <==> HasRoom(m, r, pages, src, pf, p)
  {
    hide Accounted, Linked, V.Indexes, BlockFree, MapPages, AllSuffice, HasSpace, PlacedAt;
    BlockIsFree(m, r, all, pages, p);
    MapPagesKeepsIff(m.store, r.root, PlacedAt(m.tree, pages, p).0, pages, src, pf, all);
    if HasRoom(m, r, pages, src, pf, p) { PlaceAndMapKeeps(m, r, all, pages, src, pf, p); }
  }

  lemma DoFreeKeeps<P>(m: Manager<P>, r: Range, all: set<nat>, addr: nat)
    requires Inv(m, r, all)
    ensures Inv(DoFree(m, r, addr), r, all)
  {
    hide Accounted, NoBig, SlotOf, PageOf, Within, HandedOut, V.DistinctPtrs, FreePages, Translate, V.FreeVirt;
    var s := V.ListOf(m.tree);
    V.TilesSorted(InOrder(m.tree), r.a, r.b);
    var i := I.IndexOf(s, addr);
    V.FreeVirtRefines(m.tree, r.a, r.b, addr);
    if i < 0 {
      forall k | 0 <= k < |InOrder(m.tree)| ensures InOrder(m.tree)[k].addr != addr {
        assert s[k] == V.DataOf(InOrder(m.tree)[k]);
      }
      V.FindMissing(m.tree, addr);
    } else {
      assert s[i] == V.DataOf(InOrder(m.tree)[i]);
      V.FindAt(m.tree, addr, i);
      if s[i].alloc { FreeBlockKeeps(m, r, all, i); }
    }
  }

  lemma FreeBlockKeeps<P>(m: Manager<P>, r: Range, all: set<nat>, i: nat)
    requires Inv(m, r, all) && i < |V.ListOf(m.tree)| && V.ListOf(m.tree)[i].alloc
    requires V.ListOf(V.FreeVirt(m.tree, V.ListOf(m.tree)[i].addr)) == I.Free(V.ListOf(m.tree), V.ListOf(m.tree)[i].addr)
    ensures var n := V.ListOf(m.tree)[i];
      var m' := Manager(V.FreeVirt(m.tree, n.addr), FreePages(m.store, r.root, n.addr, n.pages));
      Accounted(m'.store, r.root, all) && Linked(m', r)
  {
    hide Accounted, NoBig, SlotOf, PageOf, Within, HandedOut, I.Managed, V.DistinctPtrs, FreePages, Translate,
         V.FreeVirt;
    var s := V.ListOf(m.tree);
    var n := s[i];
    var m' := Manager(V.FreeVirt(m.tree, n.addr), FreePages(m.store, r.root, n.addr, n.pages));
    OldBlock(s, r.a, r.b, i, n.addr);
    forall v: nat | v < FRAMES && Within(v, n.addr, n.pages) ensures SlotOf(m.store.sys.mem, r.root, v).present {
      var x := WithinGives(r, n.addr, n.pages, v);
      OldBlock(s, r.a, r.b, i, x);
      assert PageLinked(m, r, x);
    }
    FreePagesKeeps(m.store, r.root, n.addr, n.pages, all);
    forall x: nat | r.a <= x < r.b && x % 4096 == 0 ensures PageLinked(m', r, x) {
      OldBlock(s, r.a, r.b, i, x);
      WithinBlock(r, n.addr, n.pages, x);
      PageBound(x);
      assert PageLinked(m, r, x);
      if !Within(PageOf(x), n.addr, n.pages) {
        assert SameTranslation(m.store.sys.mem, m'.store.sys.mem, r.root, PageOf(x));
      }
    }
  }

  // -------------------------------------------------------------- node pages

  lemma TakeNodePageKeeps(st: Store, root: nat, all: set<nat>)
    requires Accounted(st, root, all)
    ensures Accounted(TakeNodePage(st), root, all) && TakeNodePage(st).sys.mem == st.sys.mem
  {
    if st.sys.stack != [] {
      hide SysOk, SlotOf, Blank;
      PopOk(st.sys, root);
      var st' := TakeNodePage(st);
      var x := Top(st.sys);
      assert x == st.sys.stack[|st.sys.stack| - 1];
      forall v: nat | v < FRAMES ensures DataAt(st', root, v) { assert DataAt(st, root, v); }
      forall v | v in st'.data ensures BackingOk(st', v) { assert BackingOk(st, v); }
      forall y | y in st'.nodes ensures NodeFrameOk(st', y) { if y != x { assert NodeFrameOk(st, y); } }
    }
  }

  lemma ReturnNodePageKeeps(st: Store, root: nat, x: nat, all: set<nat>)
    requires Accounted(st, root, all)
    ensures Accounted(ReturnNodePage(st, x), root, all) && ReturnNodePage(st, x).sys.mem == st.sys.mem
  {
    if x in st.nodes {
      hide SysOk, SlotOf, Blank;
      assert NodeFrameOk(st, x);
      PushOk(st.sys, root, x);
      var st' := ReturnNodePage(st, x);
      forall v: nat | v < FRAMES ensures DataAt(st', root, v) { assert DataAt(st, root, v); }
      forall v | v in st'.data ensures BackingOk(st', v) { assert BackingOk(st, v); }
      forall y | y in st'.nodes ensures NodeFrameOk(st', y) { assert NodeFrameOk(st, y); }
      assert Elements(st'.sys.stack) == Elements(st.sys.stack) + {x};
    }
  }

  lemma SameMemLinked<P>(m: Manager<P>, m': Manager<P>, r: Range)
    requires Linked(m, r) && m'.tree == m.tree && m'.store.sys.mem == m.store.sys.mem
    ensures Linked(m', r)
  {
    forall x: nat | r.a <= x < r.b && x % 4096 == 0 ensures PageLinked(m', r, x) {
      assert PageLinked(m, r, x);
    }
  }

  // --------------------------------------------------------------------- runs

  /** One operation, with enough space and frames, keeps the invariant. */
  lemma StepKeeps<P>(m: Manager<P>, r: Range, all: set<nat>, op: Op<P>)
    requires Inv(m, r, all) && Enabled(m, r, op)
    ensures Inv(Step(m, r, op), r, all)
  {
    hide Accounted, Linked, MapPages, V.Indexes, HasRoom;
    match op
    case Malloc(pages, w, x, k, p) =>
      if pages > 0 { PlaceAndMapKeeps(m, r, all, pages, Fresh, MallocFlags(w, x, k), p); }
    case MapMemory(at, pages, k, p) =>
      if pages > 0 && at % 4096 == 0 { PlaceAndMapKeeps(m, r, all, pages, Given(at / 4096), MapFlags(k), p); }
    case FreePagesAt(addr) => DoFreeKeeps(m, r, all, addr);
    case NodePageTaken =>
      TakeNodePageKeeps(m.store, r.root, all);
      SameMemLinked(m, Step(m, r, op), r);
    case NodePageReturned(x) =>
      ReturnNodePageKeeps(m.store, r.root, x, all);
      SameMemLinked(m, Step(m, r, op), r);
  }

  function Run<P(==)>(m: Manager<P>, r: Range, ops: seq<Op<P>>): Manager<P>
    decreases |ops|
  {
    if ops == [] then m else Run(Step(m, r, ops[0]), r, ops[1..])
  }

  ghost predicate Supported<P>(m: Manager<P>, r: Range, ops: seq<Op<P>>)
    decreases |ops|
  {
    ops != [] ==> Enabled(m, r, ops[0]) && Supported(Step(m, r, ops[0]), r, ops[1..])
  }

  /** Every run keeps the invariant, whatever the operations and their order. */
  lemma {:induction false} RunKeeps<P>(m: Manager<P>, r: Range, all: set<nat>, ops: seq<Op<P>>)
    requires Inv(m, r, all) && Supported(m, r, ops)
    ensures Inv(Run(m, r, ops), r, all)
    decreases |ops|
  {
    hide Inv, Enabled, Step;
    if ops != [] {
      StepKeeps(m, r, all, ops[0]);
      RunKeeps(Step(m, r, ops[0]), r, all, ops[1..]);
    }
  }

  /** `create_mgr`: one free interval. */
  function Create<P>(a: nat, pages: nat, p: P): Tree<P> { Insert(Nil, p, a, pages) }

  lemma CreateInv<P>(st: Store, r: Range, all: set<nat>, pages: nat, p: P)
    requires RangeOk(r) && r.b == r.a + pages * 4096 && Accounted(st, r.root, all)
    requires forall x: nat :: r.a <= x < r.b && x % 4096 == 0 ==>
      !SlotOf(st.sys.mem, r.root, PageOf(x)).present && NoBig(st.sys.mem, r.root, PageOf(x), 4)
    ensures Inv(Manager(Create(r.a, pages, p), st), r, all)
  {
    hide Accounted, SlotOf, NoBig, PageOf;
    var t := Create(r.a, pages, p);
    assert InOrder(t) == [t.e];
    var m := Manager(t, st);
    assert V.ListOf(t)[0] == V.DataOf(t.e);
    forall x: nat | r.a <= x < r.b && x % 4096 == 0 ensures PageLinked(m, r, x) {
      assert !HandedOut(V.ListOf(t), x);
    }
  }

  /** From creation on, over every run: the tree is never empty, its intervals tile exactly the
      initial range with no two free neighbours, no frame is lost, gained or used twice, and the
      pages mapped are those handed out. */
  lemma EveryRun<P>(st: Store, r: Range, all: set<nat>, pages: nat, p: P, ops: seq<Op<P>>)
    requires RangeOk(r) && r.b == r.a + pages * 4096 && Accounted(st, r.root, all)
    requires forall x: nat :: r.a <= x < r.b && x % 4096 == 0 ==>
      !SlotOf(st.sys.mem, r.root, PageOf(x)).present && NoBig(st.sys.mem, r.root, PageOf(x), 4)
    requires Supported(Manager(Create(r.a, pages, p), st), r, ops)
    ensures var m := Run(Manager(Create(r.a, pages, p), st), r, ops);
      && m.tree.Node? && I.Managed(V.ListOf(m.tree), r.a, r.b)
      && Accounted(m.store, r.root, all) && Linked(m, r)
  {
    hide Accounted, Linked, Run;
    CreateInv(st, r, all, pages, p);
    RunKeeps(Manager(Create(r.a, pages, p), st), r, all, ops);
  }

  /** A frame outside the accounted ones, such as device memory given to `map_memory`, is on the
      free stack after no run. */
  lemma ForeignFrameStaysOut<P>(m: Manager<P>, r: Range, all: set<nat>, ops: seq<Op<P>>, x: nat)
    requires Inv(m, r, all) && Supported(m, r, ops) && x !in all
    ensures x !in Run(m, r, ops).store.sys.stack
  {
    RunKeeps(m, r, all, ops);
    var st := Run(m, r, ops).store;
    assert x !in Total(st);
  }
}
