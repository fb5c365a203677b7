/**
 Consequences of the run invariant, and what happens outside its conditions.
 */
module VmmConsequences {
  import opened AvlTree
  import opened PageTables
  import opened PagingProofs
  import opened Frames
  import opened VmmRuns
  import V = VmmTree
  import I = Intervals

  // -------------------------------------------------------------- round trip

  /** Freeing what was just allocated gives back the same list of intervals. */
  lemma FreeUndoesAlloc<P>(t: Tree<P>, a: nat, b: nat, pages: nat, p: P)
    requires V.Indexes(t, a, b) && b - a <= V.MAX_SPAN * 4096 && pages > 0
    requires V.AllocVirt(t, pages, p).Put? && (V.UsesNode(t, pages) ==> !V.HasPtr(InOrder(t), p))
    ensures var q := V.AllocVirt(t, pages, p); V.ListOf(V.FreeVirt(q.tree, q.addr)) == V.ListOf(t)
  {
    var q := V.AllocVirt(t, pages, p);
    V.AllocVirtRefines(t, a, b, pages, p);
    V.FreeVirtRefines(q.tree, a, b, q.addr);
    I.FreeUndoesAllocate(V.ListOf(t), a, b, pages);
  }

  // ------------------------------------------------------- the stack buffer

  lemma {:induction false} DistinctCount(q: seq<nat>)
    requires NoRepeats(q)
    ensures |Elements(q)| == |q|
  {
    if q != [] {
      var n := |q| - 1;
      DistinctCount(q[..n]);
      assert q == q[..n] + [q[n]];
      assert Elements(q) == Elements(q[..n]) + {q[n]};
      assert q[n] !in Elements(q[..n]);
    }
  }

  lemma {:induction false} InjectiveCount(m: map<nat, nat>)
    requires forall v, w :: v in m && w in m && v != w ==> m[v] != m[w]
    ensures |m.Values| == |m|
  {
    if m == map[] {
      assert m.Values == {};
    } else {
      var k :| k in m;
      var r := m - {k};
      RemovedValue(m, k);
      InjectiveCount(r);
      assert m[k] in m.Values;
      assert m.Values == r.Values + {m[k]};
      assert m.Keys == r.Keys + {k};
    }
  }

  /** All uses of frames together make up the number of frames. */
  lemma FrameCount(st: Store, root: nat, all: set<nat>)
    requires Accounted(st, root, all)
    ensures |st.sys.stack| + |st.sys.owner| + |st.data| + |st.nodes| == |all|
  {
    var a, b, c := Elements(st.sys.stack), st.sys.owner.Keys, st.data.Values;
    DistinctCount(st.sys.stack);
    InjectiveCount(st.data);
    assert forall x :: x in c ==> x !in a && x !in b && x !in st.nodes by {
      forall x | x in c ensures x !in a && x !in b && x !in st.nodes {
        var v :| v in st.data && st.data[v] == x;
        assert BackingOk(st, v);
      }
    }
    assert forall x :: x in st.nodes ==> x !in a && x !in b by {
      forall x | x in st.nodes ensures x !in a && x !in b { assert NodeFrameOk(st, x); }
    }
    assert a !! b;
    assert |a + b| == |a| + |b|;
    assert |a + b + c| == |a + b| + |c|;
    assert |a + b + c + st.nodes| == |a + b + c| + |st.nodes|;
  }

  lemma {:induction false} FreeKeepsTables(st: Store, root: nat, addr: nat, n: nat)
    ensures st.sys.owner.Keys <= FreePages(st, root, addr, n).sys.owner.Keys
    decreases n
  {
    hide Descent, Bottom;
    if n > 0 {
      DescentKeepsTables(st.sys, root, PageOf(addr), 4, NO_FLAGS);
      FreeKeepsTables(FreeOne(st, root, PageOf(addr)), root, addr + 4096, n - 1);
    }
  }

  /** Page tables are never given back. */
  lemma StepKeepsTables<P>(m: Manager<P>, r: Range, op: Op<P>)
    ensures m.store.sys.owner.Keys <= Step(m, r, op).store.sys.owner.Keys
  {
    hide MapPages, FreePages, V.AllocVirt, V.FreeVirt, Find;
    match op
    case Malloc(pages, w, x, k, p) =>
      MapKeepsTables(m.store, r.root, PlacedAt(m.tree, pages, p).0, pages, Fresh, MallocFlags(w, x, k));
    case MapMemory(at, pages, k, p) =>
      MapKeepsTables(m.store, r.root, PlacedAt(m.tree, pages, p).0, pages, Given(at / 4096), MapFlags(k));
    case FreePagesAt(addr) =>
      if Find(m.tree, addr).Hit? { FreeKeepsTables(m.store, r.root, addr, Find(m.tree, addr).e.pages); }
    case NodePageTaken =>
    case NodePageReturned(x) =>
  }

  lemma {:induction false} RunKeepsTables<P>(m: Manager<P>, r: Range, ops: seq<Op<P>>)
    ensures m.store.sys.owner.Keys <= Run(m, r, ops).store.sys.owner.Keys
    decreases |ops|
  {
    hide Step;
    if ops != [] {
      StepKeepsTables(m, r, ops[0]);
      RunKeepsTables(Step(m, r, ops[0]), r, ops[1..]);
    }
  }

  /** From a state where no page and no node is in use, no run ever has more frames on the stack than
      there were at the start: the buffer reserved for the stack cannot overflow. */
  lemma StackNeverOverflows<P>(m: Manager<P>, r: Range, all: set<nat>, ops: seq<Op<P>>)
    requires Inv(m, r, all) && Supported(m, r, ops) && m.store.data == map[] && m.store.nodes == {}
    ensures |Run(m, r, ops).store.sys.stack| <= |m.store.sys.stack|
  {
    hide Run, Inv, Accounted, Supported;
    var m' := Run(m, r, ops);
    RunKeeps(m, r, all, ops);
    RunKeepsTables(m, r, ops);
    InvCount(m, r, all);
    InvCount(m', r, all);
    SubsetCount(m.store.sys.owner.Keys, m'.store.sys.owner.Keys);
  }

  lemma InvCount<P>(m: Manager<P>, r: Range, all: set<nat>)
    requires Inv(m, r, all)
    ensures |m.store.sys.stack| + |m.store.sys.owner| + |m.store.data| + |m.store.nodes| == |all|
  {
    FrameCount(m.store, r.root, all);
  }

  lemma SubsetCount(a: set<nat>, b: set<nat>)
    requires a <= b
    ensures |a| <= |b|
  {
    assert b == a + (b - a);
  }

  // ------------------------------------------------------ room for the pages freed

  /** In a buffer with a place for every frame that is not a table, the pages of a mapped block always
      fit. */
  lemma {:induction false} BlockFits(st: Store, root: nat, addr: nat, n: nat, all: set<nat>, cap: nat)
    requires Accounted(st, root, all) && n <= FRAMES && addr % 4096 == 0 && |all| <= cap + |st.sys.owner|
    requires forall v: nat :: v < FRAMES && Within(v, addr, n) ==> SlotOf(st.sys.mem, root, v).present
    ensures FreesFit(st, root, addr, n, cap)
    decreases n
  {
    hide Accounted, SlotOf, Translate, NoBig, PageOf, Within, LeafAt, FreeOne;
    if n > 0 {
      var st1 := FreeOne(st, root, PageOf(addr));
      PageBound(addr);
      WithinSplit(PageOf(addr), addr, n);
      FreeOneKeeps(st, root, PageOf(addr), all);
      FreeOneTables(st, root, PageOf(addr));
      SubsetCount(st.sys.owner.Keys, st1.sys.owner.Keys);
      FrameCount(st1, root, all);
      FirstNotWithin(addr, n);
      forall v: nat | v < FRAMES && Within(v, addr + 4096, n - 1) ensures SlotOf(st1.sys.mem, root, v).present {
        WithinSplit(v, addr, n);
        assert SameTranslation(st.sys.mem, st1.sys.mem, root, v);
      }
      BlockFits(st1, root, addr + 4096, n - 1, all, cap);
    }
  }

  lemma FreeOneTables(st: Store, root: nat, vp: nat)
    ensures st.sys.owner.Keys <= FreeOne(st, root, vp).sys.owner.Keys
  {
    hide Descent, Bottom;
    DescentKeepsTables(st.sys, root, vp, 4, NO_FLAGS);
  }

  /** `free_pages` never overflows the buffer of the free stack, if the buffer could hold the stack at
      the start of the run, when no page and no node was in use. */
  lemma FreeAlwaysFits<P>(m: Manager<P>, r: Range, all: set<nat>, ops: seq<Op<P>>, addr: nat, cap: nat)
    requires Inv(m, r, all) && Supported(m, r, ops) && m.store.data == map[] && m.store.nodes == {} && |m.store.sys.stack| <= cap
    ensures var m' := Run(m, r, ops);
      Find(m'.tree, addr).Hit? && Find(m'.tree, addr).e.alloc ==>
        FreesFit(m'.store, r.root, addr, Find(m'.tree, addr).e.pages, cap)
  {
    hide Run, Inv, Accounted, Supported, FreesFit, Find;
    var m' := Run(m, r, ops);
    RunKeeps(m, r, all, ops);
    RunKeepsTables(m, r, ops);
    InvCount(m, r, all);
    SubsetCount(m.store.sys.owner.Keys, m'.store.sys.owner.Keys);
    if Find(m'.tree, addr).Hit? && Find(m'.tree, addr).e.alloc { FoundFits(m', r, all, addr, cap); }
  }

  lemma FoundFits<P>(m: Manager<P>, r: Range, all: set<nat>, addr: nat, cap: nat)
    requires Inv(m, r, all) && Find(m.tree, addr).Hit? && Find(m.tree, addr).e.alloc && |all| <= cap + |m.store.sys.owner|
    ensures FreesFit(m.store, r.root, addr, Find(m.tree, addr).e.pages, cap)
  {
    hide Accounted, NoBig, SlotOf, PageOf, Within, HandedOut, V.DistinctPtrs, I.Managed, FreesFit, LeafAt;
    var s := V.ListOf(m.tree);
    var i := FoundIndex(m, r, all, addr);
    var n := s[i];
    OldBlock(s, r.a, r.b, i, n.addr);
    forall v: nat | v < FRAMES && Within(v, n.addr, n.pages) ensures SlotOf(m.store.sys.mem, r.root, v).present {
      var x := WithinGives(r, n.addr, n.pages, v);
      OldBlock(s, r.a, r.b, i, x);
      assert PageLinked(m, r, x);
    }
    BlockFits(m.store, r.root, addr, n.pages, all, cap);
  }

  lemma FoundIndex<P>(m: Manager<P>, r: Range, all: set<nat>, addr: nat) returns (i: nat)
    requires Inv(m, r, all) && Find(m.tree, addr).Hit?
    ensures i < |V.ListOf(m.tree)| && V.ListOf(m.tree)[i] == V.DataOf(Find(m.tree, addr).e) && V.ListOf(m.tree)[i].addr == addr
  {
    hide Accounted, Linked;
    var s, d := InOrder(m.tree), V.ListOf(m.tree);
    V.TilesSorted(s, r.a, r.b);
    var j := I.IndexOf(d, addr);
    if j < 0 {
      forall k | 0 <= k < |s| ensures s[k].addr != addr { assert d[k] == V.DataOf(s[k]); }
      V.FindMissing(m.tree, addr);
      assert false;
    }
    i := j;
    assert d[i] == V.DataOf(s[i]);
    V.FindAt(m.tree, addr, i);
  }

  /** `pmm_alloc_page` gives zero if and only if the stack is empty, over every run in which frame 0 is
      not one of the frames. */
  lemma ZeroMeansEmpty<P>(m: Manager<P>, r: Range, all: set<nat>, ops: seq<Op<P>>)
    requires Inv(m, r, all) && Supported(m, r, ops) && 0 !in all
    ensures Top(Run(m, r, ops).store.sys) == 0 <==> Run(m, r, ops).store.sys.stack == []
  {
    ForeignFrameStaysOut(m, r, all, ops, 0);
  }

  // ------------------------------------------------------------ what is mapped

  /** The processor finds a page if and only if its entry is present, where no large page lies over it. */
  lemma {:induction false} WalkIsSlot(mem: Mem, root: nat, f: nat, v: nat, level: nat, w: bool, u: bool, x: bool)
    requires 1 <= level <= 4 && TableAt(mem, root, Pos(level, Prefix(v, level))) == Table(f) && NoBig(mem, f, v, level)
    ensures Walk(mem, f, v, level, w, u, x).Mapped? <==> SlotOf(mem, root, v).present
    decreases level
  {
    hide Prefix, Index, SlotOf;
    PrefixStep(v, level);
    var e := Read(mem, f, Index(v, level));
    if level == 1 {
      SlotIs(mem, root, f, v);
    } else if e.present {
      assert TableAt(mem, root, Pos(level - 1, Prefix(v, level - 1))) == Table(e.frame);
      WalkIsSlot(mem, root, e.frame, v, level - 1, w && e.rw, u && e.user, x && !e.nx);
    } else {
      NoSlot(mem, root, f, v, level);
    }
  }

  lemma SlotIs(mem: Mem, root: nat, f: nat, v: nat)
    requires TableAt(mem, root, Pos(1, Prefix(v, 1))) == Table(f)
    ensures SlotOf(mem, root, v) == Read(mem, f, Index(v, 1))
  {
    assert Prefix(v, 0) == v;
    assert Prefix(v, 1) == v / 512;
  }

  lemma NoSlot(mem: Mem, root: nat, f: nat, v: nat, level: nat)
    requires 1 < level <= 4 && TableAt(mem, root, Pos(level, Prefix(v, level))) == Table(f)
    requires !Read(mem, f, Index(v, level)).present
    ensures SlotOf(mem, root, v) == ZERO
  {
    assert Prefix(v, 0) == v;
    assert Prefix(v, 1) == v / 512;
    hide Prefix, Index;
    NoTableBelow(mem, root, f, v, level, 1);
  }

  /** In a manager in order the processor finds a page of the range if and only if it lies in a block
      handed out. */
  lemma MappedIffHandedOut<P>(m: Manager<P>, r: Range, all: set<nat>, x: nat)
    requires Inv(m, r, all) && r.a <= x < r.b && x % 4096 == 0
    ensures Translate(m.store.sys.mem, r.root, PageOf(x)).Mapped? <==> HandedOut(V.ListOf(m.tree), x)
  {
    hide Accounted, SlotOf, NoBig, HandedOut, Walk, Prefix, PageOf;
    assert PageLinked(m, r, x);
    PageBound(x);
    PrefixTop(PageOf(x));
    WalkIsSlot(m.store.sys.mem, r.root, r.root, PageOf(x), 4, true, true, true);
  }

  /** After `free_pages` of a block in use every page of it faults. */
  lemma FreedBlockFaults<P>(m: Manager<P>, r: Range, all: set<nat>, addr: nat, x: nat)
    requires Inv(m, r, all) && Find(m.tree, addr).Hit? && Find(m.tree, addr).e.alloc && x % 4096 == 0
    requires addr <= x < addr + Find(m.tree, addr).e.pages * 4096
    ensures Translate(DoFree(m, r, addr).store.sys.mem, r.root, PageOf(x)) == Fault
  {
    hide Inv, DoFree, Translate, HandedOut, PageOf, I.Managed;
    DoFreeKeeps(m, r, all, addr);
    FreedNotHandedOut(m, r, all, addr, x);
    MappedIffHandedOut(DoFree(m, r, addr), r, all, x);
  }

  lemma FreedNotHandedOut<P>(m: Manager<P>, r: Range, all: set<nat>, addr: nat, x: nat)
    requires Inv(m, r, all) && Find(m.tree, addr).Hit? && Find(m.tree, addr).e.alloc && x % 4096 == 0
    requires addr <= x < addr + Find(m.tree, addr).e.pages * 4096
    ensures r.a <= x < r.b && !HandedOut(V.ListOf(DoFree(m, r, addr).tree), x)
  {
    hide Accounted, Linked, HandedOut, I.Managed, V.DistinctPtrs, FreePages, V.FreeVirt, I.Free;
    var i := FoundIndex(m, r, all, addr);
    V.FreeVirtRefines(m.tree, r.a, r.b, addr);
    OldBlock(V.ListOf(m.tree), r.a, r.b, i, x);
  }

  // ------------------------------------------------------------ tables as found

  ghost predicate NonePresent(mem: Mem, n: nat) { forall j: nat :: j < 512 ==> !Read(mem, n, j).present }

  ghost predicate SameUnder(m: Mem, m': Mem, f: nat, vp: nat) {
    forall v: nat :: Prefix(v, 1) == Prefix(vp, 1) ==> LeafAt(m', f, v, 2) == LeafAt(m, f, v, 2)
  }

  /** A new level-1 table is used as found. The pages it covers, unmapped before, stay unmapped if
      and only if the frame taken for it holds no present entry. */
  lemma NewTableShows(s: Sys, f: nat, vp: nat, fl: Flags, at: Pos)
    requires s.stack != [] && Top(s) < FRAMES && Top(s) != f && !Read(s.mem, f, Index(vp, 2)).present
    ensures SameUnder(s.mem, Descend(s, f, Index(vp, 2), fl, at).mem, f, vp) <==> NonePresent(s.mem, Top(s))
  {
    var m, n := Descend(s, f, Index(vp, 2), fl, at).mem, Top(s);
    forall v: nat | Prefix(v, 1) == Prefix(vp, 1)
      ensures LeafAt(s.mem, f, v, 2) == NoLeaf && LeafAt(m, f, v, 2) == LeafAt(s.mem, n, v, 1)
    {
      assert Index(v, 2) == Index(vp, 2);
    }
    if NonePresent(s.mem, n) {
      forall v: nat | Prefix(v, 1) == Prefix(vp, 1) ensures LeafAt(m, f, v, 2) == LeafAt(s.mem, f, v, 2) {
        assert Index(v, 1) < 512;
        assert !Read(s.mem, n, Index(v, 1)).present;
      }
    } else {
      var j: nat :| j < 512 && Read(s.mem, n, j).present;
      var v := Prefix(vp, 1) * 512 + j;
      assert Prefix(v, 0) == v && Prefix(v, 1) == Prefix(vp, 1) && Index(v, 1) == j;
      assert LeafAt(m, f, v, 2) != LeafAt(s.mem, f, v, 2);
    }
  }
}
