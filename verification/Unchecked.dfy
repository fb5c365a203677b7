/**
 What happens where the kernel does not check: an allocation that found no room
 (kernel/system/mem_mgmt/vmm/mem_mgmt.c), and a page that is set while it is
 mapped (kernel/system/mem_mgmt/vmm/paging.c).
 */
module Unchecked {
  import opened AvlTree
  import opened PageTables
  import opened PagingProofs
  import opened Frames
  import opened VmmRuns
  import V = VmmTree

  // ------------------------------------------------------- under a large page

  /** The way to a page under a 2 MiB page: two links and the large entry, in three tables. */
  ghost predicate BigPath(s: Sys, root: nat, pdpt: nat, pdt: nat, vp: nat, e: Pte) {
    var d, c := Read(s.mem, root, Index(vp, 4)), Read(s.mem, pdpt, Index(vp, 3));
    && d.present && !d.size && d.frame == pdpt && !d.nx && c.present && !c.size && c.frame == pdt && !c.nx
    && Read(s.mem, pdt, Index(vp, 2)) == e && e.present && e.size
    && root in s.owner && pdpt in s.owner && pdt in s.owner && root != pdpt && root != pdt && pdpt != pdt
  }

  lemma FindBigPath(s: Sys, root: nat, vp: nat, e: Pte) returns (pdpt: nat, pdt: nat)
    requires TablesOk(s, root) && vp < FRAMES && LeafAt(s.mem, root, vp, 4) == Leaf(2, e)
    ensures BigPath(s, root, pdpt, pdt, vp, e)
  {
    hide Prefix, Index;
    PrefixTop(vp);
    PrefixStep(vp, 4);
    PrefixStep(vp, 3);
    pdpt := Read(s.mem, root, Index(vp, 4)).frame;
    assert ChildOk(s, root, Index(vp, 4)) && RightsOkAt(s, root, Index(vp, 4), 0);
    assert LeafAt(s.mem, root, vp, 4) == LeafAt(s.mem, pdpt, vp, 3);
    pdt := Read(s.mem, pdpt, Index(vp, 3)).frame;
    assert ChildOk(s, pdpt, Index(vp, 3)) && RightsOkAt(s, pdpt, Index(vp, 3), 0);
    assert LeafAt(s.mem, pdpt, vp, 3) == LeafAt(s.mem, pdt, vp, 2);
  }

  /** The memory after `set_page` on such a page. */
  ghost function BigEdited(m: Mem, root: nat, pdpt: nat, pdt: nat, vp: nat, e: Pte, frame: nat, pf: PageFlags): Mem {
    var fl := TableFlags(pf);
    var m1 := Write(m, root, Index(vp, 4), OrFlags(Read(m, root, Index(vp, 4)), fl));
    var m2 := Write(m1, pdpt, Index(vp, 3), OrFlags(Read(m, pdpt, Index(vp, 3)), fl));
    var m3 := Write(m2, pdt, Index(vp, 2), OrFlags(e, fl));
    Write(m3, e.frame, Index(vp, 1), LeafEntry(frame, pf))
  }

  lemma BigEdits(s: Sys, root: nat, pdpt: nat, pdt: nat, vp: nat, e: Pte, frame: nat, pf: PageFlags)
    requires BigPath(s, root, pdpt, pdt, vp, e)
    ensures SetPage(s, root, vp, frame, pf) == s.(mem := BigEdited(s.mem, root, pdpt, pdt, vp, e, frame, pf))
  {
    hide Prefix, Index, LeafEntry, TableFlags, OrFlags;
    OrKeepsLink(TableFlags(pf));
    var fl := TableFlags(pf);
    var s1 := Descend(s, root, Index(vp, 4), fl, Pos(3, Prefix(vp, 3)));
    var s2 := Descend(s1, pdpt, Index(vp, 3), fl, Pos(2, Prefix(vp, 2)));
    var s3 := Descend(s2, pdt, Index(vp, 2), fl, Pos(1, Prefix(vp, 1)));
    assert Next(s1, root, Index(vp, 4)) == pdpt && Next(s2, pdpt, Index(vp, 3)) == pdt && Next(s3, pdt, Index(vp, 2)) == e.frame;
    assert Descent(s2, pdt, vp, 2, fl) == s3 && Bottom(s2, pdt, vp, 2, fl) == e.frame;
    assert Descent(s1, pdpt, vp, 3, fl) == s3 && Bottom(s1, pdpt, vp, 3, fl) == e.frame;
  }

  lemma OrKeepsLink(fl: Flags)
    ensures forall e: Pte :: OrFlags(e, fl).frame == e.frame && OrFlags(e, fl).size == e.size && OrFlags(e, fl).nx == e.nx
    ensures forall e: Pte :: e.present ==> OrFlags(e, fl).present
  {
  }

  /** `set_page` on a page under a 2 MiB page takes the large page for a table: it writes the new entry
      into the memory that the large page maps, takes no frame from the stack, and the page goes on
      being translated by the large page. */
  lemma SetPageUnderBig(s: Sys, root: nat, vp: nat, frame: nat, pf: PageFlags, e: Pte)
    requires TablesOk(s, root) && vp < FRAMES && LeafAt(s.mem, root, vp, 4) == Leaf(2, e) && e.frame !in s.owner
    ensures var s' := SetPage(s, root, vp, frame, pf);
      var t := Translate(s'.mem, root, vp);
      && s'.stack == s.stack && s'.owner == s.owner
      && Read(s'.mem, e.frame, Index(vp, 1)) == LeafEntry(frame, pf)
      && t.Mapped? && t.frame == BigPage(e, vp, 2) && t.exec == !e.nx
  {
    var pdpt, pdt := FindBigPath(s, root, vp, e);
    BigEdits(s, root, pdpt, pdt, vp, e, frame, pf);
    hide Prefix, Index, LeafEntry, TableFlags, OrFlags, BigPage, SetPage;
    BigWalk(s, root, pdpt, pdt, vp, e, frame, pf);
  }

  lemma BigWalk(s: Sys, root: nat, pdpt: nat, pdt: nat, vp: nat, e: Pte, frame: nat, pf: PageFlags)
    requires BigPath(s, root, pdpt, pdt, vp, e) && e.frame !in s.owner
    ensures var t := Translate(BigEdited(s.mem, root, pdpt, pdt, vp, e, frame, pf), root, vp);
      t.Mapped? && t.frame == BigPage(e, vp, 2) && t.exec == !e.nx
  {
    hide Prefix, Index, LeafEntry, TableFlags;
    OrKeepsLink(TableFlags(pf));
    var fl, m := TableFlags(pf), BigEdited(s.mem, root, pdpt, pdt, vp, e, frame, pf);
    var d, c, b := Read(m, root, Index(vp, 4)), Read(m, pdpt, Index(vp, 3)), Read(m, pdt, Index(vp, 2));
    assert d == OrFlags(Read(s.mem, root, Index(vp, 4)), fl);
    assert c == OrFlags(Read(s.mem, pdpt, Index(vp, 3)), fl);
    assert b == OrFlags(e, fl);
    hide OrFlags, BigEdited;
    var w, u := d.rw && c.rw && b.rw, d.user && c.user && b.user;
    assert Walk(m, pdt, vp, 2, d.rw && c.rw, d.user && c.user, true) == Mapped(BigPage(b, vp, 2), w, u, !b.nx);
    assert Walk(m, pdpt, vp, 3, d.rw, d.user, true) == Mapped(BigPage(b, vp, 2), w, u, !b.nx);
  }

  // ----------------------------------------------------------------- no room

  /** Page 0 lies under the identity map the loader left: a 2 MiB page on frame 0, executable. */
  ghost predicate LowIdentity(mem: Mem, root: nat) {
    var l := LeafAt(mem, root, 0, 4);
    l.Leaf? && l.level == 2 && l.e.frame == 0 && !l.e.nx
  }

  /** Each page of the block translates as asked once it is set, to a frame of the machine or to the
      frame given. */
  ghost predicate EachMapped(st: Store, root: nat, addr: nat, n: nat, src: Source, pf: PageFlags, all: set<nat>)
    decreases n
  {
    n > 0 ==>
      var st1 := MapOne(st, root, PageOf(addr), src, pf);
      var f := if src.Fresh? then Top(st.sys) else src.frame % FRAMES;
      && Translate(st1.sys.mem, root, PageOf(addr)) == Mapped(f, pf.write, !pf.kernel, pf.exec) && (src.Fresh? ==> f in all)
      && EachMapped(st1, root, addr + 4096, n - 1, Advance(src), pf, all)
  }

  /** Page `k` of the block translates as asked: to the frame given, or to the frame of the machine that
      is its data. */
  ghost predicate PageMapped(st: Store, root: nat, addr: nat, k: nat, src: Source, pf: PageFlags, all: set<nat>) {
    var v := PageOf(addr + k * 4096);
    var t := Translate(st.sys.mem, root, v);
    if src.Fresh? then v in st.data && st.data[v] in all && t == Mapped(st.data[v], pf.write, !pf.kernel, pf.exec)
    else t == Mapped((src.frame + k) % FRAMES, pf.write, !pf.kernel, pf.exec)
  }

  /** So does every page of the block, in the tables as the whole loop leaves them. */
  ghost predicate AllMapped(st: Store, root: nat, addr: nat, n: nat, src: Source, pf: PageFlags, all: set<nat>) {
    forall k: nat :: k < n ==> PageMapped(st, root, addr, k, src, pf, all)
  }

  lemma {:induction false} MappedAfterLoop(st: Store, root: nat, addr: nat, n: nat, src: Source, pf: PageFlags, all: set<nat>)
    requires Accounted(st, root, all) && BlockFree(st, root, addr, n) && pf.present && (pf.usable <==> src.Fresh?)
    requires AllSuffice(st, root, addr, n, src, pf)
    ensures AllMapped(MapPages(st, root, addr, n, src, pf), root, addr, n, src, pf, all)
    decreases n
  {
    hide Accounted, SlotOf, Translate, NoBig, PageOf, Within, CanMap, MapOne, FramesSuffice, BlockFree, PageMapped, BlockEdited;
    if n > 0 {
      var vp := PageOf(addr);
      var st1, st' := MapOne(st, root, vp, src, pf), MapPages(st, root, addr, n, src, pf);
      FirstCanMap(st, root, addr, n, src, pf);
      MapOneKeeps(st, root, vp, src, pf, all);
      RestFree(st, st1, root, addr, n, src, pf);
      MapPagesKeeps(st1, root, addr + 4096, n - 1, Advance(src), pf, all);
      FirstTranslates(st, root, vp, src, pf, all);
      BlockBounds(st, root, addr, n);
      PageBound(addr);
      FirstStays(st, st', root, addr, n, src, pf, all);
      MappedAfterLoop(st1, root, addr + 4096, n - 1, Advance(src), pf, all);
      forall k: nat | k < n ensures PageMapped(st', root, addr, k, src, pf, all) {
        if k > 0 {
          assert PageMapped(st', root, addr + 4096, k - 1, Advance(src), pf, all);
          SamePage(st', root, addr, k, src, pf, all);
        }
      }
    }
  }

  lemma BlockBounds(st: Store, root: nat, addr: nat, n: nat)
    requires BlockFree(st, root, addr, n)
    ensures n <= FRAMES && addr % 4096 == 0
  {
  }

  lemma SamePage(st: Store, root: nat, addr: nat, k: nat, src: Source, pf: PageFlags, all: set<nat>)
    requires k > 0
    ensures PageMapped(st, root, addr, k, src, pf, all) <==> PageMapped(st, root, addr + 4096, k - 1, Advance(src), pf, all)
  {
    assert addr + k * 4096 == addr + 4096 + (k - 1) * 4096;
  }

  /** The first page stays as it was mapped while the others follow. */
  lemma FirstStays(st: Store, st': Store, root: nat, addr: nat, n: nat, src: Source, pf: PageFlags, all: set<nat>)
    requires 0 < n <= FRAMES && addr % 4096 == 0 && PageOf(addr) < FRAMES
    requires var st1 := MapOne(st, root, PageOf(addr), src, pf);
      && st' == MapPages(st1, root, addr + 4096, n - 1, Advance(src), pf)
      && BlockEdited(st1, st', root, addr + 4096, n - 1, true)
      && var f := if src.Fresh? then Top(st.sys) else src.frame % FRAMES;
         && Translate(st1.sys.mem, root, PageOf(addr)) == Mapped(f, pf.write, !pf.kernel, pf.exec) && (src.Fresh? ==> f in all)
    ensures PageMapped(st', root, addr, 0, src, pf, all)
  {
    hide SlotOf, Translate, NoBig, PageOf, Within, SetPage, MapPages;
    var v := PageOf(addr);
    var st1 := MapOne(st, root, v, src, pf);
    FirstNotWithin(addr, n);
    assert SameTranslation(st1.sys.mem, st'.sys.mem, root, v);
    assert addr + 0 * 4096 == addr;
    if src.Fresh? { MapKeepsData(st1, root, addr + 4096, n - 1, Advance(src), pf, v); }
  }

  lemma {:induction false} MappedWhenRoom(st: Store, root: nat, addr: nat, n: nat, src: Source, pf: PageFlags, all: set<nat>)
    requires Accounted(st, root, all) && BlockFree(st, root, addr, n) && pf.present && (pf.usable <==> src.Fresh?)
    requires AllSuffice(st, root, addr, n, src, pf)
    ensures EachMapped(st, root, addr, n, src, pf, all)
    decreases n
  {
    hide Accounted, SlotOf, Translate, NoBig, PageOf, Within, CanMap, MapOne, FramesSuffice, BlockFree;
    if n > 0 {
      var vp := PageOf(addr);
      var st1 := MapOne(st, root, vp, src, pf);
      FirstCanMap(st, root, addr, n, src, pf);
      FirstTranslates(st, root, vp, src, pf, all);
      MapOneKeeps(st, root, vp, src, pf, all);
      RestFree(st, st1, root, addr, n, src, pf);
      MappedWhenRoom(st1, root, addr + 4096, n - 1, Advance(src), pf, all);
    }
  }

  lemma FirstTranslates(st: Store, root: nat, vp: nat, src: Source, pf: PageFlags, all: set<nat>)
    requires Accounted(st, root, all) && CanMap(st, root, vp, src, pf)
    ensures var f := if src.Fresh? then Top(st.sys) else src.frame % FRAMES;
      && Translate(MapOne(st, root, vp, src, pf).sys.mem, root, vp) == Mapped(f, pf.write, !pf.kernel, pf.exec)
      && (src.Fresh? ==> f in all)
  {
    hide Translate, NoBig, PageTables.Missing, SetPage, SlotOf, DataAt, BackingOk;
    if src.Fresh? {
      PopOk(st.sys, root);
      FreshFrame(Pop(st.sys), Top(st.sys));
      hide SysOk;
      assert Top(st.sys) in Elements(st.sys.stack);
    }
    SetPageRefines(Supplied(st, src), root, vp, if src.Fresh? then Top(st.sys) else src.frame, pf);
  }

  /** The first turn with no room: physical page 0 is overwritten, and page 0 stays where it was. */
  lemma FirstTurnOverwrites(st: Store, root: nat, src: Source, pf: PageFlags, all: set<nat>)
    requires Accounted(st, root, all) && LowIdentity(st.sys.mem, root) && 0 !in all
    ensures var st1 := MapOne(st, root, 0, src, pf);
      var f := if src.Fresh? then Top(st.sys) else src.frame;
      var t := Translate(st1.sys.mem, root, 0);
      && Read(st1.sys.mem, 0, 0) == LeafEntry(f, pf) && st1.sys.stack == Supplied(st, src).stack
      && t.Mapped? && t.frame == 0 && t.exec
  {
    hide SlotOf, DataAt, BackingOk, LeafEntry, StackOk;
    var e := LeafAt(st.sys.mem, root, 0, 4).e;
    var s0 := Supplied(st, src);
    TablesSupplied(st, root, src);
    assert 0 !in st.sys.owner by { assert 0 !in Total(st); }
    SetPageUnderBig(s0, root, 0, if src.Fresh? then Top(st.sys) else src.frame, pf, e);
    assert Index(0, 1) == 0 && BigPage(e, 0, 2) == 0;
  }

  lemma TablesSupplied(st: Store, root: nat, src: Source)
    requires TablesOk(st.sys, root)
    ensures TablesOk(Supplied(st, src), root)
  {
    var s, s1 := st.sys, Supplied(st, src);
    assert forall f, i :: ChildOk(s, f, i) ==> ChildOk(s1, f, i);
    assert forall f, i, j :: RightsOkAt(s, f, i, j) ==> RightsOkAt(s1, f, i, j);
  }

  /** A turn on a page of the first 2 MiB leaves the large page over them. */
  lemma LowTurn(st: Store, root: nat, pdpt: nat, pdt: nat, e: Pte, v: nat, src: Source, pf: PageFlags)
    requires BigPath(st.sys, root, pdpt, pdt, 0, e) && e.frame == 0 && 0 !in st.sys.owner && v < 512
    ensures var s1 := MapOne(st, root, v, src, pf).sys;
      BigPath(s1, root, pdpt, pdt, 0, OrFlags(e, TableFlags(pf))) && s1.owner == st.sys.owner
  {
    LowIndices(v);
    LowIndices(0);
    var s0, f := Supplied(st, src), if src.Fresh? then Top(st.sys) else src.frame;
    assert BigPath(s0, root, pdpt, pdt, v, e);
    BigEdits(s0, root, pdpt, pdt, v, e, f, pf);
    hide SetPage, Index, LeafEntry, TableFlags, OrFlags, Supplied;
    OrKeepsLink(TableFlags(pf));
    LowReads(s0.mem, root, pdpt, pdt, v, e, f, pf);
  }

  lemma LowIndices(v: nat)
    requires v < 512
    ensures Index(v, 4) == 0 && Index(v, 3) == 0 && Index(v, 2) == 0
  {
    assert Prefix(v, 0) == v;
    assert Prefix(v, 1) == 0;
    assert Prefix(v, 2) == 0;
    assert Prefix(v, 3) == 0;
  }

  lemma LowReads(m: Mem, root: nat, pdpt: nat, pdt: nat, v: nat, e: Pte, f: nat, pf: PageFlags)
    requires Index(v, 4) == 0 && Index(v, 3) == 0 && Index(v, 2) == 0 && e.frame == 0
    requires root != 0 && pdpt != 0 && pdt != 0 && root != pdpt && root != pdt && pdpt != pdt
    ensures var m', fl := BigEdited(m, root, pdpt, pdt, v, e, f, pf), TableFlags(pf);
      && Read(m', root, 0) == OrFlags(Read(m, root, 0), fl) && Read(m', pdpt, 0) == OrFlags(Read(m, pdpt, 0), fl)
      && Read(m', pdt, 0) == OrFlags(e, fl)
  {
    hide Index, LeafEntry, TableFlags, OrFlags;
  }

  /** The whole loop over pages of the first 2 MiB leaves page 0 where it was. */
  lemma {:induction false} LowStays(st: Store, root: nat, pdpt: nat, pdt: nat, e: Pte, v: nat, n: nat, src: Source, pf: PageFlags)
    requires BigPath(st.sys, root, pdpt, pdt, 0, e) && e.frame == 0 && !e.nx && 0 !in st.sys.owner && v + n <= 512
    ensures var t := Translate(MapPages(st, root, v * 4096, n, src, pf).sys.mem, root, 0); t.Mapped? && t.frame == 0 && t.exec
    decreases n
  {
    hide BigPath, MapOne, Translate, OrFlags, TableFlags;
    if n == 0 {
      LowTranslates(st.sys, root, pdpt, pdt, e);
    } else {
      assert PageOf(v * 4096) == v;
      LowTurn(st, root, pdpt, pdt, e, v, src, pf);
      OrKeepsLink(TableFlags(pf));
      var st1 := MapOne(st, root, v, src, pf);
      LowStays(st1, root, pdpt, pdt, OrFlags(e, TableFlags(pf)), v + 1, n - 1, Advance(src), pf);
      assert (v + 1) * 4096 == v * 4096 + 4096;
    }
  }

  lemma LowTranslates(s: Sys, root: nat, pdpt: nat, pdt: nat, e: Pte)
    requires BigPath(s, root, pdpt, pdt, 0, e) && e.frame == 0 && !e.nx
    ensures var t := Translate(s.mem, root, 0); t.Mapped? && t.frame == 0 && t.exec
  {
    hide Index;
    var d, c := Read(s.mem, root, Index(0, 4)), Read(s.mem, pdpt, Index(0, 3));
    assert BigPage(e, 0, 2) == 0;
    assert Walk(s.mem, pdt, 0, 2, d.rw && c.rw, d.user && c.user, true) == Mapped(0, d.rw && c.rw && e.rw, d.user && c.user && e.user, true);
    assert Walk(s.mem, pdpt, 0, 3, d.rw, d.user, true) == Mapped(0, d.rw && c.rw && e.rw, d.user && c.user && e.user, true);
  }

  /** With no room, a loop of at most 512 pages does not leave page 0 mapped as asked. */
  lemma NotAfterLoop(st: Store, root: nat, n: nat, src: Source, pf: PageFlags, all: set<nat>)
    requires Accounted(st, root, all) && LowIdentity(st.sys.mem, root) && 0 !in all && 0 < n <= 512
    requires src.Given? ==> !pf.exec
    ensures !AllMapped(MapPages(st, root, 0, n, src, pf), root, 0, n, src, pf, all)
  {
    hide SlotOf, DataAt, BackingOk, StackOk, Translate, MapPages;
    var e := LeafAt(st.sys.mem, root, 0, 4).e;
    assert 0 !in st.sys.owner by { assert 0 !in Total(st); }
    var pdpt, pdt := FindBigPath(st.sys, root, 0, e);
    LowStays(st, root, pdpt, pdt, e, 0, n, src, pf);
    assert PageOf(0 + 0 * 4096) == 0;
    assert !PageMapped(MapPages(st, root, 0, n, src, pf), root, 0, 0, src, pf, all);
  }

  /** `malloc_pages`, with the frames it needs when there is room: every page is mapped as asked, in its
      turn and after the whole loop, if and only if the allocation found room. Otherwise the loop
      starts at address 0; up to 512 pages, page 0 is not mapped as asked at the end either. */
  lemma MallocRightIff<P>(m: Manager<P>, r: Range, all: set<nat>, pages: nat, write: bool, exec: bool, kernel: bool, p: P)
    requires Inv(m, r, all) && LowIdentity(m.store.sys.mem, r.root) && 0 !in all && pages > 0
    requires V.AllocVirt(m.tree, pages, p).Put? ==> HasRoom(m, r, pages, Fresh, MallocFlags(write, exec, kernel), p)
    ensures EachMapped(m.store, r.root, PlacedAt(m.tree, pages, p).0, pages, Fresh, MallocFlags(write, exec, kernel), all) <==>
      V.AllocVirt(m.tree, pages, p).Put?
    ensures RightAfter(m, r, pages, Fresh, MallocFlags(write, exec, kernel), p, all)
  {
    RightIff(m, r, all, pages, Fresh, MallocFlags(write, exec, kernel), p);
  }

  /** The same of `map_memory`. */
  lemma MapRightIff<P>(m: Manager<P>, r: Range, all: set<nat>, at: nat, pages: nat, kernel: bool, p: P)
    requires Inv(m, r, all) && LowIdentity(m.store.sys.mem, r.root) && 0 !in all && pages > 0 && at % 4096 == 0
    requires V.AllocVirt(m.tree, pages, p).Put? ==> HasRoom(m, r, pages, Given(at / 4096), MapFlags(kernel), p)
    ensures EachMapped(m.store, r.root, PlacedAt(m.tree, pages, p).0, pages, Given(at / 4096), MapFlags(kernel), all) <==>
      V.AllocVirt(m.tree, pages, p).Put?
    ensures RightAfter(m, r, pages, Given(at / 4096), MapFlags(kernel), p, all)
  {
    RightIff(m, r, all, pages, Given(at / 4096), MapFlags(kernel), p);
  }

  /** After the whole loop the block is mapped as asked if there was room, and if there was none, for at
      most 512 pages, it is not. */
  ghost predicate RightAfter<P>(m: Manager<P>, r: Range, pages: nat, src: Source, pf: PageFlags, p: P, all: set<nat>) {
    var addr := PlacedAt(m.tree, pages, p).0;
    var right := AllMapped(MapPages(m.store, r.root, addr, pages, src, pf), r.root, addr, pages, src, pf, all);
    (V.AllocVirt(m.tree, pages, p).Put? ==> right) && (V.AllocVirt(m.tree, pages, p).Failed? && pages <= 512 ==> !right)
  }

  lemma RightIff<P>(m: Manager<P>, r: Range, all: set<nat>, pages: nat, src: Source, pf: PageFlags, p: P)
    requires Inv(m, r, all) && LowIdentity(m.store.sys.mem, r.root) && 0 !in all && pages > 0
    requires pf.present && (pf.usable <==> src.Fresh?) && (src.Given? ==> !pf.exec)
    requires V.AllocVirt(m.tree, pages, p).Put? ==> HasRoom(m, r, pages, src, pf, p)
    ensures EachMapped(m.store, r.root, PlacedAt(m.tree, pages, p).0, pages, src, pf, all) <==> V.AllocVirt(m.tree, pages, p).Put?
    ensures RightAfter(m, r, pages, src, pf, p, all)
  {
    hide Accounted, Linked, V.Indexes, BlockFree, AllSuffice, LowIdentity, MapOne, Translate, V.AllocVirt, AllMapped, MapPages;
    var addr := PlacedAt(m.tree, pages, p).0;
    if V.AllocVirt(m.tree, pages, p).Put? {
      BlockIsFree(m, r, all, pages, p);
      MappedWhenRoom(m.store, r.root, addr, pages, src, pf, all);
      MappedAfterLoop(m.store, r.root, addr, pages, src, pf, all);
    } else {
      if pages <= 512 { NotAfterLoop(m.store, r.root, pages, src, pf, all); }
      FirstTurnOverwrites(m.store, r.root, src, pf, all);
      assert PageOf(0) == 0;
    }
  }

  // ------------------------------------------------------- setting a mapped page

  /** The frames that some record of the kernel still leads to. */
  ghost function Held(s: Sys, root: nat, nodes: set<nat>): set<nat> {
    Elements(s.stack) + s.owner.Keys + nodes + Backing(s.mem, root)
  }

  /** The frames of usable pages. */
  ghost function Backing(mem: Mem, root: nat): set<nat> {
    set v: nat | v < FRAMES && SlotOf(mem, root, v).usable :: SlotOf(mem, root, v).frame
  }

  /** `set_page` as seen from the frames: tables and stack trade frames, one slot changes. */
  ghost predicate SlotSet(s: Sys, s': Sys, root: nat, vp: nat, e: Pte) {
    && Elements(s'.stack) + s'.owner.Keys == Elements(s.stack) + s.owner.Keys
    && SlotOf(s'.mem, root, vp) == e
    && (forall v: nat :: v < FRAMES && v != vp ==> SlotOf(s'.mem, root, v) == SlotOf(s.mem, root, v))
  }

  lemma SetPageSets(s: Sys, root: nat, vp: nat, frame: nat, pf: PageFlags)
    requires SysOk(s, root) && Reachable(s, root, vp)
    ensures SlotSet(s, SetPage(s, root, vp, frame, pf), root, vp, LeafEntry(frame, pf))
  {
    hide SysOk, Reachable, SetPage, SlotOf, Translate, LeafAt, NoBig, LeafEntry, TablesTaken, PageTables.Missing;
    var s' := SetPage(s, root, vp, frame, pf);
    SetPageRefines(s, root, vp, frame, pf);
    TakenTotal(s, s', s'.stack, PageTables.Missing(s.mem, root, vp, 4));
    forall v: nat | v < FRAMES && v != vp ensures SlotOf(s'.mem, root, v) == SlotOf(s.mem, root, v) {
      assert SameTranslation(s.mem, s'.mem, root, v);
    }
  }

  /** `set_page` loses a frame if and only if the page was backed by a usable frame and does not get the
      same one again: the frame replaced is not freed, whatever the comment says. */
  lemma SetPageLosesIff(st: Store, root: nat, all: set<nat>, vp: nat, frame: nat, pf: PageFlags)
    requires Accounted(st, root, all) && Reachable(st.sys, root, vp)
    ensures var was := SlotOf(st.sys.mem, root, vp);
      var s' := SetPage(st.sys, root, vp, frame, pf);
      Held(st.sys, root, st.nodes) <= Held(s', root, st.nodes) <==>
        !was.usable || (pf.usable && frame % FRAMES == was.frame)
  {
    hide SetPage, SlotOf, NoBig, PageTables.Missing, Elements;
    SetPageSets(st.sys, root, vp, frame, pf);
    var s, s', e := st.sys, SetPage(st.sys, root, vp, frame, pf), LeafEntry(frame, pf);
    var was := SlotOf(s.mem, root, vp);
    assert e.usable == pf.usable && e.frame == frame % FRAMES;
    if !was.usable || (pf.usable && frame % FRAMES == was.frame) {
      NothingLost(s, s', root, vp, e, st.nodes);
    } else {
      FrameLost(st, s', root, all, vp, e);
    }
  }

  lemma NothingLost(s: Sys, s': Sys, root: nat, vp: nat, e: Pte, nodes: set<nat>)
    requires vp < FRAMES && SlotSet(s, s', root, vp, e)
    requires SlotOf(s.mem, root, vp).usable ==> e.usable && e.frame == SlotOf(s.mem, root, vp).frame
    ensures Held(s, root, nodes) <= Held(s', root, nodes)
  {
    hide SlotOf, Elements;
    forall x | x in Backing(s.mem, root) ensures x in Backing(s'.mem, root) {
      var v: nat :| v < FRAMES && SlotOf(s.mem, root, v).usable && SlotOf(s.mem, root, v).frame == x;
      assert SlotOf(s'.mem, root, v).usable && SlotOf(s'.mem, root, v).frame == x;
    }
    var a, b := Elements(s.stack) + s.owner.Keys, Elements(s'.stack) + s'.owner.Keys;
    assert a == b;
  }

  lemma FrameLost(st: Store, s': Sys, root: nat, all: set<nat>, vp: nat, e: Pte)
    requires Accounted(st, root, all) && vp < FRAMES && SlotSet(st.sys, s', root, vp, e)
    requires var was := SlotOf(st.sys.mem, root, vp); was.usable && !(e.usable && e.frame == was.frame)
    ensures var x := SlotOf(st.sys.mem, root, vp).frame;
      x in Held(st.sys, root, st.nodes) && x !in Held(s', root, st.nodes)
  {
    hide SlotOf, SysOk;
    var x := SlotOf(st.sys.mem, root, vp).frame;
    assert DataAt(st, root, vp) && BackingOk(st, vp);
    assert x in Backing(st.sys.mem, root);
    var a, b := Elements(st.sys.stack) + st.sys.owner.Keys, Elements(s'.stack) + s'.owner.Keys;
    assert a == b && x !in a;
    forall v: nat | v < FRAMES && SlotOf(s'.mem, root, v).usable ensures SlotOf(s'.mem, root, v).frame != x {
      assert DataAt(st, root, v);
    }
  }

  // ------------------------------------------------------------ a failing input

  /** One page, mapped on frame 5 through tables 1 to 4; frame 6 is set over it. */
  const FOUR_TABLES: Mem := map[Slot(1, 0) := TableEntry(2), Slot(2, 0) := TableEntry(3), Slot(3, 0) := TableEntry(4),
                                Slot(4, 0) := ZERO.(frame := 5, present := true, rw := true, usable := true)]

  const FOUR_OWNERS: map<nat, Pos> := map[1 := Pos(4, 0), 2 := Pos(3, 0), 3 := Pos(2, 0), 4 := Pos(1, 0)]

  /** The same tables after the flags were ORed in. */
  function Edited(fl: Flags, e: Pte): Mem {
    map[Slot(1, 0) := OrFlags(TableEntry(2), fl), Slot(2, 0) := OrFlags(TableEntry(3), fl),
        Slot(3, 0) := OrFlags(TableEntry(4), fl), Slot(4, 0) := e]
  }

  lemma ZeroIndices()
    ensures Index(0, 4) == 0 && Index(0, 3) == 0 && Index(0, 2) == 0 && Index(0, 1) == 0
  {
    assert Prefix(0, 1) == 0;
    assert Prefix(0, 2) == 0;
    assert Prefix(0, 3) == 0;
  }

  lemma OnlySlotZero(mem: Mem, fl: Flags, e: Pte, v: nat)
    requires mem == Edited(fl, e)
    ensures SlotOf(mem, 1, v) == if v == 0 then e else ZERO
  {
    var p := v / 512;
    var q := p / 512;
    var r := q / 512;
    assert TableAt(mem, 1, Pos(4, r / 512)) == if r / 512 == 0 then Table(1) else NoTable;
    assert TableAt(mem, 1, Pos(3, r)) == if r == 0 then Table(2) else NoTable;
    assert TableAt(mem, 1, Pos(2, q)) == if q == 0 then Table(3) else NoTable;
    assert TableAt(mem, 1, Pos(1, p)) == if p == 0 then Table(4) else NoTable;
  }

  lemma FourDescent(s: Sys, fl: Flags)
    requires s == Sys(FOUR_TABLES, [], FOUR_OWNERS)
    ensures Descent(s, 1, 0, 4, fl) == Sys(Edited(fl, FOUR_TABLES[Slot(4, 0)]), [], FOUR_OWNERS) && Bottom(s, 1, 0, 4, fl) == 4
  {
    ZeroIndices();
    hide Index, Prefix;
    var e := FOUR_TABLES[Slot(4, 0)];
    var m1 := Write(FOUR_TABLES, 1, 0, OrFlags(TableEntry(2), fl));
    var m2 := Write(m1, 2, 0, OrFlags(TableEntry(3), fl));
    var m3 := Write(m2, 3, 0, OrFlags(TableEntry(4), fl));
    var s1 := Descend(s, 1, 0, fl, Pos(3, Prefix(0, 3)));
    assert s1 == s.(mem := m1) && Next(s1, 1, 0) == 2;
    var s2 := Descend(s1, 2, 0, fl, Pos(2, Prefix(0, 2)));
    assert s2 == s.(mem := m2) && Next(s2, 2, 0) == 3;
    var s3 := Descend(s2, 3, 0, fl, Pos(1, Prefix(0, 1)));
    assert s3 == s.(mem := m3) && Next(s3, 3, 0) == 4;
    assert m3 == Edited(fl, e);
    hide Descend, Next, OrFlags;
    assert Descent(s2, 3, 0, 2, fl) == s3 && Bottom(s2, 3, 0, 2, fl) == 4;
    assert Descent(s1, 2, 0, 3, fl) == s3 && Bottom(s1, 2, 0, 3, fl) == 4;
  }

  lemma FourSet(s: Sys, pf: PageFlags)
    requires s == Sys(FOUR_TABLES, [], FOUR_OWNERS)
    ensures SetPage(s, 1, 0, 6, pf) == Sys(Edited(TableFlags(pf), LeafEntry(6, pf)), [], FOUR_OWNERS)
  {
    ZeroIndices();
    FourDescent(s, TableFlags(pf));
    hide Index, Descent, Bottom, OrFlags, TableFlags, LeafEntry;
  }

  /** Frame 5, in use before, is on no stack, is no table and backs no page afterwards. */
  lemma OverwrittenFrameIsLost()
    ensures var s := Sys(FOUR_TABLES, [], FOUR_OWNERS);
      var s' := SetPage(s, 1, 0, 6, PageFlags(true, false, true, true, true));
      && 5 in Held(s, 1, {}) && 5 !in Held(s', 1, {})
  {
    var s, pf := Sys(FOUR_TABLES, [], FOUR_OWNERS), PageFlags(true, false, true, true, true);
    var e, d := LeafEntry(6, pf), FOUR_TABLES[Slot(4, 0)];
    assert e.frame == 6 && d.frame == 5 && d.usable && FOUR_TABLES == Edited(NO_FLAGS, d);
    FourSet(s, pf);
    hide SetPage, SlotOf, LeafEntry, OrFlags, Edited, TableFlags;
    var s' := SetPage(s, 1, 0, 6, pf);
    OnlySlotZero(s.mem, NO_FLAGS, d, 0);
    forall v: nat ensures SlotOf(s'.mem, 1, v).frame != 5 { OnlySlotZero(s'.mem, TableFlags(pf), e, v); }
    assert 5 in Backing(s.mem, 1);
    assert 5 !in FOUR_OWNERS.Keys;
  }
}
