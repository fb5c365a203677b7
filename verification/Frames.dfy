/**
 Page mapping loops of kernel/system/mem_mgmt/vmm/mem_mgmt.c over page tables
 and free stack, and the accounting of frames: every frame the machine started
 with is at any time on the free stack, a page table, the backing of one usable
 page, or a page of tree nodes, and never two of these.
 */
module Frames {
  import opened PageTables
  import opened PagingProofs

  /** `data` records which frame backs each usable page, `nodes` the frames holding tree nodes. */
  datatype Store = Store(sys: Sys, data: map<nat, nat>, nodes: set<nat>)

  /** Where the frames of a mapping come from. */
  datatype Source = Fresh | Given(frame: nat)

  /** Pages are numbered modulo the 48-bit address space: the upper 16 bits are dropped. */
  function PageOf(addr: nat): nat { addr / 4096 % FRAMES }

  // ------------------------------------------------------------- operations

  /** One turn of the loop in `malloc_pages` (fresh frame) or `map_memory` (given frame). */
  function MapOne(st: Store, root: nat, vp: nat, src: Source, pf: PageFlags): Store {
    match src
    case Fresh =>
      var f := Top(st.sys);
      st.(sys := SetPage(Pop(st.sys), root, vp, f, pf), data := st.data[vp := f])
    case Given(f) => st.(sys := SetPage(st.sys, root, vp, f, pf))
  }

  function Advance(src: Source): Source {
    match src case Fresh => Fresh case Given(f) => Given(f + 1)
  }

  /** Maps `n` pages from address `addr` on. */
  function MapPages(st: Store, root: nat, addr: nat, n: nat, src: Source, pf: PageFlags): Store
    decreases n
  {
    if n == 0 then st
    else MapPages(MapOne(st, root, PageOf(addr), src, pf), root, addr + 4096, n - 1, Advance(src), pf)
  }

  function FreeOne(st: Store, root: nat, vp: nat): Store {
    st.(sys := FreePage(st.sys, root, vp), data := st.data - {vp})
  }

  function FreePages(st: Store, root: nat, addr: nat, n: nat): Store
    decreases n
  {
    if n == 0 then st else FreePages(FreeOne(st, root, PageOf(addr)), root, addr + 4096, n - 1)
  }

  // --------------------------------------------------------------- invariant

  ghost predicate DataAt(st: Store, root: nat, vp: nat) {
    var e := SlotOf(st.sys.mem, root, vp);
    (e.usable <==> vp in st.data) && (vp in st.data ==> e.present && e.frame == st.data[vp])
  }

  /** The frame belongs to this page alone. */
  ghost predicate BackingOk(st: Store, vp: nat)
    requires vp in st.data
  {
    vp < FRAMES && MayReturn(st.sys, st.data[vp]) && st.data[vp] !in st.nodes
  }

  ghost predicate NodeFrameOk(st: Store, x: nat) { MayReturn(st.sys, x) }

  ghost function Total(st: Store): set<nat> {
    Elements(st.sys.stack) + st.sys.owner.Keys + st.data.Values + st.nodes
  }

  /** Each frame has one use, no two usable pages share one, and together they are `all`. */
  ghost predicate Accounted(st: Store, root: nat, all: set<nat>) {
    && SysOk(st.sys, root)
    && (forall vp: nat :: vp < FRAMES ==> DataAt(st, root, vp))
    && (forall vp :: vp in st.data ==> BackingOk(st, vp))
    && (forall v, w :: v in st.data && w in st.data && v != w ==> st.data[v] != st.data[w])
    && (forall x :: x in st.nodes ==> NodeFrameOk(st, x))
    && Total(st) == all
  }

  // ---------------------------------------------------------------- one page

  function Supplied(st: Store, src: Source): Sys {
    if src.Fresh? then Pop(st.sys) else st.sys
  }

  /** The page is free, and frame and missing tables can be had. */
  ghost predicate CanMap(st: Store, root: nat, vp: nat, src: Source, pf: PageFlags) {
    && (src.Fresh? ==> st.sys.stack != []) && pf.present && (pf.usable <==> src.Fresh?)
    && Reachable(Supplied(st, src), root, vp) && vp !in st.data
  }

  lemma PopOk(s: Sys, root: nat)
    requires SysOk(s, root) && s.stack != []
    ensures SysOk(Pop(s), root) && MayReturn(Pop(s), Top(s))
    ensures Elements(s.stack) == Elements(Pop(s).stack) + {Top(s)}
  {
    hide Blank;
    var s1 := Pop(s);
    var n := |s.stack| - 1;
    assert s.stack == s1.stack + [s.stack[n]];
    assert forall f, i :: ChildOk(s, f, i) ==> ChildOk(s1, f, i);
    assert forall f, i, j :: RightsOkAt(s, f, i, j) ==> RightsOkAt(s1, f, i, j);
  }

  /** A frame in neither role stays so, and blank, when only tables are taken off the stack. */
  lemma StillReturnable(s: Sys, s': Sys, x: nat, q: seq<nat>, n: nat)
    requires MayReturn(s, x) && KeepsBlank(s.mem, s') && TablesTaken(s, s', q, n)
    requires forall y :: y in s'.stack ==> y in q
    ensures MayReturn(s', x)
  {
  }

  lemma {:induction false} TakenTotal(s: Sys, s': Sys, q: seq<nat>, n: nat)
    requires TablesTaken(s, s', q, n)
    ensures Elements(q) + s'.owner.Keys == Elements(s.stack) + s.owner.Keys
  {
    assert s.stack == q + s.stack[|s.stack| - n..];
  }

  /** What `MapOne` does to the tables, in the terms used below. */
  ghost predicate Edited(s: Sys, s': Sys, root: nat, vp: nat, e: Pte, n: nat) {
    && SysOk(s', root) && KeepsBlank(s.mem, s') && TablesTaken(s, s', s'.stack, n)
    && SlotOf(s'.mem, root, vp) == e
    && (forall v: nat :: v < FRAMES && v != vp ==> SameTranslation(s.mem, s'.mem, root, v))
    && (forall v: nat :: v < FRAMES && NoBig(s.mem, root, v, 4) ==> NoBig(s'.mem, root, v, 4))
  }

  lemma MapOneEdits(st: Store, root: nat, vp: nat, src: Source, pf: PageFlags, all: set<nat>)
    requires Accounted(st, root, all) && CanMap(st, root, vp, src, pf)
    ensures var s0 := Supplied(st, src);
      var f := if src.Fresh? then Top(st.sys) else src.frame;
      Edited(s0, MapOne(st, root, vp, src, pf).sys, root, vp, LeafEntry(f, pf), Missing(s0.mem, root, vp, 4))
  {
    hide SysOk, Missing, NoBig, Translate, SlotOf, KeepsBlank, TablesTaken, SetPage, DataAt, BackingOk, NodeFrameOk,
         Total;
    var s0 := Supplied(st, src);
    var f := if src.Fresh? then Top(st.sys) else src.frame;
    if src.Fresh? { PopOk(st.sys, root); }
    SetPageRefines(s0, root, vp, f, pf);
    var s' := MapOne(st, root, vp, src, pf).sys;
    forall v: nat | v < FRAMES && NoBig(s0.mem, root, v, 4) ensures NoBig(s'.mem, root, v, 4) {
      if v != vp { assert SameTranslation(s0.mem, s'.mem, root, v); }
    }
  }

  lemma DataKeeps(st: Store, st': Store, root: nat, vp: nat, e: Pte)
    requires forall v: nat :: v < FRAMES ==> DataAt(st, root, v)
    requires forall v: nat :: v < FRAMES && v != vp ==> SameTranslation(st.sys.mem, st'.sys.mem, root, v)
    requires SlotOf(st'.sys.mem, root, vp) == e && (e.usable ==> e.present)
    requires st'.data == (if e.usable then st.data[vp := e.frame] else st.data - {vp})
    ensures forall v: nat :: v < FRAMES ==> DataAt(st', root, v)
  {
    hide SlotOf, Translate, NoBig;
    forall v: nat | v < FRAMES ensures DataAt(st', root, v) {
      assert DataAt(st, root, v);
      if v != vp { assert SameTranslation(st.sys.mem, st'.sys.mem, root, v); }
    }
  }

  /** `MapOne` keeps every frame accounted for. */
  lemma MapOneKeeps(st: Store, root: nat, vp: nat, src: Source, pf: PageFlags, all: set<nat>)
    requires Accounted(st, root, all) && CanMap(st, root, vp, src, pf)
    ensures Accounted(MapOne(st, root, vp, src, pf), root, all)
    ensures var st' := MapOne(st, root, vp, src, pf);
      && SlotOf(st'.sys.mem, root, vp).present
      && (forall v: nat :: v < FRAMES && v != vp ==> SameTranslation(st.sys.mem, st'.sys.mem, root, v))
      && (forall v: nat :: v < FRAMES && NoBig(st.sys.mem, root, v, 4) ==> NoBig(st'.sys.mem, root, v, 4))
  {
    hide SysOk, Missing, NoBig, Translate, SlotOf, KeepsBlank, TablesTaken, SetPage, DataAt, NodeFrameOk, MayReturn,
         Elements;
    var s0, st' := Supplied(st, src), MapOne(st, root, vp, src, pf);
    var f := if src.Fresh? then Top(st.sys) else src.frame;
    var n := Missing(s0.mem, root, vp, 4);
    MapOneEdits(st, root, vp, src, pf, all);
    assert st.data - {vp} == st.data;
    if src.Fresh? { PopOk(st.sys, root); FreshFrame(Pop(st.sys), f); }
    DataKeeps(st, st', root, vp, LeafEntry(f, pf));
    TakenTotal(s0, st'.sys, st'.sys.stack, n);
    MapOneRoles(st, root, vp, src, pf, all);
    if src.Fresh? { AddedValue(st.data, vp, f); }
  }

  lemma FreshFrame(s: Sys, f: nat)
    requires MayReturn(s, f)
    ensures f % FRAMES == f
  {
  }

  lemma AddedValue(m: map<nat, nat>, k: nat, v: nat)
    requires k !in m
    ensures m[k := v].Values == m.Values + {v}
  {
    forall x | x in m.Values ensures x in m[k := v].Values {
      var j :| j in m && m[j] == x;
      assert m[k := v][j] == x;
    }
    assert m[k := v][k] == v;
  }

  lemma MayStillReturn(st: Store, src: Source, s': Sys, x: nat, n: nat)
    requires MayReturn(st.sys, x) && (src.Fresh? ==> st.sys.stack != [])
    requires KeepsBlank(Supplied(st, src).mem, s') && TablesTaken(Supplied(st, src), s', s'.stack, n)
    ensures MayReturn(s', x)
  {
    assert MayReturn(Supplied(st, src), x);
    StillReturnable(Supplied(st, src), s', x, s'.stack, n);
  }

  lemma MapOneRoles(st: Store, root: nat, vp: nat, src: Source, pf: PageFlags, all: set<nat>)
    requires Accounted(st, root, all) && CanMap(st, root, vp, src, pf)
    ensures var st' := MapOne(st, root, vp, src, pf);
      && (forall v :: v in st'.data ==> BackingOk(st', v))
      && (forall v, w :: v in st'.data && w in st'.data && v != w ==> st'.data[v] != st'.data[w])
      && (forall x :: x in st'.nodes ==> NodeFrameOk(st', x))
  {
    hide SysOk, Missing, NoBig, Translate, SlotOf, KeepsBlank, TablesTaken, SetPage, DataAt, Elements;
    var s0, st' := Supplied(st, src), MapOne(st, root, vp, src, pf);
    var n := Missing(s0.mem, root, vp, 4);
    MapOneEdits(st, root, vp, src, pf, all);
    if src.Fresh? {
      PopOk(st.sys, root);
      StillReturnable(s0, st'.sys, Top(st.sys), st'.sys.stack, n);
    }
    forall v | v in st.data ensures BackingOk(st, v) && MayReturn(st'.sys, st.data[v]) {
      MayStillReturn(st, src, st'.sys, st.data[v], n);
    }
    forall x | x in st.nodes ensures MayReturn(st'.sys, x) {
      assert NodeFrameOk(st, x);
      MayStillReturn(st, src, st'.sys, x, n);
    }
  }

  // ------------------------------------------------------------ freeing a page

  /** A page that has a 4 KiB-level table needs no new one. */
  lemma {:induction false} NothingMissing(mem: Mem, root: nat, vp: nat, level: nat, f: nat)
    requires 1 <= level <= 4 && TableAt(mem, root, Pos(level, Prefix(vp, level))) == Table(f)
    requires Missing(mem, f, vp, level) == 0 && NoBig(mem, f, vp, level)
    ensures Missing(mem, root, vp, 4) == 0 && NoBig(mem, root, vp, 4)
    decreases 4 - level
  {
    if level < 4 {
      PrefixStep(vp, level + 1);
      var up := TableAt(mem, root, Pos(level + 1, Prefix(vp, level + 1)));
      NothingMissing(mem, root, vp, level + 1, up.frame);
    }
  }

  lemma MappedIsReachable(s: Sys, root: nat, vp: nat)
    requires vp < FRAMES && SlotOf(s.mem, root, vp) != ZERO
    ensures Reachable(s, root, vp) && Missing(s.mem, root, vp, 4) == 0
  {
    PrefixStep(vp, 1);
    NothingMissing(s.mem, root, vp, 1, TableAt(s.mem, root, Pos(1, vp / 512)).frame);
  }

  lemma RemovedValue(m: map<nat, nat>, k: nat)
    requires k in m
    requires forall v, w :: v in m && w in m && v != w ==> m[v] != m[w]
    ensures (m - {k}).Values == m.Values - {m[k]}
  {
    forall x | x in m.Values && x != m[k] ensures x in (m - {k}).Values {
      var j :| j in m && m[j] == x;
      assert (m - {k})[j] == x;
    }
  }

  /** `FreeOne` on a mapped page: no frame is needed and none is lost. */
  lemma FreeOneKeeps(st: Store, root: nat, vp: nat, all: set<nat>)
    requires Accounted(st, root, all) && vp < FRAMES && SlotOf(st.sys.mem, root, vp).present
    ensures Accounted(FreeOne(st, root, vp), root, all)
    ensures var st' := FreeOne(st, root, vp);
      && SlotOf(st'.sys.mem, root, vp) == ZERO && Translate(st'.sys.mem, root, vp) == Fault
      && st'.sys.stack == st.sys.stack + (if vp in st.data then [st.data[vp]] else [])
      && (forall v: nat :: v < FRAMES && v != vp ==> SameTranslation(st.sys.mem, st'.sys.mem, root, v))
      && (forall v: nat :: v < FRAMES && NoBig(st.sys.mem, root, v, 4) ==> NoBig(st'.sys.mem, root, v, 4))
  {
    hide SysOk, Missing, NoBig, Translate, SlotOf, KeepsBlank, TablesTaken, FreePage, MayReturn, Elements;
    var s, s' := st.sys, FreePage(st.sys, root, vp);
    MappedIsReachable(s, root, vp);
    assert DataAt(st, root, vp);
    if vp in st.data { assert BackingOk(st, vp); }
    FreePageRefines(s, root, vp);
    var st' := FreeOne(st, root, vp);
    assert s.stack[..|s.stack| - 0] == s.stack;
    forall v: nat | v < FRAMES && NoBig(s.mem, root, v, 4) ensures NoBig(s'.mem, root, v, 4) {
      if v != vp { assert SameTranslation(s.mem, s'.mem, root, v); }
    }
    assert vp !in st.data ==> st.data - {vp} == st.data;
    FreedData(st, st', root, vp);
    FreedRoles(st, st', root, vp, all);
    FreedTotal(st, st', vp);
  }

  lemma FreedData(st: Store, st': Store, root: nat, vp: nat)
    requires forall v: nat :: v < FRAMES ==> DataAt(st, root, v)
    requires forall v: nat :: v < FRAMES && v != vp ==> SameTranslation(st.sys.mem, st'.sys.mem, root, v)
    requires SlotOf(st'.sys.mem, root, vp) == ZERO && st'.data == st.data - {vp}
    ensures forall v: nat :: v < FRAMES ==> DataAt(st', root, v)
  {
    hide SlotOf;
    DataKeeps(st, st', root, vp, ZERO);
  }

  ghost predicate Pushed(st: Store, st': Store, vp: nat) {
    && st'.data == st.data - {vp} && st'.nodes == st.nodes
    && st'.sys.stack == st.sys.stack + (if vp in st.data then [st.data[vp]] else [])
    && TablesTaken(st.sys, st'.sys, st.sys.stack, 0)
  }

  lemma FreedRoles(st: Store, st': Store, root: nat, vp: nat, all: set<nat>)
    requires Accounted(st, root, all) && Pushed(st, st', vp) && KeepsBlank(st.sys.mem, st'.sys)
    ensures forall v :: v in st'.data ==> BackingOk(st', v)
    ensures forall v, w :: v in st'.data && w in st'.data && v != w ==> st'.data[v] != st'.data[w]
    ensures forall x :: x in st'.nodes ==> NodeFrameOk(st', x)
  {
    hide SysOk, DataAt, Blank;
    assert st'.sys.owner.Keys == st.sys.owner.Keys;
    forall v | v in st'.data ensures BackingOk(st', v) {
      assert BackingOk(st, v);
      if vp in st.data { assert BackingOk(st, vp); }
    }
    forall x | x in st'.nodes ensures NodeFrameOk(st', x) {
      assert NodeFrameOk(st, x);
      if vp in st.data { assert BackingOk(st, vp); }
    }
  }

  lemma FreedTotal(st: Store, st': Store, vp: nat)
    requires Pushed(st, st', vp)
    requires forall v, w :: v in st.data && w in st.data && v != w ==> st.data[v] != st.data[w]
    ensures Total(st') == Total(st)
  {
    if vp in st.data {
      RemovedValue(st.data, vp);
      assert Elements(st'.sys.stack) == Elements(st.sys.stack) + {st.data[vp]};
    } else {
      assert st.data - {vp} == st.data;
    }
  }

  // ------------------------------------------------------------------- loops

  /** Page `v` is one of the `n` pages from `addr` on. */
  ghost predicate Within(v: nat, addr: nat, n: nat) {
    exists k: nat :: k < n && v == PageOf(addr + k * 4096)
  }

  lemma WithinSplit(v: nat, addr: nat, n: nat)
    requires n > 0
    ensures Within(v, addr, n) <==> v == PageOf(addr) || Within(v, addr + 4096, n - 1)
  {
    if Within(v, addr, n) {
      var k: nat :| k < n && v == PageOf(addr + k * 4096);
      if k > 0 { assert addr + 4096 + (k - 1) * 4096 == addr + k * 4096; }
    }
    if v == PageOf(addr) { assert v == PageOf(addr + 0 * 4096); }
    if Within(v, addr + 4096, n - 1) {
      var k: nat :| k < n - 1 && v == PageOf(addr + 4096 + k * 4096);
      assert addr + 4096 + k * 4096 == addr + (k + 1) * 4096;
    }
  }

  lemma FirstNotWithin(addr: nat, n: nat)
    requires 0 < n <= FRAMES && addr % 4096 == 0
    ensures !Within(PageOf(addr), addr + 4096, n - 1)
  {
    forall k: nat | k < n - 1 ensures PageOf(addr) != PageOf(addr + 4096 + k * 4096) {
      assert (addr + 4096 + k * 4096) / 4096 == addr / 4096 + (1 + k);
      ModApart(addr / 4096, 1 + k);
    }
  }

  lemma ModApart(q: nat, d: nat)
    requires 0 < d < FRAMES
    ensures (q + d) % FRAMES != q % FRAMES
  {
    var r := q % FRAMES;
    assert q + d == FRAMES * (q / FRAMES) + (r + d);
    assert (q + d) % FRAMES == if r + d < FRAMES then r + d else r + d - FRAMES;
  }

  /** The pages of a block are all mapped, the others untouched, and large pages keep away. */
  ghost predicate BlockEdited(st: Store, st': Store, root: nat, addr: nat, n: nat, mapped: bool) {
    && (forall v: nat :: v < FRAMES && Within(v, addr, n) ==> SlotOf(st'.sys.mem, root, v).present == mapped)
    && (forall v: nat :: v < FRAMES && !Within(v, addr, n) ==> SameTranslation(st.sys.mem, st'.sys.mem, root, v))
    && (forall v: nat :: v < FRAMES && NoBig(st.sys.mem, root, v, 4) ==> NoBig(st'.sys.mem, root, v, 4))
  }

  /** Editing the first page and then the rest edits the block. */
  lemma BlockStep(st: Store, st1: Store, st2: Store, root: nat, addr: nat, n: nat, mapped: bool)
    requires 0 < n <= FRAMES && addr % 4096 == 0
    requires SlotOf(st1.sys.mem, root, PageOf(addr)).present == mapped
    requires forall v: nat :: v < FRAMES && v != PageOf(addr) ==> SameTranslation(st.sys.mem, st1.sys.mem, root, v)
    requires forall v: nat :: v < FRAMES && NoBig(st.sys.mem, root, v, 4) ==> NoBig(st1.sys.mem, root, v, 4)
    requires BlockEdited(st1, st2, root, addr + 4096, n - 1, mapped)
    ensures BlockEdited(st, st2, root, addr, n, mapped)
  {
    hide SlotOf, Translate, NoBig, PageOf, Within;
    FirstNotWithin(addr, n);
    assert PageOf(addr) < FRAMES by { PageBound(addr); }
    forall v: nat | v < FRAMES
      ensures Within(v, addr, n) ==> SlotOf(st2.sys.mem, root, v).present == mapped
      ensures !Within(v, addr, n) ==> SameTranslation(st.sys.mem, st2.sys.mem, root, v)
    {
      WithinSplit(v, addr, n);
      if v != PageOf(addr) { assert SameTranslation(st.sys.mem, st1.sys.mem, root, v); }
      if !Within(v, addr + 4096, n - 1) { assert SameTranslation(st1.sys.mem, st2.sys.mem, root, v); }
    }
  }

  lemma PageBound(addr: nat)
    ensures PageOf(addr) < FRAMES
  {
  }

  /** Unmapped pages without large pages over them. */
  ghost predicate BlockFree(st: Store, root: nat, addr: nat, n: nat) {
    && n <= FRAMES && addr % 4096 == 0
    && forall v: nat :: v < FRAMES && Within(v, addr, n) ==> v !in st.data && NoBig(st.sys.mem, root, v, 4)
  }

  /** The stack holds the frame of the page, if a fresh one is wanted, and all tables missing for it. */
  ghost predicate FramesSuffice(st: Store, root: nat, vp: nat, src: Source) {
    && (src.Fresh? ==> st.sys.stack != [])
    && Missing(Supplied(st, src).mem, root, vp, 4) <= |Supplied(st, src).stack|
  }

  /** The frames needed are there at each page of the block in turn. */
  ghost predicate AllSuffice(st: Store, root: nat, addr: nat, n: nat, src: Source, pf: PageFlags)
    decreases n
  {
    n > 0 ==>
      && FramesSuffice(st, root, PageOf(addr), src)
      && AllSuffice(MapOne(st, root, PageOf(addr), src, pf), root, addr + 4096, n - 1, Advance(src), pf)
  }

  lemma {:induction false} MissingAtMost(mem: Mem, f: nat, vp: nat, level: nat)
    requires 1 <= level <= 4
    ensures Missing(mem, f, vp, level) < level
    decreases level
  {
    if level > 1 { MissingAtMost(mem, Read(mem, f, Index(vp, level)).frame, vp, level - 1); }
  }

  lemma FirstCanMap(st: Store, root: nat, addr: nat, n: nat, src: Source, pf: PageFlags)
    requires BlockFree(st, root, addr, n) && n > 0 && pf.present && (pf.usable <==> src.Fresh?)
    requires FramesSuffice(st, root, PageOf(addr), src)
    ensures CanMap(st, root, PageOf(addr), src, pf)
  {
    hide NoBig, Missing;
    PageBound(addr);
    WithinSplit(PageOf(addr), addr, n);
  }

  /** The loops of `malloc_pages` and `map_memory`, with the frames they need: all pages of the block
      get mapped, nothing else changes, and no frame is lost or used twice. */
  lemma {:induction false} MapPagesKeeps(st: Store, root: nat, addr: nat, n: nat, src: Source, pf: PageFlags, all: set<nat>)
    requires Accounted(st, root, all) && BlockFree(st, root, addr, n) && pf.present && (pf.usable <==> src.Fresh?)
    requires AllSuffice(st, root, addr, n, src, pf)
    ensures Accounted(MapPages(st, root, addr, n, src, pf), root, all)
    ensures BlockEdited(st, MapPages(st, root, addr, n, src, pf), root, addr, n, true)
    decreases n
  {
    hide Accounted, SlotOf, Translate, NoBig, PageOf, Within, CanMap, MapOne, FramesSuffice;
    if n == 0 {
      EmptyBlock(st, root, addr, true);
    } else {
      var st1 := MapOne(st, root, PageOf(addr), src, pf);
      FirstCanMap(st, root, addr, n, src, pf);
      MapOneKeeps(st, root, PageOf(addr), src, pf, all);
      RestFree(st, st1, root, addr, n, src, pf);
      MapPagesKeeps(st1, root, addr + 4096, n - 1, Advance(src), pf, all);
      BlockStep(st, st1, MapPages(st, root, addr, n, src, pf), root, addr, n, true);
    }
  }

  lemma EmptyBlock(st: Store, root: nat, addr: nat, mapped: bool)
    ensures BlockEdited(st, st, root, addr, 0, mapped)
  {
  }

  lemma RestFree(st: Store, st1: Store, root: nat, addr: nat, n: nat, src: Source, pf: PageFlags)
    requires BlockFree(st, root, addr, n) && n > 0 && st1 == MapOne(st, root, PageOf(addr), src, pf)
    requires forall v: nat :: v < FRAMES && NoBig(st.sys.mem, root, v, 4) ==> NoBig(st1.sys.mem, root, v, 4)
    ensures BlockFree(st1, root, addr + 4096, n - 1)
  {
    hide NoBig, PageOf, Within, SetPage;
    FirstNotWithin(addr, n);
    forall v: nat | v < FRAMES && Within(v, addr + 4096, n - 1)
      ensures v !in st1.data && NoBig(st1.sys.mem, root, v, 4)
    {
      WithinSplit(v, addr, n);
    }
  }

  /** The loop of `free_pages` over a mapped block. */
  lemma {:induction false} FreePagesKeeps(st: Store, root: nat, addr: nat, n: nat, all: set<nat>)
    requires Accounted(st, root, all) && n <= FRAMES && addr % 4096 == 0
    requires forall v: nat :: v < FRAMES && Within(v, addr, n) ==> SlotOf(st.sys.mem, root, v).present
    ensures Accounted(FreePages(st, root, addr, n), root, all)
    ensures BlockEdited(st, FreePages(st, root, addr, n), root, addr, n, false)
    ensures |FreePages(st, root, addr, n).sys.stack| >= |st.sys.stack|
    decreases n
  {
    hide Accounted, SlotOf, Translate, NoBig, PageOf, Within, FreeOne;
    if n == 0 {
      EmptyBlock(st, root, addr, false);
    } else {
      var st1 := FreeOne(st, root, PageOf(addr));
      PageBound(addr);
      WithinSplit(PageOf(addr), addr, n);
      FreeOneKeeps(st, root, PageOf(addr), all);
      FirstNotWithin(addr, n);
      forall v: nat | v < FRAMES && Within(v, addr + 4096, n - 1) ensures SlotOf(st1.sys.mem, root, v).present {
        WithinSplit(v, addr, n);
        assert SameTranslation(st.sys.mem, st1.sys.mem, root, v);
      }
      FreePagesKeeps(st1, root, addr + 4096, n - 1, all);
      BlockStep(st, st1, FreePages(st, root, addr, n), root, addr, n, false);
    }
  }

  /** The stack fits a buffer of `cap` frames after each page freed. */
  ghost predicate FreesFit(st: Store, root: nat, addr: nat, n: nat, cap: nat)
    decreases n
  {
    n > 0 ==>
      var st1 := FreeOne(st, root, PageOf(addr));
      |st1.sys.stack| <= cap && FreesFit(st1, root, addr + 4096, n - 1, cap)
  }

  // --------------------------------------------------------------- never back

  lemma {:induction false} DescentKeepsTables(s: Sys, f: nat, vp: nat, level: nat, fl: Flags)
    requires 1 <= level <= 4
    ensures s.owner.Keys <= Descent(s, f, vp, level, fl).owner.Keys
    decreases level
  {
    if level > 1 {
      var s1 := Descend(s, f, Index(vp, level), fl, Pos(level - 1, Prefix(vp, level - 1)));
      DescentKeepsTables(s1, Next(s1, f, Index(vp, level)), vp, level - 1, fl);
    }
  }

  lemma MapOneKeepsTables(st: Store, root: nat, vp: nat, src: Source, pf: PageFlags)
    ensures st.sys.owner.Keys <= MapOne(st, root, vp, src, pf).sys.owner.Keys
  {
    hide Descent, Bottom;
    DescentKeepsTables(Supplied(st, src), root, vp, 4, TableFlags(pf));
  }

  lemma {:induction false} MapKeepsTables(st: Store, root: nat, addr: nat, n: nat, src: Source, pf: PageFlags)
    ensures st.sys.owner.Keys <= MapPages(st, root, addr, n, src, pf).sys.owner.Keys
    decreases n
  {
    hide MapOne;
    if n > 0 {
      MapOneKeepsTables(st, root, PageOf(addr), src, pf);
      MapKeepsTables(MapOne(st, root, PageOf(addr), src, pf), root, addr + 4096, n - 1, Advance(src), pf);
    }
  }

  // ----------------------------------------------------------------- shortage

  /** A walk that finds the stack empty makes frame 0 a table. */
  lemma {:induction false} DescentShort(s: Sys, root: nat, f: nat, vp: nat, level: nat, fl: Flags)
    requires 1 <= level <= 4 && Standing(s, root, f, vp, level) && Allows(s, f, fl)
    requires NoBig(s.mem, f, vp, level) && Missing(s.mem, f, vp, level) > |s.stack|
    ensures 0 in Descent(s, f, vp, level, fl).owner
    decreases level
  {
    hide Standing, Allows, Prefix, Index, NoBig;
    assert level > 1;
    var i := Index(vp, level);
    var s1 := Enter(s, f, vp, level, fl);
    if !Read(s.mem, f, i).present && s.stack == [] {
      assert 0 in s1.owner;
      DescentKeepsTables(s1, Next(s1, f, i), vp, level - 1, fl);
    } else {
      NotBigHere(s.mem, f, vp, level);
      EnterMisses(s, root, f, vp, level, fl);
      EnterAll(s, root, f, vp, level, fl);
      DescentShort(s1, root, Next(s1, f, i), vp, level - 1, fl);
    }
  }

  lemma NotBigHere(mem: Mem, f: nat, vp: nat, level: nat)
    requires 1 < level <= 4 && NoBig(mem, f, vp, level)
    ensures Read(mem, f, Index(vp, level)).present ==> !Read(mem, f, Index(vp, level)).size
  {
  }

  /** Mapping a page without the frames for it gives frame 0 to the page or to a table. */
  lemma MapOneShort(st: Store, root: nat, vp: nat, src: Source, pf: PageFlags)
    requires SysOk(st.sys, root) && vp < FRAMES && NoBig(st.sys.mem, root, vp, 4) && !FramesSuffice(st, root, vp, src)
    ensures var st' := MapOne(st, root, vp, src, pf);
      0 in st'.sys.owner || (src.Fresh? && vp in st'.data && st'.data[vp] == 0)
  {
    hide SysOk, NoBig, Missing, Descent, Bottom;
    if !(src.Fresh? && st.sys.stack == []) {
      if src.Fresh? { PopOk(st.sys, root); }
      var s0, fl := Supplied(st, src), TableFlags(pf);
      StartAtRoot(s0, root, vp, fl);
      DescentShort(s0, root, root, vp, 4, fl);
    }
  }

  lemma {:induction false} MapKeepsData(st: Store, root: nat, addr: nat, n: nat, src: Source, pf: PageFlags, v: nat)
    requires v in st.data && !Within(v, addr, n)
    ensures v in MapPages(st, root, addr, n, src, pf).data && MapPages(st, root, addr, n, src, pf).data[v] == st.data[v]
    decreases n
  {
    hide SetPage, PageOf, Within;
    if n > 0 {
      WithinSplit(v, addr, n);
      MapKeepsData(MapOne(st, root, PageOf(addr), src, pf), root, addr + 4096, n - 1, Advance(src), pf, v);
    }
  }

  /** With frame 0 not among the frames, the mapping loop keeps every frame accounted for if and only
      if the frames needed are there at each page: the shortage the code does not check for always
      does harm. */
  lemma {:induction false} MapPagesKeepsIff(st: Store, root: nat, addr: nat, n: nat, src: Source, pf: PageFlags, all: set<nat>)
    requires Accounted(st, root, all) && BlockFree(st, root, addr, n) && pf.present && (pf.usable <==> src.Fresh?) && 0 !in all
    ensures Accounted(MapPages(st, root, addr, n, src, pf), root, all) <==> AllSuffice(st, root, addr, n, src, pf)
    decreases n
  {
    hide Accounted, SlotOf, Translate, NoBig, PageOf, Within, CanMap, MapOne, FramesSuffice, BlockFree;
    if n > 0 {
      var vp := PageOf(addr);
      var st1 := MapOne(st, root, vp, src, pf);
      if FramesSuffice(st, root, vp, src) {
        FirstCanMap(st, root, addr, n, src, pf);
        MapOneKeeps(st, root, vp, src, pf, all);
        RestFree(st, st1, root, addr, n, src, pf);
        MapPagesKeepsIff(st1, root, addr + 4096, n - 1, Advance(src), pf, all);
      } else {
        FirstShort(st, root, addr, n, src, pf, all);
      }
    }
  }

  lemma FirstShort(st: Store, root: nat, addr: nat, n: nat, src: Source, pf: PageFlags, all: set<nat>)
    requires Accounted(st, root, all) && BlockFree(st, root, addr, n) && 0 !in all && n > 0
    requires !FramesSuffice(st, root, PageOf(addr), src)
    ensures !Accounted(MapPages(st, root, addr, n, src, pf), root, all)
  {
    hide SlotOf, Translate, NoBig, PageOf, Within, MapOne, FramesSuffice, SysOk, DataAt, BackingOk;
    var vp := PageOf(addr);
    var st1, st' := MapOne(st, root, vp, src, pf), MapPages(st, root, addr, n, src, pf);
    PageBound(addr);
    WithinSplit(vp, addr, n);
    MapOneShort(st, root, vp, src, pf);
    if 0 in st1.sys.owner {
      MapKeepsTables(st1, root, addr + 4096, n - 1, Advance(src), pf);
      assert 0 in Total(st');
    } else {
      FirstNotWithin(addr, n);
      MapKeepsData(st1, root, addr + 4096, n - 1, Advance(src), pf, vp);
      assert st'.data[vp] in st'.data.Values;
      assert 0 in Total(st');
    }
  }

  /** A fresh page mapped with the stack empty and its tables there: it is mapped to frame 0. */
  lemma ShortageMapsZero(st: Store, root: nat, vp: nat, pf: PageFlags)
    requires SysOk(st.sys, root) && st.sys.stack == [] && vp < FRAMES && pf.present
    requires NoBig(st.sys.mem, root, vp, 4) && Missing(st.sys.mem, root, vp, 4) == 0
    ensures Translate(MapOne(st, root, vp, Fresh, pf).sys.mem, root, vp) == Mapped(0, pf.write, !pf.kernel, pf.exec)
  {
    SetPageRefines(st.sys, root, vp, 0, pf);
  }
}
