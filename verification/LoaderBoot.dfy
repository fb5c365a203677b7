/**
 The whole work of the loader put together: the span of the segments,
 `init_page_structure`, the stack page, the origin and the segments
 (loader/loader.c).
 */
module LoaderBoot {
  import opened PageTables
  import opened Words
  import opened PagingProofs
  import opened Frames
  import opened LoaderTables
  import opened ByteMemory
  import opened LoaderImage
  import opened LoaderOrigin
  import PhysicalWindow
  import Unchecked

  // ------------------------------------------------------------------ the span

  /** The least address of a segment, as the first loop of `load_elf64_module` finds it. */
  function SpanStart(segs: seq<Seg>, n: nat): nat
    requires n <= |segs|
  {
    if n == 0 then WORD - 1
    else
      var a := SpanStart(segs, n - 1);
      if segs[n - 1].load && segs[n - 1].vaddr <= a then segs[n - 1].vaddr else a
  }

  function SpanEnd(segs: seq<Seg>, n: nat): nat
    requires n <= |segs|
  {
    if n == 0 then 0
    else
      var a, b := SpanEnd(segs, n - 1), U64(segs[n - 1].vaddr + segs[n - 1].memsz);
      if segs[n - 1].load && b >= a then b else a
  }

  ghost predicate InWord(segs: seq<Seg>) {
    forall i :: 0 <= i < |segs| && segs[i].load ==> segs[i].vaddr + segs[i].memsz < WORD
  }

  /** The span holds every segment seen so far. */
  lemma {:induction false} SpanHolds(segs: seq<Seg>, n: nat, i: nat)
    requires i < n <= |segs| && InWord(segs) && segs[i].load
    ensures SpanStart(segs, n) <= segs[i].vaddr && segs[i].vaddr + segs[i].memsz <= SpanEnd(segs, n)
  {
    if i < n - 1 { SpanHolds(segs, n - 1, i); }
  }

  lemma SpanIs(segs: seq<Seg>, i: nat)
    requires InWord(segs) && i < |segs| && segs[i].load
    ensures Spans(segs, SpanStart(segs, |segs|), SpanEnd(segs, |segs|))
  {
    SpanHolds(segs, |segs|, i);
    forall j | 0 <= j < |segs| && segs[j].load
      ensures SpanStart(segs, |segs|) <= segs[j].vaddr && segs[j].vaddr + segs[j].memsz <= SpanEnd(segs, |segs|)
    {
      SpanHolds(segs, |segs|, j);
    }
  }

  // ------------------------------------------------------------ first tables

  /** Entry `k` of the identity map: a 2 MiB page. */
  function IdentityEntry(k: nat): Pte { ZERO.(frame := k * 512, present := true, rw := true, size := true) }

  /** The pool from frame `free` up to frame `limit`, lowest on top. */
  function Pool(free: nat, limit: nat): seq<nat>
    requires free <= limit
  {
    seq(limit - free, k requires 0 <= k < limit - free => limit - 1 - k)
  }

  function FirstMem(t: nat): Mem {
    map[Slot(t, 0) := TableEntry(t + 1), Slot(t + 1, 0) := TableEntry(t + 2), Slot(t + 2, 0) := IdentityEntry(0),
        Slot(t + 2, 1) := IdentityEntry(1), Slot(t + 2, 2) := IdentityEntry(2), Slot(t + 2, 3) := IdentityEntry(3)]
  }

  /** `init_page_structure` on the zeroed megabyte at frame `t`. */
  function FirstTables(t: nat): Sys {
    Sys(FirstMem(t), Pool(t + 3, t + 256), map[t := Pos(4, 0), t + 1 := Pos(3, 0), t + 2 := Pos(2, 0)])
  }

  /** The entries read: two links, four large pages, otherwise zero. */
  lemma FirstReads(t: nat, f: nat, i: nat)
    ensures Read(FirstMem(t), f, i) ==
      if f == t && i == 0 then TableEntry(t + 1)
      else if f == t + 1 && i == 0 then TableEntry(t + 2)
      else if f == t + 2 && i < 4 then IdentityEntry(i)
      else ZERO
  {
  }

  lemma FirstTree(t: nat)
    ensures TreeOk(FirstTables(t), t)
  {
    hide FirstMem, Pool;
    var s := FirstTables(t);
    FirstReads(t, t, 0);
    FirstReads(t, t + 1, 0);
    assert TableAt(s.mem, t, Pos(4, 0)) == Table(t);
    assert TableAt(s.mem, t, Pos(3, 0)) == Table(t + 1);
    assert TableAt(s.mem, t, Pos(2, 0)) == Table(t + 2);
    forall f, i ensures ChildOk(s, f, i) { if 0 <= f && 0 <= i { FirstReads(t, f, i); } }
  }

  lemma FirstRights(t: nat)
    ensures RightsOk(FirstTables(t)) && Writable(FirstTables(t))
  {
    hide FirstMem, Pool;
    var s := FirstTables(t);
    forall f, i, j ensures RightsOkAt(s, f, i, j) {
      if 0 <= f && 0 <= i && 0 <= j {
        FirstReads(t, f, i);
        FirstReads(t, Read(s.mem, f, i).frame, j);
      }
    }
    forall f, i ensures LinkWritable(s, f, i) { if 0 <= f && 0 <= i { FirstReads(t, f, i); } }
  }

  lemma FirstStack(t: nat)
    requires t + 256 <= FRAMES
    ensures StackOk(FirstTables(t))
  {
    hide FirstMem;
    var s := FirstTables(t);
    forall k | 0 <= k < |s.stack| ensures s.stack[k] < FRAMES && s.stack[k] !in s.owner && Blank(s.mem, s.stack[k]) {
      forall i | i < 512 ensures Read(s.mem, s.stack[k], i) == ZERO { if 0 <= i { FirstReads(t, s.stack[k], i); } }
    }
  }

  lemma FirstTablesOk(t: nat)
    requires t + 256 <= FRAMES
    ensures SysOk(FirstTables(t), t) && Writable(FirstTables(t))
  {
    hide TreeOk, RightsOk, StackOk, Writable, FirstTables;
    FirstTree(t);
    FirstRights(t);
    FirstStack(t);
  }

  lemma Indices(v: nat)
    requires v < FRAMES
    ensures Index(v, 4) == v / 0x800_0000 && Index(v, 3) == v / 0x4_0000 % 512 && Index(v, 2) == v / 512 % 512
  {
    assert Prefix(v, 0) == v;
    assert Prefix(v, 1) == Prefix(v, 0) / 512;
    assert Prefix(v, 2) == Prefix(v, 1) / 512;
    assert Prefix(v, 3) == Prefix(v, 2) / 512;
    hide Prefix;
    assert v / 512 / 512 == v / 0x4_0000 && v / 0x4_0000 / 512 == v / 0x800_0000;
  }

  /** The first 8 MiB are mapped to themselves. */
  lemma FirstMaps(t: nat, v: nat)
    requires v < 2048
    ensures Translate(FirstMem(t), t, v) == Mapped(v, true, false, true)
    ensures LeafAt(FirstMem(t), t, v, 4) == Leaf(2, IdentityEntry(v / 512))
  {
    Indices(v);
    FirstReads(t, t, 0);
    FirstReads(t, t + 1, 0);
    FirstReads(t, t + 2, v / 512);
    SelfBig(v);
    hide Index, FirstMem, BigPage, IdentityEntry, TableEntry;
    FirstWalk(FirstMem(t), t, v);
  }

  lemma SelfBig(v: nat)
    ensures BigPage(IdentityEntry(v / 512), v, 2) == v
  {
    var k := v / 512;
    assert k * 512 / 512 == k;
  }

  lemma FirstWalk(m: Mem, t: nat, v: nat)
    requires v < 2048 && Index(v, 4) == 0 && Index(v, 3) == 0 && Index(v, 2) == v / 512
    requires Read(m, t, 0) == TableEntry(t + 1) && Read(m, t + 1, 0) == TableEntry(t + 2)
    requires Read(m, t + 2, v / 512) == IdentityEntry(v / 512) && BigPage(IdentityEntry(v / 512), v, 2) == v
    ensures Translate(m, t, v) == Mapped(v, true, false, true) && LeafAt(m, t, v, 4) == Leaf(2, IdentityEntry(v / 512))
  {
    hide Index, BigPage;
    assert Walk(m, t + 2, v, 2, true, false, true) == Mapped(v, true, false, true);
    assert Walk(m, t + 1, v, 3, true, false, true) == Mapped(v, true, false, true);
    assert LeafAt(m, t + 2, v, 2) == Leaf(2, IdentityEntry(v / 512));
    assert LeafAt(m, t + 1, v, 3) == Leaf(2, IdentityEntry(v / 512));
  }

  /** Nothing else is mapped, by a large page or otherwise. */
  lemma AboveIsClear(t: nat, v: nat)
    requires 2048 <= v < FRAMES
    ensures NoBig(FirstMem(t), t, v, 4) && Translate(FirstMem(t), t, v) == Fault
  {
    Indices(v);
    hide Index, FirstMem;
    var m := FirstMem(t);
    FirstReads(t, t, v / 0x800_0000);
    if v / 0x800_0000 == 0 {
      FirstReads(t, t + 1, v / 0x4_0000 % 512);
      if v / 0x4_0000 % 512 == 0 {
        FirstReads(t, t + 2, v / 512 % 512);
        assert v / 512 % 512 >= 4;
        assert NoBig(m, t + 2, v, 2) && Walk(m, t + 2, v, 2, true, false, true) == Fault;
      }
      assert NoBig(m, t + 1, v, 3) && Walk(m, t + 1, v, 3, true, false, true) == Fault;
    }
  }

  // ------------------------------------------------------------ whole loading

  /** The last page of the address space, where `lmain` puts the kernel's stack. */
  const STACK_ADDRESS := 0xffff_ffff_ffff_f000

  /** Before the segments: the first tables, the stack page, the origin found. */
  function BootImage(t: nat, stack: nat, ram: Ram, origin: nat): Img {
    Img(AddPage(FirstTables(t), t, PageOf(STACK_ADDRESS), stack, false), ram, origin)
  }

  /** Positions of the tables before the segments: those of the identity map and of the stack page. */
  function BootPlaces(): set<Pos> { {Pos(4, 0), Pos(3, 0), Pos(2, 0)} + WayTo(FRAMES - 1, 4) }

  /** What the loader needs of the kernel file: page-aligned segments of whole pages that lie apart,
      away from the identity map and the stack page, with contents inside the module, and no more
      new tables than the 250 frames left in the pool. */
  ghost predicate SegAway(g: Seg) {
    g.load ==> 2048 <= PageOf(g.vaddr) && PageOf(g.vaddr) + g.memsz / 4096 <= FRAMES - 1
  }

  ghost predicate Loadable(segs: seq<Seg>, file: nat, moduleEnd: nat) {
    && InWord(segs) && SegsApart(segs) && (exists i :: 0 <= i < |segs| && segs[i].load)
    && (forall i :: 0 <= i < |segs| ==> SegOk(segs[i], file, moduleEnd) && SegAway(segs[i]))
    && Lacking(AllPlaces(segs, |segs|), BootPlaces()) <= 250
  }

  lemma ModAdd(p: nat, k: nat)
    requires p % FRAMES + k < FRAMES
    ensures (p + k) % FRAMES == p % FRAMES + k
  {
    assert p + k == FRAMES * (p / FRAMES) + (p % FRAMES + k);
  }

  lemma AwayPages(g: Seg, v: nat)
    requires g.load && SegAway(g) && g.vaddr % 4096 == 0 && Within(v, g.vaddr, g.memsz / 4096)
    ensures 2048 <= v < FRAMES - 1
  {
    var k: nat :| k < g.memsz / 4096 && v == PageOf(g.vaddr + k * 4096);
    var p := g.vaddr / 4096;
    assert (g.vaddr + k * 4096) / 4096 == p + k;
    ModAdd(p, k);
  }

  lemma StackPage()
    ensures PageOf(STACK_ADDRESS) == FRAMES - 1
  {
  }

  /** The stack page takes three tables and leaves 250 in the pool. */
  lemma StackMapped(t: nat, stack: nat)
    requires t + 256 <= FRAMES
    ensures var s0, s := FirstTables(t), AddPage(FirstTables(t), t, PageOf(STACK_ADDRESS), stack, false);
      && SysOk(s, t) && Writable(s) && |s.stack| == 250 && PoolOf(s) == PoolOf(s0) && KeepsClear(s0.mem, s.mem, t)
      && s.owner.Values == BootPlaces()
      && Translate(s.mem, t, PageOf(STACK_ADDRESS)) == Mapped(stack % FRAMES, true, false, false)
      && forall v: nat :: v < FRAMES && v != FRAMES - 1 ==> SameTranslation(s0.mem, s.mem, t, v)
  {
    StackPage();
    var v := FRAMES - 1;
    FirstTablesOk(t);
    AboveIsClear(t, v);
    Indices(v);
    FirstReads(t, t, 511);
    assert Missing(FirstTables(t).mem, t, v, 4) == 3;
    hide SysOk, Writable, NoBig, Translate, SlotOf, AddPage, PoolOf, FirstMem, Index, PageOf, Missing,
         LoaderTables.Steps, WayTo, Lacking;
    AddPageMaps(FirstTables(t), t, v, stack, false);
    var s0, s := FirstTables(t), AddPage(FirstTables(t), t, v, stack, false);
    FramesKept(s0, s, 3);
    AddPagePlaces(s0, t, v, stack, false);
    FirstPlaces(t);
    forall w: nat | w < FRAMES && NoBig(s0.mem, t, w, 4) ensures NoBig(s.mem, t, w, 4) {
      if w != v { assert SameTranslation(s0.mem, s.mem, t, w); }
    }
  }

  lemma FirstPlaces(t: nat)
    ensures FirstTables(t).owner.Values == {Pos(4, 0), Pos(3, 0), Pos(2, 0)}
  {
    var o := FirstTables(t).owner;
    assert o[t] == Pos(4, 0) && o[t + 1] == Pos(3, 0) && o[t + 2] == Pos(2, 0);
  }

  lemma BootClear(t: nat, stack: nat, ram: Ram, origin: nat, file: nat, moduleEnd: nat, segs: seq<Seg>)
    requires t + 256 <= FRAMES && Loadable(segs, file, moduleEnd)
    ensures SegsClear(BootImage(t, stack, ram, origin).sys.mem, t, segs)
  {
    StackMapped(t, stack);
    FirstMemIs(t);
    hide SysOk, Writable, NoBig, Translate, AddPage, PoolOf, PageOf, FirstTables, AllPlaces, Lacking, SpanStart, SpanEnd,
         SameTranslation, SegsApart, InWord, FirstMem, Within, SegAway;
    var m := BootImage(t, stack, ram, origin).sys.mem;
    forall i | 0 <= i < |segs| && segs[i].load ensures ClearRun(m, t, segs[i].vaddr, segs[i].memsz / 4096) {
      forall v: nat | v < FRAMES && Within(v, segs[i].vaddr, segs[i].memsz / 4096) ensures NoBig(m, t, v, 4) {
        AwayPages(segs[i], v);
        AboveIsClear(t, v);
      }
    }
  }

  lemma BootSegs(origin: nat, file: nat, moduleEnd: nat, segs: seq<Seg>)
    requires Loadable(segs, file, moduleEnd) && moduleEnd <= origin && origin % 4096 == 0
    requires origin + (SpanEnd(segs, |segs|) - SpanStart(segs, |segs|)) <= 0x1_0000_0000
    ensures SegsOk(segs, file, origin, SpanStart(segs, |segs|), SpanEnd(segs, |segs|))
  {
    hide SpanStart, SpanEnd, Spans, SegsApart, InWord, SegAway, AllPlaces, Lacking;
    var k :| 0 <= k < |segs| && segs[k].load;
    SpanIs(segs, k);
    SpanOrder(segs, SpanStart(segs, |segs|), SpanEnd(segs, |segs|));
    forall i | 0 <= i < |segs| ensures SegOk(segs[i], file, origin) { assert SegOk(segs[i], file, moduleEnd); }
  }

  lemma SpanOrder(segs: seq<Seg>, start: nat, end: nat)
    requires Spans(segs, start, end)
    ensures start <= end
  {
  }

  lemma BootReady(t: nat, stack: nat, ram: Ram, origin: nat, file: nat, moduleEnd: nat, segs: seq<Seg>)
    requires t + 256 <= FRAMES && Loadable(segs, file, moduleEnd) && moduleEnd <= origin && origin % 4096 == 0
    requires origin + (SpanEnd(segs, |segs|) - SpanStart(segs, |segs|)) <= 0x1_0000_0000
    ensures Ready(BootImage(t, stack, ram, origin), t, file, segs, SpanStart(segs, |segs|), SpanEnd(segs, |segs|))
  {
    hide SysOk, Writable, Translate, AddPage, PoolOf, PageOf, FirstTables, AllPlaces, Lacking, SpanStart, SpanEnd, SegsClear,
         SegsOk, KeepsClear, SameTranslation, SegsApart, InWord, SegAway, SegOk;
    StackMapped(t, stack);
    BootClear(t, stack, ram, origin, file, moduleEnd, segs);
    BootSegs(origin, file, moduleEnd, segs);
  }

  lemma FirstMemIs(t: nat)
    ensures FirstTables(t).mem == FirstMem(t)
  {
  }

  lemma PoolIsMegabyte(t: nat, f: nat)
    requires f in PoolOf(FirstTables(t))
    ensures t <= f < t + 256
  {
  }

  ghost predicate SegRight(im: Img, ram: Ram, root: nat, file: nat, segs: seq<Seg>, origin: nat, i: nat)
    requires i < |segs|
  {
    segs[i].load ==>
      var loc := origin + Taken(segs, i);
      forall b: nat :: ByteRight(im, ram, root, file, segs[i], loc, b)
  }

  /** Mapped to itself by a large page of the identity map. */
  ghost predicate SelfMapped(mem: Mem, root: nat, v: nat) {
    Translate(mem, root, v) == Mapped(v, true, false, true) && LeafAt(mem, root, v, 4) == Leaf(2, IdentityEntry(v / 512))
  }

  ghost predicate InSegment(segs: seq<Seg>, v: nat) {
    exists i :: 0 <= i < |segs| && segs[i].load && Within(v, segs[i].vaddr, segs[i].memsz / 4096)
  }

  /** The kernel image is right: every segment byte at its virtual address; the identity map and the
      stack page in place and no other page mapped; nothing written outside the image; and the page
      tables, one for each position on the way to something mapped and no other, in order inside the
      loader's own megabyte, below the image. */
  ghost predicate KernelInPlace(im: Img, t: nat, stack: nat, ram: Ram, origin: nat, file: nat, segs: seq<Seg>, size: nat) {
    && (forall i :: 0 <= i < |segs| ==> SegRight(im, ram, t, file, segs, origin, i))
    && (forall v: nat :: v < 2048 ==> SelfMapped(im.sys.mem, t, v))
    && (forall v: nat :: 2048 <= v < FRAMES - 1 && !InSegment(segs, v) ==> Translate(im.sys.mem, t, v) == Fault)
    && (forall v: nat :: 2048 <= v < FRAMES ==> NoBig(im.sys.mem, t, v, 4))
    && Translate(im.sys.mem, t, PageOf(STACK_ADDRESS)) == Mapped(stack % FRAMES, true, false, false)
    && RamOutside(ram, im.ram, origin, origin + size)
    && TablesOk(im.sys, t) && im.sys.owner.Values == BootPlaces() + AllPlaces(segs, |segs|)
    && (forall f :: f in im.sys.owner ==> t <= f < t + 256 && f * 4096 + 4096 <= origin)
  }

  /** What surrounds the image stays: the identity map, the stack page, and nothing else. */
  lemma KernelSurroundings(t: nat, stack: nat, ram: Ram, origin: nat, file: nat, moduleEnd: nat, segs: seq<Seg>, v: nat)
    requires t + 256 <= FRAMES && Loadable(segs, file, moduleEnd) && moduleEnd <= origin && origin % 4096 == 0
    requires origin + (SpanEnd(segs, |segs|) - SpanStart(segs, |segs|)) <= 0x1_0000_0000
    requires v < FRAMES && !InSegment(segs, v)
    ensures var m := Load(BootImage(t, stack, ram, origin), t, file, segs, |segs|).sys.mem;
      if v < 2048 then SelfMapped(m, t, v)
      else Translate(m, t, v) == if v == FRAMES - 1 then Mapped(stack % FRAMES, true, false, false) else Fault
  {
    BootReady(t, stack, ram, origin, file, moduleEnd, segs);
    StackMapped(t, stack);
    StackPage();
    FirstMemIs(t);
    hide SysOk, Writable, NoBig, Translate, LeafAt, SlotOf, AddPage, PoolOf, PageOf, FirstTables, AllPlaces, Lacking, SpanStart,
         SpanEnd, SegsApart, InWord, Ready, Load, FirstMem, Within;
    var im0 := BootImage(t, stack, ram, origin);
    LoadSpares(im0, t, file, segs, |segs|, SpanStart(segs, |segs|), SpanEnd(segs, |segs|), v);
    if v != FRAMES - 1 { assert SameTranslation(FirstTables(t).mem, im0.sys.mem, t, v); }
    if v < 2048 { FirstMaps(t, v); } else { AboveIsClear(t, v); }
  }

  lemma LowInNoSegment(segs: seq<Seg>, file: nat, moduleEnd: nat, v: nat)
    requires Loadable(segs, file, moduleEnd) && (v < 2048 || v == FRAMES - 1)
    ensures !InSegment(segs, v)
  {
    hide SegAway, Within, SpanStart, SpanEnd, SegsApart, InWord, AllPlaces, Lacking;
    forall i | 0 <= i < |segs| && segs[i].load ensures !Within(v, segs[i].vaddr, segs[i].memsz / 4096) {
      assert SegOk(segs[i], file, moduleEnd) && SegAway(segs[i]);
      if Within(v, segs[i].vaddr, segs[i].memsz / 4096) { AwayPages(segs[i], v); }
    }
  }

  /** The entry the search stopped at has room for the image, all of it below 4 GiB. */
  ghost predicate GoodEntry(regions: seq<Region>, least: nat, size: nat) {
    var k := FirstChosen(regions, least, size);
    k < |regions| && Room(regions[k], least, size) && PlaceIn(regions[k], least) + size <= HALF
  }

  /** The whole of the loader: whatever the memory map, if the entry the search stopped at is good,
      the origin lies in that entry and the kernel is in place there. */
  lemma KernelLoaded(t: nat, stack: nat, ram: Ram, regions: seq<Region>, least: nat, file: nat, moduleEnd: nat, segs: seq<Seg>)
    requires t + 256 <= FRAMES && Loadable(segs, file, moduleEnd) && AllStored(regions) && least < HALF
    requires (t + 256) * 4096 <= least && moduleEnd <= least && 0 < SpanEnd(segs, |segs|) - SpanStart(segs, |segs|)
    requires GoodEntry(regions, least, SpanEnd(segs, |segs|) - SpanStart(segs, |segs|))
    ensures var size := SpanEnd(segs, |segs|) - SpanStart(segs, |segs|);
      var origin := Origin(regions, least, size);
      && Right(regions[FirstChosen(regions, least, size)], origin, least, size)
      && KernelInPlace(Load(BootImage(t, stack, ram, origin), t, file, segs, |segs|), t, stack, ram, origin, file, segs, size)
  {
    hide Loadable, SpanStart, SpanEnd, KernelInPlace, Load, BootImage, AllStored, Origin, FirstChosen, Right;
    var start, end := SpanStart(segs, |segs|), SpanEnd(segs, |segs|);
    GoodOrigin(regions, least, end - start);
    KernelThere(t, stack, ram, Origin(regions, least, end - start), file, moduleEnd, segs);
  }

  lemma GoodOrigin(regions: seq<Region>, least: nat, size: nat)
    requires AllStored(regions) && least < HALF && size > 0 && GoodEntry(regions, least, size)
    ensures var a := Origin(regions, least, size);
      Right(regions[FirstChosen(regions, least, size)], a, least, size) && a % 4096 == 0 && least <= a && a + size <= HALF
  {
    hide AllStored, PlaceIn, Fits, Wraps, Boundary;
    var k := FirstChosen(regions, least, size);
    OriginRightIff(regions, least, size);
    OriginIsFirst(regions, least, size);
    BoundaryCut(regions[k], least);
  }

  lemma KernelSegs(t: nat, stack: nat, ram: Ram, origin: nat, file: nat, segs: seq<Seg>, start: nat, end: nat)
    requires Ready(BootImage(t, stack, ram, origin), t, file, segs, start, end)
    ensures forall i :: 0 <= i < |segs| ==>
      SegRight(Load(BootImage(t, stack, ram, origin), t, file, segs, |segs|), ram, t, file, segs, origin, i)
  {
    hide Ready, ByteRight, Load;
    var im0 := BootImage(t, stack, ram, origin);
    forall i | 0 <= i < |segs| ensures SegRight(Load(im0, t, file, segs, |segs|), ram, t, file, segs, origin, i) {
      if segs[i].load {
        var loc, im := origin + Taken(segs, i), Load(im0, t, file, segs, |segs|);
        forall b: nat ensures ByteRight(im, ram, t, file, segs[i], loc, b) {
          LoadPlaces(im0, t, file, segs, |segs|, start, end, i, b);
        }
      }
    }
  }

  lemma KernelBounds(t: nat, stack: nat, ram: Ram, origin: nat, file: nat, segs: seq<Seg>, start: nat, end: nat)
    requires t + 256 <= FRAMES && (t + 256) * 4096 <= origin
    requires Ready(BootImage(t, stack, ram, origin), t, file, segs, start, end)
    ensures var im := Load(BootImage(t, stack, ram, origin), t, file, segs, |segs|);
      && RamOutside(ram, im.ram, origin, origin + (end - start)) && TablesOk(im.sys, t)
      && im.sys.owner.Values == BootPlaces() + AllPlaces(segs, |segs|)
      && (forall v: nat :: 2048 <= v < FRAMES ==> NoBig(im.sys.mem, t, v, 4))
      && forall f :: f in im.sys.owner ==> t <= f < t + 256 && f * 4096 + 4096 <= origin
  {
    StackMapped(t, stack);
    hide TablesOk, Writable, Translate, AddPage, PageOf, FirstTables, AllPlaces, Lacking, Load, SegsClear, KeepsClear,
         SameTranslation, SegOk, SegsApart, Spans;
    var im0 := BootImage(t, stack, ram, origin);
    LoadGoes(im0, t, file, segs, |segs|, start, end);
    TakenFitsSpan(segs, start, end);
    var im := Load(im0, t, file, segs, |segs|);
    forall f | f in im.sys.owner ensures t <= f < t + 256 && f * 4096 + 4096 <= origin {
      PoolIsMegabyte(t, f);
    }
    FirstMemIs(t);
    StillClear(FirstMem(t), im0.sys.mem, im.sys.mem, t);
  }

  lemma StillClear(m0: Mem, m1: Mem, m2: Mem, t: nat)
    requires m0 == FirstMem(t) && KeepsClear(m0, m1, t) && KeepsClear(m1, m2, t)
    ensures forall v: nat :: 2048 <= v < FRAMES ==> NoBig(m2, t, v, 4)
  {
    hide FirstMem, NoBig;
    forall v: nat | 2048 <= v < FRAMES ensures NoBig(m2, t, v, 4) { AboveIsClear(t, v); }
  }

  lemma KernelThere(t: nat, stack: nat, ram: Ram, origin: nat, file: nat, moduleEnd: nat, segs: seq<Seg>)
    requires t + 256 <= FRAMES && Loadable(segs, file, moduleEnd) && moduleEnd <= origin && origin % 4096 == 0
    requires (t + 256) * 4096 <= origin && 0 < SpanEnd(segs, |segs|) - SpanStart(segs, |segs|)
    requires origin + (SpanEnd(segs, |segs|) - SpanStart(segs, |segs|)) <= 0x1_0000_0000
    ensures KernelInPlace(Load(BootImage(t, stack, ram, origin), t, file, segs, |segs|), t, stack, ram, origin, file, segs,
                          SpanEnd(segs, |segs|) - SpanStart(segs, |segs|))
  {
    StackPage();
    hide Translate, PageOf, SpanStart, SpanEnd, Load, Loadable, SegRight, Ready, BootImage, RamOutside, SelfMapped,
         InSegment, TablesOk, BootPlaces, AllPlaces, NoBig;
    var start, end := SpanStart(segs, |segs|), SpanEnd(segs, |segs|);
    BootReady(t, stack, ram, origin, file, moduleEnd, segs);
    KernelSegs(t, stack, ram, origin, file, segs, start, end);
    KernelBounds(t, stack, ram, origin, file, segs, start, end);
    var im := Load(BootImage(t, stack, ram, origin), t, file, segs, |segs|);
    forall v: nat | v < 2048 ensures SelfMapped(im.sys.mem, t, v) {
      LowInNoSegment(segs, file, moduleEnd, v);
      KernelSurroundings(t, stack, ram, origin, file, moduleEnd, segs, v);
    }
    forall v: nat | 2048 <= v < FRAMES - 1 && !InSegment(segs, v) ensures Translate(im.sys.mem, t, v) == Fault {
      KernelSurroundings(t, stack, ram, origin, file, moduleEnd, segs, v);
    }
    LowInNoSegment(segs, file, moduleEnd, FRAMES - 1);
    KernelSurroundings(t, stack, ram, origin, file, moduleEnd, segs, FRAMES - 1);
  }

  /** The kernel starts with page 0 under a large page on frame 0. */
  lemma StartsWithLowIdentity(im: Img, t: nat, stack: nat, ram: Ram, origin: nat, file: nat, segs: seq<Seg>, size: nat)
    requires KernelInPlace(im, t, stack, ram, origin, file, segs, size)
    ensures Unchecked.LowIdentity(im.sys.mem, t)
  {
    hide LeafAt, Translate;
    assert SelfMapped(im.sys.mem, t, 0);
  }

  /** With the loader's megabyte in the first 8 MiB and no segment below 64 TiB, the kernel starts with
      those 8 MiB and no other low page mapped, as `_init_paging` needs. */
  lemma StartsWithIdentityOnly(im: Img, t: nat, stack: nat, ram: Ram, origin: nat, file: nat, segs: seq<Seg>, size: nat)
    requires KernelInPlace(im, t, stack, ram, origin, file, segs, size) && t + 256 <= PhysicalWindow.IDENTITY
    requires forall v: nat :: v < PhysicalWindow.LIMIT ==> !InSegment(segs, v)
    ensures PhysicalWindow.IdentityOnly(im.sys, t)
  {
    hide LeafAt, Translate, InSegment, SegRight, RamOutside;
    var s := im.sys;
    forall v: nat | v < PhysicalWindow.LIMIT
      ensures Translate(s.mem, t, v) == if v < PhysicalWindow.IDENTITY then Mapped(v, true, false, true) else Fault
    {
      if v < 2048 { assert SelfMapped(s.mem, t, v); }
    }
    forall i: nat | i < 512 && Read(s.mem, t, i).present && !Read(s.mem, t, i).size
      ensures Read(s.mem, t, i).frame < PhysicalWindow.IDENTITY
    {
      assert ChildOk(s, t, i);
    }
  }
}
