/**
 From the loader to the first memory manager: what loader/loader.c leaves is what
 `pmm_init` needs, and what `pmm_init` (kernel/system/mem_mgmt/pmm.c) leaves is
 what `setup_kern_vmm` (kernel/system/system.c) starts from.
 */
module KernelStart {
  import opened PageTables
  import opened PagingProofs
  import opened Frames
  import opened VmmRuns
  import opened ByteMemory
  import opened LoaderTables
  import opened LoaderImage
  import opened LoaderBoot
  import opened PhysicalMap
  import opened PhysicalWindow
  import opened BootMemory
  import opened PmmBoot
  import opened PmmInit
  import Unchecked
  import VmmConsequences

  // -------------------------------------------------------- no usable entry yet

  ghost predicate NoneUsable(m: Mem) { forall k :: k in m ==> !m[k].usable }

  lemma {:induction false} StepsUsable(s: Sys, f: nat, vp: nat, level: nat)
    requires 1 <= level <= 4 && NoneUsable(s.mem)
    ensures NoneUsable(LoaderTables.Steps(s, f, vp, level).mem)
    decreases level
  {
    hide Prefix, Index;
    if level > 1 {
      var i := Index(vp, level);
      var s1 := LoaderTables.Step(s, f, i, Pos(level - 1, Prefix(vp, level - 1)));
      StepsUsable(s1, Next(s1, f, i), vp, level - 1);
    }
  }

  lemma {:induction false} PagesUsable(s: Sys, root: nat, addr: nat, n: nat, frame: nat, exec: bool)
    requires NoneUsable(s.mem)
    ensures NoneUsable(AddPages(s, root, addr, n, frame, exec).mem)
    decreases n
  {
    hide LoaderTables.Steps, LoaderTables.Reached, Index, PageOf;
    if n > 0 {
      StepsUsable(s, root, PageOf(addr), 4);
      PagesUsable(AddPage(s, root, PageOf(addr), frame, exec), root, addr + 4096, n - 1, frame + 1, exec);
    }
  }

  lemma {:induction false} LoadUsable(im: Img, root: nat, file: nat, segs: seq<Seg>, n: nat)
    requires n <= |segs| && NoneUsable(im.sys.mem)
    ensures NoneUsable(Load(im, root, file, segs, n).sys.mem)
  {
    hide AddPages, NoneUsable;
    if n > 0 {
      LoadUsable(im, root, file, segs, n - 1);
      var im1, g := Load(im, root, file, segs, n - 1), segs[n - 1];
      PagesUsable(im1.sys, root, g.vaddr, g.memsz / 4096, im1.loc / 4096, g.exec);
    }
  }

  /** The loader marks no page as one of the allocator's. */
  lemma BootUsable(t: nat, stack: nat, ram: Ram, origin: nat, file: nat, segs: seq<Seg>)
    ensures NoneUsable(Load(BootImage(t, stack, ram, origin), t, file, segs, |segs|).sys.mem)
  {
    hide LoaderTables.Steps, LoaderTables.Reached, Index, PageOf;
    assert NoneUsable(FirstTables(t).mem);
    StepsUsable(FirstTables(t), t, PageOf(STACK_ADDRESS), 4);
    LoadUsable(BootImage(t, stack, ram, origin), t, file, segs, |segs|);
  }

  lemma TurnUsable(s: Sys, root: nat, g: nat)
    requires CanMapGiB(s, root, g) && NoneUsable(s.mem)
    ensures NoneUsable(MapGiB(s, root, g).mem)
  {
    hide LowPages.Low, LowPages.WithoutLow;
  }

  lemma {:induction false} InitUsable(s: Sys, root: nat, g: nat, n: nat)
    requires g <= n && CanInit(s, root, g, n) && NoneUsable(s.mem)
    ensures NoneUsable(InitPaging(s, root, g, n).mem)
    decreases n - g
  {
    hide MapGiB, NoneUsable;
    if g < n {
      TurnUsable(s, root, g);
      InitUsable(MapGiB(s, root, g), root, g + 1, n);
    }
  }

  // ----------------------------------------------------------- an empty window

  lemma {:induction false} RunPlacesFrom(addr: nat, n: nat, at: Pos) returns (v: nat)
    requires at in RunPlaces(addr, n)
    ensures Within(v, addr, n) && at.prefix == Prefix(v, at.level) && 1 <= at.level <= 3
    decreases n
  {
    hide Prefix, WayTo, PageOf, Within;
    if at in WayTo(PageOf(addr), 4) {
      v := PageOf(addr);
      WayIs(v, 4);
    } else {
      v := RunPlacesFrom(addr + 4096, n - 1, at);
    }
    WithinSplit(v, addr, n);
  }

  /** Every table position of the segments is on the way to a page of one. */
  lemma {:induction false} PlacesFrom(segs: seq<Seg>, n: nat, at: Pos) returns (v: nat)
    requires n <= |segs| && at in AllPlaces(segs, n)
    ensures InSegment(segs, v) && at.prefix == Prefix(v, at.level) && 1 <= at.level <= 3
  {
    hide RunPlaces, Within;
    if at in AllPlaces(segs, n - 1) {
      v := PlacesFrom(segs, n - 1, at);
    } else {
      v := RunPlacesFrom(segs[n - 1].vaddr, segs[n - 1].memsz / 4096, at);
    }
  }

  /** The kernel is linked at 0xffff_8000_0000_0000 and ends below 0xffff_8000_0100_0000, where the range
      of its memory manager starts. */
  const KERNEL := 0x8_0000_0000
  const VMM := 0x8_0000_1000
  const VMM_ADDRESS := 0xffff_8000_0100_0000

  ghost predicate HighHalf(segs: seq<Seg>) { forall v: nat :: InSegment(segs, v) ==> KERNEL <= v < VMM }

  lemma TopPrefix(v: nat)
    ensures Prefix(v, 3) == v / 0x800_0000
  {
    assert Prefix(v, 0) == v;
    assert Prefix(v, 1) == v / 512;
    assert Prefix(v, 2) == v / 512 / 512;
    assert Prefix(v, 3) == v / 512 / 512 / 512;
    assert v / 512 / 512 == v / 0x4_0000 && v / 0x4_0000 / 512 == v / 0x800_0000;
  }

  /** Only three top-level entries are in use: low memory, the kernel and the stack page. */
  lemma TopEntries(im: Img, t: nat, stack: nat, ram: Ram, origin: nat, file: nat, segs: seq<Seg>, size: nat, i: nat)
    requires KernelInPlace(im, t, stack, ram, origin, file, segs, size) && HighHalf(segs)
    requires 0 < i < 512 && i != 256 && i != 511
    ensures !Read(im.sys.mem, t, i).present
  {
    hide KernelInPlace, HighHalf, BootPlaces, AllPlaces;
    if Read(im.sys.mem, t, i).present {
      TopTaken(im, t, stack, ram, origin, file, segs, size, i);
      NotBootPlace(i);
      var v := PlacesFrom(segs, |segs|, Pos(3, i));
      InHighHalf(segs, v);
      TopPrefix(v);
    }
  }

  lemma InHighHalf(segs: seq<Seg>, v: nat)
    requires HighHalf(segs) && InSegment(segs, v)
    ensures KERNEL <= v < VMM
  {
  }

  lemma NotBootPlace(i: nat)
    requires 0 < i < 511
    ensures Pos(3, i) !in BootPlaces()
  {
    WayIs(FRAMES - 1, 4);
    TopPrefix(FRAMES - 1);
    hide WayTo, Prefix;
  }

  lemma TopTaken(im: Img, t: nat, stack: nat, ram: Ram, origin: nat, file: nat, segs: seq<Seg>, size: nat, i: nat)
    requires KernelInPlace(im, t, stack, ram, origin, file, segs, size) && 0 < i < 512 && Read(im.sys.mem, t, i).present
    ensures Pos(3, i) in BootPlaces() + AllPlaces(segs, |segs|)
  {
    hide Translate, SegRight, RamOutside, SelfMapped, AllPlaces, BootPlaces, InSegment, TableAt, RightsOk, NoBig;
    var s, e := im.sys, Read(im.sys.mem, t, i);
    TopNotBig(s.mem, t, i);
    assert ChildOk(s, t, i);
    assert s.owner[e.frame] == Pos(3, i);
  }

  lemma TopNotBig(m: Mem, t: nat, i: nat)
    requires 0 < i < 512 && forall v: nat :: 2048 <= v < FRAMES ==> NoBig(m, t, v, 4)
    ensures Read(m, t, i).present ==> !Read(m, t, i).size
  {
    var v := i * 0x800_0000;
    assert 2048 <= v < FRAMES;
    Indices(v);
    assert Index(v, 4) == i;
    assert NoBig(m, t, v, 4);
  }

  /** So the whole window is empty, for memory below 63.5 TiB. */
  lemma WindowIsFree(im: Img, t: nat, stack: nat, ram: Ram, origin: nat, file: nat, segs: seq<Seg>, size: nat, q: seq<nat>, n: nat)
    requires KernelInPlace(im, t, stack, ram, origin, file, segs, size) && HighHalf(segs) && n <= 127 * 512
    ensures WindowsFree(Sys(im.sys.mem, q, im.sys.owner), t, 0, n)
  {
    hide KernelInPlace, HighHalf;
    forall g: nat | g < n ensures WindowFree(Sys(im.sys.mem, q, im.sys.owner), t, g) {
      TopEntries(im, t, stack, ram, origin, file, segs, size, TopIndex(g));
    }
  }

  // ---------------------------------------------------- from the loader to pmm_init

  /** What the boot code adds to the loaded image: a sorted memory map, the page-table area among the
      unsafe ranges, the address of the stack's buffer, and enough pages. */
  ghost predicate BootCode(im: Img, t: nat, mmap: seq<MapEntry>, unsafe: seq<Bytes>, k: nat, lo: nat, hi: nat, at: nat) {
    && SortedMap(mmap) && MaxEnd(mmap, |mmap|) <= 127 * 512 * 0x4000_0000 && 0 < at && at + 8 <= LIMIT * 4096
    && k < |unsafe| && unsafe[k] == Bytes(lo * 4096, hi * 4096)
    && (forall f :: f in Tables(im.sys.mem, t) ==> lo <= f < hi)
    && CanInit(Filled0(im.sys.mem, im.sys.owner, mmap, unsafe), t, 0, GiBs(MaxEnd(mmap, |mmap|)))
  }

  lemma GiBsBound(length: nat)
    requires length <= 127 * 512 * 0x4000_0000
    ensures GiBs(length) <= 127 * 512
  {
  }

  lemma LoaderPrepares(im: Img, t: nat, stack: nat, ram: Ram, origin: nat, file: nat, segs: seq<Seg>, size: nat,
                       mmap: seq<MapEntry>, unsafe: seq<Bytes>, k: nat, lo: nat, hi: nat, at: nat)
    requires KernelInPlace(im, t, stack, ram, origin, file, segs, size) && HighHalf(segs) && 0 < t && t + 256 <= IDENTITY
    requires BootCode(im, t, mmap, unsafe, k, lo, hi, at)
    ensures Bootable(im.sys.mem, im.sys.owner, t, mmap, unsafe, k, lo, hi, at)
  {
    hide SortedMap, MaxEnd, Fill, CanInit, KernelInPlace, TablesOk, NoZeroTable, IdentityOnly, WindowsFree, HighHalf, Tables, GiBs;
    LoaderTablesBoot(im, t, stack, ram, origin, file, segs, size);
    GiBsBound(MaxEnd(mmap, |mmap|));
    TablesFromLoader(im, t, stack, ram, origin, file, segs, size, Filled0(im.sys.mem, im.sys.owner, mmap, unsafe).stack,
                     GiBs(MaxEnd(mmap, |mmap|)));
  }

  lemma TablesFromLoader(im: Img, t: nat, stack: nat, ram: Ram, origin: nat, file: nat, segs: seq<Seg>, size: nat, q: seq<nat>, n: nat)
    requires KernelInPlace(im, t, stack, ram, origin, file, segs, size) && HighHalf(segs) && t + 256 <= IDENTITY && n <= 127 * 512
    ensures var s := Sys(im.sys.mem, q, im.sys.owner); IdentityOnly(s, t) && WindowsFree(s, t, 0, n)
  {
    hide KernelInPlace, IdentityOnly, WindowsFree, HighHalf;
    LowIsFree(segs);
    StartsWithIdentityOnly(im, t, stack, ram, origin, file, segs, size);
    SameIdentity(im.sys, Sys(im.sys.mem, q, im.sys.owner), t);
    WindowIsFree(im, t, stack, ram, origin, file, segs, size, q, n);
  }

  lemma LowIsFree(segs: seq<Seg>)
    requires HighHalf(segs)
    ensures forall v: nat :: v < LIMIT ==> !InSegment(segs, v)
  {
  }

  lemma SameIdentity(s: Sys, s': Sys, t: nat)
    requires s'.mem == s.mem && IdentityOnly(s, t)
    ensures IdentityOnly(s', t)
  {
  }

  lemma LoaderTablesBoot(im: Img, t: nat, stack: nat, ram: Ram, origin: nat, file: nat, segs: seq<Seg>, size: nat)
    requires KernelInPlace(im, t, stack, ram, origin, file, segs, size) && 0 < t
    ensures TablesOk(Sys(im.sys.mem, [], im.sys.owner), t) && NoZeroTable(im.sys.mem, t)
  {
    hide Translate, SegRight, RamOutside, SelfMapped, AllPlaces, InSegment, NoBig, BootPlaces;
    TablesOkStack(im.sys, t, []);
    forall at: Pos | 1 <= at.level <= 3 && TableAt(im.sys.mem, t, at).Table? ensures TableAt(im.sys.mem, t, at).frame != 0 {
      TableInOwner(im.sys, t, at);
    }
  }

  // ------------------------------------------------ from pmm_init to the manager

  /** Entries of the top level outside the window stay. */
  lemma {:induction false} TopsStay(s: Sys, root: nat, g: nat, n: nat, i: nat)
    requires g <= n && CanInit(s, root, g, n) && BootOk(s, root) && WindowsFree(s, root, g, n) && i < FIRST
    ensures Read(InitPaging(s, root, g, n).mem, root, i) == Read(s.mem, root, i)
    decreases n - g
  {
    hide MapGiB, BootOk, WindowFree, CanMapGiB, WindowsFree;
    if g < n {
      MapGiBReady(s, root, g, n);
      MapGiBTops(s, root, g, i);
      TopsStay(MapGiB(s, root, g), root, g + 1, n, i);
    }
  }

  lemma {:induction false} NoLeafNoBig(m: Mem, f: nat, v: nat, level: nat)
    requires 1 <= level <= 3 && LeafAt(m, f, v, level) == NoLeaf
    ensures NoBig(m, f, v, level)
    decreases level
  {
    hide Index;
    if level > 1 && Read(m, f, Index(v, level)).present { NoLeafNoBig(m, Read(m, f, Index(v, level)).frame, v, level - 1); }
  }

  /** A page that faults and has no large page in its top-level entry has none over it, and no entry. */
  lemma FaultIsClear(s: Sys, root: nat, v: nat)
    requires TablesOk(s, root) && v < FRAMES && Translate(s.mem, root, v) == Fault
    requires Read(s.mem, root, Index(v, 4)).present ==> !Read(s.mem, root, Index(v, 4)).size
    ensures NoBig(s.mem, root, v, 4) && !SlotOf(s.mem, root, v).present
  {
    hide Index, TreeOk, RightsOk, SlotOf;
    var e := Read(s.mem, root, Index(v, 4));
    TranslateGrants(s, root, v);
    hide Walk;
    assert LeafAt(s.mem, root, v, 4) == NoLeaf;
    if e.present { NoLeafNoBig(s.mem, e.frame, v, 3); }
    RootTable(s.mem, root, v);
    VmmConsequences.WalkIsSlot(s.mem, root, root, v, 4, true, true, true);
  }

  lemma RootTable(m: Mem, root: nat, v: nat)
    requires v < FRAMES
    ensures TableAt(m, root, Pos(4, Prefix(v, 4))) == Table(root)
  {
    PrefixTop(v);
  }

  ghost function AllFrames(s: Sys): set<nat> { Elements(s.stack) + s.owner.Keys }

  /** With no usable entry and free frames that read as zero, every frame is free or a table. */
  lemma NothingInUse(s: Sys, root: nat)
    requires BootOk(s, root) && NoneUsable(s.mem)
    requires forall x :: x in s.stack ==> x < FRAMES && Blank(s.mem, x)
    ensures Accounted(Store(s, map[], {}), root, AllFrames(s))
  {
    hide TablesOk, Blank, NoRepeats, TableAt;
    var st := Store(s, map[], {});
    forall v: nat | v < FRAMES ensures DataAt(st, root, v) { }
    forall i | 0 <= i < |s.stack| ensures s.stack[i] < FRAMES && s.stack[i] !in s.owner && Blank(s.mem, s.stack[i]) {
      assert s.stack[i] in s.stack;
    }
    assert st.data.Values == {};
    assert Total(st) == AllFrames(s);
  }

  /** Pages of the manager's range. */
  lemma VmmPage(x: nat)
    requires VMM_ADDRESS <= x < VMM_ADDRESS + 1000 * 4096 && x % 4096 == 0
    ensures VMM <= PageOf(x) < VMM + 1000 && Index(PageOf(x), 4) == 256
  {
    var p := x / 4096;
    assert 0xf_fff8_0000_1000 <= p < 0xf_fff8_0000_1000 + 1000;
    assert p % FRAMES == p - 0xffff * FRAMES;
    Indices(PageOf(x));
  }

  /** The kernel's own memory manager as `setup_kern_vmm` creates it. */
  ghost predicate VmmStarts<P>(s: Sys, t: nat, p: P) {
    && Inv(Manager(Create(VMM_ADDRESS, 1000, p), Store(s, map[], {})), Range(t, VMM_ADDRESS, VMM_ADDRESS + 1000 * 4096), AllFrames(s))
    && 0 !in AllFrames(s) && Unchecked.LowIdentity(s.mem, t)
  }

  lemma StackFrames(s: Sys, s': Sys, root: nat, length: nat, out: set<nat>)
    requires PmmInit.Ready(s, s', root, length, out) && StackBelow(s.stack)
    ensures forall x :: x in s'.stack ==> x < FRAMES
  {
    hide BootOk, Translate, TableAt;
    forall x | x in s'.stack ensures x < FRAMES { LowPages.KeepMember(s.stack, out, x); }
  }

  /** A page of the manager's range faults before and after, with no large page over it. */
  lemma RangeClear(im: Img, t: nat, stack: nat, ram: Ram, origin: nat, file: nat, segs: seq<Seg>, size: nat, s: Sys, n: nat, x: nat)
    requires KernelInPlace(im, t, stack, ram, origin, file, segs, size) && HighHalf(segs) && s.mem == im.sys.mem
    requires CanInit(s, t, 0, n) && BootOk(s, t) && WindowsFree(s, t, 0, n)
    requires VMM_ADDRESS <= x < VMM_ADDRESS + 1000 * 4096 && x % 4096 == 0
    requires var s' := InitPaging(s, t, 0, n);
      BootOk(s', t) && Translate(s'.mem, t, PageOf(x)) == Translate(s.mem, t, PageOf(x))
    ensures var m := InitPaging(s, t, 0, n).mem;
      NoBig(m, t, PageOf(x), 4) && !SlotOf(m, t, PageOf(x)).present
  {
    VmmPage(x);
    hide SegRight, RamOutside, SelfMapped, AllPlaces, InSegment, NoBig, BootPlaces, TablesOk, Translate, SlotOf, Index, PageOf,
         CanInit, InitPaging, WindowsFree;
    var v, s' := PageOf(x), InitPaging(s, t, 0, n);
    assert !InSegment(segs, v);
    assert Translate(s.mem, t, v) == Fault;
    TopNotBig(s.mem, t, 256);
    TopsStay(s, t, 0, n, 256);
    BootTables(s', t);
    FaultIsClear(s', t, v);
  }

  lemma LowRemains(s: Sys, t: nat, n: nat)
    requires CanInit(s, t, 0, n) && BootOk(s, t) && WindowsFree(s, t, 0, n) && Unchecked.LowIdentity(s.mem, t)
    ensures Unchecked.LowIdentity(InitPaging(s, t, 0, n).mem, t)
  {
    hide CanInit, InitPaging, WindowsFree, BootOk, LeafAt;
    InitPagingLeaf(s, t, 0, n, 0);
    PrefixTwo(0);
  }

  lemma VmmRange(t: nat)
    ensures RangeOk(Range(t, VMM_ADDRESS, VMM_ADDRESS + 1000 * 4096))
  {
  }

  /** Boot, from one end to the other: the kernel loaded as the loader leaves it, `pmm_init` run through,
      free frames that read as zero. The kernel's memory manager then starts with its invariant over
      all frames of the machine, so that everything proved of runs holds of it. */
  lemma KernelVmmStarts<P>(t: nat, stack: nat, ram: Ram, origin: nat, file: nat, segs: seq<Seg>, size: nat,
                           mmap: seq<MapEntry>, unsafe: seq<Bytes>, k: nat, lo: nat, hi: nat, at: nat, p: P)
    requires var im := Load(BootImage(t, stack, ram, origin), t, file, segs, |segs|);
      && KernelInPlace(im, t, stack, ram, origin, file, segs, size) && HighHalf(segs) && 0 < t && t + 256 <= IDENTITY
      && BootCode(im, t, mmap, unsafe, k, lo, hi, at)
      && RunsThrough(im.sys.mem, im.sys.owner, t, mmap, unsafe, at)
      && FreeReadsZero(InitPaging(Filled0(im.sys.mem, im.sys.owner, mmap, unsafe), t, 0, GiBs(MaxEnd(mmap, |mmap|))))
    ensures var im := Load(BootImage(t, stack, ram, origin), t, file, segs, |segs|);
      VmmStarts(InitPaging(Filled0(im.sys.mem, im.sys.owner, mmap, unsafe), t, 0, GiBs(MaxEnd(mmap, |mmap|))), t, p)
  {
    hide KernelInPlace, HighHalf, RunsThrough, Load, BootImage, Fill, SortedMap, CanInit, InitPaging, WindowsFree, IdentityOnly, Boots,
         Blank, BootOk, Translate, NoBig, SlotOf, TableAt, Accounted, PageOf, Inv, Create, StackBelow, NoneUsable, AllWrites;
    var im := Load(BootImage(t, stack, ram, origin), t, file, segs, |segs|);
    var s, n := Filled0(im.sys.mem, im.sys.owner, mmap, unsafe), GiBs(MaxEnd(mmap, |mmap|));
    var s' := InitPaging(s, t, 0, n);
    LoaderPrepares(im, t, stack, ram, origin, file, segs, size, mmap, unsafe, k, lo, hi, at);
    var out := PmmInitReady(im.sys.mem, im.sys.owner, t, mmap, unsafe, k, lo, hi, at);
    StackIsBelow(im.sys.mem, im.sys.owner, t, mmap, unsafe, k, lo, hi);
    StackFrames(s, s', t, MaxEnd(mmap, |mmap|), out);
    BootUsable(t, stack, ram, origin, file, segs);
    InitUsable(s, t, 0, n);
    NothingInUse(s', t);
    forall x: nat | VMM_ADDRESS <= x < VMM_ADDRESS + 1000 * 4096 && x % 4096 == 0
      ensures !SlotOf(s'.mem, t, PageOf(x)).present && NoBig(s'.mem, t, PageOf(x), 4)
    {
      VmmPage(x);
      RangeClear(im, t, stack, ram, origin, file, segs, size, s, n, x);
    }
    StartsWithLowIdentity(im, t, stack, ram, origin, file, segs, size);
    LowRemains(s, t, n);
    VmmRange(t);
    CreateInv(Store(s', map[], {}), Range(t, VMM_ADDRESS, VMM_ADDRESS + 1000 * 4096), AllFrames(s'), 1000, p);
  }

  /** The assumption on free memory: what is left on the stack reads as zero. */
  ghost predicate FreeReadsZero(s: Sys) { forall x :: x in s.stack ==> Blank(s.mem, x) }
}
