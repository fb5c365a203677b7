/**
 The loader as it runs: its tables, its bump pointer and physical memory are
 fields that the methods update, each proved against the functions of
 `LoaderTables`, `LoaderImage` and `LoaderBoot`.
 */
module LoaderProgram {
  import opened PageTables
  import opened Words
  import opened PagingProofs
  import opened Frames
  import opened LoaderTables
  import opened ByteMemory
  import opened LoaderImage
  import opened LoaderOrigin
  import opened LoaderBoot

  lemma PoolTop(s: Sys, free: nat, limit: nat)
    requires free < limit && s.stack == Pool(free, limit)
    ensures Top(s) == free && Pop(s) == s.(stack := Pool(free + 1, limit))
  {
    assert Pool(free, limit)[..limit - free - 1] == Pool(free + 1, limit);
  }

  /** Standing in a table on the way to `vp`, with the frames still needed in the pool. */
  ghost predicate Descending(s: Sys, root: nat, f: nat, vp: nat, level: nat)
    requires 1 <= level <= 4
  {
    && Standing(s, root, f, vp, level) && Allows(s, f, WRITABLE) && Writable(s)
    && NoBig(s.mem, f, vp, level) && Missing(s.mem, f, vp, level) <= |s.stack|
  }

  lemma DescendingStep(s: Sys, root: nat, f: nat, vp: nat, level: nat)
    requires 1 < level <= 4 && Descending(s, root, f, vp, level)
    ensures Read(s.mem, f, Index(vp, level)).present || s.stack != []
    ensures var s1 := Step(s, f, Index(vp, level), Pos(level - 1, Prefix(vp, level - 1)));
      Descending(s1, root, Next(s1, f, Index(vp, level)), vp, level - 1)
  {
    hide Allows, Writable, Descend, Step, Prefix, Index;
    var i := Index(vp, level);
    PrefixStep(vp, level);
    EnterMissing(s, root, f, vp, level, WRITABLE);
    StepIsDescend(s, f, i, Pos(level - 1, Prefix(vp, level - 1)));
    EnterAll(s, root, f, vp, level, WRITABLE);
    StepWritable(s, root, f, vp, level);
  }

  lemma DescendingStarts(s: Sys, root: nat, vp: nat)
    requires SysOk(s, root) && Writable(s) && Reachable(s, root, vp)
    ensures Descending(s, root, root, vp, 4)
  {
    hide SysOk, Writable, NoBig, Missing;
    StartAtRoot(s, root, vp, WRITABLE);
  }

  lemma StepsUnrolled(s0: Sys, s1: Sys, s2: Sys, s3: Sys, f0: nat, f1: nat, f2: nat, f3: nat, vp: nat)
    requires s1 == Step(s0, f0, Index(vp, 4), Pos(3, Prefix(vp, 3))) && f1 == Next(s1, f0, Index(vp, 4))
    requires s2 == Step(s1, f1, Index(vp, 3), Pos(2, Prefix(vp, 2))) && f2 == Next(s2, f1, Index(vp, 3))
    requires s3 == Step(s2, f2, Index(vp, 2), Pos(1, Prefix(vp, 1))) && f3 == Next(s3, f2, Index(vp, 2))
    ensures Steps(s0, f0, vp, 4) == s3 && Reached(s0, f0, vp, 4) == f3
  {
    hide Step, Index, Prefix;
    assert Steps(s2, f2, vp, 2) == Steps(s3, f3, vp, 1) == s3;
    assert Reached(s2, f2, vp, 2) == Reached(s3, f3, vp, 1) == f3;
    assert Steps(s1, f1, vp, 3) == s3 && Reached(s1, f1, vp, 3) == f3;
  }

  /** The checks on the file header: magic number, 64-bit, little-endian, System V ABI, executable. */
  datatype Header = Header(ident: seq<nat>, kind: nat, entry: nat)

  predicate Accepted(h: Header)
    requires |h.ident| == 16
  {
    && h.ident[..4] == [0x7f, 0x45, 0x4c, 0x46] && h.ident[4] == 2 && h.ident[5] == 1
    && h.ident[7] == 0 && h.ident[8] == 0 && h.kind == 2
  }

  /** `find_elf64_phys_origin`. */
  method FindOrigin(regions: seq<Region>, least: nat, size: nat) returns (a: nat)
    ensures a == Origin(regions, least, size)
  {
    var i := 0;
    while i < |regions|
      invariant 0 <= i <= |regions| && Origin(regions[i..], least, size) == Origin(regions, least, size)
    {
      var p := Align(Trim(regions[i], least));
      if p.Piece? && p.length >= size {
        return p.base % 0x1_0000_0000;
      }
      assert regions[i..][1..] == regions[i + 1..];
      i := i + 1;
    }
    a := 0;
  }

  /** The first loop of `load_elf64_module`. */
  method FindSpan(segs: seq<Seg>) returns (start: nat, end: nat)
    ensures start == SpanStart(segs, |segs|) && end == SpanEnd(segs, |segs|)
  {
    start, end := WORD - 1, 0;
    var i := 0;
    while i < |segs|
      invariant 0 <= i <= |segs| && start == SpanStart(segs, i) && end == SpanEnd(segs, i)
    {
      if segs[i].load {
        var e := U64(segs[i].vaddr + segs[i].memsz);
        start := if start < segs[i].vaddr then start else segs[i].vaddr;
        end := if end > e then end else e;
      }
      i := i + 1;
    }
  }

  class Loader {
    var tables: Mem
    var ram: Ram
    var pml4t: nat
    var freePoint: nat
    ghost var limit: nat
    ghost var owner: map<nat, Pos>

    ghost predicate Valid()
      reads this
    {
      freePoint <= limit <= FRAMES
    }

    ghost function State(): Sys
      requires Valid()
      reads this
    {
      Sys(tables, Pool(freePoint, limit), owner)
    }

    constructor (ram: Ram)
      ensures Valid() && this.ram == ram
    {
      tables, this.ram, pml4t, freePoint, limit, owner := map[], ram, 0, 0, 0, map[];
    }

    /** `init_page_structure`; `t` is the frame of the megabyte it zeroes and takes over. */
    method InitPageStructure(t: nat)
      requires t + 256 <= FRAMES
      modifies this
      ensures Valid() && pml4t == t && State() == FirstTables(t) && ram == old(ram)
    {
      tables := map[];
      freePoint, limit := t, t + 256;
      pml4t := freePoint;
      freePoint := freePoint + 1;
      var pdpt := freePoint;
      freePoint := freePoint + 1;
      var pdt := freePoint;
      freePoint := freePoint + 1;
      tables := Write(tables, pml4t, 0, TableEntry(pdpt));
      tables := Write(tables, pdpt, 0, TableEntry(pdt));
      tables := Write(tables, pdt, 0, IdentityEntry(0));
      tables := Write(tables, pdt, 1, IdentityEntry(1));
      tables := Write(tables, pdt, 2, IdentityEntry(2));
      tables := Write(tables, pdt, 3, IdentityEntry(3));
      owner := map[t := Pos(4, 0), t + 1 := Pos(3, 0), t + 2 := Pos(2, 0)];
    }

    /** One level of `add_page`. */
    method Level(f: nat, i: nat, ghost at: Pos) returns (next: nat)
      requires Valid() && (Read(tables, f, i).present || freePoint < limit)
      modifies this`tables, this`freePoint, this`owner
      ensures Valid() && State() == Step(old(State()), f, i, at) && next == Next(State(), f, i)
    {
      if !Read(tables, f, i).present {
        PoolTop(State(), freePoint, limit);
        tables := Write(tables, f, i, TableEntry(freePoint));
        owner := owner[freePoint := at];
        freePoint := freePoint + 1;
      }
      next := Read(tables, f, i).frame;
    }

    /** `add_page`: three levels down, then the entry. The low bits of the address become flags, so it
        has to be that of a page, as the segments and the stack of the loader are. */
    method AddPageAt(vaddr: nat, paddr: nat, exec: bool)
      requires Valid() && SysOk(State(), pml4t) && Writable(State()) && Reachable(State(), pml4t, PageOf(vaddr))
      requires paddr % 4096 == 0
      modifies this`tables, this`freePoint, this`owner
      ensures Valid() && State() == AddPage(old(State()), pml4t, PageOf(vaddr), paddr / 4096, exec)
    {
      hide SysOk, Writable, Reachable, Descending, Step, Prefix, Index, PageOf;
      var vp := PageOf(vaddr);
      ghost var s0 := State();
      DescendingStarts(s0, pml4t, vp);
      DescendingStep(s0, pml4t, pml4t, vp, 4);
      var pdpt := Level(pml4t, Index(vp, 4), Pos(3, Prefix(vp, 3)));
      ghost var s1 := State();
      DescendingStep(s1, pml4t, pdpt, vp, 3);
      var pdt := Level(pdpt, Index(vp, 3), Pos(2, Prefix(vp, 2)));
      ghost var s2 := State();
      DescendingStep(s2, pml4t, pdt, vp, 2);
      var pt := Level(pdt, Index(vp, 2), Pos(1, Prefix(vp, 1)));
      StepsUnrolled(s0, s1, s2, State(), pml4t, pdpt, pdt, pt, vp);
      tables := Write(tables, pt, Index(vp, 1), PageEntry(paddr / 4096, exec));
    }

    /** `zero_memory`. */
    method ZeroMemory(start: nat, len: nat)
      modifies this`ram
      ensures ram == Zero(old(ram), start, len)
    {
      var a, n := start, len;
      while n > 0
        invariant Zero(ram, a, n) == Zero(old(ram), start, len)
      {
        ram := ram[a := 0];
        a, n := a + 1, n - 1;
      }
    }

    /** `memcpy`. */
    method CopyMemory(dst: nat, src: nat, length: nat)
      modifies this`ram
      ensures ram == Copy(old(ram), dst, src, length)
    {
      var d, s, n := dst, src, length;
      while n > 0
        invariant Copy(ram, d, s, n) == Copy(old(ram), dst, src, length)
      {
        ram := ram[d := ByteAt(ram, s)];
        d, s, n := d + 1, s + 1, n - 1;
      }
    }

    /** The page loop of a segment. */
    method MapSegment(vaddr: nat, paddr: nat, memsz: nat, exec: bool)
      requires Valid() && SysOk(State(), pml4t) && Writable(State())
      requires vaddr % 4096 == 0 && paddr % 4096 == 0 && memsz % 4096 == 0
      requires PoolSuffices(State(), pml4t, vaddr, memsz / 4096, paddr / 4096, exec)
      modifies this`tables, this`freePoint, this`owner
      ensures Valid() && State() == AddPages(old(State()), pml4t, vaddr, memsz / 4096, paddr / 4096, exec)
    {
      hide SysOk, Writable, Reachable, AddPage, PageOf, Translate, NoBig, TablesTaken, SameTranslation, Pool;
      var j := 0;
      while j < memsz
        invariant 0 <= j <= memsz && j % 4096 == 0
        invariant Valid() && SysOk(State(), pml4t) && Writable(State())
        invariant PoolSuffices(State(), pml4t, vaddr + j, (memsz - j) / 4096, (paddr + j) / 4096, exec)
        invariant AddPages(State(), pml4t, vaddr + j, (memsz - j) / 4096, (paddr + j) / 4096, exec) ==
                  AddPages(old(State()), pml4t, vaddr, memsz / 4096, paddr / 4096, exec)
      {
        AddPageMaps(State(), pml4t, PageOf(vaddr + j), (paddr + j) / 4096, exec);
        AddPageAt(vaddr + j, paddr + j, exec);
        assert (memsz - (j + 4096)) / 4096 == (memsz - j) / 4096 - 1 && (paddr + (j + 4096)) / 4096 == (paddr + j) / 4096 + 1;
        assert vaddr + (j + 4096) == vaddr + j + 4096;
        j := j + 4096;
      }
    }

    /** One turn of the second loop of `load_elf64_module`. */
    method LoadSegment(file: nat, g: Seg, loc: nat) returns (next: nat)
      requires Valid() && SysOk(State(), pml4t) && Writable(State()) && loc % 4096 == 0
      requires g.load ==> g.vaddr % 4096 == 0 && g.memsz % 4096 == 0 &&
                          PoolSuffices(State(), pml4t, g.vaddr, g.memsz / 4096, loc / 4096, g.exec)
      modifies this`tables, this`freePoint, this`owner, this`ram
      ensures Valid() && Img(State(), ram, next) == LoadSeg(Img(old(State()), old(ram), loc), pml4t, file, g)
    {
      hide SysOk, Writable, PoolSuffices, AddPages, Zero, Copy, Pool;
      next := loc;
      if g.load {
        ZeroMemory(loc, g.memsz);
        CopyMemory(loc, file + g.offset, g.filesz);
        MapSegment(g.vaddr, loc, g.memsz, g.exec);
        next := loc + g.memsz;
      }
    }

    /** The second loop of `load_elf64_module`. */
    method LoadSegments(file: nat, segs: seq<Seg>, origin: nat, ghost start: nat, ghost end: nat)
      requires Valid() && Ready(Img(State(), ram, origin), pml4t, file, segs, start, end)
      modifies this`tables, this`freePoint, this`owner, this`ram
      ensures Valid()
      ensures exists loc :: Img(State(), ram, loc) == Load(Img(old(State()), old(ram), origin), pml4t, file, segs, |segs|)
    {
      hide SysOk, Writable, Ready, LoadSeg, Pool, PoolSuffices;
      ghost var im0 := Img(State(), ram, origin);
      var loc, i := origin, 0;
      while i < |segs|
        invariant 0 <= i <= |segs| && Valid() && Img(State(), ram, loc) == Load(im0, pml4t, file, segs, i)
      {
        TurnReady(im0, pml4t, file, segs, i, start, end);
        loc := LoadSegment(file, segs[i], loc);
        i := i + 1;
      }
    }

    static lemma TurnReady(im: Img, root: nat, file: nat, segs: seq<Seg>, n: nat, start: nat, end: nat)
      requires n < |segs| && Ready(im, root, file, segs, start, end)
      ensures var im1, g := Load(im, root, file, segs, n), segs[n];
        && SysOk(im1.sys, root) && Writable(im1.sys) && im1.loc % 4096 == 0
        && (g.load ==> g.vaddr % 4096 == 0 && g.memsz % 4096 == 0 &&
                       PoolSuffices(im1.sys, root, g.vaddr, g.memsz / 4096, im1.loc / 4096, g.exec))
    {
      hide SysOk, Writable, AddPages, SegsOk, RunDone, NoBig, Within, Missing, PoolSuffices, PoolOf, Zero,
           Copy, RamOutside, PageOf, Load, Lacking, AllPlaces;
      LoadGoes(im, root, file, segs, n, start, end);
      TakenAligned(segs, file, im.loc, start, end, n);
      var im1, g := Load(im, root, file, segs, n), segs[n];
      if g.load {
        SegPages(segs, file, im.loc, start, end, n);
        SegTables(im, im1, root, file, segs, n, start, end);
      }
    }

    /** `load_elf64_module`; the program headers are given decoded. */
    method LoadModule(h: Header, file: nat, segs: seq<Seg>, regions: seq<Region>, least: nat)
      returns (entry: nat, loadStart: nat, loadEnd: nat)
      requires Valid() && |h.ident| == 16
      requires var start, end := SpanStart(segs, |segs|), SpanEnd(segs, |segs|);
        Accepted(h) ==>
          Ready(Img(State(), ram, Origin(regions, least, U64(end - start))), pml4t, file, segs, start, end)
      modifies this`tables, this`freePoint, this`owner, this`ram
      ensures Valid()
      ensures !Accepted(h) ==> entry == 0 && State() == old(State()) && ram == old(ram)
      ensures Accepted(h) ==>
        var size := U64(SpanEnd(segs, |segs|) - SpanStart(segs, |segs|));
        && entry == h.entry && loadStart == Origin(regions, least, size) && loadEnd == loadStart + size
        && exists loc :: Img(State(), ram, loc) == Load(Img(old(State()), old(ram), loadStart), pml4t, file, segs, |segs|)
    {
      hide SysOk, Writable, Ready, Pool, PoolSuffices, Load, Origin, SpanStart, SpanEnd;
      if h.ident[0] != 0x7f || h.ident[1] != 0x45 || h.ident[2] != 0x4c || h.ident[3] != 0x46 {
        return 0, 0, 0;
      }
      if h.ident[4] != 2 { return 0, 0, 0; }
      if h.ident[5] != 1 { return 0, 0, 0; }
      if h.ident[7] != 0 || h.ident[8] != 0 { return 0, 0, 0; }
      if h.kind != 2 { return 0, 0, 0; }
      assert h.ident[..4] == [h.ident[0], h.ident[1], h.ident[2], h.ident[3]];
      var start: int, end: int := FindSpan(segs);
      loadStart := FindOrigin(regions, least, U64(end - start));
      loadEnd := loadStart + U64(end - start);
      LoadSegments(file, segs, loadStart, start, end);
      entry := h.entry;
    }

    /** `lmain` from the first tables to the loaded kernel, the image ready to be entered. */
    method Boot(t: nat, stack: nat, h: Header, file: nat, moduleEnd: nat, segs: seq<Seg>, regions: seq<Region>, least: nat)
      returns (entry: nat)
      requires t + 256 <= FRAMES && |h.ident| == 16 && Accepted(h)
      requires Loadable(segs, file, moduleEnd) && AllStored(regions) && least < HALF
      requires (t + 256) * 4096 <= least && moduleEnd <= least && 0 < SpanEnd(segs, |segs|) - SpanStart(segs, |segs|)
      requires GoodEntry(regions, least, SpanEnd(segs, |segs|) - SpanStart(segs, |segs|))
      modifies this
      ensures Valid() && entry == h.entry
      ensures var size := SpanEnd(segs, |segs|) - SpanStart(segs, |segs|);
        var origin := Origin(regions, least, size);
        && Right(regions[FirstChosen(regions, least, size)], origin, least, size)
        && exists loc :: KernelInPlace(Img(State(), ram, loc), t, stack, old(ram), origin, file, segs, size)
    {
      hide SysOk, Writable, Ready, Pool, PoolSuffices, Load, Origin, SpanStart, SpanEnd, Loadable, KernelInPlace,
           FirstTables, Step, AddPage, PageOf, Translate, SameTranslation, NoBig, Missing, Right,
           FirstChosen;
      InitPageStructure(t);
      FirstStackReachable(t);
      AddPageAt(STACK_ADDRESS, stack * 4096, false);
      ghost var size: nat := SpanEnd(segs, |segs|) - SpanStart(segs, |segs|);
      SizeFits(segs, |segs|);
      ghost var origin := Origin(regions, least, size);
      GoodOrigin(regions, least, size);
      BootReady(t, stack, ram, origin, file, moduleEnd, segs);
      assert stack * 4096 / 4096 == stack;
      assert Img(State(), ram, origin) == BootImage(t, stack, old(ram), origin);
      var loadStart, loadEnd;
      entry, loadStart, loadEnd := LoadModule(h, file, segs, regions, least);
      KernelLoaded(t, stack, old(ram), regions, least, file, moduleEnd, segs);
    }

    static lemma {:induction false} SizeFits(segs: seq<Seg>, n: nat)
      requires n <= |segs|
      ensures SpanEnd(segs, n) < WORD
    {
      if n > 0 { SizeFits(segs, n - 1); }
    }

    static lemma FirstStackReachable(t: nat)
      requires t + 256 <= FRAMES
      ensures var s := FirstTables(t); SysOk(s, t) && Writable(s) && Reachable(s, t, PageOf(STACK_ADDRESS))
    {
      FirstTablesOk(t);
      StackPage();
      AboveIsClear(t, FRAMES - 1);
      FirstMemIs(t);
      MissingAtMost(FirstMem(t), t, FRAMES - 1, 4);
      hide SysOk, Writable, NoBig, Missing, FirstMem, PageOf;
    }
  }
}
