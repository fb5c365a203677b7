/**
 Loading the segments of the kernel, the second loop of `load_elf64_module` in
 loader/loader.c (System V gABI, chapter 5, Program Loading).
 */
module LoaderImage {
  import opened PageTables
  import opened PagingProofs
  import opened Frames
  import opened LoaderTables
  import opened ByteMemory

  // ---------------------------------------------------------------- segments

  /** A program header: PT_LOAD or not, executable or not, and where it comes from and goes to. */
  datatype Seg = Seg(load: bool, exec: bool, offset: nat, vaddr: nat, filesz: nat, memsz: nat)

  datatype Img = Img(sys: Sys, ram: Ram, loc: nat)

  /** One turn of the second loop of `load_elf64_module`. */
  function LoadSeg(im: Img, root: nat, file: nat, g: Seg): Img {
    if !g.load then im
    else
      Img(AddPages(im.sys, root, g.vaddr, g.memsz / 4096, im.loc / 4096, g.exec),
          Copy(Zero(im.ram, im.loc, g.memsz), im.loc, file + g.offset, g.filesz),
          im.loc + g.memsz)
  }

  function Load(im: Img, root: nat, file: nat, segs: seq<Seg>, n: nat): Img
    requires n <= |segs|
  {
    if n == 0 then im else LoadSeg(Load(im, root, file, segs, n - 1), root, file, segs[n - 1])
  }

  /** Bytes taken by the first `n` headers. */
  function Taken(segs: seq<Seg>, n: nat): nat
    requires n <= |segs|
  {
    if n == 0 then 0 else Taken(segs, n - 1) + (if segs[n - 1].load then segs[n - 1].memsz else 0)
  }

  // --------------------------------------------------------------- the span

  ghost predicate SegsApart(segs: seq<Seg>) {
    forall i, j :: 0 <= i < j < |segs| && segs[i].load && segs[j].load ==>
      segs[i].vaddr + segs[i].memsz <= segs[j].vaddr || segs[j].vaddr + segs[j].memsz <= segs[i].vaddr
  }

  ghost predicate Spans(segs: seq<Seg>, start: nat, end: nat) {
    start <= end && forall i :: 0 <= i < |segs| && segs[i].load ==> start <= segs[i].vaddr && segs[i].vaddr + segs[i].memsz <= end
  }

  ghost predicate Between(lo: nat, x: nat, hi: nat) { lo <= x < hi }

  ghost function Addresses(lo: nat, hi: nat): set<nat> { set x: nat | x < hi && Between(lo, x, hi) }

  lemma {:induction false} AddressCount(lo: nat, hi: nat)
    requires lo <= hi
    ensures |Addresses(lo, hi)| == hi - lo
    decreases hi - lo
  {
    if lo < hi {
      AddressCount(lo, hi - 1);
      assert Addresses(lo, hi) == Addresses(lo, hi - 1) + {hi - 1};
    } else {
      assert Addresses(lo, hi) == {};
    }
  }

  ghost function Own(g: Seg): set<nat> { if g.load then Addresses(g.vaddr, g.vaddr + g.memsz) else {} }

  ghost function Covered(segs: seq<Seg>, n: nat): set<nat>
    requires n <= |segs|
  {
    if n == 0 then {} else Covered(segs, n - 1) + Own(segs[n - 1])
  }

  lemma {:induction false} CoveredApart(segs: seq<Seg>, n: nat, m: nat)
    requires n <= m < |segs| && SegsApart(segs)
    ensures Covered(segs, n) !! Own(segs[m])
  {
    if n > 0 {
      CoveredApart(segs, n - 1, m);
      assert Own(segs[n - 1]) !! Own(segs[m]);
    }
  }

  lemma {:induction false} CoveredCount(segs: seq<Seg>, n: nat)
    requires n <= |segs| && SegsApart(segs)
    ensures |Covered(segs, n)| == Taken(segs, n)
  {
    hide SegsApart, Addresses;
    if n > 0 {
      CoveredCount(segs, n - 1);
      CoveredApart(segs, n - 1, n - 1);
      if segs[n - 1].load { AddressCount(segs[n - 1].vaddr, segs[n - 1].vaddr + segs[n - 1].memsz); }
      assert Covered(segs, n) == Covered(segs, n - 1) + Own(segs[n - 1]);
    }
  }

  lemma {:induction false} CoveredInside(segs: seq<Seg>, n: nat, start: nat, end: nat)
    requires n <= |segs| && Spans(segs, start, end)
    ensures Covered(segs, n) <= Addresses(start, end)
  {
    if n > 0 {
      CoveredInside(segs, n - 1, start, end);
      assert Own(segs[n - 1]) <= Addresses(start, end);
    }
  }

  lemma {:induction false} TakenGrows(segs: seq<Seg>, n: nat)
    requires n <= |segs|
    ensures Taken(segs, n) <= Taken(segs, |segs|)
    decreases |segs| - n
  {
    if n < |segs| { TakenGrows(segs, n + 1); }
  }

  /** Segments that do not overlap take no more bytes than the range they span: packed one after
      the other from `load_start` on, they end at or before `load_end`. */
  lemma TakenFitsSpan(segs: seq<Seg>, start: nat, end: nat)
    requires SegsApart(segs) && Spans(segs, start, end)
    ensures Taken(segs, |segs|) <= end - start
  {
    var c, a := Covered(segs, |segs|), Addresses(start, end);
    CoveredCount(segs, |segs|);
    AddressCount(start, end);
    CoveredInside(segs, |segs|, start, end);
    assert a == c + (a - c);
  }

  // --------------------------------------------------------------- the theorem

  /** Page-aligned segments of whole pages, apart, with file contents below the origin; the span
      fits the address space and the image the 32-bit memory. */
  ghost predicate SegOk(g: Seg, file: nat, origin: nat) {
    g.load ==>
      g.vaddr % 4096 == 0 && g.memsz % 4096 == 0 && g.filesz <= g.memsz < 0x8000_0000 && file + g.offset + g.filesz <= origin
  }

  ghost predicate SegsOk(segs: seq<Seg>, file: nat, origin: nat, start: nat, end: nat) {
    && SegsApart(segs) && Spans(segs, start, end) && end - start <= FRAMES * 4096
    && origin % 4096 == 0 && origin + (end - start) <= 0x1_0000_0000
    && forall i :: 0 <= i < |segs| ==> SegOk(segs[i], file, origin)
  }

  /** Positions of the tables on the way to the pages of a header. */
  function SegPlaces(g: Seg): set<Pos> { if g.load then RunPlaces(g.vaddr, g.memsz / 4096) else {} }

  function AllPlaces(segs: seq<Seg>, n: nat): set<Pos>
    requires n <= |segs|
  {
    if n == 0 then {} else AllPlaces(segs, n - 1) + SegPlaces(segs[n - 1])
  }

  lemma {:induction false} PlacesGrow(segs: seq<Seg>, n: nat, taken: set<Pos>)
    requires n <= |segs|
    ensures Lacking(AllPlaces(segs, n), taken) <= Lacking(AllPlaces(segs, |segs|), taken)
    decreases |segs| - n
  {
    hide SegPlaces;
    if n < |segs| {
      PlacesGrow(segs, n + 1, taken);
      LackingJoined(AllPlaces(segs, n), SegPlaces(segs[n]), taken);
    }
  }

  /** No segment page is under a large page. */
  ghost predicate SegsClear(m: Mem, root: nat, segs: seq<Seg>) {
    forall i :: 0 <= i < |segs| && segs[i].load ==> ClearRun(m, root, segs[i].vaddr, segs[i].memsz / 4096)
  }

  /** What loading starts from. */
  ghost predicate Starts(im: Img, root: nat, file: nat, segs: seq<Seg>, start: nat, end: nat) {
    && SysOk(im.sys, root) && Writable(im.sys) && SegsClear(im.sys.mem, root, segs)
    && SegsOk(segs, file, im.loc, start, end)
  }

  /** In addition the pool has a frame for each table position that is wanted and not taken. */
  ghost predicate Ready(im: Img, root: nat, file: nat, segs: seq<Seg>, start: nat, end: nat) {
    && Starts(im, root, file, segs, start, end)
    && Lacking(AllPlaces(segs, |segs|), im.sys.owner.Values) <= |im.sys.stack|
  }

  /** Bytes outside the part of the image written so far are as they were. */
  ghost predicate RamOutside(m: Ram, m': Ram, lo: nat, hi: nat) {
    forall x: nat :: !(lo <= x < hi) ==> ByteAt(m', x) == ByteAt(m, x)
  }

  ghost predicate Going(im: Img, im': Img, root: nat, taken: nat, places: set<Pos>) {
    && SysOk(im'.sys, root) && Writable(im'.sys) && KeepsClear(im.sys.mem, im'.sys.mem, root)
    && im'.loc == im.loc + taken && RamOutside(im.ram, im'.ram, im.loc, im.loc + taken)
    && RunTakes(im.sys, im'.sys, places)
  }

  lemma SegBytes(im: Img, root: nat, file: nat, g: Seg, x: nat)
    requires g.load && file + g.offset + g.filesz <= im.loc && g.filesz <= g.memsz
    ensures ByteAt(LoadSeg(im, root, file, g).ram, x) ==
      if im.loc <= x < im.loc + g.memsz
      then (if x < im.loc + g.filesz then ByteAt(im.ram, x - im.loc + file + g.offset) else 0)
      else ByteAt(im.ram, x)
  {
    var z := Zero(im.ram, im.loc, g.memsz);
    ZeroIs(im.ram, im.loc, g.memsz, x);
    CopyIs(z, im.loc, file + g.offset, g.filesz, x);
    if im.loc <= x < im.loc + g.filesz { ZeroIs(im.ram, im.loc, g.memsz, x - im.loc + file + g.offset); }
  }

  lemma SegPages(segs: seq<Seg>, file: nat, origin: nat, start: nat, end: nat, i: nat)
    requires SegsOk(segs, file, origin, start, end) && i < |segs| && segs[i].load
    ensures segs[i].memsz / 4096 <= FRAMES && segs[i].vaddr % 4096 == 0 && segs[i].memsz == segs[i].memsz / 4096 * 4096
    ensures segs[i].filesz <= segs[i].memsz && file + segs[i].offset + segs[i].filesz <= origin
  {
    assert SegOk(segs[i], file, origin);
  }

  /** The page tables after one more segment, and when the pool lasts for it. */
  lemma SegNeeds(im: Img, im1: Img, root: nat, file: nat, segs: seq<Seg>, n: nat, start: nat, end: nat)
    requires n < |segs| && segs[n].load && Starts(im, root, file, segs, start, end)
    requires Going(im, im1, root, Taken(segs, n), AllPlaces(segs, n))
    ensures var g, s' := segs[n], LoadSeg(im1, root, file, segs[n]).sys;
      var suffices := PoolSuffices(im1.sys, root, g.vaddr, g.memsz / 4096, im1.loc / 4096, g.exec);
      && (suffices <==> Lacking(AllPlaces(segs, n + 1), im.sys.owner.Values) <= |im.sys.stack|)
      && (suffices ==>
           && RunDone(im1.sys, s', root, g.vaddr, g.memsz / 4096, im1.loc / 4096, g.exec)
           && RunTakes(im.sys, s', AllPlaces(segs, n + 1)))
  {
    hide SysOk, Writable, AddPages, SegsOk, RunDone, NoBig, Within, Missing, PoolSuffices, PoolOf, Zero,
         Copy, RamOutside, PageOf, Lacking, RunPlaces;
    var g := segs[n];
    SegPages(segs, file, im.loc, start, end, n);
    LackingJoined(AllPlaces(segs, n), SegPlaces(g), im.sys.owner.Values);
    PoolSufficesIff(im1.sys, root, g.vaddr, g.memsz / 4096, im1.loc / 4096, g.exec);
    if PoolSuffices(im1.sys, root, g.vaddr, g.memsz / 4096, im1.loc / 4096, g.exec) {
      AddPagesMaps(im1.sys, root, g.vaddr, g.memsz / 4096, im1.loc / 4096, g.exec);
      var v, w, x := im.sys.owner.Values, AllPlaces(segs, n), SegPlaces(g);
      assert v + (w + x) == v + w + x;
    }
  }

  lemma SegTables(im: Img, im1: Img, root: nat, file: nat, segs: seq<Seg>, n: nat, start: nat, end: nat)
    requires n < |segs| && segs[n].load && Ready(im, root, file, segs, start, end)
    requires Going(im, im1, root, Taken(segs, n), AllPlaces(segs, n))
    ensures var g, s' := segs[n], LoadSeg(im1, root, file, segs[n]).sys;
      && PoolSuffices(im1.sys, root, g.vaddr, g.memsz / 4096, im1.loc / 4096, g.exec)
      && RunDone(im1.sys, s', root, g.vaddr, g.memsz / 4096, im1.loc / 4096, g.exec)
  {
    hide Starts, Going, RunDone, PoolSuffices, Lacking, AllPlaces, LoadSeg;
    SegNeeds(im, im1, root, file, segs, n, start, end);
    PlacesGrow(segs, n + 1, im.sys.owner.Values);
  }

  lemma RunGoes(s: Sys, s': Sys, root: nat, addr: nat, n: nat, frame: nat, exec: bool)
    requires RunDone(s, s', root, addr, n, frame, exec)
    ensures SysOk(s', root) && Writable(s') && KeepsClear(s.mem, s'.mem, root)
  {
  }

  /** One header more. */
  lemma TurnGoes(im: Img, im1: Img, root: nat, file: nat, segs: seq<Seg>, n: nat, start: nat, end: nat)
    requires n < |segs| && Starts(im, root, file, segs, start, end)
    requires Going(im, im1, root, Taken(segs, n), AllPlaces(segs, n))
    requires var g := segs[n];
      g.load ==> PoolSuffices(im1.sys, root, g.vaddr, g.memsz / 4096, im1.loc / 4096, g.exec)
    ensures Going(im, LoadSeg(im1, root, file, segs[n]), root, Taken(segs, n + 1), AllPlaces(segs, n + 1))
  {
    hide SysOk, Writable, NoBig, AddPages, SegsOk, SegsClear, RunDone, Within, Lacking, PoolOf, Zero, Copy, PoolSuffices,
         RunPlaces;
    var g := segs[n];
    if g.load {
      SegNeeds(im, im1, root, file, segs, n, start, end);
      RunGoes(im1.sys, LoadSeg(im1, root, file, g).sys, root, g.vaddr, g.memsz / 4096, im1.loc / 4096, g.exec);
      SegPages(segs, file, im.loc, start, end, n);
      forall x: nat | !(im.loc <= x < im.loc + Taken(segs, n + 1))
        ensures ByteAt(LoadSeg(im1, root, file, g).ram, x) == ByteAt(im.ram, x)
      {
        SegBytes(im1, root, file, g, x);
      }
    } else {
      assert AllPlaces(segs, n + 1) == AllPlaces(segs, n);
    }
  }

  lemma NothingLoaded(im: Img, root: nat)
    requires SysOk(im.sys, root) && Writable(im.sys)
    ensures Going(im, im, root, 0, {}) && Lacking({}, im.sys.owner.Values) == 0
  {
    NothingLacking(im.sys);
  }

  /** The state before each header: tables in order, the pool not exhausted, the image packed from
      the origin on and nothing else in memory written. */
  lemma {:induction false} LoadGoes(im: Img, root: nat, file: nat, segs: seq<Seg>, n: nat, start: nat, end: nat)
    requires n <= |segs| && Ready(im, root, file, segs, start, end)
    ensures Going(im, Load(im, root, file, segs, n), root, Taken(segs, n), AllPlaces(segs, n))
  {
    hide Going, SegsOk, SegsClear, LoadSeg, PoolSuffices, Lacking, RunDone, SysOk, Writable;
    if n == 0 {
      NothingLoaded(im, root);
    } else {
      LoadGoes(im, root, file, segs, n - 1, start, end);
      var im1 := Load(im, root, file, segs, n - 1);
      if segs[n - 1].load { SegTables(im, im1, root, file, segs, n - 1, start, end); }
      TurnGoes(im, im1, root, file, segs, n - 1, start, end);
    }
  }

  /** The pool lasts for each header in its turn. */
  ghost predicate EachSuffices(im: Img, root: nat, file: nat, segs: seq<Seg>, n: nat)
    requires n <= |segs|
  {
    n > 0 ==>
      && EachSuffices(im, root, file, segs, n - 1)
      && var im1, g := Load(im, root, file, segs, n - 1), segs[n - 1];
         g.load ==> PoolSuffices(im1.sys, root, g.vaddr, g.memsz / 4096, im1.loc / 4096, g.exec)
  }

  /** The pool lasts if and only if it has a frame for each table position on the way to a page of some
      segment that is not taken at the start. */
  lemma {:induction false} LoadSufficesIff(im: Img, root: nat, file: nat, segs: seq<Seg>, n: nat, start: nat, end: nat)
    requires n <= |segs| && Starts(im, root, file, segs, start, end)
    ensures EachSuffices(im, root, file, segs, n) <==> Lacking(AllPlaces(segs, n), im.sys.owner.Values) <= |im.sys.stack|
    ensures EachSuffices(im, root, file, segs, n) ==>
      Going(im, Load(im, root, file, segs, n), root, Taken(segs, n), AllPlaces(segs, n))
  {
    hide Going, SegsOk, SegsClear, LoadSeg, PoolSuffices, Lacking, RunDone, SysOk, Writable, SegPlaces;
    if n == 0 {
      NothingLoaded(im, root);
    } else {
      LoadSufficesIff(im, root, file, segs, n - 1, start, end);
      LackingJoined(AllPlaces(segs, n - 1), SegPlaces(segs[n - 1]), im.sys.owner.Values);
      if EachSuffices(im, root, file, segs, n - 1) {
        var im1 := Load(im, root, file, segs, n - 1);
        if segs[n - 1].load {
          SegNeeds(im, im1, root, file, segs, n - 1, start, end);
        } else {
          assert AllPlaces(segs, n) == AllPlaces(segs, n - 1) by { NoPlaces(segs[n - 1]); }
        }
        if EachSuffices(im, root, file, segs, n) { TurnGoes(im, im1, root, file, segs, n - 1, start, end); }
      }
    }
  }

  lemma NoPlaces(g: Seg)
    requires !g.load
    ensures SegPlaces(g) == {}
  {
  }

  /** The physical address that `a` translates to is `p`, writable by the kernel only, executable as told. */
  ghost predicate Finds(m: Mem, root: nat, a: nat, p: nat, exec: bool) {
    var t := Translate(m, root, PageOf(a));
    t.Mapped? && t.frame * 4096 + a % 4096 == p && t.write && !t.user && t.exec == exec
  }

  function Content(m: Ram, file: nat, g: Seg, b: nat): nat {
    if b < g.filesz then ByteAt(m, file + g.offset + b) else 0
  }

  /** Byte `b` of a segment: its virtual address leads to the physical byte that holds its content. */
  ghost predicate ByteRight(im: Img, m0: Ram, root: nat, file: nat, g: Seg, loc: nat, b: nat) {
    b < g.memsz ==> Finds(im.sys.mem, root, g.vaddr + b, loc + b, g.exec) && ByteAt(im.ram, loc + b) == Content(m0, file, g, b)
  }

  lemma RunFinds(m: Mem, root: nat, addr: nat, n: nat, loc: nat, exec: bool, b: nat)
    requires MapsRun(m, root, addr, n, loc / 4096, exec) && b < n * 4096
    requires addr % 4096 == 0 && loc % 4096 == 0 && loc + b < 0x1_0000_0000
    ensures Finds(m, root, addr + b, loc + b, exec)
  {
    hide Translate;
    var k := b / 4096;
    assert addr + b == addr + k * 4096 + b % 4096;
    assert (addr + b) / 4096 == (addr + k * 4096) / 4096;
    assert PageOf(addr + b) == PageOf(addr + k * 4096);
    assert loc / 4096 + k < FRAMES;
    assert (loc / 4096 + k) % FRAMES == loc / 4096 + k;
    assert loc == loc / 4096 * 4096;
  }

  lemma TakenFits(segs: seq<Seg>, file: nat, origin: nat, start: nat, end: nat, i: nat)
    requires SegsOk(segs, file, origin, start, end) && i <= |segs|
    ensures origin + Taken(segs, i) <= 0x1_0000_0000
  {
    hide SegsApart, Spans;
    TakenFitsSpan(segs, start, end);
    TakenGrows(segs, i);
  }

  lemma {:induction false} TakenAligned(segs: seq<Seg>, file: nat, origin: nat, start: nat, end: nat, n: nat)
    requires SegsOk(segs, file, origin, start, end) && n <= |segs|
    ensures (origin + Taken(segs, n)) % 4096 == 0
  {
    hide SegsApart, Spans;
    if n > 0 {
      TakenAligned(segs, file, origin, start, end, n - 1);
      assert SegOk(segs[n - 1], file, origin);
    }
  }

  lemma RunMaps(s: Sys, s': Sys, root: nat, addr: nat, n: nat, frame: nat, exec: bool)
    requires RunDone(s, s', root, addr, n, frame, exec)
    ensures MapsRun(s'.mem, root, addr, n, frame, exec)
  {
  }

  /** Just after its own turn a segment is in place. */
  lemma SegPlaced(im: Img, root: nat, file: nat, segs: seq<Seg>, i: nat, start: nat, end: nat, b: nat)
    requires i < |segs| && segs[i].load && Ready(im, root, file, segs, start, end)
    ensures ByteRight(Load(im, root, file, segs, i + 1), im.ram, root, file, segs[i], im.loc + Taken(segs, i), b)
  {
    hide SysOk, Writable, NoBig, AddPages, SegsOk, SegsClear, Within, Lacking, PoolOf, Zero, Copy, Finds,
         AllPlaces, KeepsClear, RunDone, MapsRun, PoolSuffices, RunTakes;
    var g, im1 := segs[i], Load(im, root, file, segs, i);
    if b < g.memsz {
      LoadGoes(im, root, file, segs, i, start, end);
      SegTables(im, im1, root, file, segs, i, start, end);
      SegPages(segs, file, im.loc, start, end, i);
      TakenFits(segs, file, im.loc, start, end, i + 1);
      TakenAligned(segs, file, im.loc, start, end, i);
      RunMaps(im1.sys, LoadSeg(im1, root, file, g).sys, root, g.vaddr, g.memsz / 4096, im1.loc / 4096, g.exec);
      RunFinds(LoadSeg(im1, root, file, g).sys.mem, root, g.vaddr, g.memsz / 4096, im1.loc, g.exec, b);
      SegBytes(im1, root, file, g, im1.loc + b);
    }
  }

  /** The pages of one segment are not pages of another. */
  lemma OtherPages(segs: seq<Seg>, file: nat, origin: nat, start: nat, end: nat, i: nat, j: nat, b: nat)
    requires SegsOk(segs, file, origin, start, end) && i < j < |segs| && segs[i].load && segs[j].load && b < segs[i].memsz
    ensures !Within(PageOf(segs[i].vaddr + b), segs[j].vaddr, segs[j].memsz / 4096)
  {
    var g, h := segs[i], segs[j];
    assert SegOk(g, file, origin) && SegOk(h, file, origin);
    forall k: nat | k < h.memsz / 4096 ensures PageOf(h.vaddr + k * 4096) != PageOf(g.vaddr + b) {
      PagesDiffer(g.vaddr + b, h.vaddr + k * 4096);
    }
  }

  lemma PagesDiffer(a: nat, c: nat)
    requires c % 4096 == 0 && (a < c < a / 4096 * 4096 + FRAMES * 4096 || (c + 4096 <= a < c + FRAMES * 4096))
    ensures PageOf(a) != PageOf(c)
  {
    if a < c {
      assert 0 < c / 4096 - a / 4096 < FRAMES;
      ModApart(a / 4096, c / 4096 - a / 4096);
    } else {
      assert 0 < a / 4096 - c / 4096 < FRAMES;
      ModApart(c / 4096, a / 4096 - c / 4096);
    }
  }

  /** Loading, the main result: every byte of every segment is found at its virtual address, with
      its file content or zero, and stays so while later segments are loaded. */
  lemma {:induction false} LoadPlaces(im: Img, root: nat, file: nat, segs: seq<Seg>, n: nat, start: nat, end: nat, i: nat, b: nat)
    requires i < n <= |segs| && segs[i].load && Ready(im, root, file, segs, start, end)
    ensures ByteRight(Load(im, root, file, segs, n), im.ram, root, file, segs[i], im.loc + Taken(segs, i), b)
    decreases n
  {
    hide Ready, ByteRight, Taken, Load;
    if n == i + 1 {
      SegPlaced(im, root, file, segs, i, start, end, b);
    } else {
      LoadPlaces(im, root, file, segs, n - 1, start, end, i, b);
      NextKeeps(im, root, file, segs, n - 1, start, end, i, b);
    }
  }

  lemma {:induction false} TakenOrdered(segs: seq<Seg>, i: nat, n: nat)
    requires i < n <= |segs|
    ensures Taken(segs, i + 1) <= Taken(segs, n)
    decreases n
  {
    if n > i + 1 { TakenOrdered(segs, i, n - 1); }
  }

  lemma NextKeeps(im: Img, root: nat, file: nat, segs: seq<Seg>, n: nat, start: nat, end: nat, i: nat, b: nat)
    requires i < n < |segs| && segs[i].load && Ready(im, root, file, segs, start, end)
    requires ByteRight(Load(im, root, file, segs, n), im.ram, root, file, segs[i], im.loc + Taken(segs, i), b)
    ensures ByteRight(Load(im, root, file, segs, n + 1), im.ram, root, file, segs[i], im.loc + Taken(segs, i), b)
  {
    hide Ready, Finds, Content, Taken;
    if segs[n].load && b < segs[i].memsz {
      hide Load, ByteRight;
      LaterKeeps(im, root, file, segs, n, start, end, i, b);
    }
  }

  lemma LaterKeeps(im: Img, root: nat, file: nat, segs: seq<Seg>, n: nat, start: nat, end: nat, i: nat, b: nat)
    requires i < n < |segs| && segs[i].load && segs[n].load && Ready(im, root, file, segs, start, end) && b < segs[i].memsz
    requires ByteRight(Load(im, root, file, segs, n), im.ram, root, file, segs[i], im.loc + Taken(segs, i), b)
    ensures ByteRight(Load(im, root, file, segs, n + 1), im.ram, root, file, segs[i], im.loc + Taken(segs, i), b)
  {
    hide SysOk, Writable, NoBig, AddPages, SegsOk, SegsClear, Within, Lacking, PoolOf, Zero, Copy, Translate,
         SlotOf, AllPlaces, KeepsClear, PageOf, MapsRun, RamOutside, Content;
    var g, h, im1 := segs[i], segs[n], Load(im, root, file, segs, n);
    var v := PageOf(g.vaddr + b);
    LoadGoes(im, root, file, segs, n, start, end);
    SegTables(im, im1, root, file, segs, n, start, end);
    SegPages(segs, file, im.loc, start, end, n);
    OtherPages(segs, file, im.loc, start, end, i, n, b);
    PageBound(g.vaddr + b);
    assert SameTranslation(im1.sys.mem, LoadSeg(im1, root, file, h).sys.mem, root, v);
    TakenOrdered(segs, i, n);
    SegBytes(im1, root, file, h, im.loc + Taken(segs, i) + b);
  }

  /** Pages of no segment keep their translation: the identity map and the stack page survive. */
  lemma {:induction false} LoadSpares(im: Img, root: nat, file: nat, segs: seq<Seg>, n: nat, start: nat, end: nat, v: nat)
    requires n <= |segs| && Ready(im, root, file, segs, start, end) && v < FRAMES
    requires forall i :: 0 <= i < |segs| && segs[i].load ==> !Within(v, segs[i].vaddr, segs[i].memsz / 4096)
    ensures Translate(Load(im, root, file, segs, n).sys.mem, root, v) == Translate(im.sys.mem, root, v)
    ensures LeafAt(Load(im, root, file, segs, n).sys.mem, root, v, 4) == LeafAt(im.sys.mem, root, v, 4)
  {
    hide SysOk, Writable, NoBig, AddPages, SegsOk, SegsClear, Within, Lacking, PoolOf, Zero, Copy, Translate,
         SlotOf, KeepsClear, RamOutside, MapsRun;
    if n > 0 {
      LoadSpares(im, root, file, segs, n - 1, start, end, v);
      var g, im1 := segs[n - 1], Load(im, root, file, segs, n - 1);
      if g.load {
        LoadGoes(im, root, file, segs, n - 1, start, end);
        SegTables(im, im1, root, file, segs, n - 1, start, end);
        assert SameTranslation(im1.sys.mem, LoadSeg(im1, root, file, g).sys.mem, root, v);
      }
    }
  }

  // ------------------------------------------------------- enough for which kernels

  /** All positions of a level with prefixes from `a` to `b`. */
  ghost function Strip(level: nat, a: nat, b: nat): set<Pos> { set x: nat | a <= x <= b :: Pos(level, x) }

  lemma {:induction false} StripCount(level: nat, a: nat, b: nat)
    requires a <= b
    ensures |Strip(level, a, b)| == b - a + 1
    decreases b - a
  {
    if a < b {
      StripCount(level, a, b - 1);
      assert Strip(level, a, b) == Strip(level, a, b - 1) + {Pos(level, b)};
    } else {
      assert Strip(level, a, a) == {Pos(level, a)};
    }
  }

  /** Tables on the way to the pages from `p` to `q`. */
  ghost function Strips(p: nat, q: nat): set<Pos> {
    Strip(1, Prefix(p, 1), Prefix(q, 1)) + Strip(2, Prefix(p, 2), Prefix(q, 2)) + Strip(3, Prefix(p, 3), Prefix(q, 3))
  }

  lemma {:induction false} PrefixOrder(v: nat, w: nat, level: nat)
    requires v <= w
    ensures Prefix(v, level) <= Prefix(w, level)
  {
    if level > 0 { PrefixOrder(v, w, level - 1); }
  }

  lemma WayInStrips(v: nat, p: nat, q: nat)
    requires p <= v <= q
    ensures WayTo(v, 4) <= Strips(p, q)
  {
    hide Prefix, WayTo;
    WayIs(v, 4);
    forall at | at in WayTo(v, 4) ensures at in Strips(p, q) {
      PrefixOrder(p, v, at.level);
      PrefixOrder(v, q, at.level);
      assert at == Pos(at.level, at.prefix);
    }
  }

  lemma {:induction false} RunInStrips(addr: nat, n: nat, p: nat, q: nat)
    requires addr % 4096 == 0 && q < FRAMES && (n > 0 ==> p <= PageOf(addr) && PageOf(addr) + n <= q + 1)
    ensures RunPlaces(addr, n) <= Strips(p, q)
    decreases n
  {
    hide WayTo, Strips;
    if n > 0 {
      WayInStrips(PageOf(addr), p, q);
      if n > 1 { FollowingPage(addr); }
      RunInStrips(addr + 4096, n - 1, p, q);
    }
  }

  lemma FollowingPage(addr: nat)
    requires addr % 4096 == 0 && PageOf(addr) + 1 < FRAMES
    ensures PageOf(addr + 4096) == PageOf(addr) + 1
  {
    var x := addr / 4096;
    assert (addr + 4096) / 4096 == x + 1;
    assert x + 1 == FRAMES * (x / FRAMES) + (x % FRAMES + 1);
  }

  /** The pages of a header lie between `p` and `q`. */
  ghost predicate PagesIn(g: Seg, p: nat, q: nat) {
    g.load ==> g.vaddr % 4096 == 0 && p <= PageOf(g.vaddr) && PageOf(g.vaddr) + g.memsz / 4096 <= q + 1
  }

  lemma {:induction false} PlacesInStrips(segs: seq<Seg>, n: nat, p: nat, q: nat)
    requires n <= |segs| && q < FRAMES && forall i :: 0 <= i < |segs| ==> PagesIn(segs[i], p, q)
    ensures AllPlaces(segs, n) <= Strips(p, q)
  {
    hide Strips, RunPlaces, PageOf;
    if n > 0 {
      PlacesInStrips(segs, n - 1, p, q);
      assert PagesIn(segs[n - 1], p, q);
      if segs[n - 1].load { RunInStrips(segs[n - 1].vaddr, segs[n - 1].memsz / 4096, p, q); }
    }
  }

  lemma StripsCount(p: nat, q: nat)
    requires p <= q < p + 244 * 512
    ensures |Strips(p, q)| <= 249
  {
    assert Prefix(p, 0) == p && Prefix(q, 0) == q;
    PrefixGap(p, q, 1, 243);
    PrefixGap(p, q, 2, 0);
    PrefixGap(p, q, 3, 0);
    hide Prefix;
    forall l | 1 <= l <= 3 ensures Prefix(p, l) <= Prefix(q, l) { PrefixOrder(p, q, l); }
    StripCount(1, Prefix(p, 1), Prefix(q, 1));
    StripCount(2, Prefix(p, 2), Prefix(q, 2));
    StripCount(3, Prefix(p, 3), Prefix(q, 3));
  }

  lemma PrefixGap(p: nat, q: nat, level: nat, k: nat)
    requires level > 0 && p <= q && Prefix(p, level - 1) <= Prefix(q, level - 1) < Prefix(p, level - 1) + (k + 1) * 512
    ensures Prefix(q, level) <= Prefix(p, level) + k + 1
  {
  }

  /** A kernel that spans at most 488 MiB, wherever it is linked, never exhausts the 250 frames. */
  lemma ModestKernelFits(segs: seq<Seg>, p: nat, q: nat, taken: set<Pos>)
    requires p <= q < FRAMES && q < p + 244 * 512 && forall i :: 0 <= i < |segs| ==> PagesIn(segs[i], p, q)
    ensures Lacking(AllPlaces(segs, |segs|), taken) <= 249
  {
    hide Strips, AllPlaces;
    PlacesInStrips(segs, |segs|, p, q);
    StripsCount(p, q);
    var a, b := AllPlaces(segs, |segs|), Strips(p, q);
    assert b == (a - taken) + (b - (a - taken));
  }
}
