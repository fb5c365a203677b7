/**
 The page-table editor of kernel/system/mem_mgmt/vmm/paging.c and `_init_paging`
 of kernel/system/mem_mgmt/pmm.c as they run, over one memory and one free-page
 stack.
 */
module AddressSpaces {
  import opened PhysicalPages
  import opened PageTables
  import opened LowPages
  import opened PhysicalMap
  import opened PhysicalWindow

  class AddressSpace {
    const root: nat
    const pmm: Pmm
    var mem: Mem
    ghost var owner: map<nat, Pos>

    ghost predicate Valid()
      reads this, pmm, pmm.pages
    {
      pmm.Valid() && Aligned(pmm.Stack())
    }

    ghost function State(): Sys
      requires Valid()
      reads this, pmm, pmm.pages
    {
      Sys(mem, FramesOf(pmm.Stack()), owner)
    }

    constructor (root: nat, pmm: Pmm, mem: Mem, ghost owner: map<nat, Pos>)
      requires pmm.Valid() && Aligned(pmm.Stack())
      ensures this.root == root && this.pmm == pmm && Valid() && State() == Sys(mem, FramesOf(pmm.Stack()), owner)
    {
      this.root, this.pmm, this.mem, this.owner := root, pmm, mem, owner;
    }

    /** One level of `get_page_table_entry`. */
    method Level(f: nat, i: nat, fl: Flags, ghost at: Pos) returns (next: nat)
      requires Valid()
      modifies this, pmm`index
      ensures Valid() && State() == Descend(old(State()), f, i, fl, at) && next == Next(State(), f, i)
    {
      ghost var s := State();
      if !Read(mem, f, i).present {
        var n := TakePage();
        assert State() == Pop(s) && n == Top(s);
        mem := Write(mem, f, i, ZERO.(frame := n % FRAMES, present := true));
        owner := owner[n % FRAMES := at];
      }
      ghost var m := mem;
      mem := Write(mem, f, i, OrFlags(Read(mem, f, i), fl));
      Rewritten(s.mem, m, f, i);
      next := Read(mem, f, i).frame;
    }

    static lemma Rewritten(m0: Mem, m: Mem, f: nat, i: nat)
      requires m == m0 || m == Write(m0, f, i, Read(m, f, i))
      ensures forall e :: Write(m, f, i, e) == Write(m0, f, i, e)
    {
    }

    /** The next page of the stack, as a frame; frame 0 when there is none. */
    method TakePage() returns (x: nat)
      requires Valid()
      modifies pmm`index
      ensures Valid() && State() == Pop(old(State())) && x == Top(old(State()))
    {
      ghost var q := pmm.Stack();
      var addr := pmm.AllocPage();
      x := addr / 4096;
      assert q != [] ==> FramesOf(q)[..|q| - 1] == FramesOf(pmm.Stack());
    }

    /** The lowest page, as a frame. */
    method TakeLowestFrame() returns (x: nat)
      requires Valid() && pmm.Stack() != []
      modifies pmm`index, pmm.pages
      ensures Valid() && x == Low(old(State()).stack) && State() == old(State()).(stack := WithoutLow(old(State()).stack))
    {
      LowFrames(pmm.Stack());
      var addr := pmm.TakeLowest();
      x := addr / 4096;
    }

    /** `get_page_table_entry`: down three levels to the table that holds the entry. */
    method GetPageTableEntry(vp: nat, fl: Flags) returns (pt: nat)
      requires Valid()
      modifies this, pmm`index
      ensures Valid() && State() == Descent(old(State()), root, vp, 4, fl)
      ensures pt == Bottom(old(State()), root, vp, 4, fl)
    {
      ghost var s0 := State();
      var pdpt := Level(root, Index(vp, 4), fl, Pos(3, Prefix(vp, 3)));
      ghost var s1 := State();
      var pdt := Level(pdpt, Index(vp, 3), fl, Pos(2, Prefix(vp, 2)));
      ghost var s2 := State();
      pt := Level(pdt, Index(vp, 2), fl, Pos(1, Prefix(vp, 1)));
      Unrolled(s0, s1, s2, State(), root, pdpt, pdt, pt, vp, fl);
    }

    static lemma Unrolled(s0: Sys, s1: Sys, s2: Sys, s3: Sys, f0: nat, f1: nat, f2: nat, f3: nat, vp: nat, fl: Flags)
      requires s1 == Descend(s0, f0, Index(vp, 4), fl, Pos(3, Prefix(vp, 3))) && f1 == Next(s1, f0, Index(vp, 4))
      requires s2 == Descend(s1, f1, Index(vp, 3), fl, Pos(2, Prefix(vp, 2))) && f2 == Next(s2, f1, Index(vp, 3))
      requires s3 == Descend(s2, f2, Index(vp, 2), fl, Pos(1, Prefix(vp, 1))) && f3 == Next(s3, f2, Index(vp, 2))
      ensures Descent(s0, f0, vp, 4, fl) == s3 && Bottom(s0, f0, vp, 4, fl) == f3
    {
      hide Descend, Index, Prefix;
      assert Descent(s2, f2, vp, 2, fl) == Descent(s3, f3, vp, 1, fl) == s3;
      assert Bottom(s2, f2, vp, 2, fl) == Bottom(s3, f3, vp, 1, fl) == f3;
      assert Descent(s1, f1, vp, 3, fl) == s3 && Bottom(s1, f1, vp, 3, fl) == f3;
    }

    /** `set_page`; the low bits and the upper 16 bits of the addresses play no part. */
    method SetPageAt(vaddr: nat, paddr: nat, pf: PageFlags)
      requires Valid()
      modifies this, pmm`index
      ensures Valid() && State() == SetPage(old(State()), root, vaddr / 4096 % FRAMES, paddr / 4096, pf)
    {
      var vp := vaddr / 4096 % FRAMES;
      var pt := GetPageTableEntry(vp, TableFlags(pf));
      mem := Write(mem, pt, Index(vp, 1), LeafEntry(paddr / 4096, pf));
    }

    /** `free_page`; the stack must fit its buffer afterwards, which the kernel does not check. */
    method FreePageAt(vaddr: nat)
      requires Valid() && |FreePage(State(), root, vaddr / 4096 % FRAMES).stack| <= pmm.pages.Length
      modifies this, pmm`index, pmm.pages
      ensures Valid() && State() == FreePage(old(State()), root, vaddr / 4096 % FRAMES)
    {
      var vp := vaddr / 4096 % FRAMES;
      var pt := GetPageTableEntry(vp, NO_FLAGS);
      var e := Read(mem, pt, Index(vp, 1));
      if e.usable {
        ghost var q := pmm.Stack();
        pmm.FreePage(e.frame * 4096);
        assert FramesOf(q + [e.frame * 4096]) == FramesOf(q) + [e.frame];
      }
      mem := Write(mem, pt, Index(vp, 1), ZERO);
    }

    /** `_zero_page`. */
    method ZeroPage(f: nat)
      modifies this`mem
      ensures mem == ZeroFrame(old(mem), f)
    {
      var j := 0;
      while j < 512
        invariant 0 <= j <= 512 && mem == old(mem) + map i: nat | i < j :: Slot(f, i) := ZERO
      {
        mem := Write(mem, f, j, ZERO);
        j := j + 1;
      }
    }

    /** The loop that fills a table with 2 MiB pages. */
    method FillPage(f: nat, g: nat)
      modifies this`mem
      ensures mem == FillBig(old(mem), f, g)
    {
      var j := 0;
      while j < 512
        invariant 0 <= j <= 512 && mem == FillUpTo(old(mem), f, g, j)
      {
        FillNext(old(mem), f, g, j);
        mem := Write(mem, f, j, BigEntry(g, j));
        j := j + 1;
      }
    }

    static ghost function FillUpTo(m: Mem, f: nat, g: nat, n: nat): Mem {
      m + map j: nat | j < n :: Slot(f, j) := BigEntry(g, j)
    }

    static lemma FillNext(m: Mem, f: nat, g: nat, n: nat)
      ensures FillUpTo(m, f, g, n + 1) == Write(FillUpTo(m, f, g, n), f, n, BigEntry(g, n))
    {
      hide BigEntry;
    }

    /** One turn of the loop in `_init_paging`; `g` counts gigabytes. Tables are written through their
        physical addresses, and `fault` tells that one of them is not reached that way. */
    method MapGigabyte(g: nat) returns (fault: bool)
      requires Valid() && CanMapGiB(State(), root, g)
      modifies this, pmm`index, pmm.pages
      ensures fault <==> !TurnWrites(old(State()), root, g)
      ensures Valid() && (!fault ==> State() == MapGiB(old(State()), root, g))
    {
      hide Self, Low, WithoutLow, FillBig, ZeroFrame;
      ghost var s0 := State();
      var page;
      page, fault := BuildLowest(g);
      if fault { return; }
      ghost var s1 := State();
      fault := !Self(mem, root, root);
      if fault { return; }
      fault := EnsureTable(TopIndex(g));
      if fault { return; }
      ghost var s2 := State();
      assert s1 == BuildPage(s0, g) && s2 == EnsurePdpt(s1, root, TopIndex(g));
      var pdpt := Read(mem, root, TopIndex(g)).frame;
      fault := !Self(mem, root, pdpt);
      if fault { return; }
      mem := Write(mem, pdpt, g % 512, TableEntry(page));
      owner := owner[page := Pos(2, FIRST * 512 + g)];
    }

    /** The lowest page becomes the table of the gigabyte. */
    method BuildLowest(g: nat) returns (page: nat, fault: bool)
      requires Valid() && pmm.Stack() != []
      modifies this, pmm`index, pmm.pages
      ensures page == Low(old(State()).stack) && (fault <==> !Self(old(mem), root, page))
      ensures Valid() && (!fault ==> State() == BuildPage(old(State()), g))
    {
      hide Self, Low, WithoutLow, FillBig, ZeroFrame;
      page := TakeLowestFrame();
      fault := !Self(mem, root, page);
      if fault { return; }
      ZeroPage(page);
      FillPage(page, g);
    }

    method EnsureTable(i: nat) returns (fault: bool)
      requires Valid() && (Read(mem, root, i).present || pmm.Stack() != [])
      modifies this, pmm`index, pmm.pages
      ensures fault <==> !(Read(old(mem), root, i).present || Self(old(mem), root, Low(old(State()).stack)))
      ensures Valid() && (!fault ==> State() == EnsurePdpt(old(State()), root, i))
    {
      fault := false;
      if !Read(mem, root, i).present {
        var n := TakeLowestFrame();
        fault := !Self(mem, root, n);
        if fault { return; }
        ZeroPage(n);
        mem := Write(mem, root, i, TableEntry(n));
        owner := owner[n := Pos(3, i)];
      }
    }

    /** `_init_paging`: either every write is reached and the window is built, or a write faults. */
    method InitPagingLoop(length: nat) returns (fault: bool)
      requires Valid() && CanInit(State(), root, 0, GiBs(length))
      modifies this, pmm`index, pmm.pages
      ensures fault <==> !AllWrites(old(State()), root, 0, GiBs(length))
      ensures Valid() && (!fault ==> State() == InitPaging(old(State()), root, 0, GiBs(length)))
    {
      hide MapGiB, TurnWrites, CanMapGiB;
      fault := false;
      var g := 0;
      while g * 0x4000_0000 < length
        invariant g <= GiBs(length) && Valid() && pmm.pages == old(pmm.pages)
        invariant CanInit(State(), root, g, GiBs(length))
        invariant InitPaging(State(), root, g, GiBs(length)) == InitPaging(old(State()), root, 0, GiBs(length))
        invariant AllWrites(State(), root, g, GiBs(length)) <==> AllWrites(old(State()), root, 0, GiBs(length))
        decreases GiBs(length) - g
      {
        assert g < GiBs(length);
        fault := MapGigabyte(g);
        if fault { return; }
        g := g + 1;
      }
      assert g == GiBs(length);
    }
  }
}
