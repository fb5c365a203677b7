/**
 The heap as it runs: `malloc` and `free` walk and relink the headers in memory,
 proved against the lists of `HeapSpec`.
 */
module HeapProgram {
  import opened HeapSpec
  import opened Words
  import opened HeapMemory

  lemma FirstPageIs(h: seq<Page>, size: nat, i: nat)
    requires i <= |h| && (forall j :: 0 <= j < i ==> !Offers(h[j], size)) && (i < |h| ==> Offers(h[i], size))
    ensures FirstPage(h, size) == i
  {
  }

  lemma FirstFitIs(fl: seq<Blk>, size: nat, k: nat)
    requires k <= |fl| && (forall j :: 0 <= j < k ==> fl[j].length <= size) && (k < |fl| ==> fl[k].length > size)
    ensures FirstFit(fl, size) == k
  {
  }

  lemma NeighbourIs(fl: seq<Blk>, b: Blk, i: nat)
    requires i <= |fl| && (forall j :: 0 <= j < i ==> End(fl[j]) != b.addr && End(b) != fl[j].addr)
    requires i < |fl| ==> End(fl[i]) == b.addr || End(b) == fl[i].addr
    ensures Neighbour(fl, b) == i
  {
  }

  class Heap {
    var mem: Memory
    var gone: set<nat>
    ghost var view: seq<Page>

    /** The heap, with the pages that were given back and are no longer mapped. */
    ghost function Contents(): State
      reads this
    {
      State(view, set i | 0 <= i < |view| && view[i].addr in gone)
    }

    constructor ()
      ensures Rep(mem, view) && StateOk(Contents()) && view == [] && gone == {}
    {
      mem, gone, view := Memory(map[], map[], 0), {}, [];
    }

    /** The walk that looks for a block in one page's free list. */
    method FitInPage(page: nat, size: nat, ghost i: nat) returns (block: nat)
      requires Rep(mem, view) && i < |view| && page == view[i].addr
      ensures if Offers(view[i], size) then block == view[i].free[FirstFit(view[i].free, size)].addr && block > 0 else block == 0
    {
      ghost var l := view[i].free;
      assert PageAt(mem, view, i);
      block := Get(mem, FreeHead(page));
      ghost var k := 0;
      assert LinkAt(mem, l, 0, page);
      while block != 0
        invariant 0 <= k <= |l| && block == Addr(l, k) && (k < |l| ==> block > 0)
        invariant forall j :: 0 <= j < k ==> l[j].length <= size
        decreases |l| - k
      {
        assert LinkAt(mem, l, k, page) && LinkAt(mem, l, k + 1, page);
        if BlockAt(mem, block).length > size {
          FirstFitIs(l, size, k);
          return;
        }
        block := Get(mem, Next(block));
        k := k + 1;
      }
      assert LinkAt(mem, l, k, page);
      FirstFitIs(l, size, k);
    }

    /** `find_free`; `page` is the address of the new page, should one be needed. Reading the header of a
        page given back is a page fault. */
    method FindFree(size: nat, page: nat) returns (block: nat, fault: bool)
      requires Rep(mem, view) && (FirstPage(view, size) == |view| ==> HeapOk(view) && Fresh(view, page))
      modifies this`mem, this`view
      ensures fault <==> !WalkSafe(old(Contents()), size)
      ensures fault ==> mem == old(mem) && view == old(view)
      ensures !fault ==>
        && Rep(mem, view) && view == WithRoom(old(view), size, page)
        && var i := FirstPage(old(view), size); block == view[i].free[Spot(view[i], size)].addr
    {
      hide Rep, HeapOk, Fresh, WalkSafe, Offers, FirstPage;
      block, fault := 0, false;
      FirstOfList(mem, view);
      var slot := Root;
      ghost var i, st := 0, Contents();
      while Get(mem, slot) != 0
        invariant 0 <= i <= |view| && Get(mem, slot) == PageAddr(view, i) && mem == old(mem) && view == old(view) && !fault
        invariant slot == if i == 0 then Root else NextPage(view[i - 1].addr)
        invariant forall j :: 0 <= j < i ==> !Offers(view[j], size) && j !in st.gone
        decreases |view| - i
      {
        var at := Get(mem, slot);
        if at in gone {
          WalkFaults(st, size, i);
          fault := true;
          return;
        }
        block := FitInPage(at, size, i);
        if block != 0 {
          FirstPageIs(view, size, i);
          WalkPasses(st, size, i);
          return;
        }
        NextOfPage(mem, view, i);
        slot := NextPage(at);
        i := i + 1;
      }
      if i < |view| { PagePositive(mem, view, i); }
      FirstPageIs(view, size, i);
      WalkPasses(st, size, i);
      NewSpot(page, size);
      block := HangPage(slot, page);
    }

    static lemma NewSpot(page: nat, size: nat)
      ensures Spot(NewPage(page), size) == 0
    {
    }

    /** The new page is hung on the end of the page list, with one free block. */
    method HangPage(slot: Slot, page: nat) returns (block: nat)
      requires Rep(mem, view) && HeapOk(view) && Fresh(view, page) && slot == LastSlot(view)
      modifies this`mem, this`view
      ensures Rep(mem, view) && view == old(view) + [NewPage(page)] && block == page + HDR
    {
      hide Rep, HeapOk, Fresh;
      NewPageRep(mem, view, page);
      block := page + HDR;
      mem := Set(mem, slot, page);
      mem := PutBlock(mem, block, BlockHdr(0, page, 4048));
      mem := PutPage(mem, page, PageHdr(0, block, 0));
      view := view + [NewPage(page)];
    }

    static lemma FirstOfList(m: Memory, h: seq<Page>)
      requires Rep(m, h)
      ensures Get(m, Root) == PageAddr(h, 0)
    {
    }

    static lemma PagePositive(m: Memory, h: seq<Page>, i: nat)
      requires Rep(m, h) && i < |h|
      ensures h[i].addr > 0
    {
      assert PageAt(m, h, i);
    }

    static lemma NextOfPage(m: Memory, h: seq<Page>, i: nat)
      requires Rep(m, h) && i < |h|
      ensures Get(m, NextPage(h[i].addr)) == PageAddr(h, i + 1)
    {
      assert PageAt(m, h, i);
    }

    /** The walk to the slot that holds a given block. */
    method SlotHolding(head: Slot, target: nat, ghost l: seq<Blk>, ghost k: nat, ghost page: nat) returns (s: Slot)
      requires Get(mem, head) == Addr(l, 0) && Linked(mem, l, page) && DistinctList(l) && k < |l| && l[k].addr == target
      ensures s == SlotIn(head, l, k)
    {
      s := head;
      ghost var j := 0;
      while Get(mem, s) != target
        invariant 0 <= j <= k && s == SlotIn(head, l, j) && Get(mem, s) == Addr(l, j)
        decreases k - j
      {
        assert LinkAt(mem, l, j, page);
        s := Next(Get(mem, s));
        j := j + 1;
      }
    }

    /** The walk to the empty slot at the end of a list. */
    method EndSlot(head: Slot, ghost l: seq<Blk>, ghost page: nat) returns (s: Slot)
      requires Get(mem, head) == Addr(l, 0) && Linked(mem, l, page)
      ensures s == SlotIn(head, l, |l|)
    {
      s := head;
      ghost var j := 0;
      while Get(mem, s) != 0
        invariant 0 <= j <= |l| && s == SlotIn(head, l, j) && Get(mem, s) == Addr(l, j)
        decreases |l| - j
      {
        assert LinkAt(mem, l, j, page);
        s := Next(Get(mem, s));
        j := j + 1;
      }
      assert j == |l| by { assert LinkAt(mem, l, j, page); }
    }

    /** The first branch of `malloc`: cut the block off the end of the free block. The lists may share
        their end. */
    method Split(f: nat, size: nat, ghost p: Page, ghost next: nat) returns (a: nat)
      requires PageRep(mem, p, next) && DistinctList(p.free) && DistinctList(p.used)
      requires p.free != [] && f == p.free[0].addr && Elsewhere(p.used, f) && p.free[0].length > size + HDR
      requires Elsewhere(Blocks(p), Carved(p, size).addr)
      modifies this`mem
      ensures PageRep(mem, Hung(Shrunk(p, size), Carved(p, size)), next) && a == Carved(p, size).addr
      ensures Only(old(mem), mem, p.addr, Places(p) + {a})
    {
      hide Linked, DistinctList, Hung, Only, Places;
      FirstLink(mem, p, next);
      PlaceOf(p);
      ghost var p1 := Shrunk(p, size);
      OnlyStart(mem, p, {Carved(p, size).addr});
      ResizeHead(mem, p, next, p1.free[0].length);
      mem := SetLength(mem, f, BlockAt(mem, f).length - (size + HDR));
      a := f + HDR + BlockAt(mem, f).length;
      ShrunkElsewhere(p, size);
      PutElsewhere(mem, p1, next, a, BlockHdr(0, BlockAt(mem, f).page, size));
      mem := PutBlock(mem, a, BlockHdr(0, BlockAt(mem, f).page, size));
      OnlyTwo(old(mem), mem, p, f, a);
      SlotsRead(mem, p1, next);
      assert Get(mem, UsedSlot(p1, 0)) == Addr(p1.used, 0);
      var tail := EndSlot(UsedHead(BlockAt(mem, f).page), p1.used, p1.addr);
      AppendUsed(mem, p1, next, Carved(p, size));
      OnlyLink(old(mem), mem, p, tail, a, a);
      mem := Set(mem, tail, a);
    }

    /** What is left of the free block, and the block cut off its end. */
    static function Shrunk(p: Page, size: nat): Page
      requires p.free != [] && p.free[0].length > size + HDR
    {
      p.(free := p.free[0 := Blk(p.free[0].addr, p.free[0].length - (size + HDR))])
    }

    static function Carved(p: Page, size: nat): Blk
      requires p.free != [] && p.free[0].length > size + HDR
    {
      Blk(p.free[0].addr + HDR + (p.free[0].length - (size + HDR)), size)
    }

    static lemma FirstLink(m: Memory, p: Page, next: nat)
      requires PageRep(m, p, next) && p.free != []
      ensures p.free[0].addr in m.blocks && BlockAt(m, p.free[0].addr) == BlockHdr(Addr(p.free, 1), p.addr, p.free[0].length)
      ensures p.free[0].addr > 0 && p.addr in m.pages
    {
      assert LinkAt(m, p.free, 0, p.addr);
    }

    static lemma ResizeHead(m: Memory, p: Page, next: nat, n: nat)
      requires PageRep(m, p, next) && DistinctList(p.free) && p.free != [] && Elsewhere(p.used, p.free[0].addr)
      ensures PageRep(SetLength(m, p.free[0].addr, n), p.(free := p.free[0 := Blk(p.free[0].addr, n)]), next)
    {
      var m', l := SetLength(m, p.free[0].addr, n), p.free[0 := Blk(p.free[0].addr, n)];
      forall j: nat ensures LinkAt(m', p.used, j, p.addr) { assert LinkAt(m, p.used, j, p.addr); }
      forall j: nat ensures LinkAt(m', l, j, p.addr) { assert LinkAt(m, p.free, j, p.addr); }
    }

    static lemma ShrunkElsewhere(p: Page, size: nat)
      requires p.free != [] && p.free[0].length > size + HDR && DistinctList(p.free)
      requires Elsewhere(Blocks(p), Carved(p, size).addr)
      ensures var p1 := Shrunk(p, size);
        DistinctList(p1.free) && Elsewhere(Blocks(p1), Carved(p, size).addr) && p1.addr == p.addr && p1.used == p.used && p1.free != []
    {
      var p1 := Shrunk(p, size);
      forall k | 0 <= k < |Blocks(p1)| ensures Blocks(p1)[k].addr != Carved(p, size).addr {
        assert Blocks(p1)[k].addr == Blocks(p)[k].addr;
      }
    }

    static lemma OnlyStart(m: Memory, p: Page, at: set<nat>)
      ensures Only(m, m, p.addr, Places(p) + at)
    {
    }

    static lemma OnlyTwo(m: Memory, m': Memory, p: Page, f: nat, a: nat)
      requires p.free != [] && f == p.free[0].addr && m'.root == m.root && m'.pages == m.pages
      requires forall x :: x != f && x != a ==> BlockAt(m', x) == BlockAt(m, x) && (x in m.blocks ==> x in m'.blocks)
      ensures Only(m, m', p.addr, Places(p) + {a})
    {
      PlaceOf(p);
    }

    static lemma OnlyLink(m: Memory, m': Memory, p: Page, s: Slot, v: nat, a: nat)
      requires Only(m, m', p.addr, Places(p) + {a})
      requires s == UsedHead(p.addr) || s == FreeHead(p.addr) || (s.Next? && s.b in Places(p) + {a})
      ensures Only(m, Set(m', s, v), p.addr, Places(p) + {a})
    {
    }

    /** In a page in order this is the block taken from the end. */
    static lemma SplitIs(p: Page, size: nat)
      requires PageOk(p) && p.free != [] && p.free[0].length > size + HDR && size + HDR < WORD
      ensures DistinctList(p.free) && DistinctList(p.used) && Elsewhere(p.used, p.free[0].addr)
      ensures Elsewhere(Blocks(p), Carved(p, size).addr) && Carved(p, size) == Carve(p.free[0], size)
      ensures TakeFrom(p, 0, size) == Hung(Shrunk(p, size), Carved(p, size))
      ensures p.addr < Carved(p, size).addr < p.addr + 4096
    {
      OkDistinctPage(p);
      DistinctParts(p);
      assert (size + HDR) % WORD == size + HDR;
      StackedOrder(p.used, End(p.free[0]), p.addr + 4096);
    }

    /** The second branch of `malloc`: use the whole block. The lists may share their end. */
    method Whole(f: nat, ghost p: Page, ghost next: nat)
      requires PageRep(mem, p, next) && DistinctList(p.free) && DistinctList(p.used)
      requires p.free != [] && f == p.free[0].addr && Elsewhere(p.used, f)
      modifies this`mem
      ensures PageRep(mem, Hung(p.(free := p.free[1..]), p.free[0]), next)
      ensures Only(old(mem), mem, p.addr, Places(p) + {f})
    {
      hide Linked, DistinctList, Hung, Only, Places, Blocks, Elsewhere;
      FirstLink(mem, p, next);
      PlaceOf(p);
      OnlyStart(mem, p, {f});
      SlotsRead(mem, p, next);
      assert Get(mem, FreeSlot(p, 0)) == Addr(p.free, 0);
      var at := BlockAt(mem, f).page;
      var parent := SlotHolding(FreeHead(at), f, p.free, 0, p.addr);
      UnlinkFree(mem, p, next, 0);
      ghost var p1 := p.(free := p.free[1..]);
      HeadGone(p);
      OnlyLink(old(mem), mem, p, parent, BlockAt(mem, f).next, f);
      mem := Set(mem, parent, BlockAt(mem, f).next);
      PutElsewhere(mem, p1, next, f, BlockAt(mem, f).(next := 0));
      OnlyLink(old(mem), mem, p, Next(f), 0, f);
      mem := Set(mem, Next(f), 0);
      SlotsRead(mem, p1, next);
      assert Get(mem, UsedSlot(p1, 0)) == Addr(p1.used, 0);
      parent := EndSlot(UsedHead(at), p1.used, p1.addr);
      AppendUsed(mem, p1, next, p.free[0]);
      OnlyLink(old(mem), mem, p, parent, f, f);
      mem := Set(mem, parent, f);
    }

    static lemma HeadGone(p: Page)
      requires DistinctList(p.free) && p.free != [] && Elsewhere(p.used, p.free[0].addr)
      ensures Without(p.free, 0) == p.free[1..] && DistinctList(p.free[1..])
      ensures Elsewhere(Blocks(p.(free := p.free[1..])), p.free[0].addr)
    {
      var p1 := p.(free := p.free[1..]);
      forall k | 0 <= k < |Blocks(p1)| ensures Blocks(p1)[k].addr != p.free[0].addr {
        if k < |p1.free| { assert Blocks(p1)[k] == p.free[k + 1]; } else { assert Blocks(p1)[k] == p.used[k - |p1.free|]; }
      }
    }

    /** In a page in order this is the block taken whole. */
    static lemma WholeIs(p: Page, size: nat)
      requires PageOk(p) && p.free != [] && p.free[0].length <= size + HDR && size + HDR < WORD
      ensures DistinctList(p.free) && DistinctList(p.used) && Elsewhere(p.used, p.free[0].addr)
      ensures TakeFrom(p, 0, size) == Hung(p.(free := p.free[1..]), p.free[0])
    {
      OkDistinctPage(p);
      DistinctParts(p);
      assert (size + HDR) % WORD == size + HDR;
    }

    /** `malloc`; it faults where its walk does. */
    method Malloc(size: nat, page: nat) returns (addr: nat, fault: bool)
      requires Rep(mem, view) && HeapOk(view) && Fresh(view, page) && size + HDR < WORD
      modifies this`mem, this`view
      ensures Rep(mem, view) && HeapOk(view) && (fault <==> !WalkSafe(old(Contents()), size))
      ensures view == if fault then old(view) else HeapSpec.Malloc(old(view), size, page)
      ensures !fault ==> addr == Result(old(view), size, page).addr + HDR
    {
      hide PageRep, PageOk, TakeFrom, WalkSafe;
      SpotIs(view, size, page);
      MallocKeeps(view, size, page);
      ghost var i := FirstPage(view, size);
      var f;
      f, fault := FindFree(size, page);
      addr := 0;
      if fault { return; }
      ghost var p, next, m0 := view[i], PageAddr(view, i + 1), mem;
      FreeBlockAt(mem, view, i);
      OkDistinct(view);
      assert (size + HDR) % WORD == size + HDR;
      if BlockAt(mem, f).length > size + HDR {
        SplitIs(p, size);
        var a := Split(f, size, p, next);
        AwayFromOthers(view, i, a);
        OnlyThere(m0, mem, view, i, a, TakeFrom(p, 0, size));
        addr := a + HDR;
      } else {
        WholeIs(p, size);
        Whole(f, p, next);
        InsidePage(p);
        AwayFromOthers(view, i, f);
        OnlyThere(m0, mem, view, i, f, TakeFrom(p, 0, size));
        addr := f + HDR;
      }
      view := view[i := TakeFrom(p, 0, size)];
    }

    /** `malloc` when its walk stops at the head of a free list and the whole block is used, whatever shape
        the lists are in. */
    method TakeHead(size: nat, ghost i: nat) returns (addr: nat, fault: bool)
      requires Rep(mem, view) && Separated(view) && i < |view| && FirstPage(view, size) == i
      requires var p := view[i];
        && FirstFit(p.free, size) == 0 && DistinctList(p.free) && DistinctList(p.used)
        && Elsewhere(p.used, p.free[0].addr) && p.free[0].length <= size + HDR
      modifies this`mem, this`view
      ensures Rep(mem, view) && (fault <==> !WalkSafe(old(Contents()), size))
      ensures fault ==> view == old(view)
      ensures !fault ==>
        var p := old(view)[i];
        addr == p.free[0].addr + HDR && view == old(view)[i := Hung(p.(free := p.free[1..]), p.free[0])]
    {
      hide PageRep, WalkSafe, Hung, SharedEnd;
      ghost var p, next := view[i], PageAddr(view, i + 1);
      var f;
      f, fault := FindFree(size, 0);
      addr := 0;
      if fault { return; }
      assert view == old(view) && f == p.free[0].addr && PageAt(mem, view, i);
      ghost var m0 := mem;
      HeadAlone(view, i);
      Whole(f, p, next);
      HungAddr(p.(free := p.free[1..]), p.free[0]);
      OnlyThere(m0, mem, view, i, f, Hung(p.(free := p.free[1..]), p.free[0]));
      view := view[i := Hung(p.(free := p.free[1..]), p.free[0])];
      addr := f + HDR;
    }

    static lemma HungAddr(p: Page, b: Blk)
      ensures Hung(p, b).addr == p.addr
    {
    }

    static lemma HeadAlone(h: seq<Page>, i: nat)
      requires Separated(h) && i < |h| && h[i].free != []
      ensures forall j :: 0 <= j < |h| && j != i ==> Elsewhere(Blocks(h[j]), h[i].free[0].addr)
    {
      forall j | 0 <= j < |h| && j != i ensures Elsewhere(Blocks(h[j]), h[i].free[0].addr) {
        assert DisjointLists(Blocks(h[i]), Blocks(h[j]));
        assert Blocks(h[i])[0] == h[i].free[0];
      }
    }

    static lemma FreeBlockAt(m: Memory, h: seq<Page>, i: nat)
      requires Rep(m, h) && HeapOk(h) && i < |h| && h[i].free != []
      ensures PageRep(m, h[i], PageAddr(h, i + 1)) && PageOk(h[i]) && BlockAt(m, h[i].free[0].addr).length == h[i].free[0].length
      ensures h[i].addr < h[i].free[0].addr < h[i].addr + 4096
    {
      assert PageAt(m, h, i);
      assert LinkAt(m, h[i].free, 0, h[i].addr);
      StackedOrder(h[i].used, End(h[i].free[0]), h[i].addr + 4096);
    }

    static lemma AwayFromOthers(h: seq<Page>, i: nat, a: nat)
      requires HeapOk(h) && i < |h| && h[i].addr < a < h[i].addr + 4096
      ensures forall j :: 0 <= j < |h| && j != i ==> Elsewhere(Blocks(h[j]), a)
    {
      hide PageOk, Blocks;
      forall j | 0 <= j < |h| && j != i ensures Elsewhere(Blocks(h[j]), a) {
        assert PagesApart(h[j].addr, h[i].addr) || PagesApart(h[i].addr, h[j].addr);
        InsidePage(h[j]);
      }
    }

    /** `free` of any block in use, with its lists linked in any order; `released` when the page is
        given back to the memory manager. */
    method Free(addr: nat, ghost i: nat, ghost k: nat) returns (released: bool)
      requires Rep(mem, view) && Distinct(view) && Live(view, i, k) && addr == view[i].used[k].addr + HDR
      modifies this
      ensures view == old(view)[i := HeapSpec.Free(old(view)[i], k)] && Rep(mem, view)
      ensures released <==> view[i].used == []
      ensures gone == if released then old(gone) + {view[i].addr} else old(gone)
    {
      ghost var h, m0 := view, mem;
      ghost var p, next := h[i], PageAddr(h, i + 1);
      assert PageAt(mem, view, i) && LinkAt(mem, p.used, k, p.addr);
      var pg := BlockAt(mem, addr - HDR).page;
      released := FreeInPage(addr - HDR, p, next, k);
      OnlyThere(m0, mem, h, i, p.used[k].addr, HeapSpec.Free(p, k)) by { InOthers(h, i, k); }
      view := h[i := HeapSpec.Free(p, k)];
      if released {
        SameAddr(p, k);
        gone := gone + {pg};
      }
    }

    static lemma InOthers(h: seq<Page>, i: nat, k: nat)
      requires Distinct(h) && Live(h, i, k)
      ensures forall j :: 0 <= j < |h| && j != i ==> Elsewhere(Blocks(h[j]), h[i].used[k].addr)
    {
      forall j | 0 <= j < |h| && j != i ensures Elsewhere(Blocks(h[j]), h[i].used[k].addr) {
        assert DisjointLists(Blocks(h[i]), Blocks(h[j]));
        assert Blocks(h[i])[|h[i].free| + k] == h[i].used[k];
      }
    }

    method FreeInPage(blk: nat, ghost p: Page, ghost next: nat, ghost k: nat) returns (released: bool)
      requires PageRep(mem, p, next) && DistinctList(Blocks(p)) && k < |p.used| && blk == p.used[k].addr
      modifies this`mem
      ensures PageRep(mem, HeapSpec.Free(p, k), next) && Only(old(mem), mem, p.addr, Places(p) + {blk})
      ensures released <==> HeapSpec.Free(p, k).used == []
    {
      hide Linked, PageRep, HeapSpec.Free, DistinctList, Places, Set, Blocks, Get, Only, End;
      var pg, parent := Unlink(blk, p, next, k);
      ghost var m1 := mem;
      PlaceOf(p);
      var val := FreeHead(pg);
      ghost var n := 0;
      while true
        invariant 0 <= n <= |p.free| && val == FreeSlot(p, n) && mem == m1
        invariant parent == if n == 0 then UsedSlot(p, k) else FreeSlot(p, n - 1)
        invariant forall j :: 0 <= j < n ==> End(p.free[j]) != blk && End(p.used[k]) != p.free[j].addr
        decreases |p.free| - n
      {
        var v := Get(mem, val);
        AtSlot(old(mem), p, next, k, n);
        if v == 0 {
          NeighbourIs(p.free, p.used[k], n);
          mem := Set(mem, val, blk);
          FreeEnd(old(mem), p, next, k);
          WroteSlot(old(mem), m1, p, n, blk);
          break;
        }
        if v + HDR + BlockAt(mem, v).length == blk {
          assert End(p.free[n]) == blk by { EndIs(p.free[n]); }
          NeighbourIs(p.free, p.used[k], n);
          mem := SetLength(mem, v, BlockAt(mem, v).length + BlockAt(mem, blk).length + HDR);
          FreeBelow(old(mem), p, next, k, n);
          WroteLength(old(mem), m1, p, v, BlockAt(m1, v).length + BlockAt(m1, blk).length + HDR, blk);
          break;
        }
        EndIs(p.free[n]);
        EndIs(p.used[k]);
        if blk + HDR + BlockAt(mem, blk).length == v {
          NeighbourIs(p.free, p.used[k], n);
          mem := Set(mem, parent, blk);
          ghost var m2 := mem;
          AfterLink(old(mem), p, next, k, n);
          mem := SetLength(mem, blk, BlockAt(mem, blk).length + BlockAt(mem, v).length + HDR);
          if n == 0 { FreeAboveFirst(old(mem), p, next, k); } else { FreeAbove(old(mem), p, next, k, n); }
          WroteLength(old(mem), m2, p, blk, p.used[k].length + p.free[n].length + HDR, blk);
          break;
        }
        parent := val;
        val := Next(v);
        n := n + 1;
      }
      released := Get(mem, UsedHead(pg)) == 0;
      HeadTells(mem, HeapSpec.Free(p, k), next);
      SameAddr(p, k);
    }

    /** The first lines of `free`: find the block in the used list and take it out. */
    method Unlink(blk: nat, ghost p: Page, ghost next: nat, ghost k: nat) returns (pg: nat, parent: Slot)
      requires PageRep(mem, p, next) && DistinctList(Blocks(p)) && k < |p.used| && blk == p.used[k].addr
      modifies this`mem
      ensures pg == p.addr && parent == UsedSlot(p, k) && mem == Set(old(mem), UsedSlot(p, k), Addr(p.used, k + 1))
      ensures Only(old(mem), mem, p.addr, Places(p) + {blk})
    {
      assert LinkAt(mem, p.used, k, p.addr);
      pg := BlockAt(mem, blk).page;
      SlotsRead(mem, p, next);
      assert Get(mem, UsedSlot(p, 0)) == Addr(p.used, 0);
      DistinctParts(p);
      PlaceOf(p);
      parent := SlotHolding(UsedHead(pg), blk, p.used, k, p.addr);
      mem := Set(mem, parent, BlockAt(mem, blk).next);
    }

    static lemma EndIs(b: Blk)
      ensures End(b) == b.addr + HDR + b.length
    {
    }

    static lemma SameAddr(p: Page, k: nat)
      requires k < |p.used|
      ensures HeapSpec.Free(p, k).addr == p.addr
    {
    }

    static lemma HeadTells(m: Memory, p: Page, next: nat)
      requires PageRep(m, p, next)
      ensures Get(m, UsedHead(p.addr)) == 0 <==> p.used == []
    {
      assert LinkAt(m, p.used, 0, p.addr);
    }

    /** What the walk over the free list reads, with the block already out of the used list. */
    static lemma AtSlot(m: Memory, p: Page, next: nat, k: nat, n: nat)
      requires PageRep(m, p, next) && DistinctList(Blocks(p)) && k < |p.used| && n <= |p.free|
      ensures var m1 := Set(m, UsedSlot(p, k), Addr(p.used, k + 1));
        && Get(m1, FreeSlot(p, n)) == Addr(p.free, n) && (n == |p.free| <==> Addr(p.free, n) == 0)
        && (n < |p.free| ==> BlockAt(m1, p.free[n].addr).length == p.free[n].length && FreeSlot(p, n + 1) == Next(p.free[n].addr))
        && BlockAt(m1, p.used[k].addr).length == p.used[k].length
    {
      UnlinkUsed(m, p, next, k);
      FollowersKept(m, p, next, k);
      var m1, p1 := Set(m, UsedSlot(p, k), Addr(p.used, k + 1)), p.(used := Without(p.used, k));
      SlotsRead(m1, p1, next);
      assert FreeSlot(p1, n) == FreeSlot(p, n);
      assert LinkAt(m1, p1.free, n, p.addr);
    }

    /** Lengths are not touched by the relinking. */
    static lemma AfterLink(m: Memory, p: Page, next: nat, k: nat, n: nat)
      requires PageRep(m, p, next) && DistinctList(Blocks(p)) && k < |p.used| && n < |p.free|
      ensures var m1 := Set(m, UsedSlot(p, k), Addr(p.used, k + 1));
        var m2 := Set(m1, if n == 0 then UsedSlot(p, k) else FreeSlot(p, n - 1), p.used[k].addr);
        && BlockAt(m2, p.used[k].addr).length == p.used[k].length && BlockAt(m2, p.free[n].addr).length == p.free[n].length
        && Only(m, m2, p.addr, Places(p) + {p.used[k].addr})
    {
      PlaceOf(p);
      assert LinkAt(m, p.used, k, p.addr) && LinkAt(m, p.free, n, p.addr);
    }

    static lemma WroteSlot(m: Memory, m1: Memory, p: Page, n: nat, blk: nat)
      requires Only(m, m1, p.addr, Places(p) + {blk}) && n <= |p.free|
      ensures Only(m, Set(m1, FreeSlot(p, n), blk), p.addr, Places(p) + {blk})
    {
      PlaceOf(p);
    }

    static lemma WroteLength(m: Memory, m1: Memory, p: Page, a: nat, n: nat, blk: nat)
      requires Only(m, m1, p.addr, Places(p) + {blk}) && a in Places(p) + {blk}
      ensures Only(m, SetLength(m1, a, n), p.addr, Places(p) + {blk})
    {
    }
  }
}
