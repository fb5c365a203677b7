/**
 The descriptor table of kernel/system/gdt/gdt.c as it runs, on the heap of
 kernel/system/mem_mgmt/heap.c: when the table is full its block is exchanged for
 a larger one, and the old block is freed after the new one was taken.
 */
module GdtProgram {
  import opened ByteMemory
  import opened Gdt
  import opened Words
  import opened HeapProgram
  import H = HeapSpec
  import M = HeapMemory

  // ------------------------------------------------------- doubling on the heap

  /** `malloc` of a new block, then `free` of the old one, block `k` of page `i`. */
  function Doubled(h: seq<H.Page>, size: nat, page: nat, i: nat, k: nat): seq<H.Page> {
    var h1 := H.Malloc(h, size, page);
    if i < |h1| && k < |h1[i].used| then h1[i := H.Free(h1[i], k)] else h1
  }

  /** A byte of the block is on a free list. */
  ghost predicate OnFreeList(h: seq<H.Page>, b: H.Blk) {
    exists n: nat, x: nat :: n < |h| && H.InList(h[n].free, x) && H.Covers(b, x)
  }

  /** No byte of a block in use is on a free list. */
  ghost predicate LiveOffFree(h: seq<H.Page>) {
    forall n: nat, m: nat :: H.Live(h, n, m) ==> !OnFreeList(h, h[n].used[m])
  }

  lemma FreeApart(p: H.Page, m: nat, x: nat)
    requires H.PageOk(p) && m < |p.used| && H.InList(p.free, x)
    ensures !H.Covers(p.used[m], x)
  {
    hide H.PageOk;
    var n :| 0 <= n < |p.free| && H.Covers(p.free[n], x);
    H.BlocksOfPageApart(p, n, |p.free| + m);
    assert H.Blocks(p)[n] == p.free[n] && H.Blocks(p)[|p.free| + m] == p.used[m];
  }

  lemma FreeInside(p: H.Page, x: nat)
    requires H.PageOk(p) && H.InList(p.free, x)
    ensures p.addr <= x < p.addr + 4096
  {
    hide H.PageOk;
    H.InBoth(p, x);
    H.PageTiled(p, x);
  }

  /** A heap in order has no block in use on a free list. */
  lemma OrderOffFree(h: seq<H.Page>)
    requires H.HeapOk(h)
    ensures LiveOffFree(h)
  {
    forall n: nat, m: nat | H.Live(h, n, m) ensures !OnFreeList(h, h[n].used[m]) { BlockOffFree(h, n, m); }
  }

  lemma BlockOffFree(h: seq<H.Page>, n: nat, m: nat)
    requires H.HeapOk(h) && H.Live(h, n, m)
    ensures !OnFreeList(h, h[n].used[m])
  {
    hide H.PageOk, H.InList;
    forall i: nat, x: nat | i < |h| && H.InList(h[i].free, x) ensures !H.Covers(h[n].used[m], x) {
      if i == n { FreeApart(h[n], m, x); } else { OtherPage(h, i, n, m, x); }
    }
  }

  lemma OtherPage(h: seq<H.Page>, i: nat, n: nat, m: nat, x: nat)
    requires H.HeapOk(h) && H.Live(h, n, m) && i < |h| && i != n && H.InList(h[i].free, x)
    ensures !H.Covers(h[n].used[m], x)
  {
    hide H.PageOk, H.InList;
    FreeInside(h[i], x);
    H.PageSpread(h[n], m);
    assert H.PagesApart(h[i].addr, h[n].addr) || H.PagesApart(h[n].addr, h[i].addr);
  }

  /** Both blocks in one page: the new one ends up on the free list. */
  lemma SamePage(h: seq<H.Page>, i: nat, k: nat, b: H.Blk)
    requires i < |h| && H.PageOk(h[i]) && k + 1 < |h[i].used| && h[i].used[|h[i].used| - 1] == b
    ensures var h' := h[i := H.Free(h[i], k)];
      OnFreeList(h', b) && !LiveOffFree(h')
  {
    hide H.PageOk;
    var p, n := h[i], |h[i].used| - 1;
    H.FreeEarlier(p, k);
    hide H.Free;
    var h' := h[i := H.Free(p, k)];
    var l := h'[i].free;
    assert l[|p.free| + (n - k)] == b && H.Covers(b, b.addr);
    assert H.InList(l, b.addr);
    assert h'[i].used[n - 1] == b && H.Live(h', i, n - 1);
  }

  /** A later block of the page of the old table ends up on the free list as well. */
  lemma LaterOnFree(h: seq<H.Page>, i: nat, k: nat)
    requires i < |h| && H.PageOk(h[i]) && k + 1 < |h[i].used|
    ensures !LiveOffFree(h[i := H.Free(h[i], k)])
  {
    SamePage(h, i, k, h[i].used[|h[i].used| - 1]);
  }

  lemma FreedInside(p: H.Page, k: nat, x: nat)
    requires H.PageOk(p) && k < |p.used| && H.InList(H.Free(p, k).free, x)
    ensures p.addr <= x < p.addr + 4096
  {
    hide H.PageOk, H.Free;
    if k == |p.used| - 1 {
      H.FreeLastKeeps(p);
      FreeInside(H.Free(p, k), x);
    } else {
      H.FreeEarlier(p, k);
      var l := p.free + p.used[k..];
      var n :| 0 <= n < |l| && H.Covers(l[n], x);
      if n < |p.free| {
        assert H.InList(p.free, x);
        FreeInside(p, x);
      } else {
        H.PageSpread(p, k + (n - |p.free|));
      }
    }
  }

  /** Exchanging the table's block, in any heap in order: the new table is on a free list afterwards if
      and only if it was taken from the page of the old one; and every block in use stays off the
      free lists, the heap in order, if and only if it came from another page and the old table was
      the most recent block of its own. */
  lemma DoublingIff(h: seq<H.Page>, i: nat, k: nat, size: nat, page: nat)
    requires H.HeapOk(h) && H.Live(h, i, k) && H.Fresh(h, page) && size + H.HDR < WORD
    ensures var h', j, b := Doubled(h, size, page, i, k), H.FirstPage(h, size), H.Result(h, size, page);
      && (OnFreeList(h', b) <==> j == i)
      && (LiveOffFree(h') <==> j != i && k == |h[i].used| - 1)
      && (H.HeapOk(h') <==> j != i && k == |h[i].used| - 1)
  {
    hide H.PageOk, H.Malloc, H.Result, H.WithRoom, H.Free;
    var h1, j, b := H.Malloc(h, size, page), H.FirstPage(h, size), H.Result(h, size, page);
    H.MallocKeeps(h, size, page);
    H.RoomIs(h, size, page);
    var h' := Doubled(h, size, page, i, k);
    assert h1[i].addr == h[i].addr && h' == h1[i := H.Free(h1[i], k)];
    if j == i {
      SamePage(h1, i, k, b);
    } else {
      ElsewhereOff(h1, i, k, j);
      if k == |h[i].used| - 1 {
        H.FreeLastKeeps(h1[i]);
        assert H.HeapOk(h');
      } else {
        LaterOnFree(h1, i, k);
      }
    }
    if H.HeapOk(h') { OrderOffFree(h'); }
  }

  /** The last block of another page stays off the free lists. */
  lemma ElsewhereOff(h: seq<H.Page>, i: nat, k: nat, j: nat)
    requires H.HeapOk(h) && H.Live(h, i, k) && j < |h| && j != i && h[j].used != []
    ensures !OnFreeList(h[i := H.Free(h[i], k)], h[j].used[|h[j].used| - 1])
  {
    hide H.PageOk, H.Free, H.InList;
    var h', m := h[i := H.Free(h[i], k)], |h[j].used| - 1;
    forall n: nat, x: nat | n < |h'| && H.InList(h'[n].free, x) ensures !H.Covers(h[j].used[m], x) {
      if n == i {
        FreedInside(h[i], k, x);
        H.PageSpread(h[j], m);
        assert H.PagesApart(h[i].addr, h[j].addr) || H.PagesApart(h[j].addr, h[i].addr);
      } else if n == j {
        FreeApart(h[j], m, x);
      } else {
        OtherPage(h, n, j, m, x);
      }
    }
  }

  /** The only page after `gdt_init` on an empty heap. */
  function AfterInit(page: nat): H.Page {
    H.Page(page, [H.Blk(page + 24, 3904), H.Blk(page + 4040, 32), H.Blk(page + 3952, 64)], [H.Blk(page + 3952, 64)])
  }

  /** `gdt_init` on an empty heap: its two blocks come from one page, and the table in use is the last
      block of the free list. */
  lemma InitFreesTable(page: nat, page2: nat)
    requires page > 0
    ensures H.Malloc([], 32, page) == [H.Page(page, [H.Blk(page + 24, 3992)], [H.Blk(page + 4040, 32)])]
    ensures Doubled(H.Malloc([], 32, page), 64, page2, 0, 0) == [AfterInit(page)]
    ensures H.Result(H.Malloc([], 32, page), 64, page2) == H.Blk(page + 3952, 64)
  {
    var a, b := H.Blk(page + 4040, 32), H.Blk(page + 3952, 64);
    var p1 := H.Page(page, [H.Blk(page + 24, 3992)], [a]);
    var p2 := H.Page(page, [H.Blk(page + 24, 3904)], [a, b]);
    HeadTaken([], 32, page, H.NewPage(page), p1);
    HeadTaken([p1], 64, page2, p1, p2);
    assert H.Neighbour(p2.free, a) == 1;
    assert p2.used[0..] == [a, b] && H.Without(p2.used, 0) == [b];
    assert H.Free(p2, 0) == H.Page(page, p2.free + [a, b], [b]);
    assert p2.free + [a, b] == [H.Blk(page + 24, 3904), a, b];
    hide H.Malloc, H.Free;
    assert Doubled([p1], 64, page2, 0, 0) == [H.Free(p2, 0)];
  }

  lemma HeadTaken(h: seq<H.Page>, size: nat, page: nat, p: H.Page, p': H.Page)
    requires size < 4000 && (h == [p] || (h == [] && p == H.NewPage(page)))
    requires |p.free| == 1 && p.free[0].length > size + H.HDR
    requires p' == H.Page(p.addr, [H.Blk(p.free[0].addr, p.free[0].length - (size + H.HDR))],
                          p.used + [H.Blk(p.free[0].addr + H.HDR + (p.free[0].length - (size + H.HDR)), size)])
    ensures H.Malloc(h, size, page) == [p'] && H.Result(h, size, page) == p'.used[|p.used|]
  {
    assert H.FirstFit(p.free, size) == 0 && H.Offers(p, size);
    assert H.FirstPage(h, size) == 0;
    assert H.WithRoom(h, size, page) == [p];
    assert (size + H.HDR) % WORD == size + H.HDR;
    assert H.TakeFrom(p, 0, size) == p';
  }

  /** In a heap in order a block handed out is apart from a table in its own block, if it is as long as it
      was asked for. */
  lemma NewBlockApart(h: seq<H.Page>, i: nat, k: nat, size: nat, page: nat, n: nat)
    requires H.HeapOk(h) && H.Live(h, i, k) && H.Fresh(h, page) && size <= 4048 && n <= h[i].used[k].length
    ensures Apart(H.Result(h, size, page).addr + H.HDR, size, h[i].used[k].addr + H.HDR, n)
  {
    hide H.PageOk, H.Malloc, H.Result, H.WithRoom;
    H.MallocKeeps(h, size, page);
    H.RoomIs(h, size, page);
    H.EnoughIff(h, size, page);
    var h1, j := H.Malloc(h, size, page), H.FirstPage(h, size);
    H.LiveApart(h1, j, |h1[j].used| - 1, i, k);
  }

  // ------------------------------------------------------------------ the table

  class DescriptorTable {
    const heap: Heap
    var ram: Ram
    var base: nat
    var entries: nat
    var allocatedSize: nat
    var kernelCode: nat
    var userCode: nat

    ghost function Contents(): Placed
      reads this
    {
      Placed(ram, base, allocatedSize, entries)
    }

    /** The heap is in order and the table is block `k` of its page `i`. */
    ghost predicate InOrder(i: nat, k: nat)
      reads this, heap
    {
      && M.Rep(heap.mem, heap.view) && H.HeapOk(heap.view) && H.Live(heap.view, i, k)
      && base == heap.view[i].used[k].addr + H.HDR && allocatedSize <= heap.view[i].used[k].length
    }

    constructor (heap: Heap, ram: Ram)
      ensures this.heap == heap && this.ram == ram && entries == 0 && allocatedSize == 32
    {
      this.heap, this.ram, base, entries, allocatedSize, kernelCode, userCode := heap, ram, 0, 0, 32, 0, 0;
    }

    /** `_add_entry`; `page` is where a new heap page would be. When the table is full, a larger block is
        taken from the heap, with whatever is in it, the table is copied, and the old block is freed. */
    method AddEntry(e: Entry, page: nat, ghost i: nat, ghost k: nat) returns (sel: nat, fault: bool, ghost at: nat)
      requires PlacedOk(Contents())
      requires Accepted(e) && Full(Contents()) ==>
        InOrder(i, k) && H.Fresh(heap.view, page) && 2 * allocatedSize + H.HDR < WORD
      modifies this`ram, this`base, this`entries, this`allocatedSize, heap
      ensures fault <==> Accepted(e) && Full(old(Contents())) && !H.WalkSafe(old(heap.Contents()), 2 * old(allocatedSize))
      ensures !fault ==> Contents() == AddAt(old(Contents()), e, at) && sel == Selector(View(old(Contents())), e)
      ensures !fault && Accepted(e) && Full(old(Contents())) ==>
        && at == H.Result(old(heap.view), 2 * old(allocatedSize), page).addr + H.HDR && M.Rep(heap.mem, heap.view)
        && heap.view == Doubled(old(heap.view), 2 * old(allocatedSize), page, i, k) && GoneOr(old(heap.gone), heap, i)
      ensures !(Accepted(e) && Full(old(Contents()))) ==> heap.view == old(heap.view) && heap.mem == old(heap.mem) && heap.gone == old(heap.gone)
    {
      hide Encode, Copy, Put, H.HeapOk, H.WalkSafe, H.Malloc, H.Result, M.Rep, H.Fresh, Doubled;
      sel, fault, at := 0, false, 0;
      if e.limit > 65536 && e.limit % 0x1000 != 0xfff { return; }
      if allocatedSize / ENTRY_SIZE == entries {
        fault, at := Exchange(page, i, k);
        if fault { return; }
      }
      entries := entries + 1;
      WriteEntry(e, entries - 1);
      sel := (entries - 1) * ENTRY_SIZE;
    }

    /** The page of the old table is given back if and only if no other block of it is in use. */
    static ghost predicate GoneOr(before: set<nat>, heap: Heap, i: nat)
      reads heap
    {
      i < |heap.view| && heap.gone == if heap.view[i].used == [] then before + {heap.view[i].addr} else before
    }

    /** The full table moves to a block of twice the size. */
    method Exchange(page: nat, ghost i: nat, ghost k: nat) returns (fault: bool, ghost at: nat)
      requires InOrder(i, k) && H.Fresh(heap.view, page) && 2 * allocatedSize + H.HDR < WORD
      modifies this`ram, this`base, this`allocatedSize, heap
      ensures fault <==> !H.WalkSafe(old(heap.Contents()), 2 * old(allocatedSize))
      ensures !fault ==>
        && Contents() == Placed(Copy(old(ram), at, old(base), old(allocatedSize)), at, 2 * old(allocatedSize), old(entries))
        && at == H.Result(old(heap.view), 2 * old(allocatedSize), page).addr + H.HDR && M.Rep(heap.mem, heap.view)
        && heap.view == Doubled(old(heap.view), 2 * old(allocatedSize), page, i, k) && GoneOr(old(heap.gone), heap, i)
    {
      hide H.HeapOk, H.Malloc, H.Result, H.WalkSafe, M.Rep, H.Free, Copy;
      ghost var h := heap.view;
      TableKept(h, 2 * allocatedSize, page, i, k);
      var larger;
      larger, fault := heap.Malloc(2 * allocatedSize, page);
      at := larger;
      if fault { return; }
      CopyTable(larger, allocatedSize);
      M.OkDistinct(heap.view);
      var released := heap.Free(base, i, k);
      base, allocatedSize := larger, 2 * allocatedSize;
    }

    /** The old table is still in use after the new block was taken. */
    static lemma TableKept(h: seq<H.Page>, size: nat, page: nat, i: nat, k: nat)
      requires H.HeapOk(h) && H.Fresh(h, page) && H.Live(h, i, k) && size + H.HDR < WORD
      ensures var h1 := H.Malloc(h, size, page); H.Live(h1, i, k) && h1[i].used[k] == h[i].used[k]
    {
      hide H.PageOk, H.Malloc, H.Result, H.WithRoom;
      H.MallocKeeps(h, size, page);
      H.RoomIs(h, size, page);
    }

    /** `memcpy` into the new block. */
    method CopyTable(dst: nat, length: nat)
      modifies this`ram
      ensures ram == Copy(old(ram), dst, base, length)
    {
      var d, s, n := dst, base, length;
      while n > 0
        invariant Copy(ram, d, s, n) == Copy(old(ram), dst, base, length)
      {
        ram := ram[d := ByteAt(ram, s)];
        d, s, n := d + 1, s + 1, n - 1;
      }
    }

    /** The values of the byte writes; the sixth byte is set up in three steps. */
    static method Fields(e: Entry) returns (l0: byte, l1: byte, b2: byte, b3: byte, b4: byte, f6: byte, b7: byte)
      ensures [l0, l1, b2, b3, b4, e.kind, f6, b7] == Encode(e)
    {
      var limit := e.limit;
      var sixth: nat := if e.code64 then 0x20 else 0x00;
      if limit > 65536 {
        limit := limit / 0x1000;
        sixth := sixth + 0x80;
      }
      l0 := limit % 256;
      l1 := limit / 256 % 256;
      f6 := sixth + limit / 0x1_0000 % 16;
      b2 := e.base % 256;
      b3 := e.base / 256 % 256;
      b4 := e.base / 0x1_0000 % 256;
      b7 := e.base / 0x100_0000 % 256;
    }

    method WriteEntry(e: Entry, index: nat)
      modifies this`ram
      ensures ram == Put(old(ram), base + index * ENTRY_SIZE, Encode(e))
    {
      hide Encode, Put, WrittenTo;
      var l0, l1, b2, b3, b4, f6, b7 := Fields(e);
      var at := base + index * ENTRY_SIZE;
      ram := WrittenTo(ram, at, l0, l1, b2, b3, b4, e.kind, f6, b7);
      EightBytes(old(ram), at, l0, l1, b2, b3, b4, e.kind, f6, b7);
    }

    /** The byte writes in the order of the code: limit, flags, base, type. */
    static function WrittenTo(m: Ram, a: nat, l0: byte, l1: byte, b2: byte, b3: byte, b4: byte, k5: byte, f6: byte, b7: byte): Ram {
      m[a + 6 := f6][a := l0][a + 1 := l1][a + 2 := b2][a + 3 := b3][a + 4 := b4][a + 7 := b7][a + 5 := k5]
    }

    static lemma EightBytes(m: Ram, a: nat, l0: byte, l1: byte, b2: byte, b3: byte, b4: byte, k5: byte, f6: byte, b7: byte)
      ensures WrittenTo(m, a, l0, l1, b2, b3, b4, k5, f6, b7) == Put(m, a, [l0, l1, b2, b3, b4, k5, f6, b7])
    {
      var l := WrittenTo(m, a, l0, l1, b2, b3, b4, k5, f6, b7);
      var r := Put(m, a, [l0, l1, b2, b3, b4, k5, f6, b7]);
      forall x | x in l ensures x in r && r[x] == l[x] { }
      forall x | x in r ensures x in l { }
    }

    /** `gdt_init` on any heap in order: the first block, then five entries, the last of which has to
        exchange it. */
    method Start(page: nat, page2: nat) returns (fault: bool, ghost i: nat, ghost k: nat)
      requires M.Rep(heap.mem, heap.view) && H.HeapOk(heap.view) && H.Fresh(heap.view, page) && entries == 0 && allocatedSize == 32
      requires H.Fresh(H.Malloc(heap.view, 32, page), page2)
      modifies this, heap
      ensures old(heap.gone) == {} ==> !fault
      ensures !fault ==>
        var h := H.Malloc(old(heap.view), 32, page);
        && i == H.FirstPage(old(heap.view), 32) && i < |h| && k + 1 == |h[i].used|
        && Started(h, old(heap.gone), page2, i, k)
    {
      hide H.PageOk, H.HeapOk, H.Malloc, H.Result, H.WalkSafe, M.Rep, H.Free, Started;
      i, k := H.FirstPage(heap.view, 32), 0;
      FirstBlock(heap.view, page);
      AlwaysSafe(heap, 32);
      base, fault := heap.Malloc(32, page);
      if fault { return; }
      k := |heap.view[i].used| - 1;
      AlwaysSafe(heap, 64);
      fault := FiveEntries(page2, i, k);
    }

    /** With no page given back no walk faults. */
    static lemma AlwaysSafe(heap: Heap, size: nat)
      ensures heap.gone == {} ==> H.WalkSafe(heap.Contents(), size)
    {
    }

    /** After `gdt_init`: the selectors, the five entries, the heap with its block exchanged. */
    ghost predicate Started(h: seq<H.Page>, before: set<nat>, page: nat, i: nat, k: nat)
      reads this, heap
    {
      && kernelCode == 0x10 && userCode == 0x20 && M.Rep(heap.mem, heap.view) && PlacedOk(Contents())
      && Begun(Contents())
      && heap.view == Doubled(h, 64, page, i, k) && base == H.Result(h, 64, page).addr + H.HDR
      && GoneOr(before, heap, i)
    }

    /** The five entries of `gdt_init`. */
    method FiveEntries(page: nat, ghost i: nat, ghost k: nat) returns (fault: bool)
      requires InOrder(i, k) && H.Fresh(heap.view, page) && entries == 0 && allocatedSize == 32
      modifies this, heap
      ensures fault <==> !H.WalkSafe(old(heap.Contents()), 64)
      ensures !fault ==> Started(old(heap.view), old(heap.gone), page, i, k)
    {
      hide H.PageOk, H.HeapOk, H.Malloc, H.Result, H.WalkSafe, M.Rep, H.Free, AddAt, View, Doubled, Init, Selector, PlacedOk,
           H.Fresh, H.Live, Begun;
      ghost var s0 := Contents();
      EmptyTable(s0);
      NewBlockApart(heap.view, i, k, 64, page, 32);
      var sel;
      ghost var a1, a2, a3, a4, a5;
      sel, fault, a1 := AddEntry(NULL_ENTRY, page, i, k);
      ghost var s1 := Contents();
      NotFull(s0, NULL_ENTRY, a1);
      sel, fault, a2 := AddEntry(KERNEL_DATA, page, i, k);
      ghost var s2 := Contents();
      NotFull(s1, KERNEL_DATA, a2);
      kernelCode, fault, a3 := AddEntry(KERNEL_CODE, page, i, k);
      ghost var s3 := Contents();
      NotFull(s2, KERNEL_CODE, a3);
      sel, fault, a4 := AddEntry(USER_DATA, page, i, k);
      ghost var s4 := Contents();
      NotFull(s3, USER_DATA, a4);
      userCode, fault, a5 := AddEntry(USER_CODE, page, i, k);
      if fault { return; }
      LastEntry(s4, a5);
      InitIs(View(s0), View(s1), View(s2), View(s3), View(s4), Bytes(s0.ram, a1, 64), Bytes(s1.ram, a2, 64),
             Bytes(s2.ram, a3, 64), Bytes(s3.ram, a4, 64), Bytes(s4.ram, a5, 64));
      BegunWith(Contents(), View(s0).bytes, Bytes(s4.ram, a5, 64));
    }

    static lemma BegunWith(s: Placed, first: seq<byte>, second: seq<byte>)
      requires |first| == 32 && |second| == 64 && View(s) == Init(first, second)
      ensures Begun(s)
    {
    }

    static lemma BegunHas(s: Placed)
      requires Begun(s)
      ensures s.entries == 5 && s.size == 64
    {
    }

    static lemma LastEntry(s: Placed, at: nat)
      requires PlacedOk(s) && s.size == 32 && s.entries == 4 && Apart(at, 64, s.base, 32)
      ensures PlacedOk(AddAt(s, USER_CODE, at)) && View(AddAt(s, USER_CODE, at)) == Add(View(s), USER_CODE, Bytes(s.ram, at, 64))
      ensures Selector(View(s), USER_CODE) == 0x20 && AddAt(s, USER_CODE, at).base == at
    {
      AddAtIs(s, USER_CODE, at);
    }

    static lemma EmptyTable(s: Placed)
      requires s.size == 32 && s.entries == 0
      ensures PlacedOk(s) && !Full(s) && |View(s).bytes| == 32 && View(s).entries == 0
    {
    }

    /** Before the fifth entry nothing moves. */
    static lemma NotFull(s: Placed, e: Entry, at: nat)
      requires PlacedOk(s) && s.size == 32 && s.entries < 4 && Accepted(e)
      ensures var s' := AddAt(s, e, at);
        && PlacedOk(s') && s'.base == s.base && s'.size == 32 && s'.entries == s.entries + 1 && |View(s').bytes| == 32
        && View(s') == Add(View(s), e, Bytes(s.ram, at, 64))
        && Selector(View(s), e) == s.entries * ENTRY_SIZE
    {
      AddAtIs(s, e, at);
    }

    /** The block of the first table. */
    static lemma FirstBlock(h: seq<H.Page>, page: nat)
      requires H.HeapOk(h) && H.Fresh(h, page)
      ensures var h', i := H.Malloc(h, 32, page), H.FirstPage(h, 32);
        && H.HeapOk(h') && i < |h'| && |h'[i].used| > 0 && h'[i].used[|h'[i].used| - 1] == H.Result(h, 32, page)
        && H.Result(h, 32, page).length >= 32
    {
      hide H.PageOk, H.Malloc, H.Result, H.WithRoom;
      H.MallocKeeps(h, 32, page);
      H.RoomIs(h, 32, page);
      H.EnoughIff(h, 32, page);
    }
  }

  // ------------------------------------------------------------- a failing input

  lemma FreshPages(page: nat)
    requires page > 0
    ensures H.HeapOk([]) && H.Fresh([], page) && H.Fresh(H.Malloc([], 32, page), page + 8192) && H.FirstPage([], 32) == 0
  {
    InitFreesTable(page, 0);
    hide H.Malloc, Doubled, H.Result;
    assert H.HeapOk([]);
  }

  /** The walks of the two allocations. */
  lemma Walks(page: nat, size: nat, size2: nat)
    requires page > 0 && 3880 <= size < 3904 && 32 <= size2 < 64
    ensures var p := AfterInit(page);
      var q := H.Hung(p.(free := p.free[1..]), p.free[0]);
      && H.FirstFit(p.free, size) == 0 && H.FirstPage([p], size) == 0 && M.Separated([p])
      && M.DistinctList(p.free) && M.DistinctList(p.used) && M.Elsewhere(p.used, p.free[0].addr)
      && H.FirstPage([q], size2) == 0 && H.Spot(q, size2) == 1 && |q.free| == 3 && q.free[1] == H.Blk(page + 3952, 64)
      && p.used != [] && p.free != [] && p.free[0].length <= size + H.HDR
  {
    var p := AfterInit(page);
    var q := H.Hung(p.(free := p.free[1..]), p.free[0]);
    assert H.FirstFit(p.free, size) == 0 && H.Offers(p, size);
    assert q.free == [p.free[1], p.free[2], p.free[0]];
    assert H.FirstFit(q.free[1..], size2) == 0;
    assert H.FirstFit(q.free, size2) == 1 && H.Offers(q, size2);
  }

  /** `gdt_init` on an empty heap, then two ordinary allocations: the first uses up the free block in
      front of the table on the free list, and the walk of the second stops at the live table. */
  method TableHandedOut(page: nat, size: nat, size2: nat) returns (t: DescriptorTable, block: nat)
    requires page > 0 && 3880 <= size < 3904 && 32 <= size2 < 64
    ensures block + H.HDR == t.base && t.entries == 5 && M.BlockAt(t.heap.mem, block).length == t.allocatedSize == 64
  {
    hide H.HeapOk, H.Malloc, H.Result, H.Free, Doubled, Bytes, Init, H.WalkSafe, H.FirstPage, H.FirstFit, H.Spot, AfterInit, H.Hung,
         M.Rep, H.Fresh, M.Separated, M.DistinctList, M.Elsewhere;
    var heap := new Heap();
    t := new DescriptorTable(heap, map[]);
    FreshPages(page);
    InitFreesTable(page, page + 8192);
    Walks(page, size, size2);
    var fault;
    ghost var i, k;
    fault, i, k := t.Start(page, page + 8192);
    DescriptorTable.BegunHas(t.Contents());
    assert heap.view == [AfterInit(page)];
    DescriptorTable.AlwaysSafe(heap, size);
    var addr;
    addr, fault := heap.TakeHead(size, 0);
    ghost var p := AfterInit(page);
    assert heap.view == [H.Hung(p.(free := p.free[1..]), p.free[0])];
    DescriptorTable.AlwaysSafe(heap, size2);
    block, fault := heap.FindFree(size2, 0);
    BlockLength(heap.mem, heap.view, 0, 1);
  }

  lemma BlockLength(m: M.Memory, h: seq<H.Page>, i: nat, k: nat)
    requires M.Rep(m, h) && i < |h| && k < |h[i].free|
    ensures M.BlockAt(m, h[i].free[k].addr).length == h[i].free[k].length
  {
    assert M.PageAt(m, h, i) && M.LinkAt(m, h[i].free, k, h[i].addr);
  }
}
