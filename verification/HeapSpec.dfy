/**
 The kernel heap of kernel/system/mem_mgmt/heap.c as lists of blocks: pages in
 the order they were added, each with its free and its allocated list.
 */
module HeapSpec {
  import opened Words

  /** Size of a block header, and of a page header too. */
  const HDR := 24

  /** A block by the address of its header and the number of bytes after the header. */
  datatype Blk = Blk(addr: nat, length: nat)

  function End(b: Blk): nat { b.addr + HDR + b.length }

  datatype Page = Page(addr: nat, free: seq<Blk>, used: seq<Blk>)

  // ------------------------------------------------------------------ malloc

  /** The first block longer than `size`, or the length of the list. */
  function FirstFit(fl: seq<Blk>, size: nat): (k: nat)
    ensures k <= |fl| && (forall j :: 0 <= j < k ==> fl[j].length <= size) && (k < |fl| ==> fl[k].length > size)
  {
    if fl == [] then 0
    else if fl[0].length > size then 0
    else
      var k := FirstFit(fl[1..], size);
      assert forall j :: 0 < j < k + 1 ==> fl[j] == fl[1..][j - 1];
      k + 1
  }

  predicate Offers(p: Page, size: nat) { FirstFit(p.free, size) < |p.free| }

  /** The first page with such a block, or the number of pages. */
  function FirstPage(h: seq<Page>, size: nat): (k: nat)
    ensures k <= |h| && (forall j :: 0 <= j < k ==> !Offers(h[j], size)) && (k < |h| ==> Offers(h[k], size))
  {
    if h == [] then 0
    else if Offers(h[0], size) then 0
    else
      var k := FirstPage(h[1..], size);
      assert forall j :: 0 < j < k + 1 ==> h[j] == h[1..][j - 1];
      k + 1
  }

  function NewPage(page: nat): Page { Page(page, [Blk(page + HDR, 4048)], []) }

  /** `find_free`: a new page is added at the end when no block is long enough. */
  function WithRoom(h: seq<Page>, size: nat, page: nat): seq<Page> {
    if FirstPage(h, size) < |h| then h else h + [NewPage(page)]
  }

  /** The block used: the end of the free block when a header fits too, else the whole block. */
  function Carve(f: Blk, size: nat): Blk {
    if f.length > (size + HDR) % WORD then Blk(f.addr + HDR + (f.length - (size + HDR) % WORD), size) else f
  }

  function TakeFrom(p: Page, k: nat, size: nat): Page
    requires k < |p.free|
  {
    var f := p.free[k];
    if f.length > (size + HDR) % WORD then
      Page(p.addr, p.free[k := Blk(f.addr, f.length - (size + HDR) % WORD)], p.used + [Carve(f, size)])
    else
      Page(p.addr, p.free[..k] + p.free[k + 1..], p.used + [f])
  }

  /** The two lists end in the same block, as they may after a wrong `free`. */
  predicate SharedEnd(p: Page) { p.free != [] && p.used != [] && p.free[|p.free| - 1] == p.used[|p.used| - 1] }

  /** A block hung on the end of the used list; where the lists share their end, it is on both. */
  function Hung(p: Page, b: Blk): Page {
    Page(p.addr, if SharedEnd(p) then p.free + [b] else p.free, p.used + [b])
  }

  /** In a page just added the first block is used, long enough or not. */
  function Spot(p: Page, size: nat): nat { if Offers(p, size) then FirstFit(p.free, size) else 0 }

  function Malloc(h: seq<Page>, size: nat, page: nat): seq<Page> {
    var i, h1 := FirstPage(h, size), WithRoom(h, size, page);
    h1[i := TakeFrom(h1[i], Spot(h1[i], size), size)]
  }

  /** The block handed out. */
  function Result(h: seq<Page>, size: nat, page: nat): Blk {
    var i, h1 := FirstPage(h, size), WithRoom(h, size, page);
    Carve(h1[i].free[Spot(h1[i], size)], size)
  }

  // -------------------------------------------------------------------- free

  /** Where the walk over the free list stops: the first neighbour of the block, or the end. */
  function Neighbour(fl: seq<Blk>, b: Blk): (i: nat)
    ensures i <= |fl|
    ensures forall j :: 0 <= j < i ==> End(fl[j]) != b.addr && End(b) != fl[j].addr
    ensures i < |fl| ==> End(fl[i]) == b.addr || End(b) == fl[i].addr
  {
    if fl == [] then 0
    else if End(fl[0]) == b.addr || End(b) == fl[0].addr then 0
    else
      var i := Neighbour(fl[1..], b);
      assert forall j :: 0 < j < i + 1 ==> fl[j] == fl[1..][j - 1];
      i + 1
  }

  function Without(l: seq<Blk>, k: nat): seq<Blk>
    requires k < |l|
  {
    l[..k] + l[k + 1..]
  }

  function Joined(a: Blk, b: Blk): Blk { Blk(a.addr, a.length + b.length + HDR) }

  /** `free` of the block at `k` in the allocated list. The link of the freed block is not reset, so
      what followed it in the allocated list follows it in the free list; and when the block ends
      at a free block, it is put in place of the block before that one. */
  function Free(p: Page, k: nat): Page
    requires k < |p.used|
  {
    var b, i := p.used[k], Neighbour(p.free, p.used[k]);
    if i == |p.free| then
      Page(p.addr, p.free + p.used[k..], Without(p.used, k))
    else if End(p.free[i]) == b.addr then
      Page(p.addr, p.free[i := Joined(p.free[i], b)], Without(p.used, k))
    else if i == 0 then
      Page(p.addr, p.free, p.used[k := Joined(b, p.free[0])])
    else
      Page(p.addr, p.free[..i - 1] + [Joined(b, p.free[i])] + p.used[k + 1..], Without(p.used, k))
  }

  // --------------------------------------------------------------- invariants

  /** The blocks lie one below the other, from `hi` down to `lo`. */
  ghost predicate Stacked(l: seq<Blk>, lo: nat, hi: nat)
    decreases |l|
  {
    if l == [] then lo == hi else End(l[0]) == hi && Stacked(l[1..], lo, l[0].addr)
  }

  /** At most one free block, at the bottom; allocated blocks above it in the order they were made. */
  ghost predicate PageOk(p: Page) {
    || (p.free == [] && Stacked(p.used, p.addr + HDR, p.addr + 4096))
    || (|p.free| == 1 && p.free[0].addr == p.addr + HDR && Stacked(p.used, End(p.free[0]), p.addr + 4096))
  }

  ghost predicate PagesApart(a: nat, b: nat) { a + 4096 <= b || b + 4096 <= a }

  ghost predicate HeapOk(h: seq<Page>) {
    && (forall i :: 0 <= i < |h| ==> h[i].addr > 0 && PageOk(h[i]))
    && (forall i, j :: 0 <= i < j < |h| ==> PagesApart(h[i].addr, h[j].addr))
  }

  /** What `malloc_pages` promises of a new page: no overlap with the others. */
  ghost predicate Fresh(h: seq<Page>, a: nat) { a > 0 && forall i :: 0 <= i < |h| ==> PagesApart(h[i].addr, a) }

  lemma {:induction false} StackedAppend(l: seq<Blk>, b: Blk, lo: nat, hi: nat)
    requires Stacked(l, lo, hi) && End(b) == lo
    ensures Stacked(l + [b], b.addr, hi)
    decreases |l|
  {
    if l != [] {
      assert (l + [b])[1..] == l[1..] + [b];
      StackedAppend(l[1..], b, lo, l[0].addr);
    } else {
      assert (l + [b])[1..] == [];
    }
  }

  lemma {:induction false} StackedOrder(l: seq<Blk>, lo: nat, hi: nat)
    requires Stacked(l, lo, hi)
    ensures lo <= hi && (l != [] ==> lo < hi)
    ensures forall k :: 0 <= k < |l| ==> lo <= l[k].addr && End(l[k]) <= hi
    ensures forall j, k :: 0 <= j < k < |l| ==> End(l[k]) <= l[j].addr
    decreases |l|
  {
    if l != [] {
      StackedOrder(l[1..], lo, l[0].addr);
      assert forall k :: 0 < k < |l| ==> l[k] == l[1..][k - 1];
    }
  }

  /** Whatever `size`, a page in order stays in order when a block of it is used. */
  lemma TakeKeeps(p: Page, size: nat)
    requires PageOk(p) && p.free != [] && (size + HDR) % WORD == size + HDR
    ensures PageOk(TakeFrom(p, 0, size)) && TakeFrom(p, 0, size).addr == p.addr
    ensures TakeFrom(p, 0, size).used == p.used + [Carve(p.free[0], size)]
  {
    StackedAppend(p.used, Carve(p.free[0], size), End(p.free[0]), p.addr + 4096);
  }

  /** The page used: an old one, or the new one. */
  lemma SpotIs(h: seq<Page>, size: nat, page: nat)
    requires HeapOk(h) && Fresh(h, page)
    ensures var i, h1 := FirstPage(h, size), WithRoom(h, size, page);
      && i < |h1| && HeapOk(h1) && h1[i].free != [] && Spot(h1[i], size) == 0
      && (i < |h| ==> h1[i].free[0].length > size)
  {
    var i, h1 := FirstPage(h, size), WithRoom(h, size, page);
    assert PageOk(NewPage(page));
    if i < |h| { assert Offers(h[i], size) && PageOk(h[i]); }
  }

  /** Every `malloc` keeps the heap in order, adds one block at the end of one page's allocated list
      and leaves all other allocated blocks as they were. */
  lemma MallocKeeps(h: seq<Page>, size: nat, page: nat)
    requires HeapOk(h) && Fresh(h, page) && size + HDR < WORD
    ensures var i, h1, h' := FirstPage(h, size), WithRoom(h, size, page), Malloc(h, size, page);
      && HeapOk(h') && |h'| == |h1| && h'[i].used == h1[i].used + [Result(h, size, page)]
      && (forall j :: 0 <= j < |h'| ==> h'[j].addr == h1[j].addr && (j != i ==> h'[j] == h1[j]))
  {
    hide PageOk, WithRoom, Spot, TakeFrom, Carve;
    SpotIs(h, size, page);
    var i, h1 := FirstPage(h, size), WithRoom(h, size, page);
    TakeKeeps(h1[i], size);
  }

  /** The block handed out is long enough if and only if at most 4048 bytes were asked for, the room
      of a new page. */
  lemma EnoughIff(h: seq<Page>, size: nat, page: nat)
    requires HeapOk(h) && Fresh(h, page) && size + HDR < WORD
    ensures Result(h, size, page).length >= size <==> size <= 4048
  {
    SpotIs(h, size, page);
    var i, h1 := FirstPage(h, size), WithRoom(h, size, page);
    if i < |h| { FreeFits(h[i]); }
  }

  lemma FreeFits(p: Page)
    requires PageOk(p) && p.free != []
    ensures p.free[0].length <= 4048
  {
    StackedOrder(p.used, End(p.free[0]), p.addr + 4096);
  }

  // -------------------------------------------------------------- what it means

  ghost predicate Covers(b: Blk, x: nat) { b.addr <= x < End(b) }

  ghost predicate InList(l: seq<Blk>, x: nat) { exists k :: 0 <= k < |l| && Covers(l[k], x) }

  lemma {:induction false} StackedCovers(l: seq<Blk>, lo: nat, hi: nat, x: nat)
    requires Stacked(l, lo, hi)
    ensures InList(l, x) <==> lo <= x < hi
    decreases |l|
  {
    if l != [] {
      StackedOrder(l, lo, hi);
      StackedCovers(l[1..], lo, l[0].addr, x);
      if InList(l[1..], x) {
        var k :| 0 <= k < |l| - 1 && Covers(l[1..][k], x);
        assert Covers(l[k + 1], x);
      }
      if l[0].addr <= x < hi { assert Covers(l[0], x); }
    }
  }

  function Blocks(p: Page): seq<Blk> { p.free + p.used }

  lemma InBoth(p: Page, x: nat)
    ensures InList(Blocks(p), x) <==> InList(p.free, x) || InList(p.used, x)
  {
    var l := Blocks(p);
    if InList(p.free, x) {
      var k :| 0 <= k < |p.free| && Covers(p.free[k], x);
      assert l[k] == p.free[k];
    }
    if InList(p.used, x) {
      var k :| 0 <= k < |p.used| && Covers(p.used[k], x);
      assert l[|p.free| + k] == p.used[k];
    }
    if InList(l, x) {
      var k :| 0 <= k < |l| && Covers(l[k], x);
      if k >= |p.free| { assert Covers(p.used[k - |p.free|], x); } else { assert Covers(p.free[k], x); }
    }
  }

  /** Headers and blocks tile the first 4096 bytes of a page: a byte is in a block of the page if and
      only if it lies after the page header. */
  lemma PageTiled(p: Page, x: nat)
    requires PageOk(p)
    ensures InList(Blocks(p), x) <==> p.addr + HDR <= x < p.addr + 4096
  {
    hide Blocks;
    var mid := if p.free == [] then p.addr + HDR else End(p.free[0]);
    InBoth(p, x);
    StackedOrder(p.used, mid, p.addr + 4096);
    StackedCovers(p.used, mid, p.addr + 4096, x);
    if p.free != [] { assert InList(p.free, x) <==> Covers(p.free[0], x); }
  }

  /** No two blocks of a page share a byte, free or in use. */
  lemma BlocksOfPageApart(p: Page, j: nat, k: nat)
    requires PageOk(p) && j < k < |Blocks(p)|
    ensures BlocksApart(Blocks(p)[j], Blocks(p)[k])
  {
    StackedOrder(p.used, if p.free == [] then p.addr + HDR else End(p.free[0]), p.addr + 4096);
  }

  ghost predicate Live(h: seq<Page>, i: nat, k: nat) { i < |h| && k < |h[i].used| }

  ghost predicate BlocksApart(a: Blk, b: Blk) { End(a) <= b.addr || End(b) <= a.addr }

  /** No two blocks in use overlap, in one page or in two. */
  lemma LiveApart(h: seq<Page>, i: nat, k: nat, j: nat, m: nat)
    requires HeapOk(h) && Live(h, i, k) && Live(h, j, m) && (i != j || k != m)
    ensures BlocksApart(h[i].used[k], h[j].used[m])
  {
    PageSpread(h[i], k);
    PageSpread(h[j], m);
    if i == j {
      var mid := if h[i].free == [] then h[i].addr + HDR else End(h[i].free[0]);
      StackedOrder(h[i].used, mid, h[i].addr + 4096);
    } else {
      assert PagesApart(h[i].addr, h[j].addr) || PagesApart(h[j].addr, h[i].addr);
    }
  }

  lemma PageSpread(p: Page, k: nat)
    requires PageOk(p) && k < |p.used|
    ensures p.addr + HDR <= p.used[k].addr && End(p.used[k]) <= p.addr + 4096
  {
    StackedOrder(p.used, if p.free == [] then p.addr + HDR else End(p.free[0]), p.addr + 4096);
  }

  // -------------------------------------------------------------- free is right

  /** What `free` should do: the block leaves the allocated list, and the free list covers exactly
      the bytes it covered and those of the block, no block in use among them. */
  ghost predicate FreedRight(p: Page, p': Page, k: nat)
    requires k < |p.used|
  {
    && p'.addr == p.addr && p'.used == Without(p.used, k)
    && (forall x: nat :: InList(p'.free, x) <==> InList(p.free, x) || Covers(p.used[k], x))
  }

  lemma LastOnly(p: Page, k: nat)
    requires PageOk(p) && k < |p.used|
    ensures k == |p.used| - 1 <==> p.used[k].addr == (if p.free == [] then p.addr + HDR else End(p.free[0]))
    ensures p.free != [] ==> End(p.used[k]) != p.free[0].addr
  {
    var mid := if p.free == [] then p.addr + HDR else End(p.free[0]);
    StackedOrder(p.used, mid, p.addr + 4096);
    StackedBottom(p.used, mid, p.addr + 4096);
  }

  lemma {:induction false} StackedBottom(l: seq<Blk>, lo: nat, hi: nat)
    requires Stacked(l, lo, hi) && l != []
    ensures l[|l| - 1].addr == lo
    decreases |l|
  {
    if |l| > 1 { StackedBottom(l[1..], lo, l[0].addr); }
  }

  /** Freeing an earlier block puts it on the free list with all that were taken after it. */
  lemma FreeEarlier(p: Page, k: nat)
    requires PageOk(p) && k + 1 < |p.used|
    ensures Free(p, k) == Page(p.addr, p.free + p.used[k..], Without(p.used, k))
  {
    LastOnly(p, k);
    StackedOrder(p.used, if p.free == [] then p.addr + HDR else End(p.free[0]), p.addr + 4096);
    assert Neighbour(p.free, p.used[k]) == |p.free|;
  }

  /** In a heap in order `free` is right if and only if the block is the page's most recent one. */
  lemma FreeRightIff(p: Page, k: nat)
    requires PageOk(p) && k < |p.used|
    ensures FreedRight(p, Free(p, k), k) <==> k == |p.used| - 1
  {
    LastOnly(p, k);
    var b, p' := p.used[k], Free(p, k);
    if k == |p.used| - 1 {
      if p.free == [] {
        assert p'.free == [b];
        assert Covers(p'.free[0], b.addr) && forall x: nat :: Covers(b, x) <==> Covers(p'.free[0], x);
      } else {
        assert Neighbour(p.free, b) == 0;
        assert p'.free == [Joined(p.free[0], b)];
        forall x: nat ensures InList(p'.free, x) <==> InList(p.free, x) || Covers(b, x) {
          assert Covers(p'.free[0], x) <==> Covers(p.free[0], x) || Covers(b, x);
        }
      }
    } else {
      var c := p.used[k + 1];
      var mid := if p.free == [] then p.addr + HDR else End(p.free[0]);
      StackedOrder(p.used, mid, p.addr + 4096);
      assert Neighbour(p.free, b) == |p.free|;
      assert p'.free[|p.free| + 1] == c && Covers(c, c.addr);
      assert InList(p'.free, c.addr);
      assert !InList(p.free, c.addr) && !Covers(b, c.addr);
    }
  }

  // ---------------------------------------------------------- last in, first out

  function FreeLast(p: Page): Page
    requires p.used != []
  {
    Free(p, |p.used| - 1)
  }

  lemma {:induction false} StackedDrop(l: seq<Blk>, b: Blk, lo: nat, hi: nat)
    requires Stacked(l + [b], lo, hi)
    ensures Stacked(l, End(b), hi) && b.addr == lo
    decreases |l|
  {
    if l != [] {
      assert (l + [b])[1..] == l[1..] + [b];
      StackedDrop(l[1..], b, lo, l[0].addr);
    } else {
      assert (l + [b])[1..] == [];
    }
  }

  /** Freeing the most recent block of a page keeps the page in order. */
  lemma FreeLastKeeps(p: Page)
    requires PageOk(p) && p.used != []
    ensures PageOk(FreeLast(p)) && FreeLast(p).addr == p.addr && FreeLast(p).used == p.used[..|p.used| - 1]
  {
    var k := |p.used| - 1;
    LastOnly(p, k);
    assert p.used == p.used[..k] + [p.used[k]];
    StackedDrop(p.used[..k], p.used[k], if p.free == [] then p.addr + HDR else End(p.free[0]), p.addr + 4096);
    assert Without(p.used, k) == p.used[..k] && p.used[k..] == [p.used[k]];
    if p.free != [] { assert Neighbour(p.free, p.used[k]) == 0; }
  }

  /** Freeing a block just taken gives the page back as it was: both lists and all lengths. */
  lemma FreeUndoesTake(p: Page, size: nat)
    requires PageOk(p) && p.free != [] && (size + HDR) % WORD == size + HDR
    ensures FreeLast(TakeFrom(p, 0, size)) == p
  {
    var f, b, q := p.free[0], Carve(p.free[0], size), TakeFrom(p, 0, size);
    TakeKeeps(p, size);
    var k := |q.used| - 1;
    assert k == |p.used| && q.used[k] == b && q.used[k..] == [b] && Without(q.used, k) == p.used;
    LastOnly(q, k);
    if f.length > size + HDR {
      assert Neighbour(q.free, b) == 0;
      assert q.free[0 := Joined(q.free[0], b)] == [f] == p.free;
    } else {
      assert q.free == [] && q.free + [b] == p.free;
    }
  }

  /** Properly nested use: take a block, go on inside, free it, go on after. */
  datatype Script = Done | Nest(size: nat, inside: Script, after: Script)

  function FreeIn(h: seq<Page>, i: nat): seq<Page> {
    if i < |h| && h[i].used != [] then h[i := FreeLast(h[i])] else h
  }

  function RunScript(h: seq<Page>, s: Script): seq<Page>
    decreases s
  {
    match s
    case Done => h
    case Nest(size, inside, after) =>
      RunScript(FreeIn(RunScript(Malloc(h, size, 0), inside), FirstPage(h, size)), after)
  }

  /** Every block comes from a page that has another block in use, so that no page is given back. */
  ghost predicate StaysLive(h: seq<Page>, s: Script)
    decreases s
  {
    match s
    case Done => true
    case Nest(size, inside, after) =>
      var i := FirstPage(h, size);
      && i < |h| && h[i].used != [] && size + HDR < WORD
      && StaysLive(Malloc(h, size, 0), inside) && StaysLive(h, after)
  }

  lemma MallocInOld(h: seq<Page>, size: nat)
    requires HeapOk(h) && FirstPage(h, size) < |h| && size + HDR < WORD
    ensures HeapOk(Malloc(h, size, 0)) && FreeIn(Malloc(h, size, 0), FirstPage(h, size)) == h
  {
    hide PageOk, FreeLast, TakeFrom, Carve;
    var i := FirstPage(h, size);
    assert Offers(h[i], size);
    OneFree(h[i]);
    TakeKeeps(h[i], size);
    FreeUndoesTake(h[i], size);
  }

  lemma OneFree(p: Page)
    requires PageOk(p)
    ensures |p.free| <= 1
  {
  }

  /** Any properly nested use leaves the heap exactly as it was. */
  lemma {:induction false} ScriptRestores(h: seq<Page>, s: Script)
    requires HeapOk(h) && StaysLive(h, s)
    ensures RunScript(h, s) == h
    decreases s
  {
    hide HeapOk, Malloc, FreeIn;
    if s.Nest? {
      MallocInOld(h, s.size);
      ScriptRestores(Malloc(h, s.size, 0), s.inside);
      ScriptRestores(h, s.after);
    }
  }

  // ----------------------------------------------------------- released pages

  /** The walk of `find_free` reads the header of page `i`. */
  predicate Reads(h: seq<Page>, size: nat, i: nat) { i < |h| && i <= FirstPage(h, size) }

  /** The walk comes to a page if and only if no page before it offers a block. */
  lemma ReadsIff(h: seq<Page>, size: nat, i: nat)
    requires i < |h|
    ensures Reads(h, size, i) <==> forall j :: 0 <= j < i ==> !Offers(h[j], size)
  {
  }

  /** The block handed out lies in the page used. */
  lemma ResultInPage(h: seq<Page>, size: nat, page: nat)
    requires HeapOk(h) && Fresh(h, page) && size + HDR < WORD
    ensures var at, b := WithRoom(h, size, page)[FirstPage(h, size)].addr, Result(h, size, page);
      at <= b.addr && End(b) <= at + 4096
  {
    hide PageOk;
    MallocKeeps(h, size, page);
    var i, h' := FirstPage(h, size), Malloc(h, size, page);
    PageSpread(h'[i], |h'[i].used| - 1);
  }

  lemma RoomIs(h: seq<Page>, size: nat, page: nat)
    ensures var k, h1 := FirstPage(h, size), WithRoom(h, size, page);
      if k < |h| then h1 == h else h1 == h + [NewPage(page)]
  {
  }

  /** The pages of the list, and which of them have been given back and are no longer mapped. */
  datatype State = State(pages: seq<Page>, gone: set<nat>)

  /** No page given back is read by the walk; reading one is a page fault. */
  ghost predicate WalkSafe(st: State, size: nat) { forall i :: i in st.gone ==> !Reads(st.pages, size, i) }

  ghost predicate StateOk(st: State) {
    HeapOk(st.pages) && forall i :: i in st.gone ==> i < |st.pages| && st.pages[i].used == []
  }

  /** The walk stops with a fault at the first page given back that it comes to. */
  lemma WalkFaults(st: State, size: nat, i: nat)
    requires i in st.gone && i < |st.pages| && forall j :: 0 <= j < i ==> !Offers(st.pages[j], size)
    ensures !WalkSafe(st, size)
  {
    ReadsIff(st.pages, size, i);
  }

  lemma WalkPasses(st: State, size: nat, i: nat)
    requires i <= |st.pages| && FirstPage(st.pages, size) == i && forall j :: 0 <= j <= i ==> j !in st.gone
    ensures WalkSafe(st, size)
  {
  }

  /** A page given back stays in the list. `malloc` faults if and only if no page before the first of
      them offers a block, whatever the size asked for. */
  lemma WalkFaultsIff(st: State, size: nat, i: nat)
    requires StateOk(st) && i in st.gone && forall j :: j in st.gone ==> i <= j
    ensures !WalkSafe(st, size) <==> forall j :: 0 <= j < i ==> !Offers(st.pages[j], size)
  {
    ReadsIff(st.pages, size, i);
  }

  /** Once the first page of the list has been given back, every later `malloc` faults. */
  lemma FirstReleasedFaults(st: State, size: nat)
    requires StateOk(st) && 0 in st.gone
    ensures !WalkSafe(st, size)
  {
    assert Reads(st.pages, size, 0);
  }

  /** A block taken from an empty heap and freed again: the only page is given back, and every later
      `malloc` faults. */
  lemma OnlyBlockFreedFaults(size: nat, page: nat, next: nat)
    requires size <= 4048 && page > 0
    ensures var st := Act(Act(State([], {}), Take(size, page)), Give(0));
      StateOk(st) && st.gone == {0} && !WalkSafe(st, next)
  {
    hide HeapOk, PageOk, Malloc, FreeIn, TakeFrom, Result;
    var st0, st1 := State([], {}), Act(State([], {}), Take(size, page));
    NoPages();
    ActKeeps(st0, Take(size, page));
    OneUsed(size, page);
    ActKeeps(st1, Give(0));
    OneFreed(st1.pages);
    FirstReleasedFaults(Act(st1, Give(0)), next);
  }

  lemma OneUsed(size: nat, page: nat)
    requires size <= 4048 && page > 0
    ensures |Malloc([], size, page)| == 1 && |Malloc([], size, page)[0].used| == 1
  {
  }

  lemma OneFreed(h: seq<Page>)
    requires HeapOk(h) && |h| == 1 && |h[0].used| == 1
    ensures |FreeIn(h, 0)| == 1 && FreeIn(h, 0)[0].used == []
  {
    FreeLastKeeps(h[0]);
  }

  // -------------------------------------------------------------------- runs

  datatype Op = Take(size: nat, page: nat) | Give(i: nat)

  /** `malloc` of what fits a page, with a walk that faults nowhere; `free` of a page's most recent
      block. */
  ghost predicate Enabled(st: State, op: Op) {
    match op
    case Take(size, page) => size <= 4048 && Fresh(st.pages, page) && WalkSafe(st, size)
    case Give(i) => i < |st.pages| && st.pages[i].used != []
  }

  function Act(st: State, op: Op): State {
    match op
    case Take(size, page) => st.(pages := Malloc(st.pages, size, page))
    case Give(i) =>
      var h := FreeIn(st.pages, i);
      State(h, if i < |h| && h[i].used == [] then st.gone + {i} else st.gone)
  }

  function Run(st: State, ops: seq<Op>): State
    decreases |ops|
  {
    if ops == [] then st else Run(Act(st, ops[0]), ops[1..])
  }

  ghost predicate CanRun(st: State, ops: seq<Op>)
    decreases |ops|
  {
    ops != [] ==> Enabled(st, ops[0]) && CanRun(Act(st, ops[0]), ops[1..])
  }

  lemma TakeActKeeps(st: State, size: nat, page: nat)
    requires StateOk(st) && size + HDR < WORD && Fresh(st.pages, page) && WalkSafe(st, size)
    ensures StateOk(st.(pages := Malloc(st.pages, size, page)))
  {
    hide PageOk, Result, Malloc, WithRoom, Fresh;
    MallocKeeps(st.pages, size, page);
    RoomIs(st.pages, size, page);
    var h, h' := st.pages, Malloc(st.pages, size, page);
    forall i | i in st.gone ensures i < |h'| && h'[i].used == [] {
      assert !Reads(h, size, i);
      assert h'[i] == h[i];
    }
  }

  lemma GiveActKeeps(st: State, i: nat)
    requires StateOk(st) && i < |st.pages| && st.pages[i].used != []
    ensures StateOk(Act(st, Give(i)))
  {
    hide PageOk, FreeLast;
    FreeLastKeeps(st.pages[i]);
  }

  lemma ActKeeps(st: State, op: Op)
    requires StateOk(st) && Enabled(st, op)
    ensures StateOk(Act(st, op))
  {
    hide StateOk, WalkSafe, Fresh, Malloc, FreeIn;
    match op
    case Take(size, page) => TakeActKeeps(st, size, page);
    case Give(i) => GiveActKeeps(st, i);
  }

  /** Every run of `malloc` and of frees of a page's most recent block, down to its last one, in which no
      walk comes to a page given back, keeps all pages tiled and apart, and no block of a page given
      back is in use. */
  lemma {:induction false} RunKeeps(st: State, ops: seq<Op>)
    requires StateOk(st) && CanRun(st, ops)
    ensures StateOk(Run(st, ops))
    decreases |ops|
  {
    hide StateOk, Enabled, Act;
    if ops != [] {
      ActKeeps(st, ops[0]);
      RunKeeps(Act(st, ops[0]), ops[1..]);
    }
  }

  /** After any such run from the empty heap, a further `malloc` whose walk faults nowhere hands out
      enough bytes, in a page that is still there, away from every block in use, none of which
      moves. */
  lemma EveryRunServes(ops: seq<Op>, size: nat, page: nat, i: nat, k: nat)
    requires CanRun(State([], {}), ops) && Enabled(Run(State([], {}), ops), Take(size, page))
    requires Live(Run(State([], {}), ops).pages, i, k)
    ensures var st := Run(State([], {}), ops);
      var h, b := st.pages, Result(st.pages, size, page);
      && b.length >= size && BlocksApart(b, h[i].used[k])
      && Live(Malloc(h, size, page), i, k) && Malloc(h, size, page)[i].used[k] == h[i].used[k]
      && !InGone(st, b)
  {
    hide HeapOk;
    var st := Run(State([], {}), ops);
    var h, h' := st.pages, Malloc(st.pages, size, page);
    NoPages();
    RunKeeps(State([], {}), ops);
    EnoughIff(h, size, page);
    MallocKeeps(h, size, page);
    var j := FirstPage(h, size);
    LiveApart(h', j, |h'[j].used| - 1, i, k);
    GoneIff(st, size, page);
  }

  lemma NoPages()
    ensures StateOk(State([], {}))
  {
  }

  /** The block lies in a page that has been given back. */
  ghost predicate InGone(st: State, b: Blk) {
    exists i :: i in st.gone && i < |st.pages| && st.pages[i].addr <= b.addr < st.pages[i].addr + 4096
  }

  lemma GoneIff(st: State, size: nat, page: nat)
    requires StateOk(st) && Fresh(st.pages, page) && size + HDR < WORD
    ensures FirstPage(st.pages, size) in st.gone <==> InGone(st, Result(st.pages, size, page))
  {
    hide Result, PageOk, WithRoom;
    var h, b := st.pages, Result(st.pages, size, page);
    var k := FirstPage(h, size);
    ResultInPage(h, size, page);
    RoomIs(h, size, page);
    forall i | 0 <= i < |h| && h[i].addr <= b.addr < h[i].addr + 4096 ensures i == k {
      assert k < i && k < |h| ==> PagesApart(h[k].addr, h[i].addr);
      assert i < k < |h| ==> PagesApart(h[i].addr, h[k].addr);
      assert PagesApart(h[i].addr, page);
    }
  }
}
