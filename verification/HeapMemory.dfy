/**
 The heap of kernel/system/mem_mgmt/heap.c as it lies in memory: headers linked by
 addresses, and what each relinking through a pointer to a link does to the
 lists of `HeapSpec`.
 */
module HeapMemory {
  import opened HeapSpec

  datatype BlockHdr = BlockHdr(next: nat, page: nat, length: nat)
  datatype PageHdr = PageHdr(next: nat, free: nat, used: nat)

  /** Headers by address, and the first page; zero is the null pointer. */
  datatype Memory = Memory(blocks: map<nat, BlockHdr>, pages: map<nat, PageHdr>, root: nat)

  /** A pointer to a link. */
  datatype Slot = Root | NextPage(p: nat) | FreeHead(p: nat) | UsedHead(p: nat) | Next(b: nat)

  const NO_BLOCK := BlockHdr(0, 0, 0)
  const NO_PAGE := PageHdr(0, 0, 0)

  function BlockAt(m: Memory, a: nat): BlockHdr { if a in m.blocks then m.blocks[a] else NO_BLOCK }
  function PageHdrAt(m: Memory, a: nat): PageHdr { if a in m.pages then m.pages[a] else NO_PAGE }

  function Get(m: Memory, s: Slot): nat {
    match s
    case Root => m.root
    case NextPage(p) => PageHdrAt(m, p).next
    case FreeHead(p) => PageHdrAt(m, p).free
    case UsedHead(p) => PageHdrAt(m, p).used
    case Next(b) => BlockAt(m, b).next
  }

  function PutBlock(m: Memory, a: nat, b: BlockHdr): Memory { m.(blocks := m.blocks[a := b]) }
  function PutPage(m: Memory, a: nat, p: PageHdr): Memory { m.(pages := m.pages[a := p]) }

  function Set(m: Memory, s: Slot, v: nat): Memory {
    match s
    case Root => m.(root := v)
    case NextPage(p) => PutPage(m, p, PageHdrAt(m, p).(next := v))
    case FreeHead(p) => PutPage(m, p, PageHdrAt(m, p).(free := v))
    case UsedHead(p) => PutPage(m, p, PageHdrAt(m, p).(used := v))
    case Next(b) => PutBlock(m, b, BlockAt(m, b).(next := v))
  }

  function SetLength(m: Memory, a: nat, n: nat): Memory { PutBlock(m, a, BlockAt(m, a).(length := n)) }

  // ----------------------------------------------------------- representation

  function Addr(l: seq<Blk>, k: nat): nat { if k < |l| then l[k].addr else 0 }

  ghost predicate LinkAt(m: Memory, l: seq<Blk>, k: nat, page: nat) {
    k < |l| ==> l[k].addr > 0 && l[k].addr in m.blocks && m.blocks[l[k].addr] == BlockHdr(Addr(l, k + 1), page, l[k].length)
  }

  /** The blocks of `l` are linked in this order. */
  ghost predicate Linked(m: Memory, l: seq<Blk>, page: nat) { forall k: nat :: LinkAt(m, l, k, page) }

  ghost predicate PageRep(m: Memory, p: Page, next: nat) {
    && p.addr > 0 && p.addr in m.pages && m.pages[p.addr] == PageHdr(next, Addr(p.free, 0), Addr(p.used, 0))
    && Linked(m, p.free, p.addr) && Linked(m, p.used, p.addr)
  }

  function PageAddr(h: seq<Page>, i: nat): nat { if i < |h| then h[i].addr else 0 }

  ghost predicate PageAt(m: Memory, h: seq<Page>, i: nat) { i < |h| ==> PageRep(m, h[i], PageAddr(h, i + 1)) }

  /** Memory holds these pages with these lists. */
  ghost predicate Rep(m: Memory, h: seq<Page>) { m.root == PageAddr(h, 0) && forall i: nat :: PageAt(m, h, i) }

  // ------------------------------------------------------------------ frames

  ghost predicate DistinctList(l: seq<Blk>) { forall j, k :: 0 <= j < k < |l| ==> l[j].addr != l[k].addr }

  ghost predicate DisjointLists(a: seq<Blk>, b: seq<Blk>) {
    forall j, k :: 0 <= j < |a| && 0 <= k < |b| ==> a[j].addr != b[k].addr
  }

  /** Headers of different pages are in different places. */
  ghost predicate Separated(h: seq<Page>) {
    forall i, j :: 0 <= i < |h| && 0 <= j < |h| && i != j ==>
      h[i].addr != h[j].addr && DisjointLists(Blocks(h[i]), Blocks(h[j]))
  }

  /** All headers are in different places. */
  ghost predicate Distinct(h: seq<Page>) {
    Separated(h) && forall i :: 0 <= i < |h| ==> DistinctList(Blocks(h[i]))
  }

  lemma DistinctParts(p: Page)
    requires DistinctList(Blocks(p))
    ensures DistinctList(p.free) && DistinctList(p.used) && DisjointLists(p.free, p.used)
  {
    var l := Blocks(p);
    forall j, k | 0 <= j < k < |p.free| ensures p.free[j].addr != p.free[k].addr { assert l[j] == p.free[j] && l[k] == p.free[k]; }
    forall j, k | 0 <= j < k < |p.used| ensures p.used[j].addr != p.used[k].addr {
      assert l[|p.free| + j] == p.used[j] && l[|p.free| + k] == p.used[k];
    }
    forall j, k | 0 <= j < |p.free| && 0 <= k < |p.used| ensures p.free[j].addr != p.used[k].addr {
      assert l[j] == p.free[j] && l[|p.free| + k] == p.used[k];
    }
  }

  /** A heap in order has all its headers in different places. */
  lemma OkDistinct(h: seq<Page>)
    requires HeapOk(h)
    ensures Distinct(h)
  {
    hide PageOk;
    forall i | 0 <= i < |h| ensures DistinctList(Blocks(h[i])) { OkDistinctPage(h[i]); }
    forall i, j | 0 <= i < |h| && 0 <= j < |h| && i != j
      ensures h[i].addr != h[j].addr && DisjointLists(Blocks(h[i]), Blocks(h[j]))
    {
      assert i < j ==> PagesApart(h[i].addr, h[j].addr);
      assert j < i ==> PagesApart(h[j].addr, h[i].addr);
      InsidePage(h[i]);
      InsidePage(h[j]);
    }
  }

  lemma OkDistinctPage(p: Page)
    requires PageOk(p)
    ensures DistinctList(Blocks(p))
  {
    hide PageOk;
    forall j, k | 0 <= j < k < |Blocks(p)| ensures Blocks(p)[j].addr != Blocks(p)[k].addr { BlocksOfPageApart(p, j, k); }
  }

  lemma InsidePage(p: Page)
    requires PageOk(p)
    ensures forall k :: 0 <= k < |Blocks(p)| ==> p.addr + HDR <= Blocks(p)[k].addr && End(Blocks(p)[k]) <= p.addr + 4096
  {
    StackedOrder(p.used, if p.free == [] then p.addr + HDR else End(p.free[0]), p.addr + 4096);
  }

  ghost predicate SameOn(m: Memory, m': Memory, l: seq<Blk>) {
    forall k :: 0 <= k < |l| ==> BlockAt(m', l[k].addr) == BlockAt(m, l[k].addr) && (l[k].addr in m.blocks ==> l[k].addr in m'.blocks)
  }

  lemma LinkedKept(m: Memory, m': Memory, l: seq<Blk>, page: nat)
    requires Linked(m, l, page) && SameOn(m, m', l)
    ensures Linked(m', l, page)
  {
    forall k: nat ensures LinkAt(m', l, k, page) { assert LinkAt(m, l, k, page); }
  }

  lemma SameParts(m: Memory, m': Memory, p: Page)
    requires SameOn(m, m', Blocks(p))
    ensures SameOn(m, m', p.free) && SameOn(m, m', p.used)
  {
    var l := Blocks(p);
    forall k | 0 <= k < |p.free|
      ensures BlockAt(m', p.free[k].addr) == BlockAt(m, p.free[k].addr) && (p.free[k].addr in m.blocks ==> p.free[k].addr in m'.blocks)
    {
      assert l[k] == p.free[k];
    }
    forall k | 0 <= k < |p.used|
      ensures BlockAt(m', p.used[k].addr) == BlockAt(m, p.used[k].addr) && (p.used[k].addr in m.blocks ==> p.used[k].addr in m'.blocks)
    {
      assert l[|p.free| + k] == p.used[k];
    }
  }

  /** Changing one page: the others are untouched. */
  lemma PageChanged(m: Memory, m': Memory, h: seq<Page>, i: nat, p': Page)
    requires i < |h| && Rep(m, h) && Separated(h) && p'.addr == h[i].addr && m'.root == m.root
    requires PageRep(m', p', PageAddr(h, i + 1))
    requires forall a :: a != h[i].addr && a in m.pages ==> a in m'.pages && m'.pages[a] == m.pages[a]
    requires forall j :: 0 <= j < |h| && j != i ==> SameOn(m, m', Blocks(h[j]))
    ensures Rep(m', h[i := p'])
  {
    hide Blocks, Linked, SameOn, DistinctList, DisjointLists;
    var h' := h[i := p'];
    forall j: nat ensures PageAt(m', h', j) {
      if j < |h| && j != i {
        assert PageAt(m, h, j);
        SameParts(m, m', h[j]);
        LinkedKept(m, m', h[j].free, h[j].addr);
        LinkedKept(m, m', h[j].used, h[j].addr);
        assert PageAddr(h', j + 1) == PageAddr(h, j + 1);
      } else if j == i {
        assert PageAddr(h', i + 1) == PageAddr(h, i + 1);
      }
    }
  }

  // ------------------------------------------------------------------- slots

  function SlotIn(head: Slot, l: seq<Blk>, k: nat): Slot
    requires k <= |l|
  {
    if k == 0 then head else Next(l[k - 1].addr)
  }

  function FreeSlot(p: Page, k: nat): Slot
    requires k <= |p.free|
  {
    SlotIn(FreeHead(p.addr), p.free, k)
  }

  function UsedSlot(p: Page, k: nat): Slot
    requires k <= |p.used|
  {
    SlotIn(UsedHead(p.addr), p.used, k)
  }

  lemma SlotsRead(m: Memory, p: Page, next: nat)
    requires PageRep(m, p, next)
    ensures forall k :: 0 <= k <= |p.free| ==> Get(m, FreeSlot(p, k)) == Addr(p.free, k)
    ensures forall k :: 0 <= k <= |p.used| ==> Get(m, UsedSlot(p, k)) == Addr(p.used, k)
  {
    forall k | 0 <= k <= |p.free| ensures Get(m, FreeSlot(p, k)) == Addr(p.free, k) {
      if k > 0 { assert LinkAt(m, p.free, k - 1, p.addr); }
    }
    forall k | 0 <= k <= |p.used| ensures Get(m, UsedSlot(p, k)) == Addr(p.used, k) {
      if k > 0 { assert LinkAt(m, p.used, k - 1, p.addr); }
    }
  }

  // -------------------------------------------------------- changes to a page

  /** A header at an address that is in neither list. */
  ghost predicate Elsewhere(l: seq<Blk>, a: nat) { forall k :: 0 <= k < |l| ==> l[k].addr != a }

  /** Hanging a block on the end of the used list; the free list may share that end. */
  lemma AppendUsed(m: Memory, p: Page, next: nat, b: Blk)
    requires PageRep(m, p, next) && DistinctList(p.free) && DistinctList(p.used) && b.addr > 0 && Elsewhere(Blocks(p), b.addr)
    requires b.addr in m.blocks && m.blocks[b.addr] == BlockHdr(0, p.addr, b.length)
    ensures PageRep(Set(m, UsedSlot(p, |p.used|), b.addr), Hung(p, b), next)
  {
    var m', l, f := Set(m, UsedSlot(p, |p.used|), b.addr), p.used + [b], Hung(p, b).free;
    ElsewhereParts(p, b.addr);
    forall k: nat ensures LinkAt(m', l, k, p.addr) { assert LinkAt(m, p.used, k, p.addr); }
    forall k: nat ensures LinkAt(m', f, k, p.addr) {
      assert LinkAt(m, p.free, k, p.addr) && LinkAt(m, p.free, k + 1, p.addr);
      if p.used != [] { assert LinkAt(m, p.used, |p.used| - 1, p.addr); }
    }
  }

  lemma ElsewhereParts(p: Page, a: nat)
    requires Elsewhere(Blocks(p), a)
    ensures Elsewhere(p.free, a) && Elsewhere(p.used, a)
  {
    var l := Blocks(p);
    forall k | 0 <= k < |p.free| ensures p.free[k].addr != a { assert l[k] == p.free[k]; }
    forall k | 0 <= k < |p.used| ensures p.used[k].addr != a { assert l[|p.free| + k] == p.used[k]; }
  }

  /** Taking a block out of the free list. */
  lemma UnlinkFree(m: Memory, p: Page, next: nat, k: nat)
    requires PageRep(m, p, next) && DistinctList(p.free) && k < |p.free|
    requires k > 0 ==> Elsewhere(p.used, p.free[k - 1].addr)
    ensures PageRep(Set(m, FreeSlot(p, k), Addr(p.free, k + 1)), p.(free := Without(p.free, k)), next)
  {
    var m', l := Set(m, FreeSlot(p, k), Addr(p.free, k + 1)), Without(p.free, k);
    forall j: nat ensures LinkAt(m', p.used, j, p.addr) { assert LinkAt(m, p.used, j, p.addr); }
    forall j: nat ensures LinkAt(m', l, j, p.addr) {
      assert LinkAt(m, p.free, j, p.addr);
      assert LinkAt(m, p.free, j + 1, p.addr);
    }
  }

  /** Taking a block out of the used list; its own link stays. */
  lemma UnlinkUsed(m: Memory, p: Page, next: nat, k: nat)
    requires PageRep(m, p, next) && DistinctList(Blocks(p)) && k < |p.used|
    ensures PageRep(Set(m, UsedSlot(p, k), Addr(p.used, k + 1)), p.(used := Without(p.used, k)), next)
  {
    DistinctParts(p);
    var m', l := Set(m, UsedSlot(p, k), Addr(p.used, k + 1)), Without(p.used, k);
    forall j: nat ensures LinkAt(m', p.free, j, p.addr) { assert LinkAt(m, p.free, j, p.addr); }
    forall j: nat ensures LinkAt(m', l, j, p.addr) {
      assert LinkAt(m, p.used, j, p.addr);
      assert LinkAt(m, p.used, j + 1, p.addr);
    }
  }

  /** Changing the length of a free block. */
  lemma ResizeFree(m: Memory, p: Page, next: nat, k: nat, n: nat)
    requires PageRep(m, p, next) && DistinctList(Blocks(p)) && k < |p.free|
    ensures PageRep(SetLength(m, p.free[k].addr, n), p.(free := p.free[k := Blk(p.free[k].addr, n)]), next)
  {
    DistinctParts(p);
    var m', l := SetLength(m, p.free[k].addr, n), p.free[k := Blk(p.free[k].addr, n)];
    forall j: nat ensures LinkAt(m', p.used, j, p.addr) { assert LinkAt(m, p.used, j, p.addr); }
    forall j: nat ensures LinkAt(m', l, j, p.addr) { assert LinkAt(m, p.free, j, p.addr); }
  }

  /** A header written beside the lists. */
  lemma PutElsewhere(m: Memory, p: Page, next: nat, a: nat, b: BlockHdr)
    requires PageRep(m, p, next) && Elsewhere(Blocks(p), a)
    ensures PageRep(PutBlock(m, a, b), p, next)
  {
    ElsewhereParts(p, a);
    var m' := PutBlock(m, a, b);
    LinkedKept(m, m', p.free, p.addr);
    LinkedKept(m, m', p.used, p.addr);
  }

  lemma WithoutDistinct(p: Page, k: nat)
    requires DistinctList(Blocks(p))
    ensures k < |p.used| ==>
      DistinctList(Blocks(p.(used := Without(p.used, k)))) && Elsewhere(Blocks(p.(used := Without(p.used, k))), p.used[k].addr)
    ensures k < |p.free| ==>
      DistinctList(Blocks(p.(free := Without(p.free, k)))) && Elsewhere(Blocks(p.(free := Without(p.free, k))), p.free[k].addr)
  {
    DistinctParts(p);
  }

  /** A stretch of linked blocks whose last link is `tail`. */
  ghost predicate LeadsAt(m: Memory, l: seq<Blk>, k: nat, tail: nat, page: nat) {
    k < |l| ==> l[k].addr > 0 && l[k].addr in m.blocks &&
                m.blocks[l[k].addr] == BlockHdr(if k + 1 < |l| then l[k + 1].addr else tail, page, l[k].length)
  }

  lemma JoinLinked(m: Memory, l: seq<Blk>, r: seq<Blk>, page: nat)
    requires (forall k: nat :: LeadsAt(m, l, k, Addr(r, 0), page)) && Linked(m, r, page)
    ensures Linked(m, l + r, page)
  {
    forall k: nat ensures LinkAt(m, l + r, k, page) {
      assert LeadsAt(m, l, k, Addr(r, 0), page);
      if k >= |l| { assert LinkAt(m, r, k - |l|, page); }
    }
  }

  lemma DropLinked(m: Memory, l: seq<Blk>, k: nat, page: nat)
    requires Linked(m, l, page) && k <= |l|
    ensures Linked(m, l[k..], page)
  {
    forall j: nat ensures LinkAt(m, l[k..], j, page) { assert LinkAt(m, l, k + j, page); }
  }

  lemma FollowersKept(m: Memory, p: Page, next: nat, k: nat)
    requires PageRep(m, p, next) && DistinctList(Blocks(p)) && k < |p.used|
    ensures var m1 := Set(m, UsedSlot(p, k), Addr(p.used, k + 1));
      && Linked(m1, p.used[k + 1..], p.addr) && Linked(m1, p.used[k..], p.addr)
      && BlockAt(m1, p.used[k].addr) == BlockHdr(Addr(p.used, k + 1), p.addr, p.used[k].length)
  {
    DistinctParts(p);
    assert LinkAt(m, p.used, k, p.addr);
    DropLinked(m, p.used, k, p.addr);
    LinkedKept(m, Set(m, UsedSlot(p, k), Addr(p.used, k + 1)), p.used[k..], p.addr);
    DropLinked(Set(m, UsedSlot(p, k), Addr(p.used, k + 1)), p.used[k..], 1, p.addr);
    assert p.used[k..][1..] == p.used[k + 1..];
  }

  // ------------------------------------------------------- the four ends of free

  /** No neighbour: the block, with all that followed it, is hung on the end of the free list. */
  lemma FreeEnd(m: Memory, p: Page, next: nat, k: nat)
    requires PageRep(m, p, next) && DistinctList(Blocks(p)) && k < |p.used| && Neighbour(p.free, p.used[k]) == |p.free|
    ensures PageRep(Set(Set(m, UsedSlot(p, k), Addr(p.used, k + 1)), FreeSlot(p, |p.free|), p.used[k].addr), Free(p, k), next)
  {
    var m1, p1 := Set(m, UsedSlot(p, k), Addr(p.used, k + 1)), p.(used := Without(p.used, k));
    UnlinkUsed(m, p, next, k);
    WithoutDistinct(p, k);
    FollowersKept(m, p, next, k);
    DistinctParts(p);
    FreeEndFrom(m1, p1, next, p.used[k..]);
  }

  lemma FreeEndFrom(m: Memory, p: Page, next: nat, r: seq<Blk>)
    requires PageRep(m, p, next) && DistinctList(Blocks(p)) && r != []
    requires Linked(m, r, p.addr) && DisjointLists(p.free, r)
    ensures PageRep(Set(m, FreeSlot(p, |p.free|), r[0].addr), p.(free := p.free + r), next)
  {
    DistinctParts(p);
    var m' := Set(m, FreeSlot(p, |p.free|), r[0].addr);
    forall j: nat ensures LinkAt(m', p.used, j, p.addr) { assert LinkAt(m, p.used, j, p.addr); }
    LinkedKept(m, m', r, p.addr);
    forall j: nat ensures LeadsAt(m', p.free, j, Addr(r, 0), p.addr) { assert LinkAt(m, p.free, j, p.addr); }
    JoinLinked(m', p.free, r, p.addr);
  }

  /** The free block below grows. */
  lemma FreeBelow(m: Memory, p: Page, next: nat, k: nat, i: nat)
    requires PageRep(m, p, next) && DistinctList(Blocks(p)) && k < |p.used| && i < |p.free|
    requires Neighbour(p.free, p.used[k]) == i && End(p.free[i]) == p.used[k].addr
    ensures PageRep(SetLength(Set(m, UsedSlot(p, k), Addr(p.used, k + 1)), p.free[i].addr, p.free[i].length + p.used[k].length + HDR),
                    Free(p, k), next)
  {
    hide LinkAt, Linked;
    UnlinkUsed(m, p, next, k);
    WithoutDistinct(p, k);
    ResizeFree(Set(m, UsedSlot(p, k), Addr(p.used, k + 1)), p.(used := Without(p.used, k)), next, i, p.free[i].length + p.used[k].length + HDR);
  }

  /** The first free block is above: the block goes back to where it was, longer. */
  lemma FreeAboveFirst(m: Memory, p: Page, next: nat, k: nat)
    requires PageRep(m, p, next) && DistinctList(Blocks(p)) && k < |p.used| && p.free != []
    requires Neighbour(p.free, p.used[k]) == 0 && End(p.free[0]) != p.used[k].addr
    ensures PageRep(SetLength(Set(Set(m, UsedSlot(p, k), Addr(p.used, k + 1)), UsedSlot(p, k), p.used[k].addr),
                              p.used[k].addr, p.used[k].length + p.free[0].length + HDR), Free(p, k), next)
  {
    DistinctParts(p);
    var b := p.used[k];
    var m2 := Set(Set(m, UsedSlot(p, k), Addr(p.used, k + 1)), UsedSlot(p, k), b.addr);
    var m', l := SetLength(m2, b.addr, b.length + p.free[0].length + HDR), p.used[k := Joined(b, p.free[0])];
    forall j: nat ensures LinkAt(m', p.free, j, p.addr) { assert LinkAt(m, p.free, j, p.addr); }
    forall j: nat ensures LinkAt(m', l, j, p.addr) { assert LinkAt(m, p.used, j, p.addr); }
  }

  /** A later free block is above: the block replaces the free block before that one. */
  lemma FreeAbove(m: Memory, p: Page, next: nat, k: nat, i: nat)
    requires PageRep(m, p, next) && DistinctList(Blocks(p)) && k < |p.used| && 0 < i < |p.free|
    requires Neighbour(p.free, p.used[k]) == i && End(p.free[i]) != p.used[k].addr
    ensures PageRep(SetLength(Set(Set(m, UsedSlot(p, k), Addr(p.used, k + 1)), FreeSlot(p, i - 1), p.used[k].addr),
                              p.used[k].addr, p.used[k].length + p.free[i].length + HDR), Free(p, k), next)
  {
    var b, n := p.used[k], p.used[k].length + p.free[i].length + HDR;
    var m1, p1 := Set(m, UsedSlot(p, k), Addr(p.used, k + 1)), p.(used := Without(p.used, k));
    UnlinkUsed(m, p, next, k);
    WithoutDistinct(p, k);
    assert LinkAt(m, p.used, k, p.addr);
    FollowersKept(m, p, next, k);
    DistinctParts(p);
    FreeAboveFrom(m1, p1, next, b, i, p.used[k + 1..], n);
  }

  lemma FreeAboveFrom(m: Memory, p: Page, next: nat, b: Blk, i: nat, r: seq<Blk>, n: nat)
    requires PageRep(m, p, next) && DistinctList(Blocks(p)) && Elsewhere(Blocks(p), b.addr) && b.addr > 0 && 0 < i < |p.free|
    requires Linked(m, r, p.addr) && DisjointLists(p.free, r) && Elsewhere(r, b.addr)
    requires BlockAt(m, b.addr) == BlockHdr(Addr(r, 0), p.addr, b.length)
    ensures PageRep(SetLength(Set(m, FreeSlot(p, i - 1), b.addr), b.addr, n),
                    p.(free := p.free[..i - 1] + [Blk(b.addr, n)] + r), next)
  {
    DistinctParts(p);
    ElsewhereParts(p, b.addr);
    var m' := SetLength(Set(m, FreeSlot(p, i - 1), b.addr), b.addr, n);
    forall j: nat ensures LinkAt(m', p.used, j, p.addr) { assert LinkAt(m, p.used, j, p.addr); }
    var l, c := p.free[..i - 1], [Blk(b.addr, n)];
    LinkedKept(m, m', r, p.addr);
    JoinLinked(m', c, r, p.addr);
    forall j: nat ensures LeadsAt(m', l, j, Addr(c + r, 0), p.addr) { assert LinkAt(m, p.free, j, p.addr); }
    JoinLinked(m', l, c + r, p.addr);
    assert l + c + r == l + (c + r);
  }

  // -------------------------------------------------------------- adding a page

  function LastSlot(h: seq<Page>): Slot { if h == [] then Root else NextPage(h[|h| - 1].addr) }

  function AddNewPage(m: Memory, s: Slot, page: nat): Memory {
    PutPage(PutBlock(Set(m, s, page), page + HDR, BlockHdr(0, page, 4048)), page, PageHdr(0, page + HDR, 0))
  }

  lemma NewPageRep(m: Memory, h: seq<Page>, page: nat)
    requires Rep(m, h) && HeapOk(h) && Fresh(h, page)
    ensures Rep(AddNewPage(m, LastSlot(h), page), h + [NewPage(page)])
  {
    hide PageOk, Linked, Blocks;
    var m', h' := AddNewPage(m, LastSlot(h), page), h + [NewPage(page)];
    forall i: nat ensures PageAt(m', h', i) {
      if i < |h| {
        assert PageAt(m, h, i) && PagesApart(h[i].addr, page);
        assert i < |h| - 1 ==> PagesApart(h[i].addr, h[|h| - 1].addr);
        InsidePage(h[i]);
        assert SameOn(m, m', Blocks(h[i]));
        SameParts(m, m', h[i]);
        LinkedKept(m, m', h[i].free, h[i].addr);
        LinkedKept(m, m', h[i].used, h[i].addr);
      } else if i == |h| {
        NewPageLinked(m', page);
      }
    }
  }

  lemma NewPageLinked(m: Memory, page: nat)
    requires page > 0 && page + HDR in m.blocks && m.blocks[page + HDR] == BlockHdr(0, page, 4048)
    ensures Linked(m, NewPage(page).free, page) && Linked(m, NewPage(page).used, page)
  {
  }

  // ------------------------------------------------------ writes stay in the page

  /** Only headers of one page were written. */
  ghost predicate Only(m: Memory, m': Memory, page: nat, at: set<nat>) {
    && m'.root == m.root
    && (forall a :: a !in at ==> BlockAt(m', a) == BlockAt(m, a) && (a in m.blocks ==> a in m'.blocks))
    && (forall a :: a != page && a in m.pages ==> a in m'.pages && m'.pages[a] == m.pages[a])
  }

  ghost function Places(p: Page): set<nat> { set k | 0 <= k < |Blocks(p)| :: Blocks(p)[k].addr }

  lemma PlaceOf(p: Page)
    ensures forall k :: 0 <= k < |p.free| ==> p.free[k].addr in Places(p)
    ensures forall k :: 0 <= k < |p.used| ==> p.used[k].addr in Places(p)
  {
    forall k | 0 <= k < |p.free| ensures p.free[k].addr in Places(p) { assert Blocks(p)[k] == p.free[k]; }
    forall k | 0 <= k < |p.used| ensures p.used[k].addr in Places(p) { assert Blocks(p)[|p.free| + k] == p.used[k]; }
  }

  lemma OnlyThere(m: Memory, m': Memory, h: seq<Page>, i: nat, a: nat, p': Page)
    requires i < |h| && Rep(m, h) && Separated(h) && p'.addr == h[i].addr && PageRep(m', p', PageAddr(h, i + 1))
    requires Only(m, m', h[i].addr, Places(h[i]) + {a})
    requires forall j :: 0 <= j < |h| && j != i ==> Elsewhere(Blocks(h[j]), a)
    ensures Rep(m', h[i := p'])
  {
    hide Blocks, Linked;
    forall j | 0 <= j < |h| && j != i ensures SameOn(m, m', Blocks(h[j])) {
      assert DisjointLists(Blocks(h[i]), Blocks(h[j])) && Elsewhere(Blocks(h[j]), a);
    }
    PageChanged(m, m', h, i, p');
  }
}
