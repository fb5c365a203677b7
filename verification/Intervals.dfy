/**
 The virtual memory manager as its documentation describes it: an ordered list
 of intervals that tiles the managed range. Allocation splits an interval,
 freeing merges neighbours (kernel/system/mem_mgmt/vmm/mem_mgmt.c). Nothing here
 knows about trees.
 */
module Intervals {

  const PAGE := 0x1000

  datatype Iv = Iv(addr: nat, pages: nat, alloc: bool)

  function End(v: Iv): nat { v.addr + v.pages * PAGE }

  /** Non-empty intervals, each starting where the previous one ends, from `a` up to `b`. */
  ghost predicate Tiles(s: seq<Iv>, a: nat, b: nat) {
    && |s| > 0 && s[0].addr == a && End(s[|s| - 1]) == b
    && (forall i :: 0 <= i < |s| ==> s[i].pages > 0)
    && (forall i :: 0 <= i < |s| - 1 ==> End(s[i]) == s[i + 1].addr)
  }

  /** No two neighbours are both free. */
  ghost predicate Coalesced(s: seq<Iv>) {
    forall i :: 0 <= i < |s| - 1 ==> s[i].alloc || s[i + 1].alloc
  }

  ghost predicate Managed(s: seq<Iv>, a: nat, b: nat) { Tiles(s, a, b) && Coalesced(s) }

  // -------------------------------------------------------------- operations

  /** Index of the last free interval of at least `pages` pages, or -1. */
  function LastFit(s: seq<Iv>, pages: nat): (i: int)
    ensures -1 <= i < |s|
    ensures i >= 0 ==> !s[i].alloc && s[i].pages >= pages
    ensures forall k :: i < k < |s| ==> s[k].alloc || s[k].pages < pages
  {
    if s == [] then -1
    else
      var last := |s| - 1;
      if !s[last].alloc && s[last].pages >= pages then last else LastFit(s[..last], pages)
  }

  /** Cuts `pages` pages off the front of interval `i` and marks them allocated. */
  function Split(s: seq<Iv>, i: nat, pages: nat): seq<Iv>
    requires i < |s| && pages <= s[i].pages
  {
    var rest := if s[i].pages == pages then [] else [Iv(s[i].addr + pages * PAGE, s[i].pages - pages, false)];
    s[..i] + [Iv(s[i].addr, pages, true)] + rest + s[i + 1..]
  }

  datatype Placed = NoSpace | Placed(addr: nat, list: seq<Iv>)

  function Allocate(s: seq<Iv>, pages: nat): Placed {
    var i := LastFit(s, pages);
    if i < 0 then NoSpace else Placed(s[i].addr, Split(s, i, pages))
  }

  /** Index of the interval starting at `addr`, or -1. */
  function IndexOf(s: seq<Iv>, addr: nat): (i: int)
    ensures -1 <= i < |s|
    ensures i >= 0 ==> s[i].addr == addr
    ensures i < 0 ==> forall k :: 0 <= k < |s| ==> s[k].addr != addr
  {
    if s == [] then -1
    else if s[|s| - 1].addr == addr then |s| - 1
    else IndexOf(s[..|s| - 1], addr)
  }

  /** Joins interval `i` with the one after it. */
  function Merge(s: seq<Iv>, i: nat): seq<Iv>
    requires i + 1 < |s|
  {
    s[..i] + [Iv(s[i].addr, s[i].pages + s[i + 1].pages, s[i].alloc)] + s[i + 2..]
  }

  function MergeIfFree(s: seq<Iv>, i: nat): seq<Iv> {
    if i + 1 < |s| && !s[i].alloc && !s[i + 1].alloc then Merge(s, i) else s
  }

  /** Marks interval `i` free and merges it with a free neighbour on either side. */
  function Release(s: seq<Iv>, i: nat): seq<Iv>
    requires i < |s|
  {
    var s1 := s[i := s[i].(alloc := false)];
    var below := i > 0 && !s[i - 1].alloc;
    var s2 := if below then Merge(s1, i - 1) else s1;
    MergeIfFree(s2, if below then i - 1 else i)
  }

  function Free(s: seq<Iv>, addr: nat): seq<Iv> {
    var i := IndexOf(s, addr);
    if i >= 0 && s[i].alloc then Release(s, i) else s
  }

  // ------------------------------------------------------------------- order

  lemma {:induction false} TilesOrder(s: seq<Iv>, a: nat, b: nat, i: nat, j: nat)
    requires Tiles(s, a, b) && i < j < |s|
    ensures End(s[i]) <= s[j].addr < End(s[j]) <= b && a <= s[i].addr < End(s[i])
    decreases |s| - i
  {
    TilesBounds(s, a, b, i);
    TilesBounds(s, a, b, j);
    if i + 1 < j { TilesOrder(s, a, b, i + 1, j); }
  }

  lemma TilesBounds(s: seq<Iv>, a: nat, b: nat, i: nat)
    requires Tiles(s, a, b) && i < |s|
    ensures a <= s[i].addr < End(s[i]) <= b
  {
    var k := i;
    while k > 0
      invariant 0 <= k <= i && s[k].addr <= s[i].addr
    {
      k := k - 1;
    }
    k := i;
    while k + 1 < |s|
      invariant i <= k < |s| && End(s[i]) <= End(s[k])
    {
      k := k + 1;
    }
  }

  /** Two indices with the same start are the same index. */
  lemma SameStart(s: seq<Iv>, a: nat, b: nat, i: nat, j: nat)
    requires Tiles(s, a, b) && i < |s| && j < |s| && s[i].addr == s[j].addr
    ensures i == j
  {
    if i < j { TilesOrder(s, a, b, i, j); } else if j < i { TilesOrder(s, a, b, j, i); }
  }

  // ------------------------------------------------------- invariants of steps

  lemma SplitManaged(s: seq<Iv>, a: nat, b: nat, i: nat, pages: nat)
    requires Managed(s, a, b) && i < |s| && !s[i].alloc && 0 < pages <= s[i].pages
    ensures Managed(Split(s, i, pages), a, b)
  {
    var r := Split(s, i, pages);
    var d := if s[i].pages == pages then 0 else 1;
    assert forall k :: 0 <= k < i ==> r[k] == s[k];
    assert forall k :: i + 1 + d <= k < |r| ==> r[k] == s[k - d];
    assert End(r[i + d]) == End(s[i]);
  }

  /** A successful allocation keeps the range tiled and merged as far as possible. */
  lemma AllocateManaged(s: seq<Iv>, a: nat, b: nat, pages: nat)
    requires Managed(s, a, b) && pages > 0 && Allocate(s, pages).Placed?
    ensures Managed(Allocate(s, pages).list, a, b)
  {
    SplitManaged(s, a, b, LastFit(s, pages), pages);
  }

  lemma MergeTiles(s: seq<Iv>, a: nat, b: nat, i: nat)
    requires Tiles(s, a, b) && i + 1 < |s|
    ensures Tiles(Merge(s, i), a, b)
  {
    var r := Merge(s, i);
    assert forall k :: 0 <= k < i ==> r[k] == s[k];
    assert End(r[i]) == End(s[i + 1]);
    assert forall k :: i < k < |r| ==> r[k] == s[k + 1];
  }

  /** Only the neighbours of `i` may break coalescing. */
  ghost predicate CoalescedBut(s: seq<Iv>, i: nat) {
    forall k :: 0 <= k < |s| - 1 && k != i && k + 1 != i ==> s[k].alloc || s[k + 1].alloc
  }

  lemma MergeCoalesced(s: seq<Iv>, i: nat)
    requires i + 1 < |s| && CoalescedBut(s, i)
    requires i > 0 ==> s[i - 1].alloc
    requires i + 2 < |s| ==> s[i + 2].alloc
    ensures Coalesced(Merge(s, i))
  {
    var r := Merge(s, i);
    assert forall k :: 0 <= k < i ==> r[k] == s[k];
    assert forall k :: i < k < |r| ==> r[k] == s[k + 1];
  }

  lemma MergeCoalescedBut(s: seq<Iv>, i: nat)
    requires i + 1 < |s| && CoalescedBut(s, i + 1)
    requires i > 0 ==> s[i - 1].alloc
    ensures i < |Merge(s, i)| && Merge(s, i)[i].alloc == s[i].alloc
    ensures i > 0 ==> Merge(s, i)[i - 1].alloc
    ensures CoalescedBut(Merge(s, i), i)
  {
    var r := Merge(s, i);
    assert forall k :: 0 <= k < i ==> r[k] == s[k];
    assert forall k :: i < k < |r| ==> r[k] == s[k + 1];
  }

  lemma FlipTiles(s: seq<Iv>, a: nat, b: nat, i: nat)
    requires Managed(s, a, b) && i < |s|
    ensures Tiles(s[i := s[i].(alloc := false)], a, b)
    ensures CoalescedBut(s[i := s[i].(alloc := false)], i)
  {
    var s1 := s[i := s[i].(alloc := false)];
    assert forall k :: 0 <= k < |s| ==> s1[k].addr == s[k].addr && End(s1[k]) == End(s[k]);
  }

  lemma ReleaseManaged(s: seq<Iv>, a: nat, b: nat, i: nat)
    requires Managed(s, a, b) && i < |s| && s[i].alloc
    ensures Managed(Release(s, i), a, b)
  {
    var s1 := s[i := s[i].(alloc := false)];
    FlipTiles(s, a, b, i);
    if i > 0 && !s[i - 1].alloc {
      MergeTiles(s1, a, b, i - 1);
      MergeCoalescedBut(s1, i - 1);
      MergeRight(Merge(s1, i - 1), a, b, i - 1);
    } else {
      MergeRight(s1, a, b, i);
    }
  }

  lemma MergeRight(s: seq<Iv>, a: nat, b: nat, i: nat)
    requires Tiles(s, a, b) && i < |s| && !s[i].alloc && CoalescedBut(s, i)
    requires i > 0 ==> s[i - 1].alloc
    ensures Managed(MergeIfFree(s, i), a, b)
  {
    if i + 1 < |s| && !s[i + 1].alloc {
      MergeTiles(s, a, b, i);
      MergeCoalesced(s, i);
    }
  }

  /** `free_pages` keeps the range tiled and merged as far as possible, for any argument. */
  lemma FreeManaged(s: seq<Iv>, a: nat, b: nat, addr: nat)
    requires Managed(s, a, b)
    ensures Managed(Free(s, addr), a, b)
  {
    var i := IndexOf(s, addr);
    if i >= 0 && s[i].alloc { ReleaseManaged(s, a, b, i); }
  }

  // ------------------------------------------------------------------ blocks

  /** The intervals handed out and not yet freed: all a caller can know. */
  ghost function Blocks(s: seq<Iv>): set<Iv> { set v | v in s && v.alloc }

  lemma AllocateBlocks(s: seq<Iv>, pages: nat)
    requires Allocate(s, pages).Placed?
    ensures Blocks(Allocate(s, pages).list) == Blocks(s) + {Iv(Allocate(s, pages).addr, pages, true)}
  {
    var i := LastFit(s, pages);
    var r := Split(s, i, pages);
    var n := Iv(s[i].addr, pages, true);
    assert s == s[..i] + [s[i]] + s[i + 1..];
    assert r[i] == n;
    forall v: Iv | v.alloc ensures v in r <==> v in s || v == n {
    }
  }

  lemma MergeBlocks(s: seq<Iv>, i: nat)
    requires i + 1 < |s| && !s[i].alloc && !s[i + 1].alloc
    ensures Blocks(Merge(s, i)) == Blocks(s)
  {
    assert s == s[..i] + [s[i], s[i + 1]] + s[i + 2..];
  }

  lemma OnlyAt(s: seq<Iv>, a: nat, b: nat, n: Iv)
    requires Tiles(s, a, b) && n in s
    ensures forall v :: v in s && v.addr == n.addr ==> v == n
  {
    var i :| 0 <= i < |s| && s[i] == n;
    forall v | v in s && v.addr == n.addr ensures v == n {
      var k :| 0 <= k < |s| && s[k] == v;
      SameStart(s, a, b, i, k);
    }
  }

  lemma FreeBlocks(s: seq<Iv>, a: nat, b: nat, addr: nat)
    requires Managed(s, a, b)
    ensures Blocks(Free(s, addr)) == Blocks(s) - (set v | v in s && v.alloc && v.addr == addr)
  {
    var i := IndexOf(s, addr);
    hide Tiles, Coalesced;
    if i >= 0 { OnlyAt(s, a, b, s[i]); }
    if i >= 0 && s[i].alloc {
      var s1 := s[i := s[i].(alloc := false)];
      FlipBlocks(s, a, b, i);
      if i > 0 && !s[i - 1].alloc {
        MergeBlocks(s1, i - 1);
        var s2 := Merge(s1, i - 1);
        if i < |s2| && !s2[i].alloc { MergeBlocks(s2, i - 1); }
      } else {
        if i + 1 < |s1| && !s1[i + 1].alloc { MergeBlocks(s1, i); }
      }
    }
  }

  lemma FlipBlocks(s: seq<Iv>, a: nat, b: nat, i: nat)
    requires Tiles(s, a, b) && i < |s| && s[i].alloc
    ensures Blocks(s[i := s[i].(alloc := false)]) == Blocks(s) - {s[i]}
  {
    var s1 := s[i := s[i].(alloc := false)];
    forall v | v in s && v != s[i] ensures v in s1 {
      var k :| 0 <= k < |s| && s[k] == v;
      assert s1[k] == v;
    }
    forall v | v in s1 && v.alloc ensures v in s && v != s[i] {
      var k :| 0 <= k < |s| && s1[k] == v;
      if v == s[i] { SameStart(s, a, b, i, k); }
    }
  }

  // ---------------------------------------------------------- canonical form

  lemma {:induction false} SamePrefix(s: seq<Iv>, r: seq<Iv>, a: nat, b: nat, n: nat)
    requires Managed(s, a, b) && Managed(r, a, b) && Blocks(s) == Blocks(r)
    requires n <= |s| && n <= |r|
    ensures s[..n] == r[..n]
  {
    if n > 0 {
      SamePrefix(s, r, a, b, n - 1);
      var k := n - 1;
      assert k > 0 ==> s[..k][k - 1] == r[..k][k - 1];
      assert s[k].addr == r[k].addr;
      SameHead(s, r, a, b, k);
      SameHead(r, s, a, b, k);
      assert s[k] == r[k];
    }
  }

  /** At a common start, an allocated interval of `s` is one of `r`, and a free one is no longer. */
  lemma SameHead(s: seq<Iv>, r: seq<Iv>, a: nat, b: nat, k: nat)
    requires Managed(s, a, b) && Managed(r, a, b) && Blocks(s) == Blocks(r)
    requires k < |s| && k < |r| && s[k].addr == r[k].addr
    ensures if s[k].alloc then s[k] == r[k] else r[k].pages <= s[k].pages
  {
    if s[k].alloc {
      assert s[k] in Blocks(r);
      var j :| 0 <= j < |r| && r[j] == s[k];
      SameStart(r, a, b, j, k);
    } else if r[k].pages > s[k].pages {
      TilesBounds(r, a, b, k);
      assert k + 1 < |s| && s[k + 1].alloc;
      assert s[k + 1] in Blocks(r);
      var j :| 0 <= j < |r| && r[j] == s[k + 1];
      if j < k { TilesOrder(r, a, b, j, k); } else if k < j { TilesOrder(r, a, b, k, j); }
    }
  }

  /** The list is determined by the blocks handed out: nothing of the history is left in it. */
  lemma Canonical(s: seq<Iv>, r: seq<Iv>, a: nat, b: nat)
    requires Managed(s, a, b) && Managed(r, a, b) && Blocks(s) == Blocks(r)
    ensures s == r
  {
    var n := if |s| < |r| then |s| else |r|;
    SamePrefix(s, r, a, b, n);
    assert s[..n][n - 1] == r[..n][n - 1];
    if n < |s| { TilesOrder(s, a, b, n - 1, n); }
    if n < |r| { TilesOrder(r, a, b, n - 1, n); }
  }

  /** Freeing a fresh allocation restores the very same list. */
  lemma FreeUndoesAllocate(s: seq<Iv>, a: nat, b: nat, pages: nat)
    requires Managed(s, a, b) && pages > 0 && Allocate(s, pages).Placed?
    ensures Free(Allocate(s, pages).list, Allocate(s, pages).addr) == s
  {
    var p := Allocate(s, pages);
    AllocateManaged(s, a, b, pages);
    FreeManaged(p.list, a, b, p.addr);
    FreeUndoesBlocks(s, a, b, pages);
    Canonical(Free(p.list, p.addr), s, a, b);
  }

  lemma FreeUndoesBlocks(s: seq<Iv>, a: nat, b: nat, pages: nat)
    requires Managed(s, a, b) && pages > 0 && Allocate(s, pages).Placed?
    requires Managed(Allocate(s, pages).list, a, b)
    ensures Blocks(Free(Allocate(s, pages).list, Allocate(s, pages).addr)) == Blocks(s)
  {
    var p := Allocate(s, pages);
    var n := Iv(p.addr, pages, true);
    AllocateBlocks(s, pages);
    FreeBlocks(p.list, a, b, p.addr);
    assert n in Blocks(p.list);
    OnlyAt(p.list, a, b, n);
    assert (set v | v in p.list && v.alloc && v.addr == p.addr) == {n};
    OnlyAt(s, a, b, s[LastFit(s, pages)]);
    assert n !in Blocks(s);
  }

  // ------------------------------------------------------------ completeness

  ghost predicate PageFree(s: seq<Iv>, x: nat) {
    exists i :: 0 <= i < |s| && !s[i].alloc && s[i].addr <= x < End(s[i])
  }

  /** `pages` consecutive pages from `x` on, each inside some free interval. */
  ghost predicate FreeRun(s: seq<Iv>, x: nat, pages: nat) {
    forall k: nat :: k < pages ==> PageFree(s, x + k * PAGE)
  }

  /** A free run never leaves the interval it starts in, because free neighbours are merged. */
  lemma {:induction false} RunInOne(s: seq<Iv>, a: nat, b: nat, x: nat, pages: nat, i: nat, k: nat)
    requires Managed(s, a, b) && FreeRun(s, x, pages)
    requires i < |s| && !s[i].alloc && s[i].addr <= x < End(s[i])
    requires k < pages
    ensures x + k * PAGE < End(s[i])
  {
    if k > 0 {
      RunInOne(s, a, b, x, pages, i, k - 1);
      var y := x + k * PAGE;
      assert PageFree(s, y);
      var j :| 0 <= j < |s| && !s[j].alloc && s[j].addr <= y < End(s[j]);
      if j < i { TilesOrder(s, a, b, j, i); }
      if j > i + 1 { TilesOrder(s, a, b, i + 1, j); }
    }
  }

  /** Allocation fails if and only if no run of that many free pages exists anywhere. */
  lemma AllocateComplete(s: seq<Iv>, a: nat, b: nat, pages: nat)
    requires Managed(s, a, b) && pages > 0
    ensures Allocate(s, pages).NoSpace? <==> !exists x: nat :: FreeRun(s, x, pages)
  {
    var i := LastFit(s, pages);
    if i >= 0 {
      forall k: nat | k < pages ensures PageFree(s, s[i].addr + k * PAGE) {
        assert s[i].addr <= s[i].addr + k * PAGE < End(s[i]);
      }
      assert FreeRun(s, s[i].addr, pages);
    } else if exists x: nat :: FreeRun(s, x, pages) {
      var x: nat :| FreeRun(s, x, pages);
      assert PageFree(s, x + 0 * PAGE);
      var j :| 0 <= j < |s| && !s[j].alloc && s[j].addr <= x < End(s[j]);
      RunInOne(s, a, b, x, pages, j, pages - 1);
    }
  }

  /** The block handed out lies in the highest interval that could hold it. */
  lemma AllocateHighest(s: seq<Iv>, a: nat, b: nat, pages: nat, i: nat)
    requires Managed(s, a, b) && pages > 0 && i < |s| && !s[i].alloc && s[i].pages >= pages
    ensures Allocate(s, pages).Placed? && Allocate(s, pages).addr >= s[i].addr
  {
    var j := LastFit(s, pages);
    if i < j { TilesOrder(s, a, b, i, j); }
  }
}
