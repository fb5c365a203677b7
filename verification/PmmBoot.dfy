/**
 Filling the free-page stack from the memory map: `get_stack_size` of
 kernel/boot/common_boot.c and the first half of `pmm_init` in
 kernel/system/mem_mgmt/pmm.c. Addresses are in bytes here.
 */
module PmmBoot {
  import opened BootMemory
  import opened PhysicalPages
  import opened Words
  import PageTables
  import W = PhysicalWindow

  /** `struct mmap_entry`; kind 1 is available memory. */
  datatype MapEntry = MapEntry(base: nat, length: nat, kind: nat)

  const LOW := 0x10_0000

  function AlignDown(x: nat): nat { x - x % 4096 }

  predicate IsSafe(page: nat, unsafe: seq<Bytes>) {
    forall k :: 0 <= k < |unsafe| ==> !Has(unsafe[k], page)
  }

  /** The low page kept back and the stack. */
  datatype Filled = Filled(low: nat, stack: seq<nat>)

  /** The first page below 1 MiB is kept for starting the other CPUs, the rest is pushed. */
  function Place(st: Filled, cur: nat): Filled {
    if st.low == 0 && cur < LOW then st.(low := cur) else st.(stack := st.stack + [cur])
  }

  function FillFrom(st: Filled, cur: nat, end: nat, unsafe: seq<Bytes>): Filled
    decreases end - cur
  {
    if cur >= end then st
    else FillFrom(if IsSafe(cur, unsafe) then Place(st, cur) else st, cur + 4096, end, unsafe)
  }

  function FillEntry(st: Filled, e: MapEntry, unsafe: seq<Bytes>): Filled {
    if e.kind == 1 then FillFrom(st, AlignUp(e.base), AlignDown(e.base + e.length), unsafe) else st
  }

  /** The state after the first `n` entries of the map. */
  function Fill(mmap: seq<MapEntry>, unsafe: seq<Bytes>, n: nat): Filled
    requires n <= |mmap|
  {
    if n == 0 then Filled(0, []) else FillEntry(Fill(mmap, unsafe, n - 1), mmap[n - 1], unsafe)
  }

  /** Bytes reserved for the stack by the first `n` entries. */
  function Reserved(mmap: seq<MapEntry>, n: nat): nat
    requires n <= |mmap|
  {
    if n == 0 then 0
    else Reserved(mmap, n - 1) + (if mmap[n - 1].kind == 1 then mmap[n - 1].length / 4096 * 8 else 0)
  }

  /** The end of memory: the greatest end of the first `n` entries, of any kind. */
  function MaxEnd(mmap: seq<MapEntry>, n: nat): (m: nat)
    requires n <= |mmap|
    ensures forall k :: 0 <= k < n ==> mmap[k].base + mmap[k].length <= m
    ensures m == 0 || exists k :: 0 <= k < n && mmap[k].base + mmap[k].length == m
  {
    if n == 0 then 0
    else
      var m, e := MaxEnd(mmap, n - 1), mmap[n - 1].base + mmap[n - 1].length;
      if e > m then e else m
  }

  /** `get_stack_size`. */
  method GetStackSize(mmap: seq<MapEntry>) returns (size: nat)
    ensures size == Reserved(mmap, |mmap|)
  {
    size := 0;
    for i := 0 to |mmap|
      invariant size == Reserved(mmap, i)
    {
      if mmap[i].kind == 1 { size := size + mmap[i].length / 4096 * 8; }
    }
  }

  // ---------------------------------------------------------------- capacity

  /** Pages still to come in a stretch. */
  function Steps(cur: nat, end: nat): nat
    decreases end - cur
  {
    if cur >= end then 0 else 1 + Steps(cur + 4096, end)
  }

  lemma {:induction false} StepsAre(cur: nat, end: nat)
    requires cur % 4096 == 0 && end % 4096 == 0 && cur <= end
    ensures Steps(cur, end) == (end - cur) / 4096
    decreases end - cur
  {
    if cur < end {
      StepsAre(cur + 4096, end);
    }
  }

  lemma {:induction false} FillFromBound(st: Filled, cur: nat, end: nat, unsafe: seq<Bytes>)
    ensures |FillFrom(st, cur, end, unsafe).stack| <= |st.stack| + Steps(cur, end)
    decreases end - cur
  {
    if cur < end {
      FillFromBound(if IsSafe(cur, unsafe) then Place(st, cur) else st, cur + 4096, end, unsafe);
    }
  }

  /** However the entry is aligned, its whole pages number at most its length in pages. */
  lemma EntryPages(e: MapEntry)
    ensures Steps(AlignUp(e.base), AlignDown(e.base + e.length)) <= e.length / 4096
  {
    var lo, hi := AlignUp(e.base), AlignDown(e.base + e.length);
    if lo <= hi { StepsAre(lo, hi); }
  }

  /** `pmm_init` never pushes more than `get_stack_size` made room for, whatever the memory map. */
  lemma {:induction false} FillFits(mmap: seq<MapEntry>, unsafe: seq<Bytes>, n: nat)
    requires n <= |mmap|
    ensures 8 * |Fill(mmap, unsafe, n).stack| <= Reserved(mmap, n)
  {
    if n > 0 {
      FillFits(mmap, unsafe, n - 1);
      var e := mmap[n - 1];
      FillFromBound(Fill(mmap, unsafe, n - 1), AlignUp(e.base), AlignDown(e.base + e.length), unsafe);
      EntryPages(e);
    }
  }

  lemma {:induction false} FillGrows(st: Filled, cur: nat, end: nat, unsafe: seq<Bytes>)
    ensures |st.stack| <= |FillFrom(st, cur, end, unsafe).stack|
    decreases end - cur
  {
    if cur < end { FillGrows(if IsSafe(cur, unsafe) then Place(st, cur) else st, cur + 4096, end, unsafe); }
  }

  lemma {:induction false} ReservedGrows(mmap: seq<MapEntry>, n: nat)
    requires n <= |mmap|
    ensures Reserved(mmap, n) <= Reserved(mmap, |mmap|)
    decreases |mmap| - n
  {
    if n < |mmap| { ReservedGrows(mmap, n + 1); }
  }

  // -------------------------------------------------------------- the method

  method IsFree(cur: nat, unsafe: seq<Bytes>) returns (free: bool)
    ensures free == IsSafe(cur, unsafe)
  {
    free := true;
    var k := 0;
    while k < |unsafe|
      invariant k <= |unsafe| && free && forall j :: 0 <= j < k ==> !Has(unsafe[j], cur)
    {
      if cur >= unsafe[k].start && cur < unsafe[k].end {
        free := false;
        assert Has(unsafe[k], cur);
        break;
      }
      k := k + 1;
    }
  }

  lemma {:induction false} FillGrowsOn(mmap: seq<MapEntry>, unsafe: seq<Bytes>, n: nat)
    requires n <= |mmap|
    ensures |Fill(mmap, unsafe, n).stack| <= |Fill(mmap, unsafe, |mmap|).stack|
    decreases |mmap| - n
  {
    if n < |mmap| {
      var e := mmap[n];
      FillGrows(Fill(mmap, unsafe, n), AlignUp(e.base), AlignDown(e.base + e.length), unsafe);
      hide FillFrom;
      FillGrowsOn(mmap, unsafe, n + 1);
    }
  }

  /** The loops of `pmm_init` before paging is set up: fills the stack inside the buffer reserved for
      it and finds the end of memory. The buffer is used through its physical address `at`, and
      `fault` tells that a slot is not reached that way. */
  method FillStack(pmm: Pmm, at: nat, mem: PageTables.Mem, root: nat, mmap: seq<MapEntry>, unsafe: seq<Bytes>)
    returns (low: nat, maxAddr: nat, fault: bool)
    requires pmm.Valid() && pmm.index == 0 && Reserved(mmap, |mmap|) <= 8 * pmm.pages.Length
    modifies pmm`index, pmm.pages
    ensures pmm.Valid() && pmm.pages == old(pmm.pages)
    ensures fault <==> !W.SlotsReached(mem, root, at, |Fill(mmap, unsafe, |mmap|).stack|)
    ensures !fault ==> Filled(low, pmm.Stack()) == Fill(mmap, unsafe, |mmap|) && maxAddr == MaxEnd(mmap, |mmap|)
  {
    hide FillEntry, W.SlotReached;
    low, maxAddr, fault := 0, 0, false;
    var i := 0;
    while i < |mmap|
      invariant i <= |mmap| && pmm.Valid() && Filled(low, pmm.Stack()) == Fill(mmap, unsafe, i)
      invariant pmm.pages == old(pmm.pages) && maxAddr == MaxEnd(mmap, i) && !fault
      invariant W.SlotsReached(mem, root, at, pmm.index)
    {
      if mmap[i].base + mmap[i].length > maxAddr {
        maxAddr := mmap[i].base + mmap[i].length;
      }
      if mmap[i].kind == 1 {
        low, fault := FillOne(pmm, at, mem, root, mmap, unsafe, i, low);
        if fault {
          FillGrowsOn(mmap, unsafe, i + 1);
          return;
        }
      } else {
        Skipped(mmap, unsafe, i);
      }
      i := i + 1;
    }
  }

  lemma Skipped(mmap: seq<MapEntry>, unsafe: seq<Bytes>, i: nat)
    requires i < |mmap| && mmap[i].kind != 1
    ensures Fill(mmap, unsafe, i + 1) == Fill(mmap, unsafe, i)
  {
  }

  method FillOne(pmm: Pmm, at: nat, mem: PageTables.Mem, root: nat, mmap: seq<MapEntry>, unsafe: seq<Bytes>, i: nat, low0: nat)
    returns (low: nat, fault: bool)
    requires i < |mmap| && mmap[i].kind == 1
    requires pmm.Valid() && Filled(low0, pmm.Stack()) == Fill(mmap, unsafe, i) && W.SlotsReached(mem, root, at, pmm.index)
    requires Reserved(mmap, |mmap|) <= 8 * pmm.pages.Length
    modifies pmm`index, pmm.pages
    ensures pmm.Valid() && (fault <==> !W.SlotsReached(mem, root, at, |Fill(mmap, unsafe, i + 1).stack|))
    ensures !fault ==> Filled(low, pmm.Stack()) == Fill(mmap, unsafe, i + 1)
  {
    low, fault := low0, false;
    var start := mmap[i].base;
    if start % 4096 != 0 { start := start + (4096 - start % 4096); }
    var end := mmap[i].base + mmap[i].length;
    end := end - end % 4096;
    ghost var goal := Fill(mmap, unsafe, i + 1);
    FillFits(mmap, unsafe, i + 1);
    ReservedGrows(mmap, i + 1);
    hide Fill, Reserved, IsSafe, W.SlotReached, W.SlotsReached;
    var cur := start;
    while cur < end
      invariant pmm.Valid() && pmm.pages == old(pmm.pages) && !fault && W.SlotsReached(mem, root, at, pmm.index)
      invariant FillFrom(Filled(low, pmm.Stack()), cur, end, unsafe) == goal
      decreases end - cur
    {
      var free := IsFree(cur, unsafe);
      if free {
        if low == 0 && cur < LOW {
          low := cur;
        } else {
          ghost var st := Filled(low, pmm.Stack());
          FillGrows(Place(st, cur), cur + 4096, end, unsafe);
          fault := !W.SlotReached(mem, root, at, pmm.index);
          W.SlotsGrow(mem, root, at, pmm.index, |goal.stack|);
          if fault { return; }
          pmm.FreePage(cur);
          assert Filled(low, pmm.Stack()) == Place(st, cur);
        }
      }
      cur := cur + 4096;
    }
  }

  // --------------------------------------------------- exactly the free pages

  /** Candidates in the order they are met. */
  function Cands(cur: nat, end: nat, unsafe: seq<Bytes>): seq<nat>
    decreases end - cur
  {
    if cur >= end then []
    else (if IsSafe(cur, unsafe) then [cur] else []) + Cands(cur + 4096, end, unsafe)
  }

  function EntryCands(e: MapEntry, unsafe: seq<Bytes>): seq<nat> {
    if e.kind == 1 then Cands(AlignUp(e.base), AlignDown(e.base + e.length), unsafe) else []
  }

  function AllCands(mmap: seq<MapEntry>, unsafe: seq<Bytes>, n: nat): seq<nat>
    requires n <= |mmap|
  {
    if n == 0 then [] else AllCands(mmap, unsafe, n - 1) + EntryCands(mmap[n - 1], unsafe)
  }

  function PlaceAll(st: Filled, c: seq<nat>): Filled
    decreases |c|
  {
    if c == [] then st else PlaceAll(Place(st, c[0]), c[1..])
  }

  lemma {:induction false} PlaceAllSplit(st: Filled, a: seq<nat>, b: seq<nat>)
    ensures PlaceAll(st, a + b) == PlaceAll(PlaceAll(st, a), b)
    decreases |a|
  {
    if a == [] { assert a + b == b; }
    else { assert (a + b)[1..] == a[1..] + b; PlaceAllSplit(Place(st, a[0]), a[1..], b); }
  }

  lemma {:induction false} FillFromPlaces(st: Filled, cur: nat, end: nat, unsafe: seq<Bytes>)
    ensures FillFrom(st, cur, end, unsafe) == PlaceAll(st, Cands(cur, end, unsafe))
    decreases end - cur
  {
    hide IsSafe;
    if cur < end {
      var rest := Cands(cur + 4096, end, unsafe);
      if IsSafe(cur, unsafe) {
        FillFromPlaces(Place(st, cur), cur + 4096, end, unsafe);
        assert ([cur] + rest)[1..] == rest;
      } else {
        FillFromPlaces(st, cur + 4096, end, unsafe);
        assert [] + rest == rest;
      }
    }
  }

  lemma {:induction false} FillPlaces(mmap: seq<MapEntry>, unsafe: seq<Bytes>, n: nat)
    requires n <= |mmap|
    ensures Fill(mmap, unsafe, n) == PlaceAll(Filled(0, []), AllCands(mmap, unsafe, n))
  {
    hide FillEntry, EntryCands, PlaceAll;
    if n == 0 {
      PlaceNone(Filled(0, []));
    } else {
      FillPlaces(mmap, unsafe, n - 1);
      PlaceAllSplit(Filled(0, []), AllCands(mmap, unsafe, n - 1), EntryCands(mmap[n - 1], unsafe));
      EntryPlaces(Fill(mmap, unsafe, n - 1), mmap[n - 1], unsafe);
    }
  }

  lemma PlaceNone(st: Filled)
    ensures PlaceAll(st, []) == st
  {
  }

  lemma EntryPlaces(st: Filled, e: MapEntry, unsafe: seq<Bytes>)
    ensures FillEntry(st, e, unsafe) == PlaceAll(st, EntryCands(e, unsafe))
  {
    hide IsSafe, Cands, FillFrom;
    FillFromPlaces(st, AlignUp(e.base), AlignDown(e.base + e.length), unsafe);
  }

  ghost predicate Increasing(c: seq<nat>) { forall i, j :: 0 <= i < j < |c| ==> c[i] < c[j] }

  /** A whole available page that no unsafe range claims. */
  ghost predicate FreePageOf(e: MapEntry, unsafe: seq<Bytes>, x: nat) {
    e.kind == 1 && x % 4096 == 0 && e.base <= x && x + 4096 <= e.base + e.length && IsSafe(x, unsafe)
  }

  lemma {:induction false} CandsAre(cur: nat, end: nat, unsafe: seq<Bytes>, x: nat)
    requires cur % 4096 == 0 && end % 4096 == 0
    ensures x in Cands(cur, end, unsafe) <==> cur <= x < end && x % 4096 == 0 && IsSafe(x, unsafe)
    decreases end - cur
  {
    hide IsSafe;
    if cur < end { CandsAre(cur + 4096, end, unsafe, x); }
  }

  lemma {:induction false} CandsIncreasing(cur: nat, end: nat, unsafe: seq<Bytes>)
    ensures Increasing(Cands(cur, end, unsafe))
    ensures forall i :: 0 <= i < |Cands(cur, end, unsafe)| ==> cur <= Cands(cur, end, unsafe)[i] < end
    decreases end - cur
  {
    hide IsSafe;
    if cur < end { CandsIncreasing(cur + 4096, end, unsafe); }
  }

  lemma EntryCandsAre(e: MapEntry, unsafe: seq<Bytes>, x: nat)
    ensures x in EntryCands(e, unsafe) <==> FreePageOf(e, unsafe, x)
  {
    hide IsSafe;
    var lo, hi := AlignUp(e.base), AlignDown(e.base + e.length);
    CandsAre(lo, hi, unsafe, x);
    if x % 4096 == 0 { assert (lo <= x <==> e.base <= x) && (x < hi <==> x + 4096 <= e.base + e.length); }
  }

  lemma {:induction false} AllCandsAre(mmap: seq<MapEntry>, unsafe: seq<Bytes>, n: nat, x: nat)
    requires n <= |mmap|
    ensures x in AllCands(mmap, unsafe, n) <==> exists k :: 0 <= k < n && FreePageOf(mmap[k], unsafe, x)
  {
    hide FreePageOf, EntryCands;
    if n > 0 {
      AllCandsAre(mmap, unsafe, n - 1, x);
      EntryCandsAre(mmap[n - 1], unsafe, x);
    }
  }

  /** Entries in order and apart. */
  ghost predicate SortedMap(mmap: seq<MapEntry>) {
    forall i, j :: 0 <= i < j < |mmap| ==> mmap[i].base + mmap[i].length <= mmap[j].base
  }

  lemma {:induction false} AllCandsIncreasing(mmap: seq<MapEntry>, unsafe: seq<Bytes>, n: nat)
    requires n <= |mmap| && SortedMap(mmap)
    ensures Increasing(AllCands(mmap, unsafe, n))
  {
    hide SortedMap, Increasing, EntryCands, FreePageOf;
    if n > 0 {
      var a, e := AllCands(mmap, unsafe, n - 1), mmap[n - 1];
      var b := EntryCands(e, unsafe);
      AllCandsIncreasing(mmap, unsafe, n - 1);
      EntryCandsIncreasing(e, unsafe);
      forall i, j | 0 <= i < |a| && 0 <= j < |b| ensures a[i] < b[j] {
        CandOrder(mmap, unsafe, n, a[i], b[j]);
      }
      Appended(a, b);
    } else {
      assert Increasing([]) by { IncreasingEmpty(); }
    }
  }

  lemma IncreasingEmpty()
    ensures Increasing([])
  {
  }

  lemma EntryCandsIncreasing(e: MapEntry, unsafe: seq<Bytes>)
    ensures Increasing(EntryCands(e, unsafe))
  {
    CandsIncreasing(AlignUp(e.base), AlignDown(e.base + e.length), unsafe);
  }

  lemma CandOrder(mmap: seq<MapEntry>, unsafe: seq<Bytes>, n: nat, x: nat, y: nat)
    requires 0 < n <= |mmap| && SortedMap(mmap)
    requires x in AllCands(mmap, unsafe, n - 1) && y in EntryCands(mmap[n - 1], unsafe)
    ensures x < y
  {
    hide IsSafe, EntryCands, AllCands;
    AllCandsAre(mmap, unsafe, n - 1, x);
    EntryCandsAre(mmap[n - 1], unsafe, y);
    var k :| 0 <= k < n - 1 && FreePageOf(mmap[k], unsafe, x);
  }

  lemma Appended(a: seq<nat>, b: seq<nat>)
    requires Increasing(a) && Increasing(b) && forall i, j :: 0 <= i < |a| && 0 <= j < |b| ==> a[i] < b[j]
    ensures Increasing(a + b)
  {
  }

  lemma {:induction false} PlaceAllHigh(st: Filled, c: seq<nat>)
    requires st.low != 0 || forall i :: 0 <= i < |c| ==> c[i] >= LOW
    ensures PlaceAll(st, c) == Filled(st.low, st.stack + c)
    decreases |c|
  {
    if c == [] { assert st.stack + c == st.stack; }
    else {
      PlaceAllHigh(Place(st, c[0]), c[1..]);
      assert st.stack + [c[0]] + c[1..] == st.stack + c;
    }
  }

  /** What becomes of candidates met in increasing order: page 0 is dropped, the first other page
      below 1 MiB is kept back, all others are pushed in order. */
  lemma PlaceIncreasing(c: seq<nat>)
    requires Increasing(c)
    ensures var d := if c != [] && c[0] == 0 then c[1..] else c;
      PlaceAll(Filled(0, []), c) ==
        if d != [] && d[0] < LOW then Filled(d[0], d[1..]) else Filled(0, d)
  {
    var st := Filled(0, []);
    var d := if c != [] && c[0] == 0 then c[1..] else c;
    assert PlaceAll(st, c) == PlaceAll(st, d) by {
      if c != [] && c[0] == 0 { assert Place(st, 0) == st; }
    }
    if d != [] && d[0] < LOW {
      assert d[0] != 0;
      PlaceAllHigh(Filled(d[0], []), d[1..]);
      assert [] + d[1..] == d[1..];
    } else {
      PlaceAllHigh(st, d);
      assert [] + d == d;
    }
  }

  /** For a sorted map, the stack without repeats and the low page kept back are together exactly
      the whole, available, safe pages other than page 0. */
  lemma StackIsExact(mmap: seq<MapEntry>, unsafe: seq<Bytes>, x: nat)
    requires SortedMap(mmap)
    ensures var f := Fill(mmap, unsafe, |mmap|);
      && Increasing(f.stack) && f.low !in f.stack && 0 !in f.stack
      && (x in f.stack || (x == f.low && x != 0) <==>
           x != 0 && exists k :: 0 <= k < |mmap| && FreePageOf(mmap[k], unsafe, x))
  {
    hide FreePageOf, EntryCands;
    var c := AllCands(mmap, unsafe, |mmap|);
    FillPlaces(mmap, unsafe, |mmap|);
    AllCandsIncreasing(mmap, unsafe, |mmap|);
    AllCandsAre(mmap, unsafe, |mmap|, x);
    PlaceIncreasing(c);
    Sifted(c, x);
  }

  lemma Sifted(c: seq<nat>, x: nat)
    requires Increasing(c)
    ensures var d := if c != [] && c[0] == 0 then c[1..] else c;
      var f := if d != [] && d[0] < LOW then Filled(d[0], d[1..]) else Filled(0, d);
      && Increasing(f.stack) && f.low !in f.stack && 0 !in f.stack
      && (x in f.stack || (x == f.low && x != 0) <==> x != 0 && x in c)
  {
    var d := if c != [] && c[0] == 0 then c[1..] else c;
    if c != [] && c[0] == 0 { Behead(c, x); }
    if d != [] { Behead(d, x); }
  }

  lemma Behead(c: seq<nat>, x: nat)
    requires Increasing(c) && c != []
    ensures Increasing(c[1..]) && c[0] !in c[1..] && (x in c <==> x == c[0] || x in c[1..])
    ensures 0 !in c[1..]
  {
    assert c == [c[0]] + c[1..];
    assert forall i :: 0 <= i < |c[1..]| ==> c[1..][i] == c[i + 1] > c[0];
  }

  lemma {:induction false} PlacedFrom(st: Filled, c: seq<nat>, x: nat)
    requires x in PlaceAll(st, c).stack
    ensures x in st.stack || x in c
    decreases |c|
  {
    if c != [] { PlacedFrom(Place(st, c[0]), c[1..], x); }
  }

  /** Whatever the map, a page on the stack is a whole, available, safe page of some entry. */
  lemma StackIsFree(mmap: seq<MapEntry>, unsafe: seq<Bytes>, x: nat) returns (j: nat)
    requires x in Fill(mmap, unsafe, |mmap|).stack
    ensures j < |mmap| && FreePageOf(mmap[j], unsafe, x)
  {
    hide FreePageOf, Fill, EntryCands;
    FillPlaces(mmap, unsafe, |mmap|);
    PlacedFrom(Filled(0, []), AllCands(mmap, unsafe, |mmap|), x);
    AllCandsAre(mmap, unsafe, |mmap|, x);
    j :| 0 <= j < |mmap| && FreePageOf(mmap[j], unsafe, x);
  }

  /** A page on the stack keeps clear of every unsafe range that starts on a page boundary. */
  lemma StackKeepsClear(mmap: seq<MapEntry>, unsafe: seq<Bytes>, x: nat, k: nat)
    requires x in Fill(mmap, unsafe, |mmap|).stack
    requires k < |unsafe| && unsafe[k].start % 4096 == 0
    ensures forall y :: x <= y < x + 4096 ==> !Has(unsafe[k], y)
  {
    hide Fill;
    var j := StackIsFree(mmap, unsafe, x);
    assert !Has(unsafe[k], x);
    assert x % 4096 == 0;
  }

  /** With the page-table area among the unsafe ranges, no page on the stack is a page table the
      walk can reach. */
  lemma {:induction false} StackHasNoTable(mmap: seq<MapEntry>, unsafe: seq<Bytes>, x: nat, k: nat, lo: nat, hi: nat,
                        mem: PageTables.Mem, root: nat, at: PageTables.Pos)
    requires x in Fill(mmap, unsafe, |mmap|).stack
    requires k < |unsafe| && unsafe[k] == Bytes(lo * 4096, hi * 4096)
    requires forall f :: f in Tables(mem, root) ==> lo <= f < hi
    requires NoZeroTable(mem, root) && 1 <= at.level <= 4 && PageTables.TableAt(mem, root, at).Table?
    ensures x != PageTables.TableAt(mem, root, at).frame * 4096
  {
    AreaCovers(mem, root, at);
    StackKeepsClear(mmap, unsafe, x, k);
    assert !Has(unsafe[k], x);
  }
}
