/**
 The interval part of kernel/system/mem_mgmt/vmm/mem_mgmt.c on the tree:
 `alloc_virt` and the coalescing in `free_pages`, both working through node
 pointers that must stay good while the tree changes under them. The tree is
 shown to be an index of the plain list in `Intervals`.
 */
module VmmTree {
  import opened AvlTree
  import opened AvlProofs
  import opened AvlSearch
  import I = Intervals

  // ------------------------------------------------------------- operations

  datatype Placement<P> = Failed | Put(addr: nat, tree: Tree<P>)

  /** `alloc_virt`: the remainder is inserted first, then the chosen node is shrunk through its pointer. */
  function AllocVirt<P(==)>(t: Tree<P>, pages: nat, p: P): Placement<P> {
    match MinSize(t, pages)
    case Missing => Failed
    case Hit(n) =>
      var t1 := if n.pages > pages then Insert(t, p, n.addr + pages * 4096, n.pages - pages) else t;
      Put(n.addr, SetFields(t1, n.ptr, pages, true))
  }

  /** The lower neighbour takes over the pages of `n`, whose entry is removed first. */
  function AbsorbedBy<P(==)>(t: Tree<P>, prev: Entry<P>, n: Entry<P>): Tree<P> {
    SetFields(Delete(t, n.addr), prev.ptr, prev.pages + n.pages, prev.alloc)
  }

  /** `n` takes over the pages of the entry after it, which is removed afterwards. */
  function Absorbs<P(==)>(t: Tree<P>, n: Entry<P>, after: Entry<P>): Tree<P> {
    Delete(SetFields(t, n.ptr, n.pages + after.pages, n.alloc), after.addr)
  }

  function AbsorbAfter<P(==)>(t: Tree<P>, n: Entry<P>): Tree<P> {
    match Find(t, EndOf(n))
    case Hit(after) => if after.alloc then t else Absorbs(t, n, after)
    case Missing => t
  }

  /** The two coalescing steps of `free_pages`; `n` is the entry just marked free. */
  function Coalesce<P(==)>(t: Tree<P>, n: Entry<P>): Tree<P> {
    match Below(t, n.addr)
    case Hit(prev) =>
      if prev.alloc then AbsorbAfter(t, n)
      else AbsorbAfter(AbsorbedBy(t, prev, n), prev.(pages := prev.pages + n.pages))
    case Missing => AbsorbAfter(t, n)
  }

  function FreeVirt<P(==)>(t: Tree<P>, addr: nat): Tree<P> {
    match Find(t, addr)
    case Missing => t
    case Hit(n) =>
      if !n.alloc then t
      else Coalesce(SetFields(t, n.ptr, n.pages, false), n.(alloc := false))
  }

  // --------------------------------------------------------------- the list

  function DataOf<P>(e: Entry<P>): I.Iv { I.Iv(e.addr, e.pages, e.alloc) }

  function Data<P>(s: seq<Entry<P>>): (d: seq<I.Iv>)
    ensures |d| == |s|
    ensures forall i :: 0 <= i < |s| ==> d[i] == DataOf(s[i])
  {
    seq(|s|, i requires 0 <= i < |s| => DataOf(s[i]))
  }

  function ListOf<P>(t: Tree<P>): seq<I.Iv> { Data(InOrder(t)) }

  ghost predicate DistinctPtrs<P>(s: seq<Entry<P>>) {
    forall i, j :: 0 <= i < j < |s| ==> s[i].ptr != s[j].ptr
  }

  ghost predicate HasPtr<P>(s: seq<Entry<P>>, p: P) { exists i :: 0 <= i < |s| && s[i].ptr == p }

  /** What every operation keeps of the tree. */
  ghost predicate Indexes<P>(t: Tree<P>, a: nat, b: nat) {
    DistinctPtrs(InOrder(t)) && I.Managed(ListOf(t), a, b)
  }

  lemma TilesSorted<P>(s: seq<Entry<P>>, a: nat, b: nat)
    requires I.Tiles(Data(s), a, b)
    ensures Sorted(s) && EndsSorted(s)
    ensures forall i :: 0 <= i < |s| ==> a <= s[i].addr < EndOf(s[i]) <= b
  {
    var d := Data(s);
    forall i | 0 <= i < |s| ensures a <= s[i].addr < EndOf(s[i]) <= b {
      I.TilesBounds(d, a, b, i);
      assert d[i] == DataOf(s[i]);
    }
    forall i, j | 0 <= i < j < |s| ensures s[i].addr < s[j].addr && EndOf(s[i]) < EndOf(s[j]) {
      I.TilesOrder(d, a, b, i, j);
      assert d[i] == DataOf(s[i]) && d[j] == DataOf(s[j]);
    }
  }

  // -------------------------------------------------------- pointer writes

  function WriteAll<P(==)>(s: seq<Entry<P>>, p: P, pages: nat, alloc: bool): (r: seq<Entry<P>>)
    ensures |r| == |s|
    ensures forall i :: 0 <= i < |s| ==>
      r[i] == if s[i].ptr == p then Entry(p, s[i].addr, pages, alloc) else s[i]
  {
    seq(|s|, i requires 0 <= i < |s| => if s[i].ptr == p then Entry(p, s[i].addr, pages, alloc) else s[i])
  }

  lemma {:induction false} SetFieldsAll<P>(t: Tree<P>, p: P, pages: nat, alloc: bool)
    ensures InOrder(SetFields(t, p, pages, alloc)) == WriteAll(InOrder(t), p, pages, alloc)
  {
    if t.Node? {
      SetFieldsAll(t.left, p, pages, alloc);
      SetFieldsAll(t.right, p, pages, alloc);
    }
  }

  /** A write through the pointer of entry `i` changes that entry and no other. */
  lemma SetFieldsAt<P>(t: Tree<P>, i: nat, pages: nat, alloc: bool)
    requires DistinctPtrs(InOrder(t)) && i < |InOrder(t)|
    ensures var s := InOrder(t);
      InOrder(SetFields(t, s[i].ptr, pages, alloc)) == s[i := Entry(s[i].ptr, s[i].addr, pages, alloc)]
  {
    SetFieldsAll(t, InOrder(t)[i].ptr, pages, alloc);
  }

  // ------------------------------------------------------------ searches

  lemma {:induction false} ScanFitAt<P>(s: seq<Entry<P>>, pages: nat)
    ensures var i := I.LastFit(Data(s), pages);
      ScanFit(s, pages) == if i < 0 then Missing else Hit(s[i])
  {
    if s != [] {
      var k := |s| - 1;
      assert Data(s)[k] == DataOf(s[k]);
      assert Data(s)[..k] == Data(s[..k]);
      ScanFitAt(s[..k], pages);
    }
  }

  lemma FindAt<P>(t: Tree<P>, addr: nat, i: nat)
    requires Sorted(InOrder(t)) && i < |InOrder(t)| && InOrder(t)[i].addr == addr
    ensures Find(t, addr) == Hit(InOrder(t)[i])
  {
    FindIsScan(t, addr);
    ScanStartIs(InOrder(t), addr);
    var e := InOrder(t)[i];
    assert e in InOrder(t);
  }

  lemma FindMissing<P>(t: Tree<P>, addr: nat)
    requires Sorted(InOrder(t)) && forall i :: 0 <= i < |InOrder(t)| ==> InOrder(t)[i].addr != addr
    ensures Find(t, addr) == Missing
  {
    FindIsScan(t, addr);
    ScanStartIs(InOrder(t), addr);
  }

  /** The most pages a managed range may have for `avl_below` to be right. */
  const MAX_SPAN := 0x8_0001

  /** `avl_below` finds the lower neighbour of entry `i`, if there is one. */
  lemma BelowAt<P>(t: Tree<P>, a: nat, b: nat, i: nat)
    requires I.Tiles(ListOf(t), a, b) && b - a <= MAX_SPAN * 4096 && i < |InOrder(t)|
    ensures Below(t, InOrder(t)[i].addr) == if i == 0 then Missing else Hit(InOrder(t)[i - 1])
  {
    hide InOrder, Below;
    var s, d := InOrder(t), ListOf(t);
    var addr := s[i].addr;
    TilesSorted(s, a, b);
    if i == 0 {
      FirstEnds(s, a, b);
      BelowSound(t, addr);
    } else {
      NeighbourReach(s, a, b, i);
      BelowIsScan(t, addr);
      ScanEndIs(s, addr);
      assert s[i - 1] in s;
    }
  }

  lemma FirstEnds<P>(s: seq<Entry<P>>, a: nat, b: nat)
    requires I.Tiles(Data(s), a, b) && b - a <= MAX_SPAN * 4096
    ensures s[0].addr == a
    ensures forall e :: e in s ==> a < EndOf(e) <= b
  {
    TilesSorted(s, a, b);
    assert Data(s)[0] == DataOf(s[0]);
  }

  /** The reach of the search: a neighbour below lies at least one page up, `addr` one page down. */
  lemma NeighbourReach<P>(s: seq<Entry<P>>, a: nat, b: nat, i: nat)
    requires I.Tiles(Data(s), a, b) && b - a <= MAX_SPAN * 4096 && 0 < i < |s|
    ensures EndOf(s[i - 1]) == s[i].addr
    ensures InReach(s, s[i].addr)
  {
    var d := Data(s);
    TilesSorted(s, a, b);
    forall k | 0 <= k < |s| ensures a + 4096 <= EndOf(s[k]) && s[k].addr <= b - 4096 {
      assert d[k] == DataOf(s[k]) && d[k].pages > 0;
    }
    assert d[i - 1] == DataOf(s[i - 1]) && d[i] == DataOf(s[i]);
  }

  // ------------------------------------------------------------- allocation

  /** Allocation leaves a remainder, which needs a node of its own. */
  predicate UsesNode<P>(t: Tree<P>, pages: nat) {
    MinSize(t, pages).Hit? && MinSize(t, pages).e.pages > pages
  }

  lemma {:induction false} InsertNext<P>(s: seq<Entry<P>>, i: nat, e: Entry<P>)
    requires Sorted(s) && i < |s| && s[i].addr < e.addr
    requires i + 1 < |s| ==> e.addr < s[i + 1].addr
    ensures InsertEntry(s, e) == s[..i + 1] + [e] + s[i + 1..]
  {
    var k := InsertSpot(s, e);
    if k <= i { assert false; }
    if k > i + 1 { assert false; }
  }

  /** `alloc_virt` does to the list what `Intervals.Allocate` does, and keeps node pointers distinct. */
  lemma AllocVirtRefines<P>(t: Tree<P>, a: nat, b: nat, pages: nat, p: P)
    requires Indexes(t, a, b) && pages > 0 && (UsesNode(t, pages) ==> !HasPtr(InOrder(t), p))
    ensures match AllocVirt(t, pages, p)
      case Failed => I.Allocate(ListOf(t), pages).NoSpace?
      case Put(addr, t') => I.Allocate(ListOf(t), pages) == I.Placed(addr, ListOf(t')) && Indexes(t', a, b)
  {
    var s, d := InOrder(t), ListOf(t);
    var i := I.LastFit(d, pages);
    MinSizeIsScan(t, pages);
    ScanFitAt(s, pages);
    if i >= 0 {
      TilesSorted(s, a, b);
      AllocVirtList(t, a, b, pages, p, i);
      I.AllocateManaged(d, a, b, pages);
    }
  }

  lemma AllocVirtList<P>(t: Tree<P>, a: nat, b: nat, pages: nat, p: P, i: nat)
    requires Indexes(t, a, b) && pages > 0 && (UsesNode(t, pages) ==> !HasPtr(InOrder(t), p)) && Sorted(InOrder(t))
    requires i < |InOrder(t)| && MinSize(t, pages) == Hit(InOrder(t)[i])
    requires !InOrder(t)[i].alloc && pages <= InOrder(t)[i].pages
    ensures var t' := AllocVirt(t, pages, p).tree;
      ListOf(t') == I.Split(ListOf(t), i, pages) && DistinctPtrs(InOrder(t'))
  {
    hide InOrder, Insert, SetFields, MinSize, I.Split, DistinctPtrs, HasPtr, Sorted, I.Coalesced;
    var s, d := InOrder(t), ListOf(t);
    var n := s[i];
    if n.pages > pages {
      var e := Entry(p, n.addr + pages * 4096, n.pages - pages, false);
      assert i + 1 < |s| ==> e.addr < s[i + 1].addr by {
        assert d[i] == DataOf(s[i]);
        if i + 1 < |s| { assert d[i + 1] == DataOf(s[i + 1]); }
      }
      AllocVirtSplit(t, pages, e, i);
    } else {
      SetFieldsAt(t, i, pages, true);
      WholeData(s, i);
    }
  }

  lemma AllocVirtSplit<P>(t: Tree<P>, pages: nat, e: Entry<P>, i: nat)
    requires Sorted(InOrder(t)) && DistinctPtrs(InOrder(t)) && !HasPtr(InOrder(t), e.ptr)
    requires i < |InOrder(t)| && 0 < pages < InOrder(t)[i].pages
    requires DataOf(e) == I.Iv(InOrder(t)[i].addr + pages * 4096, InOrder(t)[i].pages - pages, false)
    requires i + 1 < |InOrder(t)| ==> e.addr < InOrder(t)[i + 1].addr
    ensures var r := SetFields(Insert(t, e.ptr, e.addr, e.pages), InOrder(t)[i].ptr, pages, true);
      ListOf(r) == I.Split(ListOf(t), i, pages) && DistinctPtrs(InOrder(r))
  {
    hide InOrder, Insert, SetFields, I.Split, DistinctPtrs, HasPtr, Sorted;
    var s := InOrder(t);
    InsertList(t, e.ptr, e.addr, e.pages);
    InsertNext(s, i, e);
    AddedPtr(s, i, e);
    var s1 := s[..i + 1] + [e] + s[i + 1..];
    SetFieldsAt(Insert(t, e.ptr, e.addr, e.pages), i, pages, true);
    SplitData(s, i, pages, e);
    SetDistinct(s1, i, pages, true);
  }

  lemma SetDistinct<P>(s: seq<Entry<P>>, i: nat, pages: nat, alloc: bool)
    requires DistinctPtrs(s) && i < |s|
    ensures DistinctPtrs(s[i := Entry(s[i].ptr, s[i].addr, pages, alloc)])
  {
  }

  /** No entry starts where the remainder will. */
  lemma RemainderAbsent<P>(t: Tree<P>, a: nat, b: nat, pages: nat)
    requires Indexes(t, a, b) && pages > 0 && UsesNode(t, pages)
    ensures Find(t, MinSize(t, pages).e.addr + pages * 4096) == Missing
  {
    hide DistinctPtrs, MinSize, Find, InOrder, Sorted, EndsSorted, I.Tiles, I.Coalesced;
    var s, d := InOrder(t), ListOf(t);
    var i := I.LastFit(d, pages);
    MinSizeIsScan(t, pages);
    ScanFitAt(s, pages);
    assert d[i] == DataOf(s[i]);
    AbsentInside(t, a, b, i, pages);
  }

  lemma AbsentInside<P>(t: Tree<P>, a: nat, b: nat, i: nat, pages: nat)
    requires I.Tiles(ListOf(t), a, b) && i < |InOrder(t)| && 0 < pages < InOrder(t)[i].pages
    ensures Find(t, InOrder(t)[i].addr + pages * 4096) == Missing
  {
    hide Find, InOrder, Sorted, EndsSorted, I.Tiles;
    var s, d := InOrder(t), ListOf(t);
    TilesSorted(s, a, b);
    var x := s[i].addr + pages * 4096;
    forall k | 0 <= k < |s| ensures s[k].addr != x {
      assert d[k] == DataOf(s[k]) && d[i] == DataOf(s[i]);
      NoStartInside(d, a, b, i, k, pages);
    }
    FindMissing(t, x);
  }

  lemma NoStartInside(d: seq<I.Iv>, a: nat, b: nat, i: nat, k: nat, pages: nat)
    requires I.Tiles(d, a, b) && i < |d| && k < |d| && 0 < pages < d[i].pages
    ensures d[k].addr != d[i].addr + pages * 4096
  {
    if i < k { I.TilesOrder(d, a, b, i, k); } else if k < i { I.TilesOrder(d, a, b, k, i); }
  }

  lemma SplitData<P>(s: seq<Entry<P>>, i: nat, pages: nat, e: Entry<P>)
    requires i < |s| && pages < s[i].pages && DataOf(e) == I.Iv(s[i].addr + pages * 4096, s[i].pages - pages, false)
    ensures var r := s[..i + 1] + [e] + s[i + 1..];
      Data(r[i := Entry(s[i].ptr, s[i].addr, pages, true)]) == I.Split(Data(s), i, pages)
  {
    var r := s[..i + 1] + [e] + s[i + 1..];
    var q := r[i := Entry(s[i].ptr, s[i].addr, pages, true)];
    var d := Data(s);
    assert d[i] == DataOf(s[i]);
    assert Data(q)[..i] == d[..i];
    assert Data(q)[i + 2..] == d[i + 1..];
    assert Data(q) == Data(q)[..i] + [Data(q)[i]] + [Data(q)[i + 1]] + Data(q)[i + 2..];
  }

  lemma WholeData<P>(s: seq<Entry<P>>, i: nat)
    requires i < |s|
    ensures Data(s[i := Entry(s[i].ptr, s[i].addr, s[i].pages, true)]) == I.Split(Data(s), i, s[i].pages)
    ensures DistinctPtrs(s) ==> DistinctPtrs(s[i := Entry(s[i].ptr, s[i].addr, s[i].pages, true)])
  {
  }

  lemma AddedPtr<P>(s: seq<Entry<P>>, i: nat, e: Entry<P>)
    requires DistinctPtrs(s) && i < |s| && !HasPtr(s, e.ptr)
    ensures DistinctPtrs(s[..i + 1] + [e] + s[i + 1..])
    ensures (s[..i + 1] + [e] + s[i + 1..])[i] == s[i]
  {
  }

  // ---------------------------------------------------------------- freeing

  function Drop(d: seq<I.Iv>, i: nat): seq<I.Iv>
    requires i < |d|
  {
    d[..i] + d[i + 1..]
  }

  /** Deleting entry `i` by address: the list loses it, entries before it keep their nodes. */
  lemma DeleteAt<P>(t: Tree<P>, i: nat)
    requires Sorted(InOrder(t)) && DistinctPtrs(InOrder(t)) && i < |InOrder(t)|
    ensures var s, r := InOrder(t), InOrder(Delete(t, InOrder(t)[i].addr));
      && |r| == |s| - 1 && r[..i] == s[..i] && DistinctPtrs(r)
      && Data(r) == Drop(Data(s), i)
  {
    hide InOrder, Delete, Freed, Without, Drop, DistinctPtrs;
    var s := InOrder(t);
    var k, moved := DeleteList(t, s[i].addr);
    assert k == i;
    WithoutData(s, i, moved);
  }

  lemma WithoutData<P>(s: seq<Entry<P>>, i: nat, moved: bool)
    requires DistinctPtrs(s) && i < |s| && (moved ==> i + 1 < |s|)
    ensures var r := Without(s, i, moved);
      |r| == |s| - 1 && r[..i] == s[..i] && DistinctPtrs(r) && Data(r) == Drop(Data(s), i)
  {
    WithoutIndex(s, i, moved);
    WithoutPtrs(s, Without(s, i, moved), i, moved);
    WithoutDrop(s, Without(s, i, moved), i);
  }

  lemma WithoutIndex<P>(s: seq<Entry<P>>, i: nat, moved: bool)
    requires i < |s| && (moved ==> i + 1 < |s|)
    ensures var r := Without(s, i, moved);
      && |r| == |s| - 1 && r[..i] == s[..i]
      && (forall k :: 0 <= k < i ==> r[k] == s[k])
      && (moved ==> r[i] == Entry(s[i].ptr, s[i + 1].addr, s[i + 1].pages, s[i + 1].alloc))
      && (forall k :: (if moved then i + 1 else i) <= k < |r| ==> r[k] == s[k + 1])
  {
    if moved {
      SeqIndex(s[..i], [Entry(s[i].ptr, s[i + 1].addr, s[i + 1].pages, s[i + 1].alloc)], s[i + 2..]);
    } else {
      SeqIndex(s[..i], [], s[i + 1..]);
      assert s[..i] + [] == s[..i];
    }
  }

  lemma SeqIndex<T>(a: seq<T>, x: seq<T>, b: seq<T>)
    ensures var r := a + x + b;
      && |r| == |a| + |x| + |b| && r[..|a|] == a
      && (forall k :: 0 <= k < |a| ==> r[k] == a[k])
      && (forall k :: 0 <= k < |x| ==> r[|a| + k] == x[k])
      && (forall k :: |a| + |x| <= k < |r| ==> r[k] == b[k - |a| - |x|])
  {
  }

  lemma WithoutPtrs<P>(s: seq<Entry<P>>, r: seq<Entry<P>>, i: nat, moved: bool)
    requires DistinctPtrs(s) && i < |s| && (moved ==> i + 1 < |s|) && |r| == |s| - 1
    requires forall k :: 0 <= k < i ==> r[k] == s[k]
    requires moved ==> r[i].ptr == s[i].ptr
    requires forall k :: (if moved then i + 1 else i) <= k < |r| ==> r[k] == s[k + 1]
    ensures DistinctPtrs(r)
  {
  }

  lemma WithoutDrop<P>(s: seq<Entry<P>>, r: seq<Entry<P>>, i: nat)
    requires i < |s| && |r| == |s| - 1
    requires forall k :: 0 <= k < i ==> r[k] == s[k]
    requires forall k :: i <= k < |r| ==> DataOf(r[k]) == DataOf(s[k + 1])
    ensures Data(r) == Drop(Data(s), i)
  {
    forall k | 0 <= k < |r| ensures Data(r)[k] == Drop(Data(s), i)[k] {
    }
  }

  lemma SameData<P>(s: seq<Entry<P>>, j: nat, pages: nat)
    requires j < |s|
    ensures Data(s[j := Entry(s[j].ptr, s[j].addr, pages, s[j].alloc)])
      == Data(s)[j := I.Iv(s[j].addr, pages, s[j].alloc)]
  {
  }

  /** The node held as `prev` survives the removal of its right neighbour and ends up holding both. */
  lemma AbsorbedByList<P>(t: Tree<P>, a: nat, b: nat, j: nat)
    requires I.Tiles(ListOf(t), a, b) && DistinctPtrs(InOrder(t)) && j + 1 < |InOrder(t)|
    ensures var s := InOrder(t);
      var r := InOrder(AbsorbedBy(t, s[j], s[j + 1]));
      && Data(r) == I.Merge(Data(s), j) && DistinctPtrs(r) && |r| == |s| - 1
      && r[j] == s[j].(pages := s[j].pages + s[j + 1].pages)
  {
    hide InOrder, SetFields, Delete, DistinctPtrs, Sorted, EndsSorted, I.Tiles, I.Merge, Drop;
    var s := InOrder(t);
    TilesSorted(s, a, b);
    DeleteAt(t, j + 1);
    var t1 := Delete(t, s[j + 1].addr);
    var r := InOrder(t1);
    assert r[j] == r[..j + 1][j] == s[..j + 1][j] == s[j];
    SetFieldsAt(t1, j, s[j].pages + s[j + 1].pages, s[j].alloc);
    MergedData(s, r, j);
  }

  lemma MergedData<P>(s: seq<Entry<P>>, r: seq<Entry<P>>, j: nat)
    requires j + 1 < |s| && |r| == |s| - 1 && r[j] == s[j] && DistinctPtrs(r)
    requires Data(r) == Drop(Data(s), j + 1)
    ensures var q := r[j := Entry(r[j].ptr, r[j].addr, s[j].pages + s[j + 1].pages, r[j].alloc)];
      Data(q) == I.Merge(Data(s), j) && DistinctPtrs(q)
  {
    SameData(r, j, s[j].pages + s[j + 1].pages);
    MergeIs(s, j);
    DropThenWrite(Data(s), j, I.Iv(s[j].addr, s[j].pages + s[j + 1].pages, s[j].alloc));
  }

  lemma DropThenWrite(d: seq<I.Iv>, j: nat, v: I.Iv)
    requires j + 1 < |d|
    ensures Drop(d, j + 1)[j := v] == d[..j] + [v] + d[j + 2..]
    ensures Drop(d[j := v], j + 1) == d[..j] + [v] + d[j + 2..]
  {
    assert d[j := v][..j + 1] == d[..j] + [v] && d[j := v][j + 2..] == d[j + 2..];
  }

  lemma AbsorbsList<P>(t: Tree<P>, a: nat, b: nat, j: nat)
    requires I.Tiles(ListOf(t), a, b) && DistinctPtrs(InOrder(t)) && j + 1 < |InOrder(t)|
    ensures var s := InOrder(t);
      var r := InOrder(Absorbs(t, s[j], s[j + 1]));
      Data(r) == I.Merge(Data(s), j) && DistinctPtrs(r)
  {
    hide InOrder, SetFields, Delete, DistinctPtrs, Sorted, EndsSorted, I.Tiles, Drop, I.Merge;
    var s := InOrder(t);
    TilesSorted(s, a, b);
    var pages := s[j].pages + s[j + 1].pages;
    SetFieldsAt(t, j, pages, s[j].alloc);
    SameOrder(s, j, pages);
    var t1 := SetFields(t, s[j].ptr, pages, s[j].alloc);
    assert InOrder(t1)[j + 1] == s[j + 1];
    DeleteAt(t1, j + 1);
    AbsorbsData(s, j);
  }

  lemma AbsorbsData<P>(s: seq<Entry<P>>, j: nat)
    requires j + 1 < |s|
    ensures Drop(Data(s[j := Entry(s[j].ptr, s[j].addr, s[j].pages + s[j + 1].pages, s[j].alloc)]), j + 1)
      == I.Merge(Data(s), j)
  {
    hide Drop, I.Merge;
    SameData(s, j, s[j].pages + s[j + 1].pages);
    MergeIs(s, j);
    DropThenWrite(Data(s), j, I.Iv(s[j].addr, s[j].pages + s[j + 1].pages, s[j].alloc));
  }

  lemma MergeIs<P>(s: seq<Entry<P>>, j: nat)
    requires j + 1 < |s|
    ensures I.Merge(Data(s), j)
      == Data(s)[..j] + [I.Iv(s[j].addr, s[j].pages + s[j + 1].pages, s[j].alloc)] + Data(s)[j + 2..]
  {
  }

  lemma SameOrder<P>(s: seq<Entry<P>>, j: nat, pages: nat)
    requires Sorted(s) && DistinctPtrs(s) && j < |s|
    ensures var r := s[j := Entry(s[j].ptr, s[j].addr, pages, s[j].alloc)];
      Sorted(r) && DistinctPtrs(r)
  {
  }

  lemma AbsorbAfterList<P>(t: Tree<P>, a: nat, b: nat, j: nat)
    requires I.Tiles(ListOf(t), a, b) && DistinctPtrs(InOrder(t)) && j < |InOrder(t)| && !InOrder(t)[j].alloc
    ensures ListOf(AbsorbAfter(t, InOrder(t)[j])) == I.MergeIfFree(ListOf(t), j)
    ensures DistinctPtrs(InOrder(AbsorbAfter(t, InOrder(t)[j])))
  {
    var s, d := InOrder(t), ListOf(t);
    TilesSorted(s, a, b);
    assert d[j] == DataOf(s[j]);
    if j + 1 < |s| {
      assert d[j + 1] == DataOf(s[j + 1]) && EndOf(s[j]) == I.End(d[j]) == s[j + 1].addr;
      FindAt(t, EndOf(s[j]), j + 1);
      AbsorbsList(t, a, b, j);
    } else {
      forall k | 0 <= k < |s| ensures s[k].addr != EndOf(s[j]) { }
      FindMissing(t, EndOf(s[j]));
    }
  }

  lemma CoalesceList<P>(t: Tree<P>, a: nat, b: nat, i: nat)
    requires I.Tiles(ListOf(t), a, b) && b - a <= MAX_SPAN * 4096
    requires DistinctPtrs(InOrder(t)) && i < |InOrder(t)| && !InOrder(t)[i].alloc
    ensures var s, d := InOrder(t), ListOf(t);
      var below := i > 0 && !d[i - 1].alloc;
      ListOf(Coalesce(t, s[i])) == I.MergeIfFree(if below then I.Merge(d, i - 1) else d, if below then i - 1 else i)
    ensures DistinctPtrs(InOrder(Coalesce(t, InOrder(t)[i])))
  {
    hide AbsorbAfter, AbsorbedBy, InOrder, Below, I.Merge, I.MergeIfFree, DistinctPtrs, I.Tiles;
    var s, d := InOrder(t), ListOf(t);
    BelowAt(t, a, b, i);
    assert i > 0 ==> d[i - 1] == DataOf(s[i - 1]);
    if i > 0 && !s[i - 1].alloc {
      CoalesceDown(t, a, b, i - 1);
    } else {
      AbsorbAfterList(t, a, b, i);
    }
  }

  lemma CoalesceDown<P>(t: Tree<P>, a: nat, b: nat, j: nat)
    requires I.Tiles(ListOf(t), a, b) && DistinctPtrs(InOrder(t)) && j + 1 < |InOrder(t)|
    requires !InOrder(t)[j].alloc
    ensures var s := InOrder(t);
      var r := AbsorbAfter(AbsorbedBy(t, s[j], s[j + 1]), s[j].(pages := s[j].pages + s[j + 1].pages));
      ListOf(r) == I.MergeIfFree(I.Merge(ListOf(t), j), j) && DistinctPtrs(InOrder(r))
  {
    hide AbsorbAfter, AbsorbedBy, InOrder, I.Merge, I.MergeIfFree, DistinctPtrs, I.Tiles;
    AbsorbedByList(t, a, b, j);
    I.MergeTiles(ListOf(t), a, b, j);
    AbsorbAfterList(AbsorbedBy(t, InOrder(t)[j], InOrder(t)[j + 1]), a, b, j);
  }

  /** The tree work of `free_pages` does to the list what `Intervals.Free` does. */
  lemma FreeVirtRefines<P>(t: Tree<P>, a: nat, b: nat, addr: nat)
    requires Indexes(t, a, b) && b - a <= MAX_SPAN * 4096
    ensures ListOf(FreeVirt(t, addr)) == I.Free(ListOf(t), addr)
    ensures Indexes(FreeVirt(t, addr), a, b)
  {
    var s, d := InOrder(t), ListOf(t);
    TilesSorted(s, a, b);
    I.FreeManaged(d, a, b, addr);
    var i := I.IndexOf(d, addr);
    if i < 0 {
      assert forall k :: 0 <= k < |s| ==> d[k] == DataOf(s[k]);
      FindMissing(t, addr);
    } else {
      assert d[i] == DataOf(s[i]);
      FindAt(t, addr, i);
      if s[i].alloc {
        FreeVirtAt(t, a, b, i);
      }
    }
  }

  lemma FreeVirtAt<P>(t: Tree<P>, a: nat, b: nat, i: nat)
    requires Indexes(t, a, b) && b - a <= MAX_SPAN * 4096 && i < |InOrder(t)| && InOrder(t)[i].alloc
    ensures var n := InOrder(t)[i];
      var r := Coalesce(SetFields(t, n.ptr, n.pages, false), n.(alloc := false));
      ListOf(r) == I.Release(ListOf(t), i) && DistinctPtrs(InOrder(r))
  {
    var s, d := InOrder(t), ListOf(t);
    var n := s[i];
    SetFieldsAt(t, i, n.pages, false);
    var t1 := SetFields(t, n.ptr, n.pages, false);
    var s1 := InOrder(t1);
    assert s1 == s[i := n.(alloc := false)];
    assert Data(s1) == d[i := d[i].(alloc := false)];
    I.FlipTiles(d, a, b, i);
    CoalesceList(t1, a, b, i);
  }
}
