/**
 The three searches of kernel/system/mem_mgmt/vmm/avl_tree.c against linear
 scans of the ordered list.
 */
module AvlSearch {
  import opened AvlTree
  import opened Words
  import opened AvlProofs

  // ----------------------------------------------------------- linear scans

  function ScanStart<P>(s: seq<Entry<P>>, addr: nat): Found<P> {
    if s == [] then Missing else if s[0].addr == addr then Hit(s[0]) else ScanStart(s[1..], addr)
  }

  function ScanEnd<P>(s: seq<Entry<P>>, addr: nat): Found<P> {
    if s == [] then Missing else if EndOf(s[0]) == addr then Hit(s[0]) else ScanEnd(s[1..], addr)
  }

  function ScanFit<P>(s: seq<Entry<P>>, pages: nat): Found<P> {
    if s == [] then Missing
    else
      var last := s[|s| - 1];
      if last.pages >= pages && !last.alloc then Hit(last) else ScanFit(s[..|s| - 1], pages)
  }

  lemma {:induction false} ScanStartSplit<P>(a: seq<Entry<P>>, b: seq<Entry<P>>, addr: nat)
    ensures ScanStart(a + b, addr) == if ScanStart(a, addr).Hit? then ScanStart(a, addr) else ScanStart(b, addr)
  {
    if a == [] { assert a + b == b; }
    else { assert (a + b)[1..] == a[1..] + b; ScanStartSplit(a[1..], b, addr); }
  }

  lemma {:induction false} ScanEndSplit<P>(a: seq<Entry<P>>, b: seq<Entry<P>>, addr: nat)
    ensures ScanEnd(a + b, addr) == if ScanEnd(a, addr).Hit? then ScanEnd(a, addr) else ScanEnd(b, addr)
  {
    if a == [] { assert a + b == b; }
    else { assert (a + b)[1..] == a[1..] + b; ScanEndSplit(a[1..], b, addr); }
  }

  lemma {:induction false} ScanFitSplit<P>(a: seq<Entry<P>>, b: seq<Entry<P>>, pages: nat)
    ensures ScanFit(a + b, pages) == if ScanFit(b, pages).Hit? then ScanFit(b, pages) else ScanFit(a, pages)
  {
    if b == [] { assert a + b == a; }
    else { assert (a + b)[..|a + b| - 1] == a + b[..|b| - 1]; ScanFitSplit(a, b[..|b| - 1], pages); }
  }

  lemma {:induction false} ScanStartIs<P>(s: seq<Entry<P>>, addr: nat)
    ensures match ScanStart(s, addr)
      case Hit(e) => e in s && e.addr == addr
      case Missing => forall e :: e in s ==> e.addr != addr
  {
    if s != [] { ScanStartIs(s[1..], addr); }
  }

  lemma {:induction false} ScanEndIs<P>(s: seq<Entry<P>>, addr: nat)
    ensures match ScanEnd(s, addr)
      case Hit(e) => e in s && EndOf(e) == addr
      case Missing => forall e :: e in s ==> EndOf(e) != addr
  {
    if s != [] { ScanEndIs(s[1..], addr); }
  }

  // ------------------------------------------------------- find and min size

  /** `avl_find` is the linear scan by start address. */
  lemma {:induction false} FindIsScan<P>(t: Tree<P>, addr: nat)
    requires Sorted(InOrder(t))
    ensures Find(t, addr) == ScanStart(InOrder(t), addr)
  {
    if t.Node? {
      var l, r := InOrder(t.left), InOrder(t.right);
      SortedParts(l, t.e, r);
      ScanStartSplit(l + [t.e], r, addr);
      ScanStartSplit(l, [t.e], addr);
      ScanStartIs(l, addr);
      ScanStartIs(r, addr);
      if addr < t.e.addr { FindIsScan(t.left, addr); }
      if addr > t.e.addr { FindIsScan(t.right, addr); }
    }
  }

  /** `avl_min_size` is the scan from the high end, on any tree at all. */
  lemma {:induction false} MinSizeIsScan<P>(t: Tree<P>, pages: nat)
    ensures MinSize(t, pages) == ScanFit(InOrder(t), pages)
  {
    if t.Node? {
      var l, r := InOrder(t.left), InOrder(t.right);
      ScanFitSplit(l + [t.e], r, pages);
      ScanFitSplit(l, [t.e], pages);
      MinSizeIsScan(t.left, pages);
      MinSizeIsScan(t.right, pages);
    }
  }

  // ------------------------------------------------------------------- below

  ghost predicate EndsSorted<P>(s: seq<Entry<P>>) {
    forall i, j :: 0 <= i < j < |s| ==> EndOf(s[i]) < EndOf(s[j])
  }

  /** All differences the walk can meet fit the 32-bit type. */
  ghost predicate InReach<P>(s: seq<Entry<P>>, addr: nat) {
    forall i :: 0 <= i < |s| ==> -0x8000_0000 <= addr - EndOf(s[i]) < 0x8000_0000
  }

  lemma EndsSortedParts<P>(a: seq<Entry<P>>, x: Entry<P>, b: seq<Entry<P>>)
    requires EndsSorted(a + [x] + b)
    ensures EndsSorted(a) && EndsSorted(b)
    ensures forall i :: 0 <= i < |a| ==> EndOf(a[i]) < EndOf(x)
    ensures forall i :: 0 <= i < |b| ==> EndOf(x) < EndOf(b[i])
  {
    var s := a + [x] + b;
    assert forall i :: 0 <= i < |a| ==> s[i] == a[i];
    assert s[|a|] == x;
    assert forall i :: 0 <= i < |b| ==> s[|a| + 1 + i] == b[i];
  }

  lemma InReachParts<P>(a: seq<Entry<P>>, x: Entry<P>, b: seq<Entry<P>>, addr: nat)
    requires InReach(a + [x] + b, addr)
    ensures InReach(a, addr) && InReach(b, addr) && InReach([x], addr)
  {
    var s := a + [x] + b;
    assert forall i :: 0 <= i < |a| ==> s[i] == a[i];
    assert s[|a|] == x;
    assert forall i :: 0 <= i < |b| ==> s[|a| + 1 + i] == b[i];
  }

  /** Within reach, `avl_below` is the linear scan by end address. */
  lemma {:induction false} BelowIsScan<P>(t: Tree<P>, addr: nat)
    requires EndsSorted(InOrder(t)) && InReach(InOrder(t), addr)
    ensures Below(t, addr) == ScanEnd(InOrder(t), addr)
  {
    if t.Node? {
      var l, r := InOrder(t.left), InOrder(t.right);
      EndsSortedParts(l, t.e, r);
      InReachParts(l, t.e, r, addr);
      assert InReach([t.e], addr) ==> Int32(addr - EndOf([t.e][0])) == addr - EndOf(t.e);
      ScanEndSplit(l + [t.e], r, addr);
      ScanEndSplit(l, [t.e], addr);
      ScanEndIs(l, addr);
      ScanEndIs(r, addr);
      BelowIsScan(t.left, addr);
      BelowIsScan(t.right, addr);
    }
  }

  /** Below 4 GiB of distance a hit is always a real one. */
  lemma {:induction false} BelowSound<P>(t: Tree<P>, addr: nat)
    requires forall e :: e in InOrder(t) ==> -0x1_0000_0000 < addr - EndOf(e) < 0x1_0000_0000
    ensures match Below(t, addr) case Hit(e) => e in InOrder(t) && EndOf(e) == addr case Missing => true
  {
    if t.Node? {
      assert t.e in InOrder(t);
      BelowSound(t.left, addr);
      BelowSound(t.right, addr);
    }
  }
}
