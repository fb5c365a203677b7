/**
 Boot-time memory discovery, kernel/boot/common_boot.c: where the page tables
 lie, where the free-page stack can go, and how big it may get.
 */
module BootMemory {
  import opened PageTables

  /** `struct memory_range`: bytes from `start` up to but not including `end`. */
  datatype Bytes = Bytes(start: nat, end: nat)

  // ---------------------------------------------------- search for safe memory

  ghost predicate Clear(lo: nat, hi: nat, unsafe: seq<Bytes>) {
    forall k, x :: 0 <= k < |unsafe| && lo <= x < hi ==> !Has(unsafe[k], x)
  }

  predicate Has(r: Bytes, x: nat) { r.start <= x < r.end }

  /** A clear region one byte longer than asked for. */
  ghost predicate Roomy(w: nat, size: nat, unsafe: seq<Bytes>) { Clear(w, w + size + 1, unsafe) }

  /** What the scan tests at one byte: strictly inside a range. */
  predicate Inside(x: nat, r: Bytes) { r.start < x < r.end }

  ghost predicate Passes(x: nat, unsafe: seq<Bytes>) {
    forall k :: 0 <= k < |unsafe| ==> !Inside(x, unsafe[k])
  }

  /** Base, size and range ends on 8-byte boundaries, and no range starting on the last byte of
      an 8-byte group. */
  ghost predicate Grid(base: nat, size: nat, unsafe: seq<Bytes>) {
    && base % 8 == 0 && size % 8 == 0 && size > 0
    && forall k :: 0 <= k < |unsafe| ==> unsafe[k].end % 8 == 0 && unsafe[k].start % 8 != 7
  }

  /** On the grid, bytes that pass one by one from the second on make a clear region: neither the
      strict comparison nor the byte skipped after a jump matters. */
  lemma PassedIsClear(lo: nat, hi: nat, unsafe: seq<Bytes>)
    requires lo % 8 == 0 && hi % 8 == 0 && lo < hi
    requires forall k :: 0 <= k < |unsafe| ==> unsafe[k].end % 8 == 0 && unsafe[k].start % 8 != 7
    requires Passed(lo, hi, unsafe)
    ensures Clear(lo, hi, unsafe)
  {
    forall k, x | 0 <= k < |unsafe| && lo <= x < hi ensures !Has(unsafe[k], x) {
      var r := unsafe[k];
      if r.start <= x < r.end {
        var y := if r.start < lo then lo + 1 else r.start + 1;
        assert lo < y < hi && r.start < y < r.end;
        assert Passes(y, unsafe);
        assert Inside(y, unsafe[k]);
      }
    }
  }

  /** The first range the byte lies strictly inside of. */
  function FirstFrom(x: nat, unsafe: seq<Bytes>, i: nat): (r: nat)
    requires i <= |unsafe|
    ensures i <= r <= |unsafe| && (r < |unsafe| ==> Inside(x, unsafe[r]))
    ensures forall k :: i <= k < r ==> !Inside(x, unsafe[k])
    decreases |unsafe| - i
  {
    if i == |unsafe| || Inside(x, unsafe[i]) then i else FirstFrom(x, unsafe, i + 1)
  }

  datatype Region = None | At(addr: nat)

  /** The scan as a function of where it stands. */
  function Search(ptr: nat, count: nat, checkEnd: nat, size: nat, unsafe: seq<Bytes>): Region
    requires count <= ptr
    decreases checkEnd - ptr
  {
    if ptr >= checkEnd then None
    else if count >= size then At(ptr - count)
    else
      var i := FirstFrom(ptr, unsafe, 0);
      if i < |unsafe| then Search(unsafe[i].end + 1, 1, checkEnd, size, unsafe)
      else Search(ptr + 1, count + 1, checkEnd, size, unsafe)
  }

  /** The inner loop. */
  method FirstInside(ptr: nat, unsafe: seq<Bytes>) returns (i: nat)
    ensures i == FirstFrom(ptr, unsafe, 0)
  {
    i := 0;
    while i < |unsafe| && !(ptr > unsafe[i].start && ptr < unsafe[i].end)
      invariant i <= |unsafe| && FirstFrom(ptr, unsafe, 0) == FirstFrom(ptr, unsafe, i)
    {
      i := i + 1;
    }
  }

  lemma GridFacts(base: nat, size: nat, unsafe: seq<Bytes>)
    requires Grid(base, size, unsafe)
    ensures size % 8 == 0 && size > 0
    ensures forall k :: 0 <= k < |unsafe| ==> unsafe[k].end % 8 == 0 && unsafe[k].start % 8 != 7
  {
  }

  lemma PassesHere(x: nat, unsafe: seq<Bytes>)
    requires FirstFrom(x, unsafe, 0) == |unsafe|
    ensures Passes(x, unsafe)
  {
  }

  /** All bytes after the first of a stretch pass. */
  ghost predicate Passed(start: nat, ptr: nat, unsafe: seq<Bytes>) { forall x :: start < x < ptr ==> Passes(x, unsafe) }

  lemma PassedNext(start: nat, ptr: nat, unsafe: seq<Bytes>)
    requires Passed(start, ptr, unsafe) && FirstFrom(ptr, unsafe, 0) == |unsafe|
    ensures Passed(start, ptr + 1, unsafe)
  {
    PassesHere(ptr, unsafe);
  }

  /** What a search may return. */
  ghost predicate Sound(r: Region, base: nat, checkEnd: nat, size: nat, unsafe: seq<Bytes>) {
    r.At? ==>
      && base <= r.addr && r.addr + size <= checkEnd
      && (Grid(base, size, unsafe) ==> Clear(r.addr, r.addr + size, unsafe))
  }

  /** A region found lies inside the memory given and, on the grid, meets no unsafe range. */
  lemma {:induction false} SearchSound(ptr: nat, start: nat, base: nat, checkEnd: nat, size: nat, unsafe: seq<Bytes>)
    requires base <= start <= ptr <= start + size && Passed(start, ptr, unsafe)
    requires Grid(base, size, unsafe) ==> start % 8 == 0
    ensures Sound(Search(ptr, ptr - start, checkEnd, size, unsafe), base, checkEnd, size, unsafe)
    decreases checkEnd - ptr
  {
    hide Clear, Grid, Passed;
    if Grid(base, size, unsafe) { GridFacts(base, size, unsafe); }
    if ptr < checkEnd {
      if ptr - start >= size {
        if Grid(base, size, unsafe) { PassedIsClear(start, ptr, unsafe); }
      } else {
        var i := FirstFrom(ptr, unsafe, 0);
        if i < |unsafe| {
          PassedNone(unsafe[i].end, unsafe);
          SearchSound(unsafe[i].end + 1, unsafe[i].end, base, checkEnd, size, unsafe);
        } else {
          PassedNext(start, ptr, unsafe);
          SearchSound(ptr + 1, start, base, checkEnd, size, unsafe);
        }
      }
    }
  }

  lemma PassedNone(e: nat, unsafe: seq<Bytes>)
    ensures Passed(e, e, unsafe) && Passed(e, e + 1, unsafe)
  {
  }

  /** When nothing is found, no region even one byte longer is clear. */
  lemma {:induction false} SearchComplete(ptr: nat, count: nat, checkEnd: nat, size: nat, unsafe: seq<Bytes>, w: nat)
    requires count <= size && count <= ptr && ptr - count <= w && w + size < checkEnd && Roomy(w, size, unsafe)
    ensures Search(ptr, count, checkEnd, size, unsafe).At?
    decreases checkEnd - ptr
  {
    if count < size {
      var i := FirstFrom(ptr, unsafe, 0);
      if i < |unsafe| {
        if w < unsafe[i].end {
          var x := if w <= ptr then ptr else w;
          assert w <= x < w + size + 1 && Has(unsafe[i], x);
        }
        SearchComplete(unsafe[i].end + 1, 1, checkEnd, size, unsafe, w);
      } else {
        SearchComplete(ptr + 1, count + 1, checkEnd, size, unsafe, w);
      }
    }
  }

  /** `check_memory_bounds`; `found` tells a region at address 0 from the null pointer. */
  method CheckMemoryBounds(base: nat, len: nat, size: nat, unsafe: seq<Bytes>) returns (r: nat, found: bool)
    ensures (if found then At(r) else None) == Search(base, 0, base + len, size, unsafe)
    ensures found ==> base <= r && r + size <= base + len
    ensures found && Grid(base, size, unsafe) ==> Clear(r, r + size, unsafe)
    ensures !found ==> r == 0 && forall w :: base <= w && w + size < base + len ==> !Roomy(w, size, unsafe)
  {
    PassedNone(base, unsafe);
    assert Grid(base, size, unsafe) ==> base % 8 == 0;
    SearchSound(base, base, base, base + len, size, unsafe);
    hide Grid, Clear, Passed, FirstFrom;
    forall w | base <= w && w + size < base + len && Roomy(w, size, unsafe)
      ensures Search(base, 0, base + len, size, unsafe).At?
    {
      SearchComplete(base, 0, base + len, size, unsafe, w);
    }
    hide Roomy;
    var checkEnd := base + len;
    var ptr, count := base, 0;
    while ptr < checkEnd
      invariant 0 <= count <= ptr
      invariant Search(ptr, count, checkEnd, size, unsafe) == Search(base, 0, checkEnd, size, unsafe)
      decreases checkEnd - ptr
    {
      if count >= size {
        return ptr - count, true;
      }
      var i := FirstInside(ptr, unsafe);
      if i < |unsafe| {
        ptr := unsafe[i].end;
        count := 0;
      }
      ptr := ptr + 1;
      count := count + 1;
    }
    return 0, false;
  }

  /** A stretch that passes byte by byte is returned. */
  lemma {:induction false} SearchReturns(ptr: nat, count: nat, checkEnd: nat, size: nat, unsafe: seq<Bytes>)
    requires count <= ptr && count <= size && ptr - count + size < checkEnd
    requires forall x :: ptr <= x < ptr - count + size ==> Passes(x, unsafe)
    ensures Search(ptr, count, checkEnd, size, unsafe) == At(ptr - count)
    decreases size - count
  {
    if count < size {
      assert Passes(ptr, unsafe);
      SearchReturns(ptr + 1, count + 1, checkEnd, size, unsafe);
    }
  }

  /** The condition on range starts is exact: for every range that ends on the grid and starts on
      the last byte of a group, a search on the grid returns memory that the range overlaps. */
  lemma OffGridFails(s: nat, e: nat, len: nat)
    requires s % 8 == 7 && s < e && e % 8 == 0 && len > 8
    ensures Search(s - 7, 0, s - 7 + len, 8, [Bytes(s, e)]) == At(s - 7)
    ensures !Clear(s - 7, s + 1, [Bytes(s, e)])
  {
    SearchReturns(s - 7, 0, s - 7 + len, 8, [Bytes(s, e)]);
    assert Has([Bytes(s, e)][0], s);
  }

  /** The condition on range ends is needed as well: whenever one range ends a byte after another and
      holds the byte in between, a search that starts inside the other skips that byte after its
      jump and returns it. One of the two ends is off the grid. */
  lemma SkippedByteFails(s: nat, q: nat, e: nat, base: nat, size: nat, checkEnd: nat)
    requires s < base < e && q <= e && size > 0 && e + size < checkEnd
    ensures var unsafe := [Bytes(s, e), Bytes(q, e + 1)];
      Search(base, 0, checkEnd, size, unsafe) == At(e) && !Clear(e, e + size, unsafe)
  {
    var unsafe := [Bytes(s, e), Bytes(q, e + 1)];
    assert FirstFrom(base, unsafe, 0) == 0;
    SearchReturns(e + 1, 1, checkEnd, size, unsafe);
    assert Has(unsafe[1], e);
  }

  // --------------------------------------------------------- page-table extent

  /** The scan follows every entry with an address and without the size bit, present or not. */
  predicate Followed(e: Pte) { e.frame != 0 && !e.size }

  ghost function Linked(mem: Mem, f: nat): set<nat> {
    set i: nat | i < 512 && Followed(Read(mem, f, i)) :: Read(mem, f, i).frame
  }

  /** Tables met in `depth` levels below table `f`. */
  ghost function Under(mem: Mem, f: nat, depth: nat): set<nat>
    decreases depth, 1
  {
    if depth == 0 then {}
    else Linked(mem, f) + (set g, h | g in Linked(mem, f) && h in Below(mem, g, depth) :: h)
  }

  ghost function Below(mem: Mem, f: nat, depth: nat): set<nat>
    requires depth > 0
    decreases depth, 0
  {
    Under(mem, f, depth - 1)
  }

  /** `[lo, hi]` is the least interval that contains `[lo0, hi0]` and all of `s`. */
  ghost predicate Hull(lo0: nat, hi0: nat, s: set<nat>, lo: nat, hi: nat) {
    && lo <= lo0 && hi0 <= hi && (forall x :: x in s ==> lo <= x <= hi)
    && (lo == lo0 || lo in s) && (hi == hi0 || hi in s)
  }

  lemma HullJoin(lo0: nat, hi0: nat, s: set<nat>, lo1: nat, hi1: nat, t: set<nat>, lo2: nat, hi2: nat)
    requires Hull(lo0, hi0, s, lo1, hi1) && Hull(lo1, hi1, t, lo2, hi2)
    ensures Hull(lo0, hi0, s + t, lo2, hi2)
  {
  }

  /** What the first `n` entries of `f` contribute. */
  ghost function UnderUpTo(mem: Mem, f: nat, depth: nat, n: nat): set<nat>
    requires depth > 0
  {
    if n == 0 then {}
    else
      var e := Read(mem, f, n - 1);
      UnderUpTo(mem, f, depth, n - 1) + (if Followed(e) then {e.frame} + Below(mem, e.frame, depth) else {})
  }

  lemma {:induction false} UnderUpToIs(mem: Mem, f: nat, depth: nat, n: nat, x: nat)
    requires depth > 0
    ensures x in UnderUpTo(mem, f, depth, n) <==>
      exists i: nat :: i < n && Followed(Read(mem, f, i)) &&
        (x == Read(mem, f, i).frame || x in Below(mem, Read(mem, f, i).frame, depth))
  {
    if n > 0 {
      UnderUpToIs(mem, f, depth, n - 1, x);
    }
  }

  lemma UnderAll(mem: Mem, f: nat, depth: nat)
    requires depth > 0
    ensures UnderUpTo(mem, f, depth, 512) == Under(mem, f, depth)
  {
    forall x ensures x in UnderUpTo(mem, f, depth, 512) <==> x in Under(mem, f, depth) {
      UnderUpToIs(mem, f, depth, 512, x);
      if x in UnderUpTo(mem, f, depth, 512) {
        var i: nat :| i < 512 && Followed(Read(mem, f, i)) &&
          (x == Read(mem, f, i).frame || x in Below(mem, Read(mem, f, i).frame, depth));
        assert Read(mem, f, i).frame in Linked(mem, f);
      }
      if x in Under(mem, f, depth) {
        if x in Linked(mem, f) {
          var i: nat :| i < 512 && Followed(Read(mem, f, i)) && Read(mem, f, i).frame == x;
        } else {
          var g :| g in Linked(mem, f) && x in Below(mem, g, depth);
          var i: nat :| i < 512 && Followed(Read(mem, f, i)) && Read(mem, f, i).frame == g;
        }
      }
    }
  }

  /** One of the nested loops of `get_page_table_area`: `depth` says how many are left. */
  method ScanTable(mem: Mem, f: nat, depth: nat, lo0: nat, hi0: nat) returns (lo: nat, hi: nat)
    requires depth > 0
    ensures Hull(lo0, hi0, Under(mem, f, depth), lo, hi)
    decreases depth
  {
    lo, hi := lo0, hi0;
    var i := 0;
    while i < 512
      invariant 0 <= i <= 512 && Hull(lo0, hi0, UnderUpTo(mem, f, depth, i), lo, hi)
    {
      var e := Read(mem, f, i);
      ghost var s := UnderUpTo(mem, f, depth, i);
      if e.frame != 0 && !e.size {
        ghost var lo1, hi1 := lo, hi;
        if e.frame < lo { lo := e.frame; }
        if e.frame > hi { hi := e.frame; }
        HullJoin(lo0, hi0, s, lo1, hi1, {e.frame}, lo, hi);
        if depth > 1 {
          ghost var lo2, hi2 := lo, hi;
          lo, hi := ScanTable(mem, e.frame, depth - 1, lo, hi);
          HullJoin(lo0, hi0, s + {e.frame}, lo2, hi2, Under(mem, e.frame, depth - 1), lo, hi);
        }
        assert s + {e.frame} + Under(mem, e.frame, depth - 1) == UnderUpTo(mem, f, depth, i + 1);
      }
      i := i + 1;
    }
    UnderAll(mem, f, depth);
  }

  ghost function Tables(mem: Mem, root: nat): set<nat> { {root} + Under(mem, root, 3) }

  /** `get_page_table_area`, in frames: the least interval with every table scanned in it. */
  method GetPageTableArea(mem: Mem, root: nat) returns (start: nat, end: nat)
    ensures forall f :: f in Tables(mem, root) ==> start <= f < end
    ensures start in Tables(mem, root) && end > 0 && end - 1 in Tables(mem, root)
  {
    start, end := ScanTable(mem, root, 3, root, root);
    end := end + 1;
  }

  /** Depth below the root at which tables of a level are met. */
  lemma {:induction false} UnderDeeper(mem: Mem, f: nat, g: nat, h: nat, depth: nat)
    requires g in Under(mem, f, depth) && h in Linked(mem, g)
    ensures h in Under(mem, f, depth + 1)
    decreases depth
  {
    if g in Linked(mem, f) {
      assert h in Under(mem, g, 1);
      if depth > 1 { UnderMore(mem, g, 1, depth); }
      assert h in Below(mem, g, depth + 1);
    } else {
      var k :| k in Linked(mem, f) && g in Below(mem, k, depth);
      UnderDeeper(mem, k, g, h, depth - 1);
      assert h in Below(mem, k, depth + 1);
    }
  }

  lemma {:induction false} UnderMore(mem: Mem, f: nat, d: nat, e: nat)
    requires d <= e
    ensures Under(mem, f, d) <= Under(mem, f, e)
    decreases d
  {
    if d > 0 {
      forall h | h in Under(mem, f, d) ensures h in Under(mem, f, e) {
        if h !in Linked(mem, f) {
          var g :| g in Linked(mem, f) && h in Below(mem, g, d);
          UnderMore(mem, g, d - 1, e - 1);
          assert h in Below(mem, g, e);
        }
      }
    }
  }

  /** No table the walk can reach lives in frame 0. */
  ghost predicate NoZeroTable(mem: Mem, root: nat) {
    forall at: Pos :: 1 <= at.level <= 3 && TableAt(mem, root, at).Table? ==> TableAt(mem, root, at).frame != 0
  }

  /** Every table the hardware walk can reach, except one at frame 0, is among those scanned. */
  lemma {:induction false} ReachedIsScanned(mem: Mem, root: nat, at: Pos)
    requires 1 <= at.level <= 4 && TableAt(mem, root, at).Table? && NoZeroTable(mem, root)
    ensures var f := TableAt(mem, root, at).frame;
      if at.level == 4 then f == root else f in Under(mem, root, 4 - at.level)
    decreases 4 - at.level
  {
    if at.level < 4 {
      var up := Pos(at.level + 1, at.prefix / 512);
      ReachedIsScanned(mem, root, up);
      var g, h := TableAt(mem, root, up).frame, TableAt(mem, root, at).frame;
      assert Read(mem, g, at.prefix % 512).frame == h && h in Linked(mem, g);
      if at.level < 3 { UnderDeeper(mem, root, g, h, 3 - at.level); }
    }
  }

  /** Every table found from the root lies in the area. */
  lemma AreaCovers(mem: Mem, root: nat, at: Pos)
    requires 1 <= at.level <= 4 && TableAt(mem, root, at).Table? && NoZeroTable(mem, root)
    ensures TableAt(mem, root, at).frame in Tables(mem, root)
  {
    ReachedIsScanned(mem, root, at);
    if at.level < 4 { UnderMore(mem, root, 4 - at.level, 3); }
  }

  ghost predicate Reached(mem: Mem, root: nat, f: nat) {
    exists at: Pos :: 1 <= at.level <= 4 && TableAt(mem, root, at) == Table(f)
  }

  /** Entries of reachable tables that are not present hold no address. */
  ghost predicate AbsentHoldNothing(mem: Mem, root: nat) {
    forall at: Pos, i: nat :: 2 <= at.level <= 4 && i < 512 && TableAt(mem, root, at).Table? ==>
      Read(mem, TableAt(mem, root, at).frame, i).present || Read(mem, TableAt(mem, root, at).frame, i).frame == 0
  }

  lemma {:induction false} UnderIsReached(mem: Mem, root: nat, at: Pos, depth: nat, f: nat)
    requires AbsentHoldNothing(mem, root) && depth < at.level <= 4 && TableAt(mem, root, at).Table?
    requires f in Under(mem, TableAt(mem, root, at).frame, depth)
    ensures Reached(mem, root, f)
    decreases depth
  {
    var g := TableAt(mem, root, at).frame;
    if f in Linked(mem, g) {
      var i: nat :| i < 512 && Followed(Read(mem, g, i)) && Read(mem, g, i).frame == f;
      LinkIsReached(mem, root, at, i);
    } else {
      var h :| h in Linked(mem, g) && f in Below(mem, h, depth);
      var i: nat :| i < 512 && Followed(Read(mem, g, i)) && Read(mem, g, i).frame == h;
      LinkIsReached(mem, root, at, i);
      UnderIsReached(mem, root, Pos(at.level - 1, at.prefix * 512 + i), depth - 1, f);
    }
  }

  lemma LinkIsReached(mem: Mem, root: nat, at: Pos, i: nat)
    requires AbsentHoldNothing(mem, root) && 2 <= at.level <= 4 && TableAt(mem, root, at).Table? && i < 512
    requires Followed(Read(mem, TableAt(mem, root, at).frame, i))
    ensures TableAt(mem, root, Pos(at.level - 1, at.prefix * 512 + i)) == Table(Read(mem, TableAt(mem, root, at).frame, i).frame)
  {
    var c := Pos(at.level - 1, at.prefix * 512 + i);
    assert c.prefix / 512 == at.prefix && c.prefix % 512 == i;
    assert Pos(c.level + 1, c.prefix / 512) == at;
  }

  /** When absent entries hold nothing, the tables scanned are exactly those the walk can reach, so the
      area is the least interval around the live tables. */
  lemma ScannedIsReached(mem: Mem, root: nat, f: nat)
    requires NoZeroTable(mem, root) && AbsentHoldNothing(mem, root)
    ensures f in Tables(mem, root) <==> Reached(mem, root, f)
  {
    assert TableAt(mem, root, Pos(4, 0)) == Table(root);
    if f in Under(mem, root, 3) { UnderIsReached(mem, root, Pos(4, 0), 3, f); }
    if Reached(mem, root, f) {
      var at: Pos :| 1 <= at.level <= 4 && TableAt(mem, root, at) == Table(f);
      AreaCovers(mem, root, at);
    }
  }
}
