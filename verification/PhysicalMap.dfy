/**
 `_init_paging`, kernel/system/mem_mgmt/pmm.c: all of physical memory is mapped at
 PHYSICAL_MAP_OFFSET with 2 MiB pages, in tables built from the lowest free
 pages.
 */
module PhysicalMap {
  import opened PageTables
  import opened PagingProofs
  import opened LowPages

  /** Gigabytes in the table of one top-level entry, and the first top-level entry of the window. */
  const FIRST := 384

  /** The page number of PHYSICAL_MAP_OFFSET without its upper 16 bits. */
  const WINDOW := 0xC_0000_0000

  /** Entry `j` of the table for gigabyte `g`: a 2 MiB page, writable, global. */
  function BigEntry(g: nat, j: nat): Pte {
    Pte(0x4_0000 * g + 512 * j, true, true, false, true, true, false, false)
  }

  function ZeroFrame(mem: Mem, f: nat): Mem { mem + map i: nat | i < 512 :: Slot(f, i) := ZERO }

  function FillBig(mem: Mem, f: nat, g: nat): Mem { mem + map j: nat | j < 512 :: Slot(f, j) := BigEntry(g, j) }

  function Put(s: Sys, f: nat, i: nat, e: Pte, at: Pos): Sys {
    s.(mem := Write(s.mem, f, i, e), owner := s.owner[e.frame := at])
  }

  // -------------------------------------------------------- one gigabyte

  /** The lowest page becomes a table of 512 large pages. */
  function BuildPage(s: Sys, g: nat): (r: Sys)
    requires s.stack != []
    ensures |r.stack| == |s.stack| - 1
  {
    var page := Low(s.stack);
    s.(mem := FillBig(ZeroFrame(s.mem, page), page, g), stack := WithoutLow(s.stack))
  }

  /** The top-level entry gets a table if it has none. */
  function EnsurePdpt(s: Sys, root: nat, i: nat): (r: Sys)
    requires Read(s.mem, root, i).present || s.stack != []
    ensures |r.stack| == |s.stack| - (if Read(s.mem, root, i).present then 0 else 1)
  {
    if Read(s.mem, root, i).present then s
    else
      var n := Low(s.stack);
      Put(s.(mem := ZeroFrame(s.mem, n), stack := WithoutLow(s.stack)), root, i, TableEntry(n), Pos(3, i))
  }

  function TopIndex(g: nat): nat { FIRST + g / 512 }

  /** Two different frames of the stack serve as tables if the top-level entry has none yet. */
  predicate CanMapGiB(s: Sys, root: nat, g: nat) {
    && s.stack != []
    && (Read(BuildPage(s, g).mem, root, TopIndex(g)).present || BuildPage(s, g).stack != [])
  }

  function MapGiB(s: Sys, root: nat, g: nat): Sys
    requires CanMapGiB(s, root, g)
  {
    var page := Low(s.stack);
    var s2 := EnsurePdpt(BuildPage(s, g), root, TopIndex(g));
    var pdpt := Read(s2.mem, root, TopIndex(g)).frame;
    Put(s2, pdpt, g % 512, TableEntry(page), Pos(2, FIRST * 512 + g))
  }

  /** The stack never runs out on the way. */
  predicate CanInit(s: Sys, root: nat, g: nat, n: nat)
    requires g <= n
    decreases n - g
  {
    g < n ==> CanMapGiB(s, root, g) && CanInit(MapGiB(s, root, g), root, g + 1, n)
  }

  /** `_init_paging` over gigabytes `g` to `n`. */
  function InitPaging(s: Sys, root: nat, g: nat, n: nat): Sys
    requires g <= n && CanInit(s, root, g, n)
    decreases n - g
  {
    if g == n then s else InitPaging(MapGiB(s, root, g), root, g + 1, n)
  }

  /** Gigabytes needed for `length` bytes of physical memory. */
  function GiBs(length: nat): nat { (length + 0x3FFF_FFFF) / 0x4000_0000 }

  // --------------------------------------------------------------- invariant

  ghost predicate BootOk(s: Sys, root: nat) {
    && TablesOk(s, root) && NoRepeats(s.stack)
    && forall x :: x in s.stack ==> x !in s.owner
  }

  /** The window over gigabyte `g` is empty, and what leads to it is writable. */
  ghost predicate WindowFree(s: Sys, root: nat, g: nat) {
    TopIndex(g) < 512 &&
    var e := Read(s.mem, root, TopIndex(g));
    e.present ==> !e.size && e.rw && !Read(s.mem, e.frame, g % 512).present
  }

  ghost predicate Quiet(s: Sys, s': Sys, root: nat) {
    forall v: nat :: v < FRAMES ==> LeafAt(s'.mem, root, v, 4) == LeafAt(s.mem, root, v, 4)
  }

  lemma LowFacts(s: Sys, root: nat)
    requires BootOk(s, root) && s.stack != []
    ensures Low(s.stack) !in s.owner && Low(s.stack) !in WithoutLow(s.stack)
    ensures NoRepeats(WithoutLow(s.stack)) && forall x :: x in WithoutLow(s.stack) ==> x in s.stack
    ensures WithoutLow(s.stack) == DropLow(s.stack, 1)
  {
    var low := Low(s.stack);
    LowIsLeast(s.stack);
    KeepMember(s.stack, {low}, low);
    forall x | x in WithoutLow(s.stack) ensures x in s.stack { KeepMember(s.stack, {low}, x); }
    assert DropLow(s.stack, 1) == DropLow(WithoutLow(s.stack), 0);
  }

  lemma QuietOff(s: Sys, root: nat, m: Mem, x: nat)
    requires TablesOk(s, root) && x !in s.owner
    requires forall f: nat, i: nat :: f != x ==> Read(m, f, i) == Read(s.mem, f, i)
    ensures TablesOk(s.(mem := m), root) && Quiet(s, s.(mem := m), root)
  {
    OffTable(s, root, m, x);
    forall v: nat | v < FRAMES ensures LeafAt(m, root, v, 4) == LeafAt(s.mem, root, v, 4) {
      PrefixTop(v);
      LeafOff(s, root, m, x, root, v, 4);
    }
  }

  lemma TablesOkStack(s: Sys, root: nat, q: seq<nat>)
    requires TablesOk(s, root)
    ensures TablesOk(s.(stack := q), root)
  {
    var s1 := s.(stack := q);
    assert forall f, i :: ChildOk(s, f, i) ==> ChildOk(s1, f, i);
    assert forall f, i, j :: RightsOkAt(s, f, i, j) ==> RightsOkAt(s1, f, i, j);
  }

  lemma BuildPageOk(s: Sys, root: nat, g: nat)
    requires BootOk(s, root) && s.stack != []
    ensures var s1 := BuildPage(s, g);
      && BootOk(s1, root) && Quiet(s, s1, root) && s1.owner == s.owner
      && (forall f: nat, i: nat :: f in s.owner ==> Read(s1.mem, f, i) == Read(s.mem, f, i))
      && (forall j: nat :: j < 512 ==> Read(s1.mem, Low(s.stack), j) == BigEntry(g, j))
  {
    hide TablesOk, NoRepeats, Low, WithoutLow, LeafAt;
    var s1, page := BuildPage(s, g), Low(s.stack);
    LowFacts(s, root);
    assert forall f: nat, i: nat :: f != page ==> Read(s1.mem, f, i) == Read(s.mem, f, i);
    QuietOff(s, root, s1.mem, page);
    TablesOkStack(s.(mem := s1.mem), root, s1.stack);
    assert s1 == s.(mem := s1.mem).(stack := s1.stack);
  }

  lemma EnsurePdptOk(s: Sys, root: nat, i: nat)
    requires BootOk(s, root) && (Read(s.mem, root, i).present || s.stack != []) && i < 512
    requires Read(s.mem, root, i).present ==> !Read(s.mem, root, i).size && Read(s.mem, root, i).rw
    ensures var s2 := EnsurePdpt(s, root, i);
      var e := Read(s2.mem, root, i);
      && BootOk(s2, root) && Quiet(s, s2, root)
      && e.present && !e.size && e.rw && e.frame in s2.owner && s2.owner[e.frame] == Pos(3, i)
      && (Read(s.mem, root, i).present ==> s2 == s)
      && (!Read(s.mem, root, i).present ==> NewPdpt(s, s2, root, i, e.frame))
  {
    if Read(s.mem, root, i).present {
      UseChild(s, root, root, i);
    } else {
      NewPdptOk(s, root, i);
    }
  }

  ghost predicate NewPdpt(s: Sys, s2: Sys, root: nat, i: nat, n: nat) {
    && s.stack != [] && n == Low(s.stack) && s2.stack == WithoutLow(s.stack)
    && s2.owner.Keys == s.owner.Keys + {n} && Blank(s2.mem, n)
    && forall f: nat, k: nat :: f != n && !(f == root && k == i) ==> Read(s2.mem, f, k) == Read(s.mem, f, k)
  }

  lemma NewPdptOk(s: Sys, root: nat, i: nat)
    requires BootOk(s, root) && s.stack != [] && i < 512 && !Read(s.mem, root, i).present
    ensures var s2 := EnsurePdpt(s, root, i);
      var n := Low(s.stack);
      && BootOk(s2, root) && Quiet(s, s2, root) && Read(s2.mem, root, i) == TableEntry(n)
      && n in s2.owner && s2.owner[n] == Pos(3, i) && NewPdpt(s, s2, root, i, n)
  {
    hide NoRepeats, Low, WithoutLow, LeafAt, TreeOk, RightsOk;
    var s2, n := EnsurePdpt(s, root, i), Low(s.stack);
    LowFacts(s, root);
    var m := ZeroFrame(s.mem, n);
    assert forall f: nat, k: nat :: f != n ==> Read(m, f, k) == Read(s.mem, f, k);
    assert Blank(m, n);
    QuietOff(s, root, m, n);
    var s1 := s.(mem := m);
    RootOwned(s, root);
    var e := TableEntry(n);
    LinkTree(s1, root, root, i, e);
    RootAllows(s1, root, WRITABLE);
    LinkRights(s1, root, root, i, e, WRITABLE);
    TablesOkStack(Link(s1, root, i, e), root, s2.stack);
    assert s2 == Link(s1, root, i, e).(stack := s2.stack);
    forall v: nat | v < FRAMES ensures LeafAt(s2.mem, root, v, 4) == LeafAt(s.mem, root, v, 4) {
      PrefixTop(v);
      LeafKeep(s1, root, root, i, e, root, v, 4);
    }
    BlankKeep(m, root, i, e, n);
  }

  lemma RootOwned(s: Sys, root: nat)
    requires TablesOk(s, root)
    ensures root in s.owner && s.owner[root] == Pos(4, 0)
  {
  }

  /** Everything in place to link the table for gigabyte `g`. */
  ghost predicate ReadyToLink(s: Sys, s2: Sys, root: nat, g: nat, page: nat, pdpt: nat) {
    && BootOk(s2, root) && Quiet(s, s2, root) && TopIndex(g) < 512
    && page !in s2.owner && page !in s2.stack && pdpt in s2.owner && s2.owner[pdpt] == Pos(3, TopIndex(g))
    && Read(s2.mem, root, TopIndex(g)) == Read(s2.mem, root, TopIndex(g)).(frame := pdpt, present := true, size := false, rw := true)
    && !Read(s2.mem, pdpt, g % 512).present
    && (forall j: nat :: j < 512 ==> Read(s2.mem, page, j) == BigEntry(g, j))
  }

  lemma Prepared(s: Sys, root: nat, g: nat)
    requires BootOk(s, root) && CanMapGiB(s, root, g) && WindowFree(s, root, g)
    ensures var s2 := EnsurePdpt(BuildPage(s, g), root, TopIndex(g));
      ReadyToLink(s, s2, root, g, Low(s.stack), Read(s2.mem, root, TopIndex(g)).frame)
  {
    hide TablesOk, NoRepeats, Low, WithoutLow, LeafAt, ZeroFrame, FillBig;
    var page, i := Low(s.stack), TopIndex(g);
    var s1 := BuildPage(s, g);
    var s2 := EnsurePdpt(s1, root, i);
    LowFacts(s, root);
    BuildPageOk(s, root, g);
    RootOwned(s, root);
    EnsurePdptOk(s1, root, i);
    var e := Read(s2.mem, root, i);
    if Read(s.mem, root, i).present {
      Childish(s, root, i);
    } else {
      LowFacts(s1, root);
      LowIn(s1.stack);
      assert Read(s2.mem, e.frame, g % 512) == ZERO;
    }
  }

  lemma LowIn(q: seq<nat>)
    requires q != []
    ensures Low(q) in q
  {
  }

  lemma Childish(s: Sys, root: nat, i: nat)
    requires TablesOk(s, root) && i < 512 && Read(s.mem, root, i).present && !Read(s.mem, root, i).size
    ensures var f := Read(s.mem, root, i).frame; f in s.owner && s.owner[f] == Pos(3, i)
  {
    UseChild(s, root, root, i);
  }

  lemma PdptAllows(s: Sys, root: nat, i: nat, pdpt: nat, fl: Flags)
    requires TreeOk(s, root) && i < 512 && !fl.user
    requires var e := Read(s.mem, root, i); e.present && !e.size && e.rw && e.frame == pdpt
    ensures Allows(s, pdpt, fl)
  {
    forall g, k ensures LeadAllows(s, pdpt, fl, g, k) {
      if g in s.owner && s.owner[g].level > 1 && k < 512 {
        var e := Read(s.mem, g, k);
        if e.present && !e.size && e.frame == pdpt { OnePlace(s, root, root, i, g, k); }
      }
    }
  }

  lemma MapGiBTables(s: Sys, root: nat, g: nat)
    requires BootOk(s, root) && CanMapGiB(s, root, g) && WindowFree(s, root, g)
    ensures var s' := MapGiB(s, root, g);
      BootOk(s', root) && Low(s.stack) in s'.owner && s'.owner[Low(s.stack)] == Pos(2, FIRST * 512 + g)
  {
    hide NoRepeats, Low, WithoutLow, LeafAt, EnsurePdpt, BuildPage, TreeOk, RightsOk;
    var page := Low(s.stack);
    var s2 := EnsurePdpt(BuildPage(s, g), root, TopIndex(g));
    var pdpt, e := Read(s2.mem, root, TopIndex(g)).frame, TableEntry(page);
    Prepared(s, root, g);
    BigNoLinks(s2.mem, page, g);
    LinkTree(s2, root, pdpt, g % 512, e);
    PdptAllows(s2, root, TopIndex(g), pdpt, WRITABLE);
    LinkRights(s2, root, pdpt, g % 512, e, WRITABLE);
    assert TopIndex(g) * 512 + g % 512 == FIRST * 512 + g;
    assert MapGiB(s, root, g) == Link(s2, pdpt, g % 512, e);
  }

  lemma BigNoLinks(mem: Mem, page: nat, g: nat)
    requires forall j: nat :: j < 512 ==> Read(mem, page, j) == BigEntry(g, j)
    ensures NoLinks(mem, page) && forall j :: j < 512 ==> !Read(mem, page, j).user
  {
  }

  lemma MapGiBLeaf(s: Sys, root: nat, g: nat, v: nat)
    requires BootOk(s, root) && CanMapGiB(s, root, g) && WindowFree(s, root, g) && v < FRAMES
    ensures LeafAt(MapGiB(s, root, g).mem, root, v, 4) ==
      if Prefix(v, 2) == FIRST * 512 + g then Leaf(2, BigEntry(g, Index(v, 2))) else LeafAt(s.mem, root, v, 4)
  {
    hide NoRepeats, Low, WithoutLow, EnsurePdpt, BuildPage, TreeOk, RightsOk, Prefix, Index;
    var page, s' := Low(s.stack), MapGiB(s, root, g);
    var s2 := EnsurePdpt(BuildPage(s, g), root, TopIndex(g));
    var pdpt := Read(s2.mem, root, TopIndex(g)).frame;
    Prepared(s, root, g);
    PrefixTop(v);
    RootOwned(s2, root);
    assert TopIndex(g) * 512 + g % 512 == FIRST * 512 + g;
    if Prefix(v, 2) == FIRST * 512 + g {
      MapGiBTables(s, root, g);
      PageThere(s', root, page, Pos(2, FIRST * 512 + g));
      LeafFrom(s'.mem, root, page, v, 2);
      PrefixStep(v, 2);
      assert Read(s'.mem, page, Index(v, 2)) == BigEntry(g, Index(v, 2));
    } else {
      LeafElsewhere(s2, root, pdpt, g % 512, TableEntry(page), root, v, 4);
    }
  }

  lemma PageThere(s: Sys, root: nat, page: nat, at: Pos)
    requires BootOk(s, root) && page in s.owner && s.owner[page] == at
    ensures TableAt(s.mem, root, at) == Table(page)
  {
  }

  /** Frames taken by one gigabyte. */
  function TurnNeed(mem: Mem, root: nat, g: nat): nat { if Read(mem, root, TopIndex(g)).present then 1 else 2 }

  lemma RootKept(s: Sys, root: nat, g: nat)
    requires BootOk(s, root) && s.stack != []
    ensures forall i: nat :: Read(BuildPage(s, g).mem, root, i) == Read(s.mem, root, i)
  {
    hide TablesOk, NoRepeats, Low, WithoutLow, LeafAt;
    BuildPageOk(s, root, g);
    RootOwned(s, root);
  }

  /** One frame is enough when the top-level entry has its table, and otherwise two. */
  lemma CanMapIff(s: Sys, root: nat, g: nat)
    requires BootOk(s, root)
    ensures CanMapGiB(s, root, g) <==> TurnNeed(s.mem, root, g) <= |s.stack|
  {
    if s.stack != [] { RootKept(s, root, g); }
  }

  lemma MapGiBStack(s: Sys, root: nat, g: nat)
    requires BootOk(s, root) && CanMapGiB(s, root, g)
    ensures TurnNeed(s.mem, root, g) <= |s.stack| && MapGiB(s, root, g).stack == DropLow(s.stack, TurnNeed(s.mem, root, g))
  {
    var q := s.stack;
    RootKept(s, root, g);
    assert DropLow(q, 1) == WithoutLow(q) by { assert DropLow(WithoutLow(q), 0) == WithoutLow(q); }
    if !Read(s.mem, root, TopIndex(g)).present {
      assert DropLow(q, 2) == WithoutLow(WithoutLow(q)) by {
        assert DropLow(WithoutLow(q), 1) == DropLow(WithoutLow(WithoutLow(q)), 0);
      }
    }
  }

  /** Afterwards the top-level entry of the gigabyte has its table, and the others are as before. */
  lemma MapGiBTops(s: Sys, root: nat, g: nat, i: nat)
    requires BootOk(s, root) && CanMapGiB(s, root, g) && WindowFree(s, root, g)
    ensures var e := Read(MapGiB(s, root, g).mem, root, i);
      if i == TopIndex(g) then
        e.present && e.frame == if Read(s.mem, root, i).present then Read(s.mem, root, i).frame else Low(WithoutLow(s.stack))
      else e == Read(s.mem, root, i)
  {
    hide NoRepeats, Low, WithoutLow, LeafAt, TreeOk, RightsOk, ZeroFrame, FillBig;
    var s1 := BuildPage(s, g);
    var s2 := EnsurePdpt(s1, root, TopIndex(g));
    Prepared(s, root, g);
    RootKept(s, root, g);
    BuildPageOk(s, root, g);
    EnsurePdptOk(s1, root, TopIndex(g));
    RootOwned(s2, root);
    assert root != Read(s2.mem, root, TopIndex(g)).frame;
    if !Read(s1.mem, root, TopIndex(g)).present {
      LowFacts(s1, root);
      RootOwned(s1, root);
      LowIn(s1.stack);
    }
  }

  lemma MapGiBWindow(s: Sys, root: nat, g: nat, h: nat)
    requires BootOk(s, root) && CanMapGiB(s, root, g) && WindowFree(s, root, g) && WindowFree(s, root, h) && g != h
    ensures WindowFree(MapGiB(s, root, g), root, h)
  {
    hide NoRepeats, Low, WithoutLow, LeafAt, TreeOk, RightsOk, ZeroFrame, FillBig;
    var page, i, k := Low(s.stack), TopIndex(g), TopIndex(h);
    var s1 := BuildPage(s, g);
    var s2 := EnsurePdpt(s1, root, i);
    var s' := MapGiB(s, root, g);
    var pdpt := Read(s2.mem, root, i).frame;
    Prepared(s, root, g);
    BuildPageOk(s, root, g);
    RootOwned(s, root);
    EnsurePdptOk(s1, root, i);
    if s1.stack != [] { LowFacts(s1, root); }
    RootOwned(s2, root);
    assert root != pdpt;
    if Read(s.mem, root, k).present { Childish(s, root, k); }
    if i == k {
      assert h % 512 != g % 512;
      if !Read(s1.mem, root, i).present { assert Read(s2.mem, pdpt, h % 512) == ZERO; }
    }
  }

  // ------------------------------------------------------------- whole range

  ghost predicate WindowsFree(s: Sys, root: nat, g: nat, n: nat) {
    forall h: nat :: g <= h < n ==> WindowFree(s, root, h)
  }

  /** The gigabyte opens a top-level entry that has no table, counting from gigabyte `g` on. */
  predicate Opens(mem: Mem, root: nat, g: nat, h: nat) {
    !Read(mem, root, TopIndex(h)).present && (h == g || h % 512 == 0)
  }

  /** Frames needed for gigabytes `h` to `n` of a range from `g` on: one for each, and one for each
      top-level entry that has no table. */
  function NeedFrom(mem: Mem, root: nat, g: nat, h: nat, n: nat): nat
    decreases n - h
  {
    if h >= n then 0 else (if Opens(mem, root, g, h) then 2 else 1) + NeedFrom(mem, root, g, h + 1, n)
  }

  function Need(mem: Mem, root: nat, g: nat, n: nat): nat { NeedFrom(mem, root, g, g, n) }

  /** After gigabyte `g` the rest needs what it needed before. */
  lemma {:induction false} NeedSame(m: Mem, m': Mem, root: nat, g: nat, h: nat, n: nat)
    requires g < h
    requires Read(m', root, TopIndex(g)).present
    requires forall i: nat :: i != TopIndex(g) ==> Read(m', root, i) == Read(m, root, i)
    ensures NeedFrom(m', root, g + 1, h, n) == NeedFrom(m, root, g, h, n)
    decreases n - h
  {
    if h < n {
      NeedSame(m, m', root, g, h + 1, n);
      assert TopIndex(h) == TopIndex(g) ==> h % 512 != 0;
      assert h == g + 1 && h % 512 != 0 ==> TopIndex(h) == TopIndex(g);
      assert Opens(m', root, g + 1, h) <==> Opens(m, root, g, h);
    }
  }

  lemma NeedStep(s: Sys, root: nat, g: nat, n: nat)
    requires g < n && BootOk(s, root) && CanMapGiB(s, root, g) && WindowFree(s, root, g)
    ensures Need(s.mem, root, g, n) == TurnNeed(s.mem, root, g) + Need(MapGiB(s, root, g).mem, root, g + 1, n)
  {
    hide BootOk, MapGiB, CanMapGiB, WindowFree;
    var m' := MapGiB(s, root, g).mem;
    MapGiBTops(s, root, g, TopIndex(g));
    forall i: nat | i != TopIndex(g) ensures Read(m', root, i) == Read(s.mem, root, i) { MapGiBTops(s, root, g, i); }
    NeedSame(s.mem, m', root, g, g + 1, n);
  }

  /** The stack suffices if and only if it holds a frame for each gigabyte and one for each absent
      upper table, and exactly that many lowest frames are taken. */
  lemma {:induction false} InitPagingStack(s: Sys, root: nat, g: nat, n: nat)
    requires g <= n && BootOk(s, root) && WindowsFree(s, root, g, n)
    ensures CanInit(s, root, g, n) <==> Need(s.mem, root, g, n) <= |s.stack|
    ensures CanInit(s, root, g, n) ==> InitPaging(s, root, g, n).stack == DropLow(s.stack, Need(s.mem, root, g, n))
    decreases n - g
  {
    hide MapGiB, BootOk, WindowFree, DropLow, WindowsFree, CanMapGiB;
    if g == n {
      DropNone(s.stack);
    } else {
      CanMapIff(s, root, g);
      NeedAtLeast(s.mem, root, g, n);
      if CanMapGiB(s, root, g) {
        var s1 := MapGiB(s, root, g);
        MapGiBReady(s, root, g, n);
        MapGiBStack(s, root, g);
        NeedStep(s, root, g, n);
        InitPagingStack(s1, root, g + 1, n);
        if CanInit(s1, root, g + 1, n) { DropTwice(s.stack, TurnNeed(s.mem, root, g), Need(s1.mem, root, g + 1, n)); }
      }
    }
  }

  lemma NeedAtLeast(mem: Mem, root: nat, g: nat, n: nat)
    requires g < n
    ensures TurnNeed(mem, root, g) <= Need(mem, root, g, n)
  {
  }

  lemma {:induction false} NeedIsMore(mem: Mem, root: nat, g: nat, h: nat, n: nat)
    requires h <= n
    ensures n - h <= NeedFrom(mem, root, g, h, n)
    decreases n - h
  {
    if h < n { NeedIsMore(mem, root, g, h + 1, n); }
  }

  /** After mapping gigabytes `g` to `n`, exactly their windows show large pages, nothing else
      changed, and the tables are in order. */
  lemma {:induction false} InitPagingLeaf(s: Sys, root: nat, g: nat, n: nat, v: nat)
    requires g <= n && CanInit(s, root, g, n) && BootOk(s, root) && WindowsFree(s, root, g, n) && v < FRAMES
    ensures BootOk(InitPaging(s, root, g, n), root)
    ensures var h := Prefix(v, 2) - FIRST * 512;
      LeafAt(InitPaging(s, root, g, n).mem, root, v, 4) ==
        if g <= h < n then Leaf(2, BigEntry(h, Index(v, 2))) else LeafAt(s.mem, root, v, 4)
    decreases n - g
  {
    hide MapGiB, BootOk, LeafAt, WindowFree, Prefix, Index, CanMapGiB;
    if g < n {
      var s1 := MapGiB(s, root, g);
      MapGiBReady(s, root, g, n);
      MapGiBLeaf(s, root, g, v);
      InitPagingLeaf(s1, root, g + 1, n, v);
    }
  }

  lemma DropNone(q: seq<nat>)
    ensures DropLow(q, 0) == q
  {
  }

  lemma MapGiBReady(s: Sys, root: nat, g: nat, n: nat)
    requires g < n && CanMapGiB(s, root, g) && BootOk(s, root) && WindowsFree(s, root, g, n)
    ensures var s1 := MapGiB(s, root, g);
      BootOk(s1, root) && WindowsFree(s1, root, g + 1, n)
    ensures WindowFree(s, root, g)
  {
    hide MapGiB, BootOk, WindowFree, CanMapGiB;
    assert WindowFree(s, root, g);
    var s1 := MapGiB(s, root, g);
    forall h: nat | g + 1 <= h < n ensures WindowFree(s1, root, h) { MapGiBWindow(s, root, g, h); }
    MapGiBTables(s, root, g);
  }

  lemma {:induction false} DropTwice(q: seq<nat>, a: nat, b: nat)
    requires a + b <= |q|
    ensures DropLow(DropLow(q, a), b) == DropLow(q, a + b)
    decreases a
  {
    hide WithoutLow;
    if a > 0 { DropTwice(WithoutLow(q), a - 1, b); }
  }

  /** Page `x` of gigabyte `h` in the window. */
  lemma WindowIndex(x: nat)
    requires x < 0x10000 * 0x4_0000
    ensures var v := WINDOW + x;
      && v < FRAMES && Prefix(v, 2) == FIRST * 512 + x / 0x4_0000 && Index(v, 2) == x / 512 % 512
      && BigPage(BigEntry(x / 0x4_0000, Index(v, 2)), v, 2) == x
  {
    var v := WINDOW + x;
    PrefixTwo(v);
    hide Prefix;
    assert v / 512 == 0x600_0000 + x / 512;
    TwoDivs(x);
    var e := BigEntry(x / 0x4_0000, Index(v, 2));
    assert e.frame == 512 * (512 * (x / 0x4_0000) + x / 512 % 512);
    assert 512 * (x / 0x4_0000) + x / 512 % 512 == x / 512;
  }

  lemma BootTables(s: Sys, root: nat)
    requires BootOk(s, root)
    ensures TablesOk(s, root)
  {
  }

  lemma OutsideWindow(v: nat, n: nat)
    requires !(WINDOW <= v < WINDOW + n * 0x4_0000)
    ensures !(0 <= Prefix(v, 2) - FIRST * 512 < n)
  {
    hide Prefix;
    PrefixTwo(v);
    BelowMultiple(v, FIRST * 512);
    BelowMultiple(v, FIRST * 512 + n);
    assert WINDOW == FIRST * 512 * 0x4_0000 && WINDOW + n * 0x4_0000 == (FIRST * 512 + n) * 0x4_0000;
  }

  lemma PrefixTwo(v: nat)
    ensures Prefix(v, 1) == v / 512 && Prefix(v, 2) == v / 0x4_0000
  {
    assert Prefix(v, 0) == v;
    assert Prefix(v, 1) == Prefix(v, 0) / 512;
    assert Prefix(v, 2) == Prefix(v, 1) / 512;
    TwoDivs(v);
  }

  lemma TwoDivs(v: nat)
    ensures v / 512 / 512 == v / 0x4_0000
  {
  }

  lemma BelowMultiple(v: nat, k: nat)
    ensures v / 0x4_0000 < k <==> v < k * 0x4_0000
  {
    var q, m := v / 0x4_0000, v % 0x4_0000;
    assert v == q * 0x4_0000 + m;
  }

}
