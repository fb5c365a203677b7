/**
 The whole of `_init_paging`, kernel/system/mem_mgmt/pmm.c. The new tables are
 written through their physical addresses, which works only as far as the
 identity map of the loader reaches; where it does, all of physical memory is
 found in the window afterwards.
 */
module PhysicalWindow {
  import opened PageTables
  import opened PagingProofs
  import opened LowPages
  import opened PhysicalMap

  /** Frames below 64 TiB. */
  const LIMIT := 0x4_0000_0000

  /** Frames below 8 MiB, which the loader maps to themselves. */
  const IDENTITY := 2048

  /** The physical address of a frame, used as a pointer, reaches that frame and may be written. */
  predicate Self(mem: Mem, root: nat, f: nat) {
    var t := Translate(mem, root, f);
    t.Mapped? && t.frame == f && t.write
  }

  /** Every table touched in the turn for gigabyte `g` is reached at the time: the new table, the top
      level, the upper table if it is made, and the upper table. */
  predicate TurnWrites(s: Sys, root: nat, g: nat)
    requires CanMapGiB(s, root, g)
  {
    var s1 := BuildPage(s, g);
    var s2 := EnsurePdpt(s1, root, TopIndex(g));
    && Self(s.mem, root, Low(s.stack)) && Self(s1.mem, root, root)
    && (Read(s1.mem, root, TopIndex(g)).present || Self(s1.mem, root, Low(s1.stack)))
    && Self(s2.mem, root, Read(s2.mem, root, TopIndex(g)).frame)
  }

  /** No write of the whole loop faults. */
  predicate AllWrites(s: Sys, root: nat, g: nat, n: nat)
    requires g <= n && CanInit(s, root, g, n)
    decreases n - g
  {
    g < n ==> TurnWrites(s, root, g) && AllWrites(MapGiB(s, root, g), root, g + 1, n)
  }

  /** What the loader leaves: the first 8 MiB mapped to themselves, no other low page mapped, and the
      tables in use themselves among the first 8 MiB. */
  ghost predicate IdentityOnly(s: Sys, root: nat) {
    && (forall f: nat :: f < LIMIT ==> Translate(s.mem, root, f) == if f < IDENTITY then Mapped(f, true, false, true) else Fault)
    && root < IDENTITY
    && (forall i: nat :: i < 512 && Read(s.mem, root, i).present && !Read(s.mem, root, i).size ==>
         Read(s.mem, root, i).frame < IDENTITY)
  }

  ghost predicate StackBelow(q: seq<nat>) { forall x :: x in q ==> x < LIMIT }

  lemma SelfIff(s: Sys, root: nat, f: nat)
    requires IdentityOnly(s, root) && f < LIMIT
    ensures Self(s.mem, root, f) <==> f < IDENTITY
  {
    hide Translate;
  }

  /** Tables of the same leaves translate alike. */
  lemma QuietTranslates(s: Sys, s': Sys, root: nat, f: nat)
    requires TablesOk(s, root) && TablesOk(s', root) && Quiet(s, s', root) && f < FRAMES
    ensures Translate(s'.mem, root, f) == Translate(s.mem, root, f)
  {
    hide LeafAt, Translate;
    TranslateGrants(s, root, f);
    TranslateGrants(s', root, f);
  }

  lemma PdptFrame(s: Sys, root: nat, g: nat)
    requires BootOk(s, root) && CanMapGiB(s, root, g) && WindowFree(s, root, g)
    ensures var s1 := BuildPage(s, g);
      var s2 := EnsurePdpt(s1, root, TopIndex(g));
      && (Read(s1.mem, root, TopIndex(g)).present <==> Read(s.mem, root, TopIndex(g)).present)
      && s1.stack == WithoutLow(s.stack)
      && Read(s2.mem, root, TopIndex(g)).frame ==
         (if Read(s.mem, root, TopIndex(g)).present then Read(s.mem, root, TopIndex(g)).frame else Low(WithoutLow(s.stack)))
      && BootOk(s1, root) && Quiet(s, s1, root) && BootOk(s2, root) && Quiet(s, s2, root)
  {
    hide NoRepeats, Low, LeafAt, TreeOk, RightsOk, ZeroFrame, FillBig, LowIndex;
    var s1 := BuildPage(s, g);
    RootKept(s, root, g);
    BuildPageOk(s, root, g);
    EnsurePdptOk(s1, root, TopIndex(g));
  }

  lemma LowMember(q: seq<nat>)
    requires q != []
    ensures Low(q) in q && forall x :: x in WithoutLow(q) ==> x in q
  {
  }

  /** A turn writes without a fault if and only if the frames it takes are below 8 MiB. */
  lemma TurnWritesIff(s: Sys, root: nat, g: nat)
    requires BootOk(s, root) && CanMapGiB(s, root, g) && WindowFree(s, root, g) && IdentityOnly(s, root) && StackBelow(s.stack)
    ensures TurnWrites(s, root, g) <==>
      Low(s.stack) < IDENTITY && (Read(s.mem, root, TopIndex(g)).present || Low(WithoutLow(s.stack)) < IDENTITY)
  {
    PdptFrame(s, root, g);
    LowMember(s.stack);
    hide BuildPage, EnsurePdpt, Low, WithoutLow, Translate, LeafAt, Quiet, NoRepeats, TablesOk;
    var s1 := BuildPage(s, g);
    var s2 := EnsurePdpt(s1, root, TopIndex(g));
    SelfIff(s, root, Low(s.stack));
    QuietTranslates(s, s1, root, root);
    SelfIff(s, root, root);
    var p := Read(s2.mem, root, TopIndex(g)).frame;
    if !Read(s.mem, root, TopIndex(g)).present {
      LowMember(s1.stack);
      QuietTranslates(s, s1, root, p);
    }
    QuietTranslates(s, s2, root, p);
    SelfIff(s, root, p);
  }

  /** The identity map and its surroundings last through a turn. */
  lemma IdentityLasts(s: Sys, root: nat, g: nat)
    requires BootOk(s, root) && CanMapGiB(s, root, g) && WindowFree(s, root, g) && IdentityOnly(s, root) && StackBelow(s.stack)
    requires TurnWrites(s, root, g)
    ensures IdentityOnly(MapGiB(s, root, g), root) && StackBelow(MapGiB(s, root, g).stack)
  {
    hide MapGiB, BootOk, CanMapGiB, WindowFree, Translate, LeafAt, TurnWrites, Low, WithoutLow, DropLow, Prefix, Index;
    var s' := MapGiB(s, root, g);
    TurnWritesIff(s, root, g);
    MapGiBTables(s, root, g);
    BootTables(s, root);
    BootTables(s', root);
    forall f: nat | f < LIMIT ensures Translate(s'.mem, root, f) == Translate(s.mem, root, f) {
      MapGiBLeaf(s, root, g, f);
      LowIsOutside(f);
      TranslateGrants(s, root, f);
      TranslateGrants(s', root, f);
    }
    NotLarge(s, root, g);
    forall i: nat | i < 512 && Read(s'.mem, root, i).present && !Read(s'.mem, root, i).size
      ensures Read(s'.mem, root, i).frame < IDENTITY
    {
      MapGiBTops(s, root, g, i);
    }
    MapGiBStack(s, root, g);
    DropMembers(s.stack, TurnNeed(s.mem, root, g));
  }

  lemma NotLarge(s: Sys, root: nat, g: nat)
    requires WindowFree(s, root, g)
    ensures TopIndex(g) < 512 && (Read(s.mem, root, TopIndex(g)).present ==> !Read(s.mem, root, TopIndex(g)).size)
  {
  }

  lemma LowIsOutside(f: nat)
    requires f < LIMIT
    ensures Prefix(f, 2) < FIRST * 512
  {
    hide Prefix;
    PrefixTwo(f);
    BelowMultiple(f, FIRST * 512);
  }

  lemma {:induction false} DropMembers(q: seq<nat>, k: nat)
    requires k <= |q|
    ensures forall x :: x in DropLow(q, k) ==> x in q
    decreases k
  {
    if k > 0 {
      LowMember(q);
      DropMembers(WithoutLow(q), k - 1);
    }
  }

  ghost predicate AllLow(q: seq<nat>, k: nat)
    requires k <= |q|
  {
    forall x :: x in Lows(q, k) ==> x < IDENTITY
  }

  lemma AllLowSplit(q: seq<nat>, a: nat, b: nat)
    requires a + b <= |q| && 1 <= a <= 2
    ensures AllLow(q, a + b) <==>
      Low(q) < IDENTITY && (a == 1 || Low(WithoutLow(q)) < IDENTITY) && AllLow(DropLow(q, a), b)
  {
    hide LowIndex;
    var w := WithoutLow(q);
    var whole, rest := Lows(q, a + b), Lows(w, a + b - 1);
    assert whole == [Low(q)] + rest;
    assert forall x :: x in whole <==> x == Low(q) || x in rest;
    assert Low(q) in whole;
    if a == 1 {
      assert DropLow(q, 1) == DropLow(w, 0) == w;
      assert rest == Lows(DropLow(q, 1), b);
    } else {
      var last := Lows(WithoutLow(w), b);
      assert rest == [Low(w)] + last;
      assert forall x :: x in rest <==> x == Low(w) || x in last;
      assert Low(w) in rest;
      assert DropLow(q, 2) == DropLow(w, 1) == DropLow(WithoutLow(w), 0) == WithoutLow(w);
    }
  }

  /** The loop writes without a fault if and only if all frames it takes, the lowest ones, are below
      8 MiB. */
  lemma {:induction false} AllWritesIff(s: Sys, root: nat, g: nat, n: nat)
    requires g <= n && CanInit(s, root, g, n) && BootOk(s, root) && WindowsFree(s, root, g, n)
    requires IdentityOnly(s, root) && StackBelow(s.stack)
    ensures Need(s.mem, root, g, n) <= |s.stack|
    ensures AllWrites(s, root, g, n) <==> AllLow(s.stack, Need(s.mem, root, g, n))
    decreases n - g
  {
    hide MapGiB, BootOk, WindowsFree, CanMapGiB, IdentityOnly, StackBelow, TurnWrites, Low, WithoutLow, DropLow, AllLow, Need,
         WindowFree;
    InitPagingStack(s, root, g, n);
    if g == n {
      NeedNone(s.mem, root, g, s.stack);
    } else {
      var s1 := MapGiB(s, root, g);
      MapGiBReady(s, root, g, n);
      MapGiBStack(s, root, g);
      NeedStep(s, root, g, n);
      TurnWritesIff(s, root, g);
      AllLowSplit(s.stack, TurnNeed(s.mem, root, g), Need(s1.mem, root, g + 1, n));
      if TurnWrites(s, root, g) {
        IdentityLasts(s, root, g);
        AllWritesIff(s1, root, g + 1, n);
      }
    }
  }

  lemma NeedNone(mem: Mem, root: nat, g: nat, q: seq<nat>)
    ensures Need(mem, root, g, g) == 0 && AllLow(q, 0)
  {
  }

  /** A lowest free page at or above 8 MiB makes the very first turn fault. */
  lemma HighPageFaults(s: Sys, root: nat, n: nat)
    requires n > 0 && CanInit(s, root, 0, n) && BootOk(s, root) && WindowsFree(s, root, 0, n)
    requires IdentityOnly(s, root) && StackBelow(s.stack) && forall x :: x in s.stack ==> x >= IDENTITY
    ensures !AllWrites(s, root, 0, n)
  {
    hide BootOk, IdentityOnly, AllWrites, CanMapGiB, MapGiB;
    assert CanMapGiB(s, root, 0);
    assert WindowFree(s, root, 0);
    TurnWritesIff(s, root, 0);
    LowMemberOf(s, root);
    hide TurnWrites;
    assert !TurnWrites(s, root, 0);
    FirstTurn(s, root, n);
  }

  lemma LowMemberOf(s: Sys, root: nat)
    requires CanMapGiB(s, root, 0)
    ensures s.stack != [] && Low(s.stack) in s.stack
  {
  }

  lemma FirstTurn(s: Sys, root: nat, n: nat)
    requires n > 0 && CanInit(s, root, 0, n) && !TurnWrites(s, root, 0)
    ensures !AllWrites(s, root, 0, n)
  {
  }

  /** From 2 TiB of memory on the loop always faults: it needs more tables than there are frames below
      8 MiB. */
  lemma TwoTerabytesFault(s: Sys, root: nat, n: nat)
    requires n >= IDENTITY && CanInit(s, root, 0, n) && BootOk(s, root) && WindowsFree(s, root, 0, n)
    requires IdentityOnly(s, root) && StackBelow(s.stack) && 0 !in s.stack
    ensures !AllWrites(s, root, 0, n)
  {
    hide BootOk, WindowsFree, IdentityOnly, AllWrites, CanInit, Lows;
    var k := Need(s.mem, root, 0, n);
    AllWritesIff(s, root, 0, n);
    NeedIsMore(s.mem, root, 0, 0, n);
    var out := TakenSet(s, root, k);
    if AllLow(s.stack, k) {
      forall x | x in out ensures 0 < x < IDENTITY {}
      FewLow(out);
    }
  }

  lemma TakenSet(s: Sys, root: nat, k: nat) returns (out: set<nat>)
    requires BootOk(s, root) && k <= |s.stack|
    ensures |out| == k && (forall x :: x in out ==> x in s.stack && x in Lows(s.stack, k))
  {
    out := DropLowTakesSmallest(s.stack, k);
  }

  lemma FewLow(out: set<nat>)
    requires forall x :: x in out ==> 0 < x < IDENTITY
    ensures |out| < IDENTITY
  {
    CountTo(out, IDENTITY);
  }

  lemma {:induction false} CountTo(out: set<nat>, n: nat)
    requires n > 0 && forall x :: x in out ==> 0 < x < n
    ensures |out| < n
    decreases n
  {
    if n > 1 {
      CountTo(out - {n - 1}, n - 1);
      assert out <= out - {n - 1} + {n - 1};
      if n - 1 in out { assert out == (out - {n - 1}) + {n - 1}; } else { assert out == out - {n - 1}; }
    } else {
      assert out == {};
    }
  }

  /** The buffer of the free-page stack is used through its physical address as well: all its pages are
      reached if and only if it ends below 8 MiB. */
  lemma BufferReachedIff(s: Sys, root: nat, start: nat, size: nat)
    requires IdentityOnly(s, root) && size > 0 && start + size <= LIMIT * 4096
    ensures (forall a: nat :: start <= a < start + size ==> Self(s.mem, root, PageAt(a))) <==>
      start + size <= IDENTITY * 4096
  {
    hide IdentityOnly, Self;
    forall a: nat | start <= a < start + size ensures Self(s.mem, root, PageAt(a)) <==> a < IDENTITY * 4096 {
      SelfIff(s, root, PageAt(a));
    }
    var last := start + size - 1;
    assert Self(s.mem, root, PageAt(last)) <==> last < IDENTITY * 4096;
  }

  function PageAt(a: nat): nat { a / 4096 }

  /** All eight bytes of slot `i` of a buffer at address `at` are reached through their addresses. */
  predicate SlotReached(mem: Mem, root: nat, at: nat, i: nat) {
    Self(mem, root, PageAt(at + 8 * i)) && Self(mem, root, PageAt(at + 8 * i + 7))
  }

  ghost predicate SlotsReached(mem: Mem, root: nat, at: nat, n: nat) {
    forall i: nat :: i < n ==> SlotReached(mem, root, at, i)
  }

  lemma SlotsGrow(mem: Mem, root: nat, at: nat, i: nat, n: nat)
    ensures SlotsReached(mem, root, at, i) && SlotReached(mem, root, at, i) ==> SlotsReached(mem, root, at, i + 1)
    ensures i < n && !SlotReached(mem, root, at, i) ==> !SlotsReached(mem, root, at, n)
  {
    hide SlotReached;
  }

  /** The first `n` slots are reached if and only if they end at or below 8 MiB. */
  lemma SlotsReachedIff(s: Sys, root: nat, at: nat, n: nat)
    requires IdentityOnly(s, root) && at + 8 <= LIMIT * 4096
    ensures SlotsReached(s.mem, root, at, n) <==> n == 0 || at + 8 * n <= IDENTITY * 4096
  {
    hide IdentityOnly, Self;
    if at + 8 * n <= IDENTITY * 4096 {
      forall i: nat | i < n ensures SlotReached(s.mem, root, at, i) {
        SelfIff(s, root, PageAt(at + 8 * i));
        SelfIff(s, root, PageAt(at + 8 * i + 7));
      }
    } else if n > 0 {
      var i: nat := if at > IDENTITY * 4096 then 0 else (IDENTITY * 4096 - at) / 8;
      assert i < n && IDENTITY * 4096 <= at + 8 * i + 7 < LIMIT * 4096;
      SelfIff(s, root, PageAt(at + 8 * i + 7));
      assert !SlotReached(s.mem, root, at, i);
    }
  }

  /** The identity map lasts through any part of the loop, and so do all slots reached through it. */
  lemma {:induction false} IdentityStays(s: Sys, root: nat, g: nat, m: nat, n: nat)
    requires g <= m <= n && CanInit(s, root, g, n) && BootOk(s, root) && WindowsFree(s, root, g, n)
    requires IdentityOnly(s, root) && StackBelow(s.stack) && AllWrites(s, root, g, n)
    ensures CanInit(s, root, g, m) && IdentityOnly(InitPaging(s, root, g, m), root)
    decreases m - g
  {
    hide MapGiB, BootOk, WindowFree, CanMapGiB, IdentityOnly, StackBelow, TurnWrites, WindowsFree;
    if g < m {
      MapGiBReady(s, root, g, n);
      IdentityLasts(s, root, g);
      IdentityStays(MapGiB(s, root, g), root, g + 1, m, n);
    }
  }

  // ------------------------------------------------------------------- result

  /** After `_init_paging`, if none of its writes faults, every physical address below the given length
      is found at its place in the window, writable and for the kernel only, and no translation
      outside the window changes. */
  lemma InitPagingMaps(s: Sys, root: nat, length: nat)
    requires BootOk(s, root) && length <= 0x4000_0000_0000 && WindowsFree(s, root, 0, GiBs(length))
    requires CanInit(s, root, 0, GiBs(length)) && AllWrites(s, root, 0, GiBs(length))
    ensures var s' := InitPaging(s, root, 0, GiBs(length));
      && BootOk(s', root)
      && (forall p: nat :: p < length ==> Translate(s'.mem, root, WINDOW + p / 4096) == Mapped(p / 4096, true, false, true))
      && (forall v: nat :: v < FRAMES && !(WINDOW <= v < WINDOW + GiBs(length) * 0x4_0000) ==>
           Translate(s'.mem, root, v) == Translate(s.mem, root, v))
  {
    hide BootOk, WindowsFree, LeafAt, Translate, InitPaging, CanInit, AllWrites;
    var n := GiBs(length);
    var s' := InitPaging(s, root, 0, n);
    InitPagingLeaf(s, root, 0, n, 0);
    BootTables(s, root);
    BootTables(s', root);
    forall p: nat | p < length ensures Translate(s'.mem, root, WINDOW + p / 4096) == Mapped(p / 4096, true, false, true) {
      var x := p / 4096;
      WindowIndex(x);
      assert x / 0x4_0000 < n;
      InitPagingLeaf(s, root, 0, n, WINDOW + x);
      TranslateGrants(s', root, WINDOW + x);
    }
    forall v: nat | v < FRAMES && !(WINDOW <= v < WINDOW + n * 0x4_0000)
      ensures Translate(s'.mem, root, v) == Translate(s.mem, root, v)
    {
      InitPagingLeaf(s, root, 0, n, v);
      OutsideWindow(v, n);
      TranslateGrants(s, root, v);
      TranslateGrants(s', root, v);
    }
  }

  /** The frames used are the smallest, one for each gigabyte and one for each absent upper table, and
      the rest of the stack keeps its order; no write faults if and only if they are all below
      8 MiB. */
  lemma InitPagingTakesLowest(s: Sys, root: nat, length: nat) returns (out: set<nat>)
    requires BootOk(s, root) && WindowsFree(s, root, 0, GiBs(length)) && CanInit(s, root, 0, GiBs(length))
    requires IdentityOnly(s, root) && StackBelow(s.stack)
    ensures var q := InitPaging(s, root, 0, GiBs(length)).stack;
      && q == Keep(s.stack, out) && (forall x :: x in out ==> x in s.stack)
      && (forall x, y :: x in out && y in q ==> x < y) && |out| == Need(s.mem, root, 0, GiBs(length))
    ensures AllWrites(s, root, 0, GiBs(length)) <==> forall x :: x in out ==> x < IDENTITY
  {
    hide WindowsFree, InitPaging, Keep, IdentityOnly, CanInit, AllWrites, Lows;
    var n := GiBs(length);
    InitPagingStack(s, root, 0, n);
    AllWritesIff(s, root, 0, n);
    out := DropLowTakesSmallest(s.stack, Need(s.mem, root, 0, n));
  }
}
