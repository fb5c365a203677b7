/**
 The whole of `pmm_init`, kernel/system/mem_mgmt/pmm.c: the stack filled from the
 memory map, then physical memory mapped with tables taken from it. The stack
 holds byte addresses and the tables frame numbers.
 */
module PmmInit {
  import opened PageTables
  import opened PagingProofs
  import opened LowPages
  import opened BootMemory
  import opened PmmBoot
  import opened PhysicalMap
  import opened PhysicalWindow
  import opened PhysicalPages
  import opened AddressSpaces

  /** The machine after the stack has been filled. */
  ghost function Filled0(mem: Mem, owner: map<nat, Pos>, mmap: seq<MapEntry>, unsafe: seq<Bytes>): Sys {
    Sys(mem, FramesOf(Fill(mmap, unsafe, |mmap|).stack), owner)
  }

  /** What `pmm_init` starts from: tables in order, none at frame 0, and the area of all of them one of
      the unsafe ranges, as `get_page_table_area` and the caller arrange. */
  ghost predicate Boots(mem: Mem, owner: map<nat, Pos>, root: nat, unsafe: seq<Bytes>, k: nat, lo: nat, hi: nat) {
    && TablesOk(Sys(mem, [], owner), root) && NoZeroTable(mem, root) && root != 0
    && k < |unsafe| && unsafe[k] == Bytes(lo * 4096, hi * 4096) && (forall f :: f in Tables(mem, root) ==> lo <= f < hi)
  }

  lemma {:induction false} StackAligned(mmap: seq<MapEntry>, unsafe: seq<Bytes>)
    ensures Aligned(Fill(mmap, unsafe, |mmap|).stack)
  {
    hide Fill;
    var q := Fill(mmap, unsafe, |mmap|).stack;
    forall i | 0 <= i < |q| ensures q[i] % 4096 == 0 {
      var j := StackIsFree(mmap, unsafe, q[i]);
    }
  }

  lemma FramesApart(q: seq<nat>)
    requires Aligned(q) && Increasing(q)
    ensures NoRepeats(FramesOf(q))
  {
    forall i, j | 0 <= i < j < |q| ensures FramesOf(q)[i] != FramesOf(q)[j] {
      assert q[i] == FramesOf(q)[i] * 4096 && q[j] == FramesOf(q)[j] * 4096;
    }
  }

  lemma FrameFrom(q: seq<nat>, f: nat) returns (x: nat)
    requires f in FramesOf(q) && Aligned(q)
    ensures x in q && x == f * 4096
  {
    var i :| 0 <= i < |q| && FramesOf(q)[i] == f;
    x := q[i];
  }

  /** For a sorted map the filled stack has no repeats, no frame 0 and no live table, and lies below the
      end of memory. */
  lemma FilledOk(mem: Mem, owner: map<nat, Pos>, root: nat, mmap: seq<MapEntry>, unsafe: seq<Bytes>, k: nat, lo: nat, hi: nat)
    requires SortedMap(mmap) && Boots(mem, owner, root, unsafe, k, lo, hi)
    ensures var s := Filled0(mem, owner, mmap, unsafe);
      && BootOk(s, root) && 0 !in s.stack && forall f :: f in s.stack ==> (f + 1) * 4096 <= MaxEnd(mmap, |mmap|)
  {
    hide Fill, FreePageOf, SortedMap, TreeOk, RightsOk;
    var q, s := Fill(mmap, unsafe, |mmap|).stack, Filled0(mem, owner, mmap, unsafe);
    StackAligned(mmap, unsafe);
    StackIsExact(mmap, unsafe, 0);
    FramesApart(q);
    TablesOkStack(Sys(mem, [], owner), root, s.stack);
    forall f | f in s.stack ensures f !in owner && f != 0 && (f + 1) * 4096 <= MaxEnd(mmap, |mmap|) {
      var x := FrameFrom(q, f);
      FrameIsSpare(mem, owner, root, mmap, unsafe, k, lo, hi, x, f);
    }
  }

  lemma FrameIsSpare(mem: Mem, owner: map<nat, Pos>, root: nat, mmap: seq<MapEntry>, unsafe: seq<Bytes>, k: nat, lo: nat, hi: nat,
                     x: nat, f: nat)
    requires Boots(mem, owner, root, unsafe, k, lo, hi) && x in Fill(mmap, unsafe, |mmap|).stack && x == f * 4096
    ensures f !in owner && (f + 1) * 4096 <= MaxEnd(mmap, |mmap|)
  {
    hide Fill;
    var j := StackIsFree(mmap, unsafe, x);
    assert mmap[j].base + mmap[j].length <= MaxEnd(mmap, |mmap|);
    if f in owner {
      OwnerIsLive(Sys(mem, [], owner), root, f);
      StackHasNoTable(mmap, unsafe, x, k, lo, hi, mem, root, owner[f]);
      assert false;
    }
  }

  lemma OwnerIsLive(s: Sys, root: nat, f: nat)
    requires TablesOk(s, root) && f in s.owner
    ensures 1 <= s.owner[f].level <= 4 && TableAt(s.mem, root, s.owner[f]) == Table(f)
  {
  }

  /** `pmm_init` runs to its end: every slot of the stack, whose buffer is at physical address `at`, and
      every new table is reached when it is written. */
  ghost predicate RunsThrough(mem: Mem, owner: map<nat, Pos>, root: nat, mmap: seq<MapEntry>, unsafe: seq<Bytes>, at: nat)
    requires CanInit(Filled0(mem, owner, mmap, unsafe), root, 0, GiBs(MaxEnd(mmap, |mmap|)))
  {
    && SlotsReached(mem, root, at, |Fill(mmap, unsafe, |mmap|).stack|)
    && AllWrites(Filled0(mem, owner, mmap, unsafe), root, 0, GiBs(MaxEnd(mmap, |mmap|)))
  }

  /** What the loader and the caller arrange, for memory below 64 TiB. */
  ghost predicate Bootable(mem: Mem, owner: map<nat, Pos>, root: nat, mmap: seq<MapEntry>, unsafe: seq<Bytes>, k: nat, lo: nat, hi: nat,
                           at: nat)
  {
    && SortedMap(mmap) && Boots(mem, owner, root, unsafe, k, lo, hi) && MaxEnd(mmap, |mmap|) <= 0x4000_0000_0000
    && 0 < at && at + 8 <= LIMIT * 4096
    && var s, n := Filled0(mem, owner, mmap, unsafe), GiBs(MaxEnd(mmap, |mmap|));
       IdentityOnly(s, root) && WindowsFree(s, root, 0, n) && CanInit(s, root, 0, n)
  }

  lemma StackIsBelow(mem: Mem, owner: map<nat, Pos>, root: nat, mmap: seq<MapEntry>, unsafe: seq<Bytes>, k: nat, lo: nat, hi: nat)
    requires SortedMap(mmap) && Boots(mem, owner, root, unsafe, k, lo, hi) && MaxEnd(mmap, |mmap|) <= 0x4000_0000_0000
    ensures StackBelow(Filled0(mem, owner, mmap, unsafe).stack) && BootOk(Filled0(mem, owner, mmap, unsafe), root)
  {
    hide SortedMap, Boots, BootOk, Fill;
    FilledOk(mem, owner, root, mmap, unsafe, k, lo, hi);
  }

  /** `pmm_init` runs without a fault if and only if its stack ends at or below 8 MiB, at eight bytes a
      page, and the lowest pages it makes into tables are below 8 MiB. */
  lemma RunsThroughIff(mem: Mem, owner: map<nat, Pos>, root: nat, mmap: seq<MapEntry>, unsafe: seq<Bytes>, k: nat, lo: nat, hi: nat,
                       at: nat)
    requires Bootable(mem, owner, root, mmap, unsafe, k, lo, hi, at)
    ensures var s, n := Filled0(mem, owner, mmap, unsafe), GiBs(MaxEnd(mmap, |mmap|));
      && Need(s.mem, root, 0, n) <= |s.stack|
      && (RunsThrough(mem, owner, root, mmap, unsafe, at) <==>
           (s.stack == [] || at + 8 * |s.stack| <= IDENTITY * 4096) && AllLow(s.stack, Need(s.mem, root, 0, n)))
  {
    hide SortedMap, Boots, IdentityOnly, WindowsFree, CanInit, AllWrites, BootOk, Fill, SlotsReached, AllLow, StackBelow, Need;
    var s, n := Filled0(mem, owner, mmap, unsafe), GiBs(MaxEnd(mmap, |mmap|));
    StackIsBelow(mem, owner, root, mmap, unsafe, k, lo, hi);
    SlotsReachedIff(s, root, at, |s.stack|);
    AllWritesIff(s, root, 0, n);
  }

  /** With 4 GiB of free memory or more the stack alone does not fit below 8 MiB, and `pmm_init` always
      faults, whichever pages are free. */
  lemma FourGigabytesFault(mem: Mem, owner: map<nat, Pos>, root: nat, mmap: seq<MapEntry>, unsafe: seq<Bytes>, at: nat)
    requires IdentityOnly(Filled0(mem, owner, mmap, unsafe), root) && 0 < at && at + 8 <= LIMIT * 4096
    requires |Fill(mmap, unsafe, |mmap|).stack| >= 0x10_0000
    ensures !SlotsReached(mem, root, at, |Fill(mmap, unsafe, |mmap|).stack|)
  {
    hide IdentityOnly, Fill, SlotsReached;
    SlotsReachedIff(Filled0(mem, owner, mmap, unsafe), root, at, |Fill(mmap, unsafe, |mmap|).stack|);
  }

  /** What holds when `pmm_init` is done. */
  ghost predicate Ready(s: Sys, s': Sys, root: nat, length: nat, out: set<nat>) {
    && BootOk(s', root) && 0 !in s'.stack && 0 !in s'.owner
    && (forall x: nat, at: Pos :: x in s'.stack && 1 <= at.level <= 4 ==> TableAt(s'.mem, root, at) != Table(x))
    && (forall p: nat :: p < length ==> Translate(s'.mem, root, WINDOW + p / 4096) == Mapped(p / 4096, true, false, true))
    && (forall v: nat :: v < FRAMES && !(WINDOW <= v < WINDOW + GiBs(length) * 0x4_0000) ==>
         Translate(s'.mem, root, v) == Translate(s.mem, root, v))
    && s'.stack == Keep(s.stack, out) && |out| == Need(s.mem, root, 0, GiBs(length)) && (forall x :: x in out ==> x in s.stack)
  }

  /** The whole of `pmm_init`, for a sorted map, when it runs through: physical memory is found in the
      window; the pages left on the stack are those of the map without the smallest ones, which
      became tables; none of them is zero, repeated, or a live table; and the stack is still
      reached. */
  lemma PmmInitReady(mem: Mem, owner: map<nat, Pos>, root: nat, mmap: seq<MapEntry>, unsafe: seq<Bytes>, k: nat, lo: nat, hi: nat,
                     at: nat)
    returns (out: set<nat>)
    requires Bootable(mem, owner, root, mmap, unsafe, k, lo, hi, at) && RunsThrough(mem, owner, root, mmap, unsafe, at)
    ensures var s, length := Filled0(mem, owner, mmap, unsafe), MaxEnd(mmap, |mmap|);
      var s' := InitPaging(s, root, 0, GiBs(length));
      && Ready(s, s', root, length, out) && (forall x :: x in out ==> x < IDENTITY)
      && IdentityOnly(s', root) && SlotsReached(s'.mem, root, at, |s.stack|)
  {
    hide SortedMap, Boots, IdentityOnly, WindowsFree, CanInit, AllWrites, BootOk, Translate, TableAt, InitPaging, Keep, Fill,
         SlotsReached, StackBelow, Lows;
    var s, length := Filled0(mem, owner, mmap, unsafe), MaxEnd(mmap, |mmap|);
    var s' := InitPaging(s, root, 0, GiBs(length));
    FilledOk(mem, owner, root, mmap, unsafe, k, lo, hi);
    StackIsBelow(mem, owner, root, mmap, unsafe, k, lo, hi);
    InitPagingMaps(s, root, length);
    out := InitPagingTakesLowest(s, root, length);
    KeepMember(s.stack, out, 0);
    BootsTables(mem, owner, root, unsafe, k, lo, hi);
    TablesFromStack(s, root, 0, GiBs(length));
    forall x: nat, p: Pos | x in s'.stack && 1 <= p.level <= 4 ensures TableAt(s'.mem, root, p) != Table(x) {
      FreeIsNoTable(s', root, p, x);
    }
    BufferStays(s, root, GiBs(length), GiBs(length), at, |s.stack|);
  }

  /** The slots reached while the stack was filled are reached at every later turn of `_init_paging`, where
      the stack is read and shifted. */
  lemma BufferStays(s: Sys, root: nat, m: nat, n: nat, at: nat, k: nat)
    requires m <= n && CanInit(s, root, 0, n) && BootOk(s, root) && WindowsFree(s, root, 0, n)
    requires IdentityOnly(s, root) && StackBelow(s.stack) && AllWrites(s, root, 0, n)
    requires at + 8 <= LIMIT * 4096 && SlotsReached(s.mem, root, at, k)
    ensures CanInit(s, root, 0, m)
    ensures IdentityOnly(InitPaging(s, root, 0, m), root) && SlotsReached(InitPaging(s, root, 0, m).mem, root, at, k)
  {
    hide IdentityOnly, WindowsFree, CanInit, AllWrites, BootOk, InitPaging, SlotsReached, StackBelow;
    IdentityStays(s, root, 0, m, n);
    SlotsReachedIff(s, root, at, k);
    SlotsReachedIff(InitPaging(s, root, 0, m), root, at, k);
  }

  lemma NoTableAtZero(mem: Mem, owner: map<nat, Pos>, root: nat)
    requires TablesOk(Sys(mem, [], owner), root) && NoZeroTable(mem, root) && root != 0
    ensures 0 !in owner
  {
    if 0 in owner { OwnerIsLive(Sys(mem, [], owner), root, 0); }
  }

  lemma BootsTables(mem: Mem, owner: map<nat, Pos>, root: nat, unsafe: seq<Bytes>, k: nat, lo: nat, hi: nat)
    requires Boots(mem, owner, root, unsafe, k, lo, hi)
    ensures 0 !in owner
  {
    NoTableAtZero(mem, owner, root);
  }

  /** New tables come from the stack. */
  lemma {:induction false} TablesFromStack(s: Sys, root: nat, g: nat, n: nat)
    requires g <= n && CanInit(s, root, g, n)
    ensures InitPaging(s, root, g, n).owner.Keys <= s.owner.Keys + Elements(s.stack)
    decreases n - g
  {
    hide MapGiB;
    if g < n {
      var s1 := MapGiB(s, root, g);
      TurnFromStack(s, root, g);
      TablesFromStack(s1, root, g + 1, n);
    }
  }

  lemma TurnFromStack(s: Sys, root: nat, g: nat)
    requires CanMapGiB(s, root, g)
    ensures var s1 := MapGiB(s, root, g);
      s1.owner.Keys <= s.owner.Keys + Elements(s.stack) && Elements(s1.stack) <= Elements(s.stack)
  {
    LowMember(s.stack);
    var s1 := BuildPage(s, g);
    if !Read(s1.mem, root, TopIndex(g)).present { LowMember(s1.stack); }
    hide Low, WithoutLow, ZeroFrame, FillBig;
  }

  lemma FreeIsNoTable(s: Sys, root: nat, at: Pos, x: nat)
    requires BootOk(s, root) && x in s.stack && 1 <= at.level <= 4
    ensures TableAt(s.mem, root, at) != Table(x)
  {
    if TableAt(s.mem, root, at) == Table(x) { TableInOwner(s, root, at); }
  }

  /** `pmm_init` as it runs, with the buffer of the stack at physical address `at`. The kernel stops with
      a page fault when a slot of the stack or a table cannot be written. */
  method Initialise(pmm: Pmm, at: nat, mmap: seq<MapEntry>, unsafe: seq<Bytes>, root: nat, mem: Mem, ghost owner: map<nat, Pos>)
    returns (space: AddressSpace?, low: nat, fault: bool)
    requires pmm.Valid() && pmm.index == 0 && Reserved(mmap, |mmap|) <= 8 * pmm.pages.Length
    requires CanInit(Filled0(mem, owner, mmap, unsafe), root, 0, GiBs(MaxEnd(mmap, |mmap|)))
    modifies pmm, pmm.pages
    ensures fault <==> !RunsThrough(mem, owner, root, mmap, unsafe, at)
    ensures !fault ==>
      && low == Fill(mmap, unsafe, |mmap|).low && space != null && space.Valid() && space.root == root
      && space.State() == InitPaging(Filled0(mem, owner, mmap, unsafe), root, 0, GiBs(MaxEnd(mmap, |mmap|)))
  {
    hide Fill, CanInit, AllWrites, InitPaging, SlotsReached;
    StackAligned(mmap, unsafe);
    space := null;
    var maxAddr;
    low, maxAddr, fault := FillStack(pmm, at, mem, root, mmap, unsafe);
    if fault { return; }
    space := new AddressSpace(root, pmm, mem, owner);
    fault := space.InitPagingLoop(maxAddr);
  }
}
