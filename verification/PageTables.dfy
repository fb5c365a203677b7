/**
 Four-level x86-64 page tables over a memory of 4 KiB frames, and the two
 operations of kernel/system/mem_mgmt/vmm/paging.c that edit them. `Walk` is
 the translation of section 4.5 and the access rights of section 4.6 of the
 Intel SDM, Volume 3A; it serves every writer of page tables in this project.

 Frames and virtual pages are numbers, one per 4096 bytes. An entry is the
 record of the bits the kernel uses; `PteBits` ties it to the 64-bit word.
 */
module PageTables {

  /** Size of the frame field of an entry: bits 12 to 47. */
  const FRAMES := 0x10_0000_0000

  datatype Pte = Pte(frame: nat, present: bool, rw: bool, user: bool, size: bool, global: bool, usable: bool, nx: bool)

  const ZERO := Pte(0, false, false, false, false, false, false, false)

  /** A writable link to a table, as `_init_paging` and the loader make them. */
  function TableEntry(n: nat): Pte { ZERO.(frame := n, present := true, rw := true) }

  datatype Slot = Slot(frame: nat, index: nat)

  /** Physical memory seen as table entries; a slot never written reads as zero. */
  type Mem = map<Slot, Pte>

  function Read(mem: Mem, f: nat, i: nat): Pte {
    if Slot(f, i) in mem then mem[Slot(f, i)] else ZERO
  }

  function Write(mem: Mem, f: nat, i: nat, e: Pte): Mem { mem[Slot(f, i) := e] }

  // ------------------------------------------------------------ translation

  /** The part of a virtual page number that selects a table of this level. */
  function Prefix(vp: nat, level: nat): nat {
    if level == 0 then vp else Prefix(vp, level - 1) / 512
  }

  /** The index used inside that table. */
  function Index(vp: nat, level: nat): nat
    requires level > 0
  {
    Prefix(vp, level - 1) % 512
  }

  datatype Leaf = NoLeaf | Leaf(level: nat, e: Pte)

  /** The entry that maps `vp`, starting in table `f` of the given level. */
  function LeafAt(mem: Mem, f: nat, vp: nat, level: nat): Leaf
    requires 1 <= level <= 4
    decreases level
  {
    var e := Read(mem, f, Index(vp, level));
    if !e.present then NoLeaf
    else if level == 1 then Leaf(1, e)
    else if e.size then (if level == 4 then NoLeaf else Leaf(level, e))
    else LeafAt(mem, e.frame, vp, level - 1)
  }

  function Pow512(n: nat): nat { if n == 0 then 1 else 512 * Pow512(n - 1) }

  datatype Mapping = Fault | Mapped(frame: nat, write: bool, user: bool, exec: bool)

  /** The hardware walk: frame and the rights combined over all levels passed. */
  function Walk(mem: Mem, f: nat, vp: nat, level: nat, write: bool, user: bool, exec: bool): Mapping
    requires 1 <= level <= 4
    decreases level
  {
    var e := Read(mem, f, Index(vp, level));
    var w, u, x := write && e.rw, user && e.user, exec && !e.nx;
    if !e.present then Fault
    else if level == 1 then Mapped(e.frame, w, u, x)
    else if e.size then
      (if level == 4 then Fault else Mapped(BigPage(e, vp, level), w, u, x))
    else Walk(mem, e.frame, vp, level - 1, w, u, x)
  }

  /** The frame inside a large page of 2 MiB (level 2) or 1 GiB (level 3). */
  function BigPage(e: Pte, vp: nat, level: nat): nat
    requires level > 0
  {
    var n := if level == 1 then 1 else if level == 2 then 512 else 0x4_0000;
    e.frame / n * n + vp % n
  }

  function Translate(mem: Mem, root: nat, vp: nat): Mapping {
    Walk(mem, root, vp, 4, true, true, true)
  }

  // ------------------------------------------------------------ table editing

  /** Where in the address space a table belongs. */
  datatype Pos = Pos(level: nat, prefix: nat)

  /** Memory, the stack of free frames (last element on top), and the position of every table. */
  datatype Sys = Sys(mem: Mem, stack: seq<nat>, owner: map<nat, Pos>)

  /** The bits that `set_page` ORs into every level. */
  datatype Flags = Flags(present: bool, rw: bool, user: bool, global: bool, usable: bool)

  const NO_FLAGS := Flags(false, false, false, false, false)

  const WRITABLE := Flags(true, true, false, false, false)

  function OrFlags(e: Pte, fl: Flags): Pte {
    e.(present := e.present || fl.present, rw := e.rw || fl.rw, user := e.user || fl.user,
       global := e.global || fl.global, usable := e.usable || fl.usable)
  }

  /** `pmm_alloc_page`: zero when the stack is empty. */
  function Top(s: Sys): nat { if s.stack == [] then 0 else s.stack[|s.stack| - 1] }

  function Pop(s: Sys): Sys { if s.stack == [] then s else s.(stack := s.stack[..|s.stack| - 1]) }

  /** One level of `get_page_table_entry`: allocate the next table if absent, then OR the flags in.
      The new table is used as it is found in memory. */
  function Descend(s: Sys, f: nat, i: nat, fl: Flags, at: Pos): Sys {
    var e := Read(s.mem, f, i);
    if e.present then s.(mem := Write(s.mem, f, i, OrFlags(e, fl)))
    else
      var n := Top(s) % FRAMES;
      Pop(s).(mem := Write(s.mem, f, i, OrFlags(ZERO.(frame := n, present := true), fl)), owner := s.owner[n := at])
  }

  function Next(s: Sys, f: nat, i: nat): nat { Read(s.mem, f, i).frame }

  /** State after descending from `f` at `level` down to the level-1 table. */
  function Descent(s: Sys, f: nat, vp: nat, level: nat, fl: Flags): Sys
    requires 1 <= level <= 4
    decreases level
  {
    if level == 1 then s
    else
      var s1 := Descend(s, f, Index(vp, level), fl, Pos(level - 1, Prefix(vp, level - 1)));
      Descent(s1, Next(s1, f, Index(vp, level)), vp, level - 1, fl)
  }

  /** The level-1 table reached. */
  function Bottom(s: Sys, f: nat, vp: nat, level: nat, fl: Flags): nat
    requires 1 <= level <= 4
    decreases level
  {
    if level == 1 then f
    else
      var s1 := Descend(s, f, Index(vp, level), fl, Pos(level - 1, Prefix(vp, level - 1)));
      Bottom(s1, Next(s1, f, Index(vp, level)), vp, level - 1, fl)
  }

  datatype PageFlags = PageFlags(write: bool, exec: bool, kernel: bool, usable: bool, present: bool)

  function TableFlags(pf: PageFlags): Flags {
    Flags(pf.present, pf.write, !pf.kernel, pf.kernel, pf.usable)
  }

  function LeafEntry(frame: nat, pf: PageFlags): Pte {
    OrFlags(ZERO.(frame := frame % FRAMES, nx := !pf.exec), TableFlags(pf))
  }

  /** `set_page`. */
  function SetPage(s: Sys, root: nat, vp: nat, frame: nat, pf: PageFlags): Sys {
    var s1 := Descent(s, root, vp, 4, TableFlags(pf));
    var pt := Bottom(s, root, vp, 4, TableFlags(pf));
    s1.(mem := Write(s1.mem, pt, Index(vp, 1), LeafEntry(frame, pf)))
  }

  /** `free_page`: gives a usable frame back to the stack, whether present or not. */
  function FreePage(s: Sys, root: nat, vp: nat): Sys {
    var s1 := Descent(s, root, vp, 4, NO_FLAGS);
    var pt := Bottom(s, root, vp, 4, NO_FLAGS);
    var e := Read(s1.mem, pt, Index(vp, 1));
    var s2 := if e.usable then s1.(stack := s1.stack + [e.frame]) else s1;
    s2.(mem := Write(s2.mem, pt, Index(vp, 1), ZERO))
  }

  // -------------------------------------------------------------- invariants

  /** The table at a position, found from the root. */
  datatype MaybeTable = NoTable | Table(frame: nat)

  function TableAt(mem: Mem, root: nat, at: Pos): MaybeTable
    decreases 4 - at.level
  {
    if at.level >= 4 then (if at == Pos(4, 0) then Table(root) else NoTable)
    else
      match TableAt(mem, root, Pos(at.level + 1, at.prefix / 512))
      case NoTable => NoTable
      case Table(f) =>
        var e := Read(mem, f, at.prefix % 512);
        if e.present && !e.size then Table(e.frame) else NoTable
  }

  /** Every table entry leads to the one table of the position below it. */
  ghost predicate ChildOk(s: Sys, f: nat, i: nat) {
    f in s.owner && s.owner[f].level > 1 && i < 512 ==>
      var e := Read(s.mem, f, i);
      e.present && !e.size ==>
        e.frame in s.owner && s.owner[e.frame] == Pos(s.owner[f].level - 1, s.owner[f].prefix * 512 + i)
  }

  /** The tables form a tree without sharing: `owner` gives each table its one position, entries
      agree with it, and exactly the tables found from the root are in it. */
  ghost predicate TreeOk(s: Sys, root: nat) {
    && root in s.owner && s.owner[root] == Pos(4, 0)
    && (forall f :: f in s.owner ==> 1 <= s.owner[f].level <= 4 && TableAt(s.mem, root, s.owner[f]) == Table(f))
    && (forall f, i :: ChildOk(s, f, i))
  }

  /** Rights never grow on the way down and only leaves forbid execution. */
  ghost predicate RightsOkAt(s: Sys, f: nat, i: nat, j: nat) {
    f in s.owner && s.owner[f].level > 1 && i < 512 && j < 512 ==>
      var e := Read(s.mem, f, i);
      var d := Read(s.mem, e.frame, j);
      e.present && !e.size ==> !e.nx && (d.present ==> (d.rw ==> e.rw) && (d.user ==> e.user))
  }

  ghost predicate RightsOk(s: Sys) { forall f, i, j :: RightsOkAt(s, f, i, j) }

  /** A frame that reads as zero. */
  ghost predicate Blank(mem: Mem, f: nat) { forall i :: i < 512 ==> Read(mem, f, i) == ZERO }

  ghost predicate NoRepeats(q: seq<nat>) { forall i, j :: 0 <= i < j < |q| ==> q[i] != q[j] }

  /** The free frames are distinct, blank, addressable and not tables. */
  ghost predicate StackOk(s: Sys) {
    && NoRepeats(s.stack)
    && forall k :: 0 <= k < |s.stack| ==>
      s.stack[k] < FRAMES && s.stack[k] !in s.owner && Blank(s.mem, s.stack[k])
  }

  ghost predicate TablesOk(s: Sys, root: nat) { TreeOk(s, root) && RightsOk(s) }

  ghost predicate SysOk(s: Sys, root: nat) { TablesOk(s, root) && StackOk(s) }

  /** No large page lies over `vp`. */
  ghost predicate NoBig(mem: Mem, f: nat, vp: nat, level: nat)
    requires 1 <= level <= 4
    decreases level
  {
    level > 1 ==>
      var e := Read(mem, f, Index(vp, level));
      e.present ==> !e.size && NoBig(mem, e.frame, vp, level - 1)
  }

  /** Tables still missing on the way to `vp`: the frames an operation will take. */
  function Missing(mem: Mem, f: nat, vp: nat, level: nat): nat
    requires 1 <= level <= 4
    decreases level
  {
    if level == 1 then 0
    else
      var e := Read(mem, f, Index(vp, level));
      if e.present then Missing(mem, e.frame, vp, level - 1) else level - 1
  }

  /** The 4 KiB-level entry of `vp`, zero when there is no table for it. */
  function SlotOf(mem: Mem, root: nat, vp: nat): Pte {
    match TableAt(mem, root, Pos(1, vp / 512))
    case NoTable => ZERO
    case Table(f) => Read(mem, f, vp % 512)
  }
}
