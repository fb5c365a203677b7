/**
 `add_page` of the 32-bit loader, loader/loader.c: page tables from a zeroed pool,
 and how many of them a run of pages needs.
 */
module LoaderTables {
  import opened PageTables
  import opened PagingProofs
  import opened Frames

  function PageEntry(frame: nat, exec: bool): Pte {
    ZERO.(frame := frame % FRAMES, present := true, rw := true, nx := !exec)
  }

  // --------------------------------------------------------------- add_page

  /** One level of `add_page`: the next pool frame becomes a table if there is none. */
  function Step(s: Sys, f: nat, i: nat, at: Pos): Sys {
    if Read(s.mem, f, i).present then s
    else
      var n := Top(s) % FRAMES;
      Pop(s).(mem := Write(s.mem, f, i, TableEntry(n)), owner := s.owner[n := at])
  }

  function Steps(s: Sys, f: nat, vp: nat, level: nat): Sys
    requires 1 <= level <= 4
    decreases level
  {
    if level == 1 then s
    else
      var s1 := Step(s, f, Index(vp, level), Pos(level - 1, Prefix(vp, level - 1)));
      Steps(s1, Next(s1, f, Index(vp, level)), vp, level - 1)
  }

  function Reached(s: Sys, f: nat, vp: nat, level: nat): nat
    requires 1 <= level <= 4
    decreases level
  {
    if level == 1 then f
    else
      var s1 := Step(s, f, Index(vp, level), Pos(level - 1, Prefix(vp, level - 1)));
      Reached(s1, Next(s1, f, Index(vp, level)), vp, level - 1)
  }

  /** `add_page`. */
  function AddPage(s: Sys, root: nat, vp: nat, frame: nat, exec: bool): Sys {
    var s1 := Steps(s, root, vp, 4);
    s1.(mem := Write(s1.mem, Reached(s, root, vp, 4), Index(vp, 1), PageEntry(frame, exec)))
  }

  /** Every link to a table is writable, as all links the loader makes are. */
  ghost predicate LinkWritable(s: Sys, f: nat, i: nat) {
    f in s.owner && s.owner[f].level > 1 && i < 512 ==>
      (Read(s.mem, f, i).present && !Read(s.mem, f, i).size ==> Read(s.mem, f, i).rw)
  }

  ghost predicate Writable(s: Sys) { forall f, i :: LinkWritable(s, f, i) }

  /** On such tables a level of `add_page` is a level of the kernel's walk with the write flag. */
  lemma StepIsDescend(s: Sys, f: nat, i: nat, at: Pos)
    requires f in s.owner && s.owner[f].level > 1 && i < 512 && Writable(s)
    requires Read(s.mem, f, i).present ==> !Read(s.mem, f, i).size
    ensures Step(s, f, i, at) == Descend(s, f, i, WRITABLE, at)
  {
    assert LinkWritable(s, f, i);
    var e := Read(s.mem, f, i);
    if e.present {
      assert OrFlags(e, WRITABLE) == e;
      assert Write(s.mem, f, i, e) == s.mem;
    } else {
      assert OrFlags(ZERO.(frame := Top(s) % FRAMES, present := true), WRITABLE) == TableEntry(Top(s) % FRAMES);
    }
  }

  lemma StepWritable(s: Sys, root: nat, f: nat, vp: nat, level: nat)
    requires Standing(s, root, f, vp, level) && level > 1 && CanDescend(s, f, Index(vp, level)) && Writable(s)
    ensures Writable(Enter(s, f, vp, level, WRITABLE))
  {
    EnterWrites(s, root, f, vp, level, WRITABLE);
    var s1 := Enter(s, f, vp, level, WRITABLE);
    forall g, k ensures LinkWritable(s1, g, k) {
      assert LinkWritable(s, g, k);
      if g !in s.owner && g in s1.owner && k < 512 {
        assert Read(s.mem, g, k) == ZERO;
      }
    }
  }

  lemma {:induction false} StepsAre(s: Sys, root: nat, f: nat, vp: nat, level: nat)
    requires 1 <= level <= 4 && Standing(s, root, f, vp, level) && Allows(s, f, WRITABLE) && Writable(s)
    requires NoBig(s.mem, f, vp, level) && Missing(s.mem, f, vp, level) <= |s.stack|
    ensures Steps(s, f, vp, level) == Descent(s, f, vp, level, WRITABLE)
    ensures Reached(s, f, vp, level) == Bottom(s, f, vp, level, WRITABLE)
    ensures Writable(Descent(s, f, vp, level, WRITABLE))
    decreases level
  {
    hide Allows, Writable, Descend, Step, Prefix, Index, SysOk;
    if level > 1 {
      var i := Index(vp, level);
      PrefixStep(vp, level);
      EnterMissing(s, root, f, vp, level, WRITABLE);
      StepIsDescend(s, f, i, Pos(level - 1, Prefix(vp, level - 1)));
      EnterAll(s, root, f, vp, level, WRITABLE);
      StepWritable(s, root, f, vp, level);
      var s1 := Enter(s, f, vp, level, WRITABLE);
      StepsAre(s1, root, Next(s1, f, i), vp, level - 1);
    }
  }

  /** `add_page` maps one page and disturbs no other. */
  lemma AddPageMaps(s: Sys, root: nat, vp: nat, frame: nat, exec: bool)
    requires SysOk(s, root) && Writable(s) && Reachable(s, root, vp)
    ensures var s' := AddPage(s, root, vp, frame, exec);
      && SysOk(s', root) && Writable(s') && NoBig(s'.mem, root, vp, 4)
      && TablesTaken(s, s', s'.stack, Missing(s.mem, root, vp, 4))
      && Translate(s'.mem, root, vp) == Mapped(frame % FRAMES, true, false, exec)
      && (forall v: nat :: v < FRAMES && v != vp ==> SameTranslation(s.mem, s'.mem, root, v))
  {
    hide Prefix, Index, TreeOk, RightsOk, StackOk, NoBig, Missing, Descent, Bottom, Elements, Allows, Translate,
         SlotOf, LeafAt, Writable, Steps, Reached;
    var fl := WRITABLE;
    var s1, pt, e := Descent(s, root, vp, 4, fl), Bottom(s, root, vp, 4, fl), PageEntry(frame, exec);
    StartAtRoot(s, root, vp, fl);
    DescentArrives(s, root, root, vp, 4, fl);
    StepsAre(s, root, root, vp, 4);
    LeafPut(s, s1, root, pt, vp, e, fl);
    PutWritable(s1, root, pt, vp, e);
    TranslateGrants(PutLeaf(s1, pt, vp, e), root, vp);
  }

  lemma PutWritable(s: Sys, root: nat, pt: nat, vp: nat, e: Pte)
    requires Standing(s, root, pt, vp, 1) && Writable(s)
    ensures Writable(PutLeaf(s, pt, vp, e))
  {
    hide TreeOk, RightsOk, StackOk, Prefix, Index;
    var s1 := PutLeaf(s, pt, vp, e);
    forall g, k ensures LinkWritable(s1, g, k) { assert LinkWritable(s, g, k); }
  }

  // ------------------------------------------------------------------ blocks

  /** The page loop of a segment: `n` pages from `addr` on to frames from `frame` on. */
  function AddPages(s: Sys, root: nat, addr: nat, n: nat, frame: nat, exec: bool): Sys
    decreases n
  {
    if n == 0 then s
    else AddPages(AddPage(s, root, PageOf(addr), frame, exec), root, addr + 4096, n - 1, frame + 1, exec)
  }

  /** No page is under a large page and the pool has the tables needed. */
  ghost predicate PoolSuffices(s: Sys, root: nat, addr: nat, n: nat, frame: nat, exec: bool)
    decreases n
  {
    n > 0 ==>
      && Reachable(s, root, PageOf(addr))
      && PoolSuffices(AddPage(s, root, PageOf(addr), frame, exec), root, addr + 4096, n - 1, frame + 1, exec)
  }

  ghost predicate SameElsewhere(m: Mem, m': Mem, root: nat, addr: nat, n: nat) {
    forall v: nat :: v < FRAMES && !Within(v, addr, n) ==> SameTranslation(m, m', root, v)
  }

  ghost predicate MapsRun(m: Mem, root: nat, addr: nat, n: nat, frame: nat, exec: bool) {
    forall k: nat :: k < n ==> Translate(m, root, PageOf(addr + k * 4096)) == Mapped((frame + k) % FRAMES, true, false, exec)
  }

  /** Pages that had no large page over them still have none. */
  ghost predicate KeepsClear(m: Mem, m': Mem, root: nat) {
    forall v: nat :: v < FRAMES && NoBig(m, root, v, 4) ==> NoBig(m', root, v, 4)
  }

  ghost predicate ClearRun(m: Mem, root: nat, addr: nat, n: nat) {
    forall v: nat :: v < FRAMES && Within(v, addr, n) ==> NoBig(m, root, v, 4)
  }

  /** Tables and pool together stay the same frames. */
  ghost function PoolOf(s: Sys): set<nat> { s.owner.Keys + Elements(s.stack) }

  ghost predicate RunDone(s: Sys, s': Sys, root: nat, addr: nat, n: nat, frame: nat, exec: bool) {
    && SysOk(s', root) && Writable(s') && SameElsewhere(s.mem, s'.mem, root, addr, n)
    && MapsRun(s'.mem, root, addr, n, frame, exec) && KeepsClear(s.mem, s'.mem, root)
  }

  lemma {:induction false} AddPagesMaps(s: Sys, root: nat, addr: nat, n: nat, frame: nat, exec: bool)
    requires SysOk(s, root) && Writable(s) && n <= FRAMES && addr % 4096 == 0
    requires PoolSuffices(s, root, addr, n, frame, exec)
    ensures RunDone(s, AddPages(s, root, addr, n, frame, exec), root, addr, n, frame, exec)
    decreases n
  {
    hide SysOk, Writable, Reachable, AddPage, Within, PageOf, Translate, SlotOf, NoBig, TablesTaken, Missing;
    if n > 0 {
      var s1 := AddPage(s, root, PageOf(addr), frame, exec);
      AddPageMaps(s, root, PageOf(addr), frame, exec);
      PageBound(addr);
      AddPagesMaps(s1, root, addr + 4096, n - 1, frame + 1, exec);
      RunJoins(s, s1, AddPages(s, root, addr, n, frame, exec), root, addr, n, frame, exec);
    }
  }

  lemma RunJoins(s: Sys, s1: Sys, s': Sys, root: nat, addr: nat, n: nat, frame: nat, exec: bool)
    requires 0 < n <= FRAMES && addr % 4096 == 0 && PageOf(addr) < FRAMES
    requires forall v: nat :: v < FRAMES && v != PageOf(addr) ==> SameTranslation(s.mem, s1.mem, root, v)
    requires Translate(s1.mem, root, PageOf(addr)) == Mapped(frame % FRAMES, true, false, exec)
    requires NoBig(s1.mem, root, PageOf(addr), 4) && RunDone(s1, s', root, addr + 4096, n - 1, frame + 1, exec)
    ensures RunDone(s, s', root, addr, n, frame, exec)
  {
    hide SysOk, Writable, Within, PageOf, Translate, SlotOf, NoBig;
    FirstNotWithin(addr, n);
    forall v: nat | v < FRAMES && !Within(v, addr, n) ensures SameTranslation(s.mem, s'.mem, root, v) {
      WithinSplit(v, addr, n);
      assert SameTranslation(s.mem, s1.mem, root, v) && SameTranslation(s1.mem, s'.mem, root, v);
    }
    assert SameTranslation(s1.mem, s'.mem, root, PageOf(addr));
    forall k: nat | k < n
      ensures Translate(s'.mem, root, PageOf(addr + k * 4096)) == Mapped((frame + k) % FRAMES, true, false, exec)
    {
      if k == 0 { assert addr + 0 * 4096 == addr; }
      else { assert addr + k * 4096 == addr + 4096 + (k - 1) * 4096 && frame + k == frame + 1 + (k - 1); }
    }
    forall v: nat | v < FRAMES && NoBig(s.mem, root, v, 4) ensures NoBig(s'.mem, root, v, 4) {
      assert v != PageOf(addr) ==> SameTranslation(s.mem, s1.mem, root, v);
    }
  }

  // --------------------------------------------------------------------- need

  /** Positions of the tables below `level` on the way to a page. */
  function WayTo(vp: nat, level: nat): set<Pos>
    requires 1 <= level <= 4
  {
    if level == 1 then {} else WayTo(vp, level - 1) + {Pos(level - 1, Prefix(vp, level - 1))}
  }

  lemma {:induction false} WayIs(vp: nat, level: nat)
    requires 1 <= level <= 4
    ensures |WayTo(vp, level)| == level - 1
    ensures forall at :: at in WayTo(vp, level) <==> 1 <= at.level < level && at.prefix == Prefix(vp, at.level)
    decreases level
  {
    hide Prefix;
    if level > 1 { WayIs(vp, level - 1); }
  }

  lemma NoneBelow(s: Sys, root: nat, f: nat, vp: nat, level: nat)
    requires TreeOk(s, root) && f in s.owner && 1 < level <= 4 && s.owner[f] == Pos(level, Prefix(vp, level))
    requires !Read(s.mem, f, Index(vp, level)).present
    ensures WayTo(vp, level) !! s.owner.Values
  {
    hide Prefix, Index, WayTo, TableAt;
    WayIs(vp, level);
    forall at | at in WayTo(vp, level) ensures at !in s.owner.Values {
      NoTableBelow(s.mem, root, f, vp, level, at.level);
      assert at == Pos(at.level, Prefix(vp, at.level));
    }
  }

  /** The tables missing for a page are those whose positions are not taken. */
  lemma {:induction false} MissingCounts(s: Sys, root: nat, f: nat, vp: nat, level: nat)
    requires TreeOk(s, root) && f in s.owner && 1 <= level <= 4 && s.owner[f] == Pos(level, Prefix(vp, level))
    requires NoBig(s.mem, f, vp, level)
    ensures Missing(s.mem, f, vp, level) == |WayTo(vp, level) - s.owner.Values|
    decreases level
  {
    hide Prefix, Index, TreeOk, TableAt;
    var v := s.owner.Values;
    if level > 1 {
      var e := Read(s.mem, f, Index(vp, level));
      if e.present {
        ChildPlace(s, root, f, vp, level);
        MissingCounts(s, root, e.frame, vp, level - 1);
        assert WayTo(vp, level) - v == WayTo(vp, level - 1) - v;
      } else {
        NoneBelow(s, root, f, vp, level);
        WayIs(vp, level);
        assert WayTo(vp, level) - v == WayTo(vp, level);
      }
    }
  }

  lemma ChildPlace(s: Sys, root: nat, f: nat, vp: nat, level: nat)
    requires TreeOk(s, root) && f in s.owner && 1 < level <= 4 && s.owner[f] == Pos(level, Prefix(vp, level))
    requires Read(s.mem, f, Index(vp, level)).present && !Read(s.mem, f, Index(vp, level)).size
    ensures var e := Read(s.mem, f, Index(vp, level));
      e.frame in s.owner && s.owner[e.frame] == Pos(level - 1, Prefix(vp, level - 1))
  {
    hide Prefix, Index, TableAt;
    PrefixStep(vp, level);
    assert ChildOk(s, f, Index(vp, level));
  }

  lemma {:induction false} MappedNeedsNone(mem: Mem, f: nat, vp: nat, level: nat, w: bool, u: bool, x: bool)
    requires 1 <= level <= 4 && NoBig(mem, f, vp, level) && Walk(mem, f, vp, level, w, u, x).Mapped?
    ensures Missing(mem, f, vp, level) == 0
    decreases level
  {
    hide Index;
    if level > 1 {
      var e := Read(mem, f, Index(vp, level));
      MappedNeedsNone(mem, e.frame, vp, level - 1, w && e.rw, u && e.user, x && !e.nx);
    }
  }

  /** Building the way to a page leaves the positions of old tables alone. */
  lemma {:induction false} StepsKeep(s: Sys, f: nat, vp: nat, level: nat, g: nat)
    requires 1 <= level <= 4 && Missing(s.mem, f, vp, level) <= |s.stack|
    requires g in s.owner && forall k :: 0 <= k < |s.stack| ==> s.stack[k] % FRAMES != g
    ensures g in Steps(s, f, vp, level).owner && Steps(s, f, vp, level).owner[g] == s.owner[g]
    decreases level
  {
    hide Prefix, Index;
    if level > 1 {
      var i := Index(vp, level);
      var s1 := Step(s, f, i, Pos(level - 1, Prefix(vp, level - 1)));
      MissingAtMost(s1.mem, Next(s1, f, i), vp, level - 1);
      StepsKeep(s1, Next(s1, f, i), vp, level - 1, g);
    }
  }

  lemma {:induction false} StepsPlaces(s: Sys, f: nat, vp: nat, level: nat)
    requires 1 <= level <= 4
    ensures Steps(s, f, vp, level).owner.Values <= s.owner.Values + WayTo(vp, level)
    decreases level
  {
    hide Prefix, Index;
    if level > 1 {
      var i := Index(vp, level);
      var s1 := Step(s, f, i, Pos(level - 1, Prefix(vp, level - 1)));
      StepsPlaces(s1, Next(s1, f, i), vp, level - 1);
    }
  }

  /** How many of the positions wanted are not taken yet. */
  function Lacking(wanted: set<Pos>, taken: set<Pos>): nat { |wanted - taken| }

  lemma LackingJoined(a: set<Pos>, b: set<Pos>, v: set<Pos>)
    ensures Lacking(a + b, v) == Lacking(a, v) + Lacking(b, v + a)
  {
    assert (a + b) - v == (a - v) + (b - (v + a));
  }

  /** `add_page` takes the positions on the way to the page, and a frame for each that was not taken. */
  lemma AddPagePlaces(s: Sys, root: nat, vp: nat, frame: nat, exec: bool)
    requires SysOk(s, root) && Writable(s) && Reachable(s, root, vp)
    ensures var s' := AddPage(s, root, vp, frame, exec);
      && s'.owner.Values == s.owner.Values + WayTo(vp, 4)
      && |s'.stack| + Lacking(WayTo(vp, 4), s.owner.Values) == |s.stack| && PoolOf(s') == PoolOf(s)
  {
    hide Steps, Reached, Writable, NoBig, Missing, SysOk, WayTo, Translate, Lacking, PoolOf, TablesTaken;
    AddPageMaps(s, root, vp, frame, exec);
    AddPageKeeps(s, root, vp);
    var s' := AddPage(s, root, vp, frame, exec);
    FirstCounts(s, root, vp);
    WayTaken(s', root, vp);
    StepsPlaces(s, root, vp, 4);
    FramesKept(s, s', Missing(s.mem, root, vp, 4));
  }

  lemma FirstCounts(s: Sys, root: nat, vp: nat)
    requires SysOk(s, root) && vp < FRAMES && NoBig(s.mem, root, vp, 4)
    ensures Missing(s.mem, root, vp, 4) == Lacking(WayTo(vp, 4), s.owner.Values)
  {
    hide RightsOk, StackOk, NoBig, Missing, WayTo, Prefix;
    PrefixTop(vp);
    MissingCounts(s, root, root, vp, 4);
  }

  lemma WayTaken(s: Sys, root: nat, vp: nat)
    requires SysOk(s, root) && vp < FRAMES && NoBig(s.mem, root, vp, 4) && Translate(s.mem, root, vp).Mapped?
    ensures WayTo(vp, 4) <= s.owner.Values
  {
    hide SysOk, NoBig, Missing, WayTo, Walk;
    FirstCounts(s, root, vp);
    MappedNeedsNone(s.mem, root, vp, 4, true, true, true);
    var rest := WayTo(vp, 4) - s.owner.Values;
    assert rest == {};
    assert forall at :: at in WayTo(vp, 4) && at !in s.owner.Values ==> at in rest;
  }

  lemma AddPageKeeps(s: Sys, root: nat, vp: nat)
    requires SysOk(s, root) && Reachable(s, root, vp)
    ensures s.owner.Values <= Steps(s, root, vp, 4).owner.Values
  {
    hide Steps, TreeOk, RightsOk, NoBig, Missing, Blank;
    forall at | at in s.owner.Values ensures at in Steps(s, root, vp, 4).owner.Values {
      var g :| g in s.owner && s.owner[g] == at;
      StepsKeep(s, root, vp, 4, g);
    }
  }

  /** Positions of all tables on the way to a run of pages. */
  function RunPlaces(addr: nat, n: nat): set<Pos>
    decreases n
  {
    if n == 0 then {} else WayTo(PageOf(addr), 4) + RunPlaces(addr + 4096, n - 1)
  }

  /** The bump pool suffices for a run if and only if it holds a frame for each position on the way to
      its pages that has no table yet; exactly so many frames are taken. */
  lemma {:induction false} PoolSufficesIff(s: Sys, root: nat, addr: nat, n: nat, frame: nat, exec: bool)
    requires SysOk(s, root) && Writable(s) && n <= FRAMES && addr % 4096 == 0 && ClearRun(s.mem, root, addr, n)
    ensures PoolSuffices(s, root, addr, n, frame, exec) <==> Lacking(RunPlaces(addr, n), s.owner.Values) <= |s.stack|
    ensures PoolSuffices(s, root, addr, n, frame, exec) ==>
      RunTakes(s, AddPages(s, root, addr, n, frame, exec), RunPlaces(addr, n))
    decreases n
  {
    hide SysOk, Writable, AddPage, Within, PageOf, Translate, SlotOf, NoBig, Missing, ClearRun, PoolOf, WayTo, Lacking;
    if n == 0 {
      NothingLacking(s);
    } else {
      var vp := PageOf(addr);
      var w, rest := WayTo(PageOf(addr), 4), RunPlaces(addr + 4096, n - 1);
      PageBound(addr);
      FirstClear(s.mem, root, addr, n);
      FirstCounts(s, root, vp);
      LackingJoined(w, rest, s.owner.Values);
      if Reachable(s, root, vp) {
        var s1 := AddPage(s, root, vp, frame, exec);
        AddPageMaps(s, root, vp, frame, exec);
        AddPagePlaces(s, root, vp, frame, exec);
        RestClear(s, s1, root, addr, n);
        PoolSufficesIff(s1, root, addr + 4096, n - 1, frame + 1, exec);
        assert s.owner.Values + (w + rest) == s.owner.Values + w + rest;
      }
    }
  }

  /** The positions are taken now, with frames of the pool for those that were not. */
  ghost predicate RunTakes(s: Sys, s': Sys, places: set<Pos>) {
    && s'.owner.Values == s.owner.Values + places && PoolOf(s') == PoolOf(s)
    && |s'.stack| + Lacking(places, s.owner.Values) == |s.stack|
  }

  lemma NothingLacking(s: Sys)
    ensures RunTakes(s, s, {}) && Lacking({}, s.owner.Values) == 0
  {
    assert s.owner.Values + {} == s.owner.Values;
  }

  lemma FramesKept(s: Sys, s1: Sys, n: nat)
    requires TablesTaken(s, s1, s1.stack, n)
    ensures PoolOf(s1) == PoolOf(s) && |s1.stack| + n == |s.stack|
  {
    var k := |s.stack| - n;
    assert s.stack == s.stack[..k] + s.stack[k..];
    assert Elements(s.stack) == Elements(s.stack[..k]) + Elements(s.stack[k..]);
  }

  lemma FirstClear(m: Mem, root: nat, addr: nat, n: nat)
    requires ClearRun(m, root, addr, n) && n > 0
    ensures NoBig(m, root, PageOf(addr), 4)
  {
    hide NoBig, PageOf;
    PageBound(addr);
    WithinSplit(PageOf(addr), addr, n);
  }

  lemma RestClear(s: Sys, s1: Sys, root: nat, addr: nat, n: nat)
    requires ClearRun(s.mem, root, addr, n) && n > 0 && NoBig(s1.mem, root, PageOf(addr), 4)
    requires forall v: nat :: v < FRAMES && v != PageOf(addr) ==> SameTranslation(s.mem, s1.mem, root, v)
    ensures ClearRun(s1.mem, root, addr + 4096, n - 1)
  {
    hide NoBig, PageOf, Translate, SlotOf, Within;
    forall v: nat | v < FRAMES && Within(v, addr + 4096, n - 1) ensures NoBig(s1.mem, root, v, 4) {
      WithinSplit(v, addr, n);
      if v != PageOf(addr) { assert SameTranslation(s.mem, s1.mem, root, v); }
    }
  }
}
