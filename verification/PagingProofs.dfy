/**
 `set_page` and `free_page` against the flat map from virtual page to entry.
 */
module PagingProofs {
  import opened PageTables

  // ------------------------------------------------------------- addressing

  lemma PrefixStep(vp: nat, level: nat)
    requires level > 0
    ensures Prefix(vp, level - 1) == Prefix(vp, level) * 512 + Index(vp, level) && Index(vp, level) < 512
    ensures Prefix(vp, 0) == vp
  {
  }

  lemma PrefixTop(vp: nat)
    requires vp < FRAMES
    ensures Prefix(vp, 4) == 0
  {
    assert Prefix(vp, 1) == vp / 512;
    assert Prefix(vp, 2) == vp / 512 / 512;
    assert Prefix(vp, 3) == vp / 512 / 512 / 512;
  }

  lemma BlankKeep(mem: Mem, f: nat, i: nat, e: Pte, x: nat)
    requires x != f && Blank(mem, x)
    ensures Blank(Write(mem, f, i, e), x)
  {
    forall k | k < 512 ensures Read(Write(mem, f, i, e), x, k) == ZERO {
      assert Read(mem, x, k) == ZERO;
    }
  }

  lemma {:induction false} TableInOwner(s: Sys, root: nat, at: Pos)
    requires TreeOk(s, root) && 1 <= at.level && TableAt(s.mem, root, at).Table?
    ensures var f := TableAt(s.mem, root, at).frame; f in s.owner && s.owner[f] == at
    decreases 4 - at.level
  {
    if at.level < 4 {
      var up := Pos(at.level + 1, at.prefix / 512);
      TableInOwner(s, root, up);
      assert ChildOk(s, TableAt(s.mem, root, up).frame, at.prefix % 512);
    }
  }

  /** Below an absent entry there is no table. */
  lemma {:induction false} NoTableBelow(mem: Mem, root: nat, f: nat, vp: nat, level: nat, l: nat)
    requires 1 <= l < level <= 4 && TableAt(mem, root, Pos(level, Prefix(vp, level))) == Table(f)
    requires !Read(mem, f, Index(vp, level)).present
    ensures TableAt(mem, root, Pos(l, Prefix(vp, l))) == NoTable
    decreases level - l
  {
    hide Prefix, Index;
    PrefixStep(vp, l + 1);
    if l + 1 < level { NoTableBelow(mem, root, f, vp, level, l + 1); }
  }

  /** Two tables never share a position, and an entry never leads to a table through two ways. */
  lemma OnePlace(s: Sys, root: nat, f: nat, i: nat, g: nat, j: nat)
    requires TreeOk(s, root) && f in s.owner && g in s.owner && i < 512 && j < 512
    requires s.owner[f].level > 1 && s.owner[g].level > 1
    requires var d, e := Read(s.mem, f, i), Read(s.mem, g, j);
      d.present && !d.size && e.present && !e.size && d.frame == e.frame
    ensures f == g && i == j
  {
    assert ChildOk(s, f, i) && ChildOk(s, g, j);
    assert s.owner[f] == s.owner[g];
    assert TableAt(s.mem, root, s.owner[f]) == Table(f) && TableAt(s.mem, root, s.owner[g]) == Table(g);
  }

  /** From a table that is really there, the leaf of `vp` is the leaf seen from the root. */
  lemma {:induction false} LeafFrom(mem: Mem, root: nat, f: nat, vp: nat, level: nat)
    requires 1 <= level <= 4 && TableAt(mem, root, Pos(level, Prefix(vp, level))) == Table(f)
    ensures LeafAt(mem, root, vp, 4) == LeafAt(mem, f, vp, level)
    decreases 4 - level
  {
    if level < 4 {
      PrefixStep(vp, level + 1);
      var up := TableAt(mem, root, Pos(level + 1, Prefix(vp, level + 1)));
      LeafFrom(mem, root, up.frame, vp, level + 1);
    }
  }

  // ------------------------------------------------------ one edited entry

  lemma UseChild(s: Sys, root: nat, f: nat, i: nat)
    requires TreeOk(s, root)
    ensures ChildOk(s, f, i)
  {
  }

  /** Entry `i` of table `f` may be overwritten with `e` without unlinking a table. */
  ghost predicate KeepsLinks(s: Sys, f: nat, i: nat, e: Pte) {
    f in s.owner && i < 512 &&
    (s.owner[f].level > 1 && Read(s.mem, f, i).present ==>
      !Read(s.mem, f, i).size && e.present && !e.size && e.frame == Read(s.mem, f, i).frame)
  }

  lemma {:induction false} TableAtKeep(s: Sys, root: nat, at: Pos, f: nat, i: nat, e: Pte)
    requires TreeOk(s, root) && 1 <= at.level && KeepsLinks(s, f, i, e)
    requires TableAt(s.mem, root, at).Table?
    ensures TableAt(Write(s.mem, f, i, e), root, at) == TableAt(s.mem, root, at)
    decreases 4 - at.level
  {
    if at.level < 4 {
      var up := Pos(at.level + 1, at.prefix / 512);
      TableAtKeep(s, root, up, f, i, e);
      TableInOwner(s, root, up);
    }
  }

  /** Leaves reached from table `g` do not change when a link is kept, or when a new link leads
      to a blank frame. */
  lemma {:induction false} LeafKeep(s: Sys, root: nat, f: nat, i: nat, e: Pte, g: nat, vp: nat, level: nat)
    requires TreeOk(s, root) && KeepsLinks(s, f, i, e) && 1 <= level <= 4
    requires g in s.owner && s.owner[g] == Pos(level, Prefix(vp, level))
    requires if s.owner[f].level > 1
      then !Read(s.mem, f, i).present ==> e.present && !e.size && e.frame !in s.owner && Blank(s.mem, e.frame)
      else vp != s.owner[f].prefix * 512 + i
    ensures LeafAt(Write(s.mem, f, i, e), g, vp, level) == LeafAt(s.mem, g, vp, level)
    decreases level
  {
    hide TreeOk, Prefix, Index;
    var k := Index(vp, level);
    PrefixStep(vp, level);
    var d := Read(s.mem, g, k);
    if level > 1 {
      if d.present && !d.size {
        UseChild(s, root, g, k);
        LeafKeep(s, root, f, i, e, d.frame, vp, level - 1);
      } else if g == f && k == i && !d.present {
        PrefixStep(vp, level - 1);
        assert Read(s.mem, e.frame, Index(vp, level - 1)) == ZERO;
      }
    }
  }

  lemma {:induction false} NoBigKeep(s: Sys, root: nat, f: nat, i: nat, e: Pte, g: nat, vp: nat, level: nat)
    requires TreeOk(s, root) && KeepsLinks(s, f, i, e) && 1 <= level <= 4
    requires g in s.owner && s.owner[g] == Pos(level, Prefix(vp, level))
    requires s.owner[f].level > 1 && !Read(s.mem, f, i).present ==>
      e.present && !e.size && e.frame !in s.owner && Blank(s.mem, e.frame)
    requires NoBig(s.mem, g, vp, level)
    ensures NoBig(Write(s.mem, f, i, e), g, vp, level)
    decreases level
  {
    hide TreeOk, Prefix, Index;
    var k := Index(vp, level);
    PrefixStep(vp, level);
    var d := Read(s.mem, g, k);
    if level > 1 {
      if d.present {
        UseChild(s, root, g, k);
        NoBigKeep(s, root, f, i, e, d.frame, vp, level - 1);
      } else if g == f && k == i && level > 2 {
        PrefixStep(vp, level - 1);
        assert Read(s.mem, e.frame, Index(vp, level - 1)) == ZERO;
      }
    }
  }

  // --------------------------------------------------------------- one level

  ghost predicate CanDescend(s: Sys, f: nat, i: nat) {
    if Read(s.mem, f, i).present then !Read(s.mem, f, i).size else s.stack != []
  }

  /** Whatever leads to table `f` already grants what the flags grant. */
  ghost predicate LeadAllows(s: Sys, f: nat, fl: Flags, g: nat, k: nat) {
    g in s.owner && s.owner[g].level > 1 && k < 512 ==>
      var e := Read(s.mem, g, k);
      e.present && !e.size && e.frame == f ==> (fl.rw ==> e.rw) && (fl.user ==> e.user)
  }

  ghost predicate Allows(s: Sys, f: nat, fl: Flags) { forall g, k :: LeadAllows(s, f, fl, g, k) }

  lemma RootAllows(s: Sys, root: nat, fl: Flags)
    requires TreeOk(s, root)
    ensures Allows(s, root, fl)
  {
    forall g, k ensures LeadAllows(s, root, fl, g, k) { assert ChildOk(s, g, k); }
  }

  ghost predicate Standing(s: Sys, root: nat, f: nat, vp: nat, level: nat) {
    1 <= level <= 4 && SysOk(s, root) && f in s.owner && s.owner[f] == Pos(level, Prefix(vp, level))
  }

  function Entered(s: Sys, f: nat, i: nat, fl: Flags): Pte {
    var e := Read(s.mem, f, i);
    if e.present then OrFlags(e, fl) else OrFlags(ZERO.(frame := Top(s) % FRAMES, present := true), fl)
  }

  function Enter(s: Sys, f: nat, vp: nat, level: nat, fl: Flags): Sys
    requires level > 1
  {
    Descend(s, f, Index(vp, level), fl, Pos(level - 1, Prefix(vp, level - 1)))
  }

  lemma EnterWrites(s: Sys, root: nat, f: nat, vp: nat, level: nat, fl: Flags)
    requires Standing(s, root, f, vp, level) && level > 1 && CanDescend(s, f, Index(vp, level))
    ensures var i := Index(vp, level);
      var e := Entered(s, f, i, fl);
      && Enter(s, f, vp, level, fl).mem == Write(s.mem, f, i, e)
      && KeepsLinks(s, f, i, e) && e.present && !e.size && (e.nx ==> Read(s.mem, f, i).present && Read(s.mem, f, i).nx) && i < 512
      && (!Read(s.mem, f, i).present ==>
           e.frame == Top(s) && e.frame in s.stack && e.frame !in s.owner && Blank(s.mem, e.frame))
  {
    PrefixStep(vp, level);
    if !Read(s.mem, f, Index(vp, level)).present {
      var k := |s.stack| - 1;
      assert s.stack[k] < FRAMES;
    }
  }

  lemma EnterTree(s: Sys, root: nat, f: nat, vp: nat, level: nat, fl: Flags)
    requires Standing(s, root, f, vp, level) && level > 1 && CanDescend(s, f, Index(vp, level))
    ensures var s1 := Enter(s, f, vp, level, fl);
      var n := Next(s1, f, Index(vp, level));
      TreeOk(s1, root) && n in s1.owner && s1.owner[n] == Pos(level - 1, Prefix(vp, level - 1))
  {
    var i := Index(vp, level);
    var s1, e := Enter(s, f, vp, level, fl), Entered(s, f, i, fl);
    EnterWrites(s, root, f, vp, level, fl);
    PrefixStep(vp, level);
    assert ChildOk(s, f, i);
    forall g | g in s1.owner ensures 1 <= s1.owner[g].level <= 4 && TableAt(s1.mem, root, s1.owner[g]) == Table(g) {
      if g in s.owner {
        TableAtKeep(s, root, s.owner[g], f, i, e);
      } else {
        TableAtKeep(s, root, s.owner[f], f, i, e);
      }
    }
    forall g, k ensures ChildOk(s1, g, k) {
      EnterChild(s, root, f, vp, level, fl, g, k);
    }
  }

  lemma EnterChild(s: Sys, root: nat, f: nat, vp: nat, level: nat, fl: Flags, g: nat, k: nat)
    requires Standing(s, root, f, vp, level) && level > 1 && CanDescend(s, f, Index(vp, level))
    ensures ChildOk(Enter(s, f, vp, level, fl), g, k)
  {
    EnterWrites(s, root, f, vp, level, fl);
    PrefixStep(vp, level);
    assert ChildOk(s, f, Index(vp, level));
    assert ChildOk(s, g, k);
    var e := Entered(s, f, Index(vp, level), fl);
    if g == e.frame && g !in s.owner && k < 512 {
      assert Read(s.mem, g, k) == ZERO;
    }
  }

  lemma EnterStack(s: Sys, root: nat, f: nat, vp: nat, level: nat, fl: Flags)
    requires Standing(s, root, f, vp, level) && level > 1 && CanDescend(s, f, Index(vp, level))
    ensures StackOk(Enter(s, f, vp, level, fl))
  {
    EnterWrites(s, root, f, vp, level, fl);
    var s1 := Enter(s, f, vp, level, fl);
    forall k | 0 <= k < |s1.stack|
      ensures s1.stack[k] < FRAMES && s1.stack[k] !in s1.owner && Blank(s1.mem, s1.stack[k])
    {
      assert s1.stack[k] == s.stack[k];
      BlankKeep(s.mem, f, Index(vp, level), Entered(s, f, Index(vp, level), fl), s.stack[k]);
    }
  }

  lemma EnterRights(s: Sys, root: nat, f: nat, vp: nat, level: nat, fl: Flags)
    requires Standing(s, root, f, vp, level) && level > 1 && CanDescend(s, f, Index(vp, level))
    requires Allows(s, f, fl)
    ensures RightsOk(Enter(s, f, vp, level, fl))
  {
    forall g, k, j ensures RightsOkAt(Enter(s, f, vp, level, fl), g, k, j) {
      EnterRightsAt(s, root, f, vp, level, fl, g, k, j);
    }
  }

  lemma EnterRightsAt(s: Sys, root: nat, f: nat, vp: nat, level: nat, fl: Flags, g: nat, k: nat, j: nat)
    requires Standing(s, root, f, vp, level) && level > 1 && CanDescend(s, f, Index(vp, level))
    requires Allows(s, f, fl)
    ensures RightsOkAt(Enter(s, f, vp, level, fl), g, k, j)
  {
    EnterWrites(s, root, f, vp, level, fl);
    hide TreeOk, StackOk, Descend, Allows, RightsOk, Index, Prefix;
    var i := Index(vp, level);
    var s1, e := Enter(s, f, vp, level, fl), Entered(s, f, i, fl);
    UseOk(s, root, f, i, j);
    if k < 512 && j < 512 && g in s1.owner {
      UseOk(s, root, g, k, j);
      if g == f && k == i {
        EditedRights(s, f, i, e, fl, j);
      } else if g in s.owner {
        UseAllows(s, f, fl, g, k);
      } else {
        assert Read(s.mem, g, k) == ZERO;
      }
    }
  }

  lemma EditedRights(s: Sys, f: nat, i: nat, e: Pte, fl: Flags, j: nat)
    requires KeepsLinks(s, f, i, e) && s.owner[f].level > 1 && e == Entered(s, f, i, fl) && j < 512
    requires RightsOkAt(s, f, i, j) && ChildOk(s, f, i)
    requires !Read(s.mem, f, i).present ==> Blank(s.mem, e.frame) && e.frame !in s.owner
    ensures var d := Read(Write(s.mem, f, i, e), e.frame, j);
      !e.nx && (d.present ==> (d.rw ==> e.rw) && (d.user ==> e.user))
  {
    if !Read(s.mem, f, i).present { assert Read(s.mem, e.frame, j) == ZERO; }
  }

  lemma UseOk(s: Sys, root: nat, f: nat, i: nat, j: nat)
    requires TablesOk(s, root)
    ensures ChildOk(s, f, i) && RightsOkAt(s, f, i, j)
  {
  }

  lemma UseAllows(s: Sys, f: nat, fl: Flags, g: nat, k: nat)
    requires Allows(s, f, fl)
    ensures LeadAllows(s, f, fl, g, k)
  {
  }

  lemma EnterAllows(s: Sys, root: nat, f: nat, vp: nat, level: nat, fl: Flags)
    requires Standing(s, root, f, vp, level) && level > 1 && CanDescend(s, f, Index(vp, level))
    ensures var s1 := Enter(s, f, vp, level, fl); Allows(s1, Next(s1, f, Index(vp, level)), fl)
  {
    var i := Index(vp, level);
    var s1 := Enter(s, f, vp, level, fl);
    EnterWrites(s, root, f, vp, level, fl);
    EnterTree(s, root, f, vp, level, fl);
    var n := Next(s1, f, i);
    forall g, k ensures LeadAllows(s1, n, fl, g, k) {
      if g in s1.owner && s1.owner[g].level > 1 && k < 512 {
        var e := Read(s1.mem, g, k);
        if e.present && !e.size && e.frame == n { OnePlace(s1, root, f, i, g, k); }
      }
    }
  }

  // --------------------------------------------------- what a caller observes

  /** The flat view: for every virtual page the same leaf and the same 4 KiB-level entry, and no
      new large page over it. */
  ghost predicate SameAt(m: Mem, m': Mem, root: nat, vp: nat) {
    && LeafAt(m', root, vp, 4) == LeafAt(m, root, vp, 4)
    && SlotOf(m', root, vp) == SlotOf(m, root, vp)
    && (NoBig(m, root, vp, 4) ==> NoBig(m', root, vp, 4))
  }

  lemma EnterSame(s: Sys, root: nat, f: nat, vp: nat, level: nat, fl: Flags, v: nat)
    requires Standing(s, root, f, vp, level) && level > 1 && CanDescend(s, f, Index(vp, level))
    requires v < FRAMES
    ensures SameAt(s.mem, Enter(s, f, vp, level, fl).mem, root, v)
  {
    var i := Index(vp, level);
    var e := Entered(s, f, i, fl);
    EnterWrites(s, root, f, vp, level, fl);
    PrefixTop(v);
    LeafKeep(s, root, f, i, e, root, v, 4);
    if NoBig(s.mem, root, v, 4) { NoBigKeep(s, root, f, i, e, root, v, 4); }
    EnterSlot(s, root, f, vp, level, fl, v);
  }

  lemma EnterSlot(s: Sys, root: nat, f: nat, vp: nat, level: nat, fl: Flags, v: nat)
    requires Standing(s, root, f, vp, level) && level > 1 && CanDescend(s, f, Index(vp, level))
    ensures SlotOf(Enter(s, f, vp, level, fl).mem, root, v) == SlotOf(s.mem, root, v)
  {
    var i := Index(vp, level);
    var s1, e := Enter(s, f, vp, level, fl), Entered(s, f, i, fl);
    var at := Pos(1, v / 512);
    EnterWrites(s, root, f, vp, level, fl);
    EnterTree(s, root, f, vp, level, fl);
    if TableAt(s.mem, root, at).Table? {
      TableAtKeep(s, root, at, f, i, e);
      TableInOwner(s, root, at);
    } else if TableAt(s1.mem, root, at).Table? {
      TableInOwner(s1, root, at);
      var g := TableAt(s1.mem, root, at).frame;
      assert g !in s.owner;
      assert g == e.frame && Blank(s.mem, g);
      assert Read(s.mem, g, v % 512) == ZERO;
    }
  }

  lemma EnterMissing(s: Sys, root: nat, f: nat, vp: nat, level: nat, fl: Flags)
    requires Standing(s, root, f, vp, level) && level > 1 && NoBig(s.mem, f, vp, level)
    requires Missing(s.mem, f, vp, level) <= |s.stack|
    ensures CanDescend(s, f, Index(vp, level)) && Misses(s, f, vp, level, fl)
  {
    EnterMisses(s, root, f, vp, level, fl);
  }

  /** What a level of the walk does to the tables still missing. */
  ghost predicate Misses(s: Sys, f: nat, vp: nat, level: nat, fl: Flags)
    requires 1 < level <= 4
  {
    var s1 := Enter(s, f, vp, level, fl);
    var n := Next(s1, f, Index(vp, level));
    && NoBig(s1.mem, n, vp, level - 1)
    && (if Read(s.mem, f, Index(vp, level)).present
        then s1.stack == s.stack && s1.owner == s.owner &&
             Missing(s1.mem, n, vp, level - 1) == Missing(s.mem, f, vp, level)
        else s.stack != [] && s1.stack == s.stack[..|s.stack| - 1] && s1.owner.Keys == s.owner.Keys + {Top(s)} &&
             Missing(s1.mem, n, vp, level - 1) + 1 == Missing(s.mem, f, vp, level))
  }

  lemma EnterMisses(s: Sys, root: nat, f: nat, vp: nat, level: nat, fl: Flags)
    requires Standing(s, root, f, vp, level) && level > 1 && NoBig(s.mem, f, vp, level) && CanDescend(s, f, Index(vp, level))
    ensures Misses(s, f, vp, level, fl)
  {
    EnterWrites(s, root, f, vp, level, fl);
    hide TreeOk, RightsOk, StackOk, Index, Prefix;
    var i := Index(vp, level);
    var e := Entered(s, f, i, fl);
    PrefixStep(vp, level);
    UseChild(s, root, f, i);
    if Read(s.mem, f, i).present {
      NoBigKeep(s, root, f, i, e, e.frame, vp, level - 1);
      MissingKeep(s, root, f, i, e, e.frame, vp, level - 1);
    } else if level > 2 {
      PrefixStep(vp, level - 1);
      assert Read(s.mem, e.frame, Index(vp, level - 1)) == ZERO;
    }
  }

  /** Below the edited level nothing is missing that was there before. */
  lemma {:induction false} MissingKeep(s: Sys, root: nat, f: nat, i: nat, e: Pte, g: nat, vp: nat, level: nat)
    requires TreeOk(s, root) && f in s.owner && 1 <= level < s.owner[f].level
    requires g in s.owner && s.owner[g] == Pos(level, Prefix(vp, level)) && NoBig(s.mem, g, vp, level)
    ensures Missing(Write(s.mem, f, i, e), g, vp, level) == Missing(s.mem, g, vp, level)
    decreases level
  {
    if level > 1 {
      PrefixStep(vp, level);
      assert ChildOk(s, g, Index(vp, level));
      var d := Read(s.mem, g, Index(vp, level));
      if d.present { MissingKeep(s, root, f, i, e, d.frame, vp, level - 1); }
    }
  }

  ghost predicate SameAll(m: Mem, m': Mem, root: nat) {
    forall v: nat :: v < FRAMES ==> SameAt(m, m', root, v)
  }

  /** What descending leaves behind: everything in order, the level-1 table of `vp`, exactly the
      missing tables taken from the top of the stack, and nothing a caller could notice. */
  ghost predicate Arrived(s: Sys, s': Sys, root: nat, pt: nat, vp: nat, fl: Flags, missing: nat) {
    && Standing(s', root, pt, vp, 1) && Allows(s', pt, fl)
    && missing <= |s.stack| && s'.stack == s.stack[..|s.stack| - missing]
    && s'.owner.Keys == s.owner.Keys + Elements(s.stack[|s.stack| - missing..])
    && SameAll(s.mem, s'.mem, root) && KeepsBlank(s.mem, s')
  }

  /** Frames that are not tables are not written. */
  ghost predicate KeepsBlank(m: Mem, s': Sys) {
    forall x :: x !in s'.owner && Blank(m, x) ==> Blank(s'.mem, x)
  }

  ghost function Elements(q: seq<nat>): set<nat> { set x | x in q }

  lemma {:induction false} DescentArrives(s: Sys, root: nat, f: nat, vp: nat, level: nat, fl: Flags)
    requires 1 <= level <= 4 && Standing(s, root, f, vp, level) && Allows(s, f, fl)
    requires NoBig(s.mem, f, vp, level) && Missing(s.mem, f, vp, level) <= |s.stack|
    ensures Arrived(s, Descent(s, f, vp, level, fl), root, Bottom(s, f, vp, level, fl), vp, fl,
                    Missing(s.mem, f, vp, level))
    decreases level
  {
    hide Arrived, Standing, SameAll, KeepsBlank, Allows, NoBig, Descend, Elements, Prefix, Index;
    if level == 1 {
      ArrivedHere(s, root, f, vp, fl);
      assert Missing(s.mem, f, vp, 1) == 0;
    } else {
      var s1 := Enter(s, f, vp, level, fl);
      var n := Next(s1, f, Index(vp, level));
      EnterMissing(s, root, f, vp, level, fl);
      EnterAll(s, root, f, vp, level, fl);
      DescentArrives(s1, root, n, vp, level - 1, fl);
      var took := if Read(s.mem, f, Index(vp, level)).present then 0 else 1;
      EnterTook(s, s1, took);
      ArrivedVia(s, s1, Descent(s, f, vp, level, fl), root, Bottom(s, f, vp, level, fl), vp, fl,
                 took, Missing(s1.mem, n, vp, level - 1));
    }
  }

  lemma EnterTook(s: Sys, s1: Sys, took: nat)
    requires took <= 1 && took <= |s.stack|
    requires if took == 0 then s1.stack == s.stack && s1.owner == s.owner
      else s1.stack == s.stack[..|s.stack| - 1] && s1.owner.Keys == s.owner.Keys + {Top(s)}
    ensures s1.stack == s.stack[..|s.stack| - took]
    ensures s1.owner.Keys == s.owner.Keys + Elements(s.stack[|s.stack| - took..])
  {
    assert took == 1 ==> s.stack[|s.stack| - 1..] == [Top(s)];
  }

  lemma ArrivedHere(s: Sys, root: nat, pt: nat, vp: nat, fl: Flags)
    requires Standing(s, root, pt, vp, 1) && Allows(s, pt, fl)
    ensures Arrived(s, s, root, pt, vp, fl, 0)
  {
    hide Standing, Allows, LeafAt, NoBig, SlotOf;
    assert s.stack[|s.stack|..] == [];
  }

  lemma ArrivedVia(s: Sys, s1: Sys, s2: Sys, root: nat, pt: nat, vp: nat, fl: Flags, a: nat, b: nat)
    requires a <= |s.stack| && s1.stack == s.stack[..|s.stack| - a]
    requires s1.owner.Keys == s.owner.Keys + Elements(s.stack[|s.stack| - a..])
    requires SameAll(s.mem, s1.mem, root) && KeepsBlank(s.mem, s1) && Arrived(s1, s2, root, pt, vp, fl, b)
    ensures Arrived(s, s2, root, pt, vp, fl, a + b)
  {
    hide Standing, Allows, SameAll, Elements, Blank;
    assert forall x :: x !in s2.owner ==> x !in s1.owner;
    SplitTop(s.stack, s1.stack, a, b);
    SameVia(s.mem, s1.mem, s2.mem, root);
  }

  lemma SameVia(m: Mem, m1: Mem, m2: Mem, root: nat)
    requires SameAll(m, m1, root) && SameAll(m1, m2, root)
    ensures SameAll(m, m2, root)
  {
    hide LeafAt, NoBig, SlotOf;
    forall v: nat | v < FRAMES ensures SameAt(m, m2, root, v) {
      assert SameAt(m, m1, root, v) && SameAt(m1, m2, root, v);
    }
  }

  lemma SplitTop(q: seq<nat>, r: seq<nat>, a: nat, b: nat)
    requires a <= |q| && r == q[..|q| - a] && b <= |r|
    ensures q[..|q| - (a + b)] == r[..|r| - b]
    ensures Elements(q[|q| - (a + b)..]) == Elements(r[|r| - b..]) + Elements(q[|q| - a..])
  {
    assert q[|q| - (a + b)..] == r[|r| - b..] + q[|q| - a..];
  }

  lemma EnterBlank(s: Sys, root: nat, f: nat, vp: nat, level: nat, fl: Flags)
    requires Standing(s, root, f, vp, level) && level > 1 && CanDescend(s, f, Index(vp, level))
    ensures KeepsBlank(s.mem, Enter(s, f, vp, level, fl))
  {
    EnterWrites(s, root, f, vp, level, fl);
    var s1 := Enter(s, f, vp, level, fl);
    forall x | x !in s1.owner && Blank(s.mem, x) ensures Blank(s1.mem, x) {
      BlankKeep(s.mem, f, Index(vp, level), Entered(s, f, Index(vp, level), fl), x);
    }
  }

  lemma EnterAll(s: Sys, root: nat, f: nat, vp: nat, level: nat, fl: Flags)
    requires Standing(s, root, f, vp, level) && level > 1 && CanDescend(s, f, Index(vp, level))
    requires Allows(s, f, fl)
    ensures var s1 := Enter(s, f, vp, level, fl);
      var n := Next(s1, f, Index(vp, level));
      && Standing(s1, root, n, vp, level - 1) && Allows(s1, n, fl)
      && SameAll(s.mem, s1.mem, root) && KeepsBlank(s.mem, s1)
  {
    EnterBlank(s, root, f, vp, level, fl);
    hide KeepsBlank, TreeOk, RightsOk, StackOk, Allows, SameAt, Descend, CanDescend;
    EnterTree(s, root, f, vp, level, fl);
    EnterStack(s, root, f, vp, level, fl);
    EnterRights(s, root, f, vp, level, fl);
    EnterAllows(s, root, f, vp, level, fl);
    forall v: nat | v < FRAMES ensures SameAt(s.mem, Enter(s, f, vp, level, fl).mem, root, v) {
      EnterSame(s, root, f, vp, level, fl, v);
    }
  }

  // ------------------------------------------------------------- leaf writes

  function PutLeaf(s: Sys, pt: nat, vp: nat, e: Pte): Sys { s.(mem := Write(s.mem, pt, Index(vp, 1), e)) }

  /** The flags cover the rights a leaf grants. */
  predicate Covers(fl: Flags, e: Pte) { e.present ==> (e.rw ==> fl.rw) && (e.user ==> fl.user) }

  lemma PutLeafTree(s: Sys, root: nat, pt: nat, vp: nat, e: Pte)
    requires Standing(s, root, pt, vp, 1)
    ensures TreeOk(PutLeaf(s, pt, vp, e), root)
  {
    hide Prefix, Index;
    var s1, i := PutLeaf(s, pt, vp, e), Index(vp, 1);
    PrefixStep(vp, 1);
    forall g | g in s1.owner ensures 1 <= s1.owner[g].level <= 4 && TableAt(s1.mem, root, s1.owner[g]) == Table(g) {
      TableAtKeep(s, root, s.owner[g], pt, i, e);
    }
    forall g, k ensures ChildOk(s1, g, k) { assert ChildOk(s, g, k); }
  }

  lemma PutLeafRights(s: Sys, root: nat, pt: nat, vp: nat, e: Pte, fl: Flags)
    requires Standing(s, root, pt, vp, 1) && Allows(s, pt, fl) && Covers(fl, e)
    ensures RightsOk(PutLeaf(s, pt, vp, e))
  {
    hide Prefix, Index, TreeOk, StackOk;
    var s1 := PutLeaf(s, pt, vp, e);
    forall g, k, j ensures RightsOkAt(s1, g, k, j) {
      UseOk(s, root, g, k, j);
      UseAllows(s, pt, fl, g, k);
    }
  }

  lemma PutLeafStack(s: Sys, root: nat, pt: nat, vp: nat, e: Pte)
    requires Standing(s, root, pt, vp, 1)
    ensures StackOk(PutLeaf(s, pt, vp, e))
  {
    hide Prefix, Index, TreeOk, RightsOk;
    var s1 := PutLeaf(s, pt, vp, e);
    forall k | 0 <= k < |s1.stack|
      ensures s1.stack[k] < FRAMES && s1.stack[k] !in s1.owner && Blank(s1.mem, s1.stack[k])
    {
      BlankKeep(s.mem, pt, Index(vp, 1), e, s.stack[k]);
    }
  }

  lemma PutLeafAt(s: Sys, root: nat, pt: nat, vp: nat, e: Pte)
    requires Standing(s, root, pt, vp, 1)
    ensures var m := PutLeaf(s, pt, vp, e).mem;
      SlotOf(m, root, vp) == e && LeafAt(m, root, vp, 4) == if e.present then Leaf(1, e) else NoLeaf
  {
    PutLeafTree(s, root, pt, vp, e);
    var s1 := PutLeaf(s, pt, vp, e);
    assert TableAt(s1.mem, root, s1.owner[pt]) == Table(pt);
    LeafFrom(s1.mem, root, pt, vp, 1);
  }

  lemma PutLeafSame(s: Sys, root: nat, pt: nat, vp: nat, e: Pte, v: nat)
    requires Standing(s, root, pt, vp, 1) && v < FRAMES
    ensures v != vp ==> SameAt(s.mem, PutLeaf(s, pt, vp, e).mem, root, v)
    ensures NoBig(s.mem, root, v, 4) ==> NoBig(PutLeaf(s, pt, vp, e).mem, root, v, 4)
  {
    var i := Index(vp, 1);
    PrefixStep(vp, 1);
    PrefixTop(v);
    if NoBig(s.mem, root, v, 4) { NoBigKeep(s, root, pt, i, e, root, v, 4); }
    if v != vp {
      LeafKeep(s, root, pt, i, e, root, v, 4);
      PutLeafSlot(s, root, pt, vp, e, v);
    }
  }

  lemma PutLeafSlot(s: Sys, root: nat, pt: nat, vp: nat, e: Pte, v: nat)
    requires Standing(s, root, pt, vp, 1) && v != vp
    ensures SlotOf(PutLeaf(s, pt, vp, e).mem, root, v) == SlotOf(s.mem, root, v)
  {
    var s1, at := PutLeaf(s, pt, vp, e), Pos(1, v / 512);
    PutLeafTree(s, root, pt, vp, e);
    PrefixStep(vp, 1);
    if TableAt(s.mem, root, at).Table? {
      TableAtKeep(s, root, at, pt, Index(vp, 1), e);
      TableInOwner(s, root, at);
    } else if TableAt(s1.mem, root, at).Table? {
      TableInOwner(s1, root, at);
    }
  }

  // ---------------------------------------------------------- combined rights

  /** What the leaf alone would grant. */
  function Granted(l: Leaf, vp: nat): Mapping {
    match l
    case NoLeaf => Fault
    case Leaf(level, e) =>
      Mapped(if level <= 1 then e.frame else BigPage(e, vp, level), e.rw, e.user, !e.nx)
  }

  lemma {:induction false} WalkGrants(s: Sys, root: nat, f: nat, vp: nat, level: nat, w: bool, u: bool)
    requires TablesOk(s, root) && 1 <= level <= 4 && f in s.owner && s.owner[f] == Pos(level, Prefix(vp, level))
    requires forall j :: j < 512 && Read(s.mem, f, j).present ==>
      (Read(s.mem, f, j).rw ==> w) && (Read(s.mem, f, j).user ==> u)
    ensures Walk(s.mem, f, vp, level, w, u, true) == Granted(LeafAt(s.mem, f, vp, level), vp)
    decreases level
  {
    hide Prefix, Index, TreeOk, StackOk, BigPage;
    PrefixStep(vp, level);
    var i := Index(vp, level);
    var e := Read(s.mem, f, i);
    if level > 1 && e.present && !e.size {
      UseChild(s, root, f, i);
      forall j | j < 512 && Read(s.mem, e.frame, j).present
        ensures (Read(s.mem, e.frame, j).rw ==> w && e.rw) && (Read(s.mem, e.frame, j).user ==> u && e.user)
      {
        UseOk(s, root, f, i, j);
      }
      UseOk(s, root, f, i, 0);
      WalkGrants(s, root, e.frame, vp, level - 1, w && e.rw, u && e.user);
    }
  }

  /** The rights the hardware computes over four levels are the rights of the leaf. */
  lemma TranslateGrants(s: Sys, root: nat, vp: nat)
    requires TablesOk(s, root) && vp < FRAMES
    ensures Translate(s.mem, root, vp) == Granted(LeafAt(s.mem, root, vp, 4), vp)
  {
    PrefixTop(vp);
    WalkGrants(s, root, root, vp, 4, true, true);
  }

  // -------------------------------------------------------------- refinement

  ghost predicate SameTranslation(m: Mem, m': Mem, root: nat, vp: nat) {
    Translate(m', root, vp) == Translate(m, root, vp) && SameAt(m, m', root, vp)
  }

  lemma SameAtTranslates(s: Sys, s': Sys, root: nat, vp: nat)
    requires SysOk(s, root) && SysOk(s', root) && vp < FRAMES && SameAt(s.mem, s'.mem, root, vp)
    ensures SameTranslation(s.mem, s'.mem, root, vp)
  {
    TranslateGrants(s, root, vp);
    TranslateGrants(s', root, vp);
  }

  /** The path to `vp` is free of large pages and its missing tables can be supplied. */
  ghost predicate Reachable(s: Sys, root: nat, vp: nat) {
    vp < FRAMES && NoBig(s.mem, root, vp, 4) && Missing(s.mem, root, vp, 4) <= |s.stack|
  }

  /** The frames of the tables built on the way were taken from the top of the stack. */
  ghost predicate TablesTaken(s: Sys, s': Sys, q: seq<nat>, n: nat) {
    && n <= |s.stack| && q == s.stack[..|s.stack| - n]
    && s'.owner.Keys == s.owner.Keys + Elements(s.stack[|s.stack| - n..])
  }

  /** `set_page` refines an update of the flat map: the page asked for maps as asked, with exactly
      the rights asked for; every other page keeps its translation; the tables stay a tree without
      sharing; the new tables are exactly the missing ones. */
  lemma SetPageRefines(s: Sys, root: nat, vp: nat, frame: nat, pf: PageFlags)
    requires SysOk(s, root) && Reachable(s, root, vp)
    ensures var s' := SetPage(s, root, vp, frame, pf);
      && SysOk(s', root) && TablesTaken(s, s', s'.stack, Missing(s.mem, root, vp, 4))
      && SlotOf(s'.mem, root, vp) == LeafEntry(frame, pf) && NoBig(s'.mem, root, vp, 4)
      && KeepsBlank(s.mem, s')
      && Translate(s'.mem, root, vp) ==
         (if pf.present then Mapped(frame % FRAMES, pf.write, !pf.kernel, pf.exec) else Fault)
      && forall v: nat :: v < FRAMES && v != vp ==> SameTranslation(s.mem, s'.mem, root, v)
  {
    hide Prefix, Index, TreeOk, RightsOk, StackOk, NoBig, Missing, Descent, Bottom, Elements, Allows, Translate,
         SlotOf, LeafAt, Blank;
    var fl := TableFlags(pf);
    var s1, pt := Descent(s, root, vp, 4, fl), Bottom(s, root, vp, 4, fl);
    StartAtRoot(s, root, vp, fl);
    DescentArrives(s, root, root, vp, 4, fl);
    LeafPut(s, s1, root, pt, vp, LeafEntry(frame, pf), fl);
    var s' := PutLeaf(s1, pt, vp, LeafEntry(frame, pf));
    TranslateGrants(s', root, vp);
  }

  lemma StartAtRoot(s: Sys, root: nat, vp: nat, fl: Flags)
    requires SysOk(s, root) && vp < FRAMES
    ensures Standing(s, root, root, vp, 4) && Allows(s, root, fl)
  {
    PrefixTop(vp);
    RootAllows(s, root, fl);
  }

  lemma LeafPut(s: Sys, s1: Sys, root: nat, pt: nat, vp: nat, e: Pte, fl: Flags)
    requires SysOk(s, root) && vp < FRAMES && NoBig(s.mem, root, vp, 4)
    requires Standing(s1, root, pt, vp, 1) && Allows(s1, pt, fl) && Covers(fl, e)
    requires SameAll(s.mem, s1.mem, root) && KeepsBlank(s.mem, s1)
    ensures var s' := PutLeaf(s1, pt, vp, e);
      && KeepsBlank(s.mem, s')
      && SysOk(s', root) && NoBig(s'.mem, root, vp, 4)
      && SlotOf(s'.mem, root, vp) == e && LeafAt(s'.mem, root, vp, 4) == (if e.present then Leaf(1, e) else NoLeaf)
      && forall v: nat :: v < FRAMES && v != vp ==> SameTranslation(s.mem, s'.mem, root, v)
  {
    PutLeafBlank(s, s1, root, pt, vp, e);
    hide Prefix, Index, TreeOk, RightsOk, StackOk, NoBig, Allows, Translate, SlotOf, LeafAt, KeepsBlank;
    var s' := PutLeaf(s1, pt, vp, e);
    PutLeafTree(s1, root, pt, vp, e);
    PutLeafRights(s1, root, pt, vp, e, fl);
    PutLeafStack(s1, root, pt, vp, e);
    PutLeafAt(s1, root, pt, vp, e);
    assert SameAt(s.mem, s1.mem, root, vp);
    PutLeafSame(s1, root, pt, vp, e, vp);
    forall v: nat | v < FRAMES && v != vp ensures SameTranslation(s.mem, s'.mem, root, v) {
      PutLeafSame(s1, root, pt, vp, e, v);
      assert SameAt(s.mem, s1.mem, root, v);
      SameAtTranslates(s, s', root, v);
    }
  }

  lemma PutLeafBlank(s: Sys, s1: Sys, root: nat, pt: nat, vp: nat, e: Pte)
    requires Standing(s1, root, pt, vp, 1) && KeepsBlank(s.mem, s1)
    ensures KeepsBlank(s.mem, PutLeaf(s1, pt, vp, e))
  {
    hide TreeOk, RightsOk, StackOk, Prefix, Index;
    forall x | x !in s1.owner && Blank(s.mem, x) ensures Blank(PutLeaf(s1, pt, vp, e).mem, x) {
      BlankKeep(s1.mem, pt, Index(vp, 1), e, x);
    }
  }

  /** A frame that may go back on the stack. */
  ghost predicate MayReturn(s: Sys, x: nat) {
    x < FRAMES && x !in s.stack && x !in s.owner && Blank(s.mem, x)
  }

  lemma PushOk(s: Sys, root: nat, x: nat)
    requires SysOk(s, root) && MayReturn(s, x)
    ensures SysOk(s.(stack := s.stack + [x]), root)
  {
    hide Blank;
    var s1 := s.(stack := s.stack + [x]);
    assert forall f, i :: ChildOk(s, f, i) ==> ChildOk(s1, f, i);
    assert forall f, i, j :: RightsOkAt(s, f, i, j) ==> RightsOkAt(s1, f, i, j);
  }

  lemma AllowsPush(s: Sys, x: nat, f: nat, fl: Flags)
    requires Allows(s, f, fl)
    ensures Allows(s.(stack := s.stack + [x]), f, fl)
  {
    var s1 := s.(stack := s.stack + [x]);
    assert forall g, k :: LeadAllows(s, f, fl, g, k) ==> LeadAllows(s1, f, fl, g, k);
  }

  /** The slot read at the end of the descent is the one the flat map shows. */
  lemma SlotAtBottom(s: Sys, root: nat, pt: nat, vp: nat)
    requires Standing(s, root, pt, vp, 1)
    ensures SlotOf(s.mem, root, vp) == Read(s.mem, pt, Index(vp, 1))
  {
    assert TableAt(s.mem, root, s.owner[pt]) == Table(pt);
  }

  /** `free_page` refines a removal from the flat map: the page faults afterwards, every other page
      keeps its translation, and a usable frame, and only that, goes back on top of the stack. */
  lemma FreePageRefines(s: Sys, root: nat, vp: nat)
    requires SysOk(s, root) && Reachable(s, root, vp)
    requires SlotOf(s.mem, root, vp).usable ==> MayReturn(s, SlotOf(s.mem, root, vp).frame)
    ensures var s' := FreePage(s, root, vp);
      var e := SlotOf(s.mem, root, vp);
      var n := Missing(s.mem, root, vp, 4);
      && SysOk(s', root) && KeepsBlank(s.mem, s')
      && TablesTaken(s, s', s.stack[..|s.stack| - n], n)
      && s'.stack == s.stack[..|s.stack| - n] + (if e.usable then [e.frame] else [])
      && SlotOf(s'.mem, root, vp) == ZERO && Translate(s'.mem, root, vp) == Fault && NoBig(s'.mem, root, vp, 4)
      && forall v: nat :: v < FRAMES && v != vp ==> SameTranslation(s.mem, s'.mem, root, v)
  {
    hide Prefix, Index, TreeOk, RightsOk, StackOk, NoBig, Missing, Descent, Bottom, Elements, Allows, Translate,
         SlotOf, LeafAt;
    var s1, pt := Descent(s, root, vp, 4, NO_FLAGS), Bottom(s, root, vp, 4, NO_FLAGS);
    StartAtRoot(s, root, vp, NO_FLAGS);
    DescentArrives(s, root, root, vp, 4, NO_FLAGS);
    assert SameAt(s.mem, s1.mem, root, vp);
    SlotAtBottom(s1, root, pt, vp);
    var e := SlotOf(s.mem, root, vp);
    var s2 := if e.usable then s1.(stack := s1.stack + [e.frame]) else s1;
    if e.usable {
      ReturnOk(s, s1, e.frame, Missing(s.mem, root, vp, 4));
      PushOk(s1, root, e.frame);
      AllowsPush(s1, e.frame, pt, NO_FLAGS);
    }
    LeafPut(s, s2, root, pt, vp, ZERO, NO_FLAGS);
    TranslateGrants(PutLeaf(s2, pt, vp, ZERO), root, vp);
  }

  lemma ReturnOk(s: Sys, s1: Sys, x: nat, n: nat)
    requires MayReturn(s, x) && KeepsBlank(s.mem, s1) && TablesTaken(s, s1, s1.stack, n)
    ensures MayReturn(s1, x)
  {
  }

  // ----------------------------------------------- edits outside the run model

  /** A frame that is no table may be overwritten. */
  lemma {:induction false} OffTable(s: Sys, root: nat, m: Mem, x: nat)
    requires TablesOk(s, root) && x !in s.owner
    requires forall f: nat, i: nat :: f != x ==> Read(m, f, i) == Read(s.mem, f, i)
    ensures TablesOk(s.(mem := m), root)
    ensures forall at: Pos :: 1 <= at.level && TableAt(s.mem, root, at).Table? ==> TableAt(m, root, at) == TableAt(s.mem, root, at)
  {
    var s1 := s.(mem := m);
    forall at: Pos | 1 <= at.level && TableAt(s.mem, root, at).Table?
      ensures TableAt(m, root, at) == TableAt(s.mem, root, at)
    {
      TableAtOff(s, root, m, x, at);
    }
    forall f, i ensures ChildOk(s1, f, i) { UseChild(s, root, f, i); }
    forall f, i, j ensures RightsOkAt(s1, f, i, j) {
      UseOk(s, root, f, i, j);
      UseChild(s, root, f, i);
    }
  }

  lemma {:induction false} TableAtOff(s: Sys, root: nat, m: Mem, x: nat, at: Pos)
    requires TreeOk(s, root) && x !in s.owner && 1 <= at.level && TableAt(s.mem, root, at).Table?
    requires forall f: nat, i: nat :: f != x ==> Read(m, f, i) == Read(s.mem, f, i)
    ensures TableAt(m, root, at) == TableAt(s.mem, root, at)
    decreases 4 - at.level
  {
    if at.level < 4 {
      var up := Pos(at.level + 1, at.prefix / 512);
      TableAtOff(s, root, m, x, up);
      TableInOwner(s, root, up);
    }
  }

  lemma {:induction false} LeafOff(s: Sys, root: nat, m: Mem, x: nat, g: nat, vp: nat, level: nat)
    requires TreeOk(s, root) && x !in s.owner && 1 <= level <= 4
    requires forall f: nat, i: nat :: f != x ==> Read(m, f, i) == Read(s.mem, f, i)
    requires g in s.owner && s.owner[g] == Pos(level, Prefix(vp, level))
    ensures LeafAt(m, g, vp, level) == LeafAt(s.mem, g, vp, level)
    decreases level
  {
    hide TreeOk, Prefix, Index;
    PrefixStep(vp, level);
    var d := Read(s.mem, g, Index(vp, level));
    if level > 1 && d.present && !d.size {
      UseChild(s, root, g, Index(vp, level));
      LeafOff(s, root, m, x, d.frame, vp, level - 1);
    }
  }

  /** The walk of a page that does not pass through entry `i` of `f` does not see it change. */
  lemma {:induction false} LeafElsewhere(s: Sys, root: nat, f: nat, i: nat, e: Pte, g: nat, vp: nat, level: nat)
    requires TreeOk(s, root) && f in s.owner && i < 512 && 1 <= level <= 4
    requires g in s.owner && s.owner[g] == Pos(level, Prefix(vp, level))
    requires 1 <= s.owner[f].level && Prefix(vp, s.owner[f].level - 1) != s.owner[f].prefix * 512 + i
    ensures LeafAt(Write(s.mem, f, i, e), g, vp, level) == LeafAt(s.mem, g, vp, level)
    decreases level
  {
    hide TreeOk, Prefix, Index;
    PrefixStep(vp, level);
    var d := Read(s.mem, g, Index(vp, level));
    if level > 1 && d.present && !d.size {
      UseChild(s, root, g, Index(vp, level));
      LeafElsewhere(s, root, f, i, e, d.frame, vp, level - 1);
    }
  }

  /** A frame whose entries, if present, are all leaves. */
  ghost predicate NoLinks(mem: Mem, n: nat) {
    forall j :: j < 512 ==> (Read(mem, n, j).present ==> Read(mem, n, j).size)
  }

  function Link(s: Sys, f: nat, i: nat, e: Pte): Sys
    requires f in s.owner && s.owner[f].level > 0
  {
    s.(mem := Write(s.mem, f, i, e), owner := s.owner[e.frame := Pos(s.owner[f].level - 1, s.owner[f].prefix * 512 + i)])
  }

  /** Linking a table without links of its own into an empty entry keeps the tree. */
  lemma LinkTree(s: Sys, root: nat, f: nat, i: nat, e: Pte)
    requires TreeOk(s, root) && f in s.owner && s.owner[f].level > 1 && i < 512
    requires !Read(s.mem, f, i).present && e.present && !e.size && e.frame !in s.owner && NoLinks(s.mem, e.frame)
    ensures TreeOk(Link(s, f, i, e), root)
  {
    var s1 := Link(s, f, i, e);
    forall g | g in s1.owner ensures 1 <= s1.owner[g].level <= 4 && TableAt(s1.mem, root, s1.owner[g]) == Table(g) {
      if g in s.owner {
        TableAtKeep(s, root, s.owner[g], f, i, e);
      } else {
        TableAtKeep(s, root, s.owner[f], f, i, e);
      }
    }
    forall g, k ensures ChildOk(s1, g, k) { LinkChild(s, root, f, i, e, g, k); }
  }

  lemma LinkChild(s: Sys, root: nat, f: nat, i: nat, e: Pte, g: nat, k: nat)
    requires TreeOk(s, root) && f in s.owner && s.owner[f].level > 1 && i < 512
    requires e.present && !e.size && e.frame !in s.owner && NoLinks(s.mem, e.frame)
    ensures ChildOk(Link(s, f, i, e), g, k)
  {
    UseChild(s, root, g, k);
    if g == e.frame && k < 512 { assert Read(s.mem, g, k).present ==> Read(s.mem, g, k).size; }
  }

  lemma LinkRights(s: Sys, root: nat, f: nat, i: nat, e: Pte, fl: Flags)
    requires TablesOk(s, root) && f in s.owner && s.owner[f].level > 1 && i < 512
    requires !Read(s.mem, f, i).present && e.present && !e.size && e.frame !in s.owner && NoLinks(s.mem, e.frame)
    requires e.rw && !e.nx && forall j :: j < 512 ==> !Read(s.mem, e.frame, j).user
    requires Allows(s, f, fl) && Covers(fl, e)
    ensures RightsOk(Link(s, f, i, e))
  {
    forall g, k, j ensures RightsOkAt(Link(s, f, i, e), g, k, j) {
      LinkRightsAt(s, root, f, i, e, fl, g, k, j);
    }
  }

  lemma LinkRightsAt(s: Sys, root: nat, f: nat, i: nat, e: Pte, fl: Flags, g: nat, k: nat, j: nat)
    requires TablesOk(s, root) && f in s.owner && s.owner[f].level > 1 && i < 512
    requires !Read(s.mem, f, i).present && e.present && !e.size && e.frame !in s.owner && NoLinks(s.mem, e.frame)
    requires e.rw && !e.nx && forall j :: j < 512 ==> !Read(s.mem, e.frame, j).user
    requires Allows(s, f, fl) && Covers(fl, e)
    ensures RightsOkAt(Link(s, f, i, e), g, k, j)
  {
    UseOk(s, root, g, k, j);
    UseChild(s, root, g, k);
    UseAllows(s, f, fl, g, k);
    hide TreeOk, RightsOk, Allows;
    if k < 512 && j < 512 {
      if g == f && k == i {
        assert !Read(s.mem, e.frame, j).user;
      } else if g == e.frame {
        assert Read(s.mem, g, k).present ==> Read(s.mem, g, k).size;
      }
    }
  }
}
