/**
 The spin lock of kernel/system/mem_mgmt/vmm/mem_mgmt.c with any number of CPUs
 calling the manager at once. A step is one atomic exchange, one piece of work
 inside the locked section, or the release; CPUs interleave freely.
 */
module LockProtocol {
  import opened AvlTree
  import opened PageTables
  import opened Frames
  import opened VmmRuns
  import V = VmmTree

  /** Where a CPU is inside `malloc_pages`, `map_memory` or `free_pages` after `lock_mgr`. */
  datatype Stage<P> =
    | Entered(op: Op<P>)
    | Mapping(addr: nat, left: nat, src: Source, pf: PageFlags)
    | Freeing(e: Entry<P>, addr: nat, left: nat)
    | Leaving

  datatype Cpu<P> = Idle | Spinning(op: Op<P>) | Inside(stage: Stage<P>)

  /** `lock` is the lock byte. */
  datatype System<P> = System(lock: bool, cpus: seq<Cpu<P>>, mgr: Manager<P>)

  /** Argument checks made before locking; the node allocator's own steps happen inside others. */
  predicate Locks<P>(op: Op<P>) {
    match op
    case Malloc(pages, w, x, k, p) => pages > 0
    case MapMemory(at, pages, k, p) => pages > 0 && at % 4096 == 0
    case FreePagesAt(addr) => true
    case NodePageTaken => false
    case NodePageReturned(x) => false
  }

  // ------------------------------------------------------------- transitions

  datatype Event<P> = Call(c: nat, op: Op<P>) | Exchange(c: nat) | Work(c: nat) | Release(c: nat)

  /** One piece of work in the locked section. */
  function Advance<P(==)>(m: Manager<P>, r: Range, st: Stage<P>): (Manager<P>, Stage<P>) {
    match st
    case Entered(op) => Begin(m, r, op)
    case Mapping(addr, left, src, pf) =>
      if left == 0 then (m, Leaving)
      else (m.(store := MapOne(m.store, r.root, PageOf(addr), src, pf)),
            Mapping(addr + 4096, left - 1, Frames.Advance(src), pf))
    case Freeing(e, addr, left) =>
      if left == 0 then (m.(tree := V.Coalesce(m.tree, e)), Leaving)
      else (m.(store := FreeOne(m.store, r.root, PageOf(addr))), Freeing(e, addr + 4096, left - 1))
    case Leaving => (m, Leaving)
  }

  function Begin<P(==)>(m: Manager<P>, r: Range, op: Op<P>): (Manager<P>, Stage<P>) {
    match op
    case Malloc(pages, w, x, k, p) =>
      var (addr, t) := PlacedAt(m.tree, pages, p);
      (m.(tree := t), Mapping(addr, pages, Fresh, MallocFlags(w, x, k)))
    case MapMemory(at, pages, k, p) =>
      var (addr, t) := PlacedAt(m.tree, pages, p);
      (m.(tree := t), Mapping(addr, pages, Given(at / 4096), MapFlags(k)))
    case FreePagesAt(addr) =>
      (match Find(m.tree, addr)
       case Missing => (m, Leaving)
       case Hit(n) =>
         if !n.alloc then (m, Leaving)
         else (m.(tree := SetFields(m.tree, n.ptr, n.pages, false)), Freeing(n.(alloc := false), addr, n.pages)))
    case NodePageTaken => (m, Leaving)
    case NodePageReturned(x) => (m, Leaving)
  }

  /** What can happen next. */
  ghost predicate Possible<P>(s: System<P>, ev: Event<P>) {
    ev.c < |s.cpus| &&
    match ev
    case Call(c, op) => s.cpus[c].Idle? && Locks(op)
    case Exchange(c) => s.cpus[c].Spinning?
    case Work(c) => s.cpus[c].Inside? && !s.cpus[c].stage.Leaving?
    case Release(c) => s.cpus[c].Inside? && s.cpus[c].stage.Leaving?
  }

  /** A CPU that enters the locked section now has enough space and frames for its operation. */
  ghost predicate Provided<P>(s: System<P>, r: Range, ev: Event<P>)
    requires Possible(s, ev)
  {
    ev.Exchange? && !s.lock ==> Enabled(s.mgr, r, s.cpus[ev.c].op)
  }

  function Happen<P(==)>(s: System<P>, r: Range, ev: Event<P>): System<P>
    requires Possible(s, ev)
  {
    match ev
    case Call(c, op) => s.(cpus := s.cpus[c := Spinning(op)])
    case Exchange(c) =>
      if s.lock then s else s.(lock := true, cpus := s.cpus[c := Inside(Entered(s.cpus[c].op))])
    case Work(c) =>
      var (m, st) := Advance(s.mgr, r, s.cpus[c].stage);
      s.(mgr := m, cpus := s.cpus[c := Inside(st)])
    case Release(c) => s.(lock := false, cpus := s.cpus[c := Idle])
  }

  // --------------------------------------------------------------- invariant

  /** The manager once the CPU inside has done the rest of its work. */
  function Finish<P(==)>(m: Manager<P>, r: Range, st: Stage<P>): Manager<P> {
    match st
    case Entered(op) => Step(m, r, op)
    case Mapping(addr, left, src, pf) => m.(store := MapPages(m.store, r.root, addr, left, src, pf))
    case Freeing(e, addr, left) => Manager(V.Coalesce(m.tree, e), FreePages(m.store, r.root, addr, left))
    case Leaving => m
  }

  lemma WorkTowardsFinish<P>(m: Manager<P>, r: Range, st: Stage<P>)
    requires st.Entered? ==> Locks(st.op)
    ensures var (m', st') := Advance(m, r, st); Finish(m', r, st') == Finish(m, r, st)
  {
    hide V.AllocVirt, MapOne, FreeOne, V.Coalesce, SetFields, Find;
  }

  ghost predicate OneInside<P>(s: System<P>) {
    forall i, j :: 0 <= i < |s.cpus| && 0 <= j < |s.cpus| && s.cpus[i].Inside? && s.cpus[j].Inside? ==> i == j
  }

  ghost predicate InsideOk<P>(s: System<P>, r: Range, all: set<nat>, i: nat)
    requires i < |s.cpus|
  {
    s.cpus[i].Inside? ==>
      Inv(Finish(s.mgr, r, s.cpus[i].stage), r, all) && (s.cpus[i].stage.Entered? ==> Locks(s.cpus[i].stage.op))
  }

  ghost predicate SpinOk<P>(c: Cpu<P>) { c.Spinning? ==> Locks(c.op) }

  /** At most one CPU is inside, and the lock byte is set exactly when one is. */
  ghost predicate Exclusive<P>(s: System<P>) {
    OneInside(s) && (s.lock <==> exists i :: 0 <= i < |s.cpus| && s.cpus[i].Inside?)
  }

  /** Every step of every CPU keeps exclusion, with or without space and frames. */
  lemma HappenExclusive<P>(s: System<P>, r: Range, ev: Event<P>)
    requires Exclusive(s) && Possible(s, ev)
    ensures Exclusive(Happen(s, r, ev))
  {
    hide Advance;
    var s', c := Happen(s, r, ev), ev.c;
    match ev
    case Call(_, op) =>
      if s.lock {
        var i :| 0 <= i < |s.cpus| && s.cpus[i].Inside?;
        assert s'.cpus[i].Inside?;
      }
    case Exchange(_) => if !s.lock { assert s'.cpus[c].Inside?; }
    case Work(_) => assert s.cpus[c].Inside? && s'.cpus[c].Inside?;
    case Release(_) => assert s.cpus[c].Inside?;
  }

  /** With the lock free the manager is in order, and otherwise it will be when the CPU inside is
      done. */
  ghost predicate Safe<P>(s: System<P>, r: Range, all: set<nat>) {
    && Exclusive(s)
    && (!s.lock ==> Inv(s.mgr, r, all))
    && (forall i :: 0 <= i < |s.cpus| ==> InsideOk(s, r, all, i) && SpinOk(s.cpus[i]))
  }

  lemma HappenSafe<P>(s: System<P>, r: Range, all: set<nat>, ev: Event<P>)
    requires Safe(s, r, all) && Possible(s, ev) && Provided(s, r, ev)
    ensures Safe(Happen(s, r, ev), r, all)
  {
    hide Inv, Finish, Advance, Step, Enabled, Exclusive;
    var c := ev.c;
    assert InsideOk(s, r, all, c) && SpinOk(s.cpus[c]);
    match ev
    case Call(_, op) => CallSafe(s, r, all, ev);
    case Exchange(_) =>
      if !s.lock {
        StepKeeps(s.mgr, r, all, s.cpus[c].op);
        FinishEntered(s.mgr, r, s.cpus[c].op);
        EnterSafe(s, r, all, ev);
      }
    case Work(_) =>
      WorkTowardsFinish(s.mgr, r, s.cpus[c].stage);
      WorkSafe(s, r, all, ev);
    case Release(_) =>
      FinishLeaving(s.mgr, r);
      ReleaseSafe(s, r, all, ev);
  }

  lemma FinishEntered<P>(m: Manager<P>, r: Range, op: Op<P>)
    ensures Finish(m, r, Entered(op)) == Step(m, r, op)
  {
  }

  lemma FinishLeaving<P>(m: Manager<P>, r: Range)
    ensures Finish(m, r, Stage<P>.Leaving) == m
  {
  }

  lemma CallSafe<P>(s: System<P>, r: Range, all: set<nat>, ev: Event<P>)
    requires Safe(s, r, all) && Possible(s, ev) && ev.Call?
    ensures Safe(Happen(s, r, ev), r, all)
  {
    hide Inv, Finish, Exclusive;
    HappenExclusive(s, r, ev);
    var s' := Happen(s, r, ev);
    forall i | 0 <= i < |s'.cpus| ensures InsideOk(s', r, all, i) && SpinOk(s'.cpus[i]) {
      assert InsideOk(s, r, all, i) && SpinOk(s.cpus[i]);
    }
  }

  lemma EnterSafe<P>(s: System<P>, r: Range, all: set<nat>, ev: Event<P>)
    requires Safe(s, r, all) && Possible(s, ev) && ev.Exchange? && !s.lock
    requires Inv(Finish(s.mgr, r, Entered(s.cpus[ev.c].op)), r, all)
    ensures Safe(Happen(s, r, ev), r, all)
  {
    hide Inv, Finish, OneInside;
    HappenExclusive(s, r, ev);
    NoneInside(s);
    hide Exclusive;
    var s' := Happen(s, r, ev);
    forall i | 0 <= i < |s'.cpus| ensures InsideOk(s', r, all, i) && SpinOk(s'.cpus[i]) {
      assert InsideOk(s, r, all, i) && SpinOk(s.cpus[i]);
    }
  }

  lemma NoneInside<P>(s: System<P>)
    requires Exclusive(s) && !s.lock
    ensures forall i :: 0 <= i < |s.cpus| ==> !s.cpus[i].Inside?
  {
  }

  lemma OnlyInside<P>(s: System<P>, c: nat)
    requires Exclusive(s) && c < |s.cpus| && s.cpus[c].Inside?
    ensures s.lock && forall i :: 0 <= i < |s.cpus| && i != c ==> !s.cpus[i].Inside?
  {
  }

  lemma WorkSafe<P>(s: System<P>, r: Range, all: set<nat>, ev: Event<P>)
    requires Safe(s, r, all) && Possible(s, ev) && ev.Work?
    requires var (m, st) := Advance(s.mgr, r, s.cpus[ev.c].stage);
      Inv(Finish(m, r, st), r, all)
    ensures Safe(Happen(s, r, ev), r, all)
  {
    NotEntered(s.mgr, r, s.cpus[ev.c].stage);
    hide Inv, Finish, Advance;
    HappenExclusive(s, r, ev);
    OnlyInside(s, ev.c);
    hide Exclusive;
    var s' := Happen(s, r, ev);
    forall i | 0 <= i < |s'.cpus| ensures InsideOk(s', r, all, i) && SpinOk(s'.cpus[i]) {
      assert InsideOk(s, r, all, i) && SpinOk(s.cpus[i]);
    }
  }

  lemma NotEntered<P>(m: Manager<P>, r: Range, st: Stage<P>)
    ensures !Advance(m, r, st).1.Entered?
  {
  }

  lemma ReleaseSafe<P>(s: System<P>, r: Range, all: set<nat>, ev: Event<P>)
    requires Safe(s, r, all) && Possible(s, ev) && ev.Release? && Inv(s.mgr, r, all)
    ensures Safe(Happen(s, r, ev), r, all)
  {
    hide Inv, Finish;
    HappenExclusive(s, r, ev);
    OnlyInside(s, ev.c);
    hide Exclusive;
    var s' := Happen(s, r, ev);
    forall i | 0 <= i < |s'.cpus| ensures InsideOk(s', r, all, i) && SpinOk(s'.cpus[i]) {
      assert InsideOk(s, r, all, i) && SpinOk(s.cpus[i]);
    }
  }

  // ------------------------------------------------------------- interleavings

  ghost predicate Interleaving<P>(s: System<P>, r: Range, evs: seq<Event<P>>)
    decreases |evs|
  {
    evs != [] ==> Possible(s, evs[0]) && Interleaving(Happen(s, r, evs[0]), r, evs[1..])
  }

  ghost function After<P>(s: System<P>, r: Range, evs: seq<Event<P>>): System<P>
    requires Interleaving(s, r, evs)
    decreases |evs|
  {
    if evs == [] then s else After(Happen(s, r, evs[0]), r, evs[1..])
  }

  /** Mutual exclusion and the meaning of the lock byte, for any number of CPUs and every
      interleaving whatever. */
  lemma {:induction false} AlwaysExclusive<P>(s: System<P>, r: Range, evs: seq<Event<P>>)
    requires Exclusive(s) && Interleaving(s, r, evs)
    ensures Exclusive(After(s, r, evs))
    decreases |evs|
  {
    hide Exclusive, Possible, Happen;
    if evs != [] {
      HappenExclusive(s, r, evs[0]);
      AlwaysExclusive(Happen(s, r, evs[0]), r, evs[1..]);
    }
  }

  ghost predicate AllProvided<P>(s: System<P>, r: Range, evs: seq<Event<P>>)
    requires Interleaving(s, r, evs)
    decreases |evs|
  {
    evs != [] ==> Provided(s, r, evs[0]) && AllProvided(Happen(s, r, evs[0]), r, evs[1..])
  }

  /** A manager in order whenever the lock is free, for every interleaving in which each operation has
      the space and frames it needs when it enters. */
  lemma {:induction false} AlwaysSafe<P>(s: System<P>, r: Range, all: set<nat>, evs: seq<Event<P>>)
    requires Safe(s, r, all) && Interleaving(s, r, evs) && AllProvided(s, r, evs)
    ensures Safe(After(s, r, evs), r, all)
    decreases |evs|
  {
    hide Safe, Possible, Happen, Provided;
    if evs != [] {
      HappenSafe(s, r, all, evs[0]);
      AlwaysSafe(Happen(s, r, evs[0]), r, all, evs[1..]);
    }
  }

  /** Before any call the lock is free and the system safe. */
  lemma StartSafe<P>(m: Manager<P>, n: nat, r: Range, all: set<nat>)
    requires Inv(m, r, all)
    ensures Safe(System(false, seq(n, i => Idle), m), r, all)
  {
    var s := System(false, seq(n, i => Cpu<P>.Idle), m);
    forall i | 0 <= i < |s.cpus| ensures InsideOk(s, r, all, i) && SpinOk(s.cpus[i]) {
      assert s.cpus[i] == Idle;
    }
  }

  // ------------------------------------------------------------------- release

  /** Pieces of work left before the release. */
  function WorkLeft<P>(m: Manager<P>, st: Stage<P>): nat {
    match st
    case Entered(op) =>
      (match op
       case Malloc(pages, w, x, k, p) => 2 + pages
       case MapMemory(at, pages, k, p) => 2 + pages
       case FreePagesAt(addr) => (match Find(m.tree, addr) case Missing => 1 case Hit(n) => 2 + n.pages)
       case NodePageTaken => 1
       case NodePageReturned(x) => 1)
    case Mapping(addr, left, src, pf) => 1 + left
    case Freeing(e, addr, left) => 1 + left
    case Leaving => 0
  }

  /** CPU `c` works on alone until it has released the lock. */
  function RunOut<P(==)>(s: System<P>, r: Range, c: nat): System<P>
    requires c < |s.cpus| && s.cpus[c].Inside?
    decreases WorkLeft(s.mgr, s.cpus[c].stage)
  {
    if s.cpus[c].stage.Leaving? then Happen(s, r, Release(c))
    else
      WorkShrinks(s.mgr, r, s.cpus[c].stage);
      RunOut(Happen(s, r, Work(c)), r, c)
  }

  lemma WorkShrinks<P>(m: Manager<P>, r: Range, st: Stage<P>)
    requires !st.Leaving?
    ensures var (m', st') := Advance(m, r, st); WorkLeft(m', st') < WorkLeft(m, st)
  {
    hide V.AllocVirt, MapOne, FreeOne, V.Coalesce, SetFields;
  }

  /** Every way through the locked section ends with the lock released and the operation done. */
  lemma {:induction false} ExitReleases<P>(s: System<P>, r: Range, c: nat)
    requires c < |s.cpus| && s.cpus[c].Inside? && (s.cpus[c].stage.Entered? ==> Locks(s.cpus[c].stage.op))
    ensures var s' := RunOut(s, r, c);
      !s'.lock && s'.mgr == Finish(s.mgr, r, s.cpus[c].stage) && s'.cpus == s.cpus[c := Idle]
    decreases WorkLeft(s.mgr, s.cpus[c].stage)
  {
    hide Finish, Advance, WorkLeft;
    var st := s.cpus[c].stage;
    if st.Leaving? {
      FinishLeaving(s.mgr, r);
    } else {
      WorkShrinks(s.mgr, r, st);
      WorkTowardsFinish(s.mgr, r, st);
      NotEntered(s.mgr, r, st);
      var s1 := Happen(s, r, Work(c));
      ExitReleases(s1, r, c);
      assert s1.cpus[c := Idle] == s.cpus[c := Idle];
    }
  }
}
