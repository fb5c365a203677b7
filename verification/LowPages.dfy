/**
 Taking the lowest free page, `_get_low_page` in kernel/system/mem_mgmt/pmm.c,
 once and over and over.
 */
module LowPages {
  import opened PageTables

  /** The first index of the least element, as the scan finds it. */
  function LowIndex(q: seq<nat>): (i: nat)
    requires q != []
    ensures i < |q| && (forall k :: 0 <= k < |q| ==> q[i] <= q[k]) && (forall k :: 0 <= k < i ==> q[i] < q[k])
  {
    if |q| == 1 then 0
    else
      var i := LowIndex(q[..|q| - 1]);
      if q[|q| - 1] < q[i] then |q| - 1 else i
  }

  function RemoveAt(q: seq<nat>, i: nat): seq<nat>
    requires i < |q|
  {
    q[..i] + q[i + 1..]
  }

  function Low(q: seq<nat>): nat
    requires q != []
  {
    q[LowIndex(q)]
  }

  function WithoutLow(q: seq<nat>): (r: seq<nat>)
    requires q != []
    ensures |r| == |q| - 1
  {
    RemoveAt(q, LowIndex(q))
  }

  function DropLow(q: seq<nat>, k: nat): (r: seq<nat>)
    requires k <= |q|
    ensures |r| == |q| - k
    decreases k
  {
    if k == 0 then q else DropLow(WithoutLow(q), k - 1)
  }

  /** The pages taken one after the other. */
  function Lows(q: seq<nat>, k: nat): seq<nat>
    requires k <= |q|
    decreases k
  {
    if k == 0 then [] else [Low(q)] + Lows(WithoutLow(q), k - 1)
  }

  /** What is left of `q` when the members of `out` are taken out, in the order of `q`. */
  function Keep(q: seq<nat>, out: set<nat>): seq<nat> {
    if q == [] then [] else (if q[0] in out then [] else [q[0]]) + Keep(q[1..], out)
  }

  lemma {:induction false} KeepAppend(a: seq<nat>, b: seq<nat>, out: set<nat>)
    ensures Keep(a + b, out) == Keep(a, out) + Keep(b, out)
  {
    if a == [] { assert a + b == b; }
    else { assert (a + b)[1..] == a[1..] + b; KeepAppend(a[1..], b, out); }
  }

  lemma {:induction false} KeepNone(q: seq<nat>, out: set<nat>)
    requires forall i :: 0 <= i < |q| ==> q[i] !in out
    ensures Keep(q, out) == q
  {
    if q != [] { KeepNone(q[1..], out); }
  }

  lemma {:induction false} KeepKeep(q: seq<nat>, a: set<nat>, b: set<nat>)
    ensures Keep(Keep(q, a), b) == Keep(q, a + b)
  {
    if q != [] {
      KeepKeep(q[1..], a, b);
      KeepAppend(if q[0] in a then [] else [q[0]], Keep(q[1..], a), b);
      assert Keep([q[0]], b) == if q[0] in b then [] else [q[0]];
    }
  }

  lemma {:induction false} RemoveIsKeep(q: seq<nat>, i: nat)
    requires NoRepeats(q) && i < |q|
    ensures RemoveAt(q, i) == Keep(q, {q[i]})
  {
    hide Keep;
    var a, b, x := q[..i], q[i + 1..], q[i];
    assert q == a + [x] + b;
    KeepAppend(a + [x], b, {x});
    KeepAppend(a, [x], {x});
    KeepNone(a, {x});
    KeepNone(b, {x});
    KeepOne(x);
  }

  lemma KeepOne(x: nat)
    ensures Keep([x], {x}) == []
  {
  }

  lemma RemoveNoRepeats(q: seq<nat>, i: nat)
    requires NoRepeats(q) && i < |q|
    ensures NoRepeats(RemoveAt(q, i))
  {
    var r := RemoveAt(q, i);
    assert forall k :: 0 <= k < |r| ==> r[k] == if k < i then q[k] else q[k + 1];
  }

  lemma {:induction false} KeepMember(q: seq<nat>, out: set<nat>, x: nat)
    ensures x in Keep(q, out) <==> x in q && x !in out
  {
    if q != [] { KeepMember(q[1..], out, x); assert q == [q[0]] + q[1..]; }
  }

  /** Taking the low page `k` times takes the `k` smallest pages and leaves the rest in order. */
  lemma {:induction false} DropLowTakesSmallest(q: seq<nat>, k: nat) returns (out: set<nat>)
    requires NoRepeats(q) && k <= |q|
    ensures |out| == k && (forall x :: x in out ==> x in q) && (forall x :: x in out <==> x in Lows(q, k))
    ensures DropLow(q, k) == Keep(q, out) && NoRepeats(DropLow(q, k))
    ensures forall x, y :: x in out && y in DropLow(q, k) ==> x < y
    decreases k
  {
    hide Keep, NoRepeats, LowIndex, Low, WithoutLow;
    if k == 0 {
      out := {};
      KeepNone(q, {});
    } else {
      var low, r := Low(q), WithoutLow(q);
      LowIsLeast(q);
      var rest := DropLowTakesSmallest(r, k - 1);
      out := {low} + rest;
      SmallestStep(q, low, r, rest, DropLow(r, k - 1));
    }
  }

  lemma LowIsLeast(q: seq<nat>)
    requires q != [] && NoRepeats(q)
    ensures Low(q) in q && forall x :: x in q ==> Low(q) <= x
    ensures WithoutLow(q) == Keep(q, {Low(q)}) && NoRepeats(WithoutLow(q))
  {
    RemoveIsKeep(q, LowIndex(q));
    RemoveNoRepeats(q, LowIndex(q));
  }

  lemma SmallestStep(q: seq<nat>, low: nat, r: seq<nat>, rest: set<nat>, left: seq<nat>)
    requires low in q && (forall x :: x in q ==> low <= x) && r == Keep(q, {low})
    requires left == Keep(r, rest) && (forall x :: x in rest ==> x in r)
    requires forall x, y :: x in rest && y in left ==> x < y
    ensures left == Keep(q, {low} + rest) && low !in rest && (forall x :: x in rest ==> x in q)
    ensures forall x, y :: x in {low} + rest && y in left ==> x < y
  {
    hide Keep;
    KeepKeep(q, {low}, rest);
    assert low !in r by { KeepMember(q, {low}, low); }
    forall x | x in rest ensures x in q { KeepMember(q, {low}, x); }
    forall x, y | x in {low} + rest && y in left ensures x < y {
      KeepMember(r, rest, y);
      KeepMember(q, {low}, y);
    }
  }

  // ------------------------------------------------------ addresses and frames

  /** The stack holds byte addresses of pages; the tables hold frame numbers. */
  function FramesOf(q: seq<nat>): (r: seq<nat>)
    ensures |r| == |q| && forall i :: 0 <= i < |q| ==> r[i] == q[i] / 4096
  {
    seq(|q|, i requires 0 <= i < |q| => q[i] / 4096)
  }

  ghost predicate Aligned(q: seq<nat>) { forall i :: 0 <= i < |q| ==> q[i] % 4096 == 0 }

  /** The lowest page is the same by address and by frame. */
  lemma LowFrames(q: seq<nat>)
    requires q != [] && Aligned(q)
    ensures LowIndex(FramesOf(q)) == LowIndex(q) && Low(FramesOf(q)) == Low(q) / 4096
    ensures WithoutLow(FramesOf(q)) == FramesOf(WithoutLow(q)) && Aligned(WithoutLow(q))
  {
    var i, j, f := LowIndex(q), LowIndex(FramesOf(q)), FramesOf(q);
    forall a, b | 0 <= a < |q| && 0 <= b < |q| ensures (q[a] < q[b] <==> f[a] < f[b]) && (q[a] <= q[b] <==> f[a] <= f[b]) {
      assert q[a] == f[a] * 4096 && q[b] == f[b] * 4096;
    }
    assert i == j;
  }
}
