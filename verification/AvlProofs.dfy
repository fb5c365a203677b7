/**
 What insertion and deletion do to the ordered list, to the heights and to the
 node pointers.
 */
module AvlProofs {
  import opened AvlTree
  import opened Words

  // ------------------------------------------------- rotations and the list

  lemma Regroup<T>(a: seq<T>, x: T, b: seq<T>, z: T, c: seq<T>)
    ensures a + [x] + (b + [z] + c) == (a + [x] + b) + [z] + c
  {
  }

  lemma RotateLeftKeeps<P>(x: Tree<P>)
    requires x.Node? && x.right.Node?
    ensures InOrder(RotateLeft(x)) == InOrder(x)
  {
    var z := x.right;
    Regroup(InOrder(x.left), x.e, InOrder(z.left), z.e, InOrder(z.right));
  }

  lemma RotateRightKeeps<P>(x: Tree<P>)
    requires x.Node? && x.left.Node?
    ensures InOrder(RotateRight(x)) == InOrder(x)
  {
    var z := x.left;
    Regroup(InOrder(z.left), z.e, InOrder(z.right), x.e, InOrder(x.right));
  }

  /** Rebalancing never changes the list, whatever the stored heights are. */
  lemma RebalanceKeeps<P>(t: Tree<P>)
    requires t.Node?
    ensures Rebalance(t).Node?
    ensures InOrder(Rebalance(t)) == InOrder(t.left) + [t.e] + InOrder(t.right)
  {
    if Balance(t) == -2 {
      var l := if Balance(t.left) == 1 then RotateLeft(t.left) else t.left;
      if Balance(t.left) == 1 { RotateLeftKeeps(t.left); }
      RotateRightKeeps(t.(left := l));
    } else if Balance(t) == 2 {
      var r := if Balance(t.right) == -1 then RotateRight(t.right) else t.right;
      if Balance(t.right) == -1 { RotateRightKeeps(t.right); }
      RotateLeftKeeps(t.(right := r));
    }
  }

  ghost predicate AvlTop<P>(t: Tree<P>) {
    t.Node? && t.height == Height(t) && -1 <= Balance(t) <= 1
  }

  /** Rebalancing two AVL subtrees whose ranks differ by at most two gives an AVL tree. */
  lemma RebalanceAvl<P>(t: Tree<P>)
    requires t.Node? && Avl(t.left) && Avl(t.right) && -2 <= Balance(t) <= 2
    ensures Avl(Rebalance(t))
    ensures Height(t) <= Rank(Rebalance(t)) <= Height(t) + 1
    ensures -1 <= Balance(t) <= 1 ==> Rank(Rebalance(t)) == Height(t) + 1
  {
    if Balance(t) == -2 {
      LeftHeavy(t);
    } else if Balance(t) == 2 {
      RightHeavy(t);
    }
  }

  lemma LeftHeavy<P>(t: Tree<P>)
    requires t.Node? && Avl(t.left) && Avl(t.right) && Balance(t) == -2
    ensures Avl(Rebalance(t))
    ensures Height(t) <= Rank(Rebalance(t)) <= Height(t) + 1
  {
    var z := t.left;
    assert AvlTop(z);
    if Balance(z) == 1 {
      var y := z.right;
      assert AvlTop(y);
      var a, b := Fresh(z.e, z.left, y.left), Fresh(t.e, y.right, t.right);
      assert Rebalance(t) == Fresh(y.e, a, b);
      assert AvlTop(a) && AvlTop(b);
    } else {
      var b := Fresh(t.e, z.right, t.right);
      assert Rebalance(t) == Fresh(z.e, z.left, b);
      assert AvlTop(b);
    }
  }

  lemma RightHeavy<P>(t: Tree<P>)
    requires t.Node? && Avl(t.left) && Avl(t.right) && Balance(t) == 2
    ensures Avl(Rebalance(t))
    ensures Height(t) <= Rank(Rebalance(t)) <= Height(t) + 1
  {
    var z := t.right;
    assert AvlTop(z);
    if Balance(z) == -1 {
      var y := z.left;
      assert AvlTop(y);
      var a, b := Fresh(t.e, t.left, y.left), Fresh(z.e, y.right, z.right);
      assert Rebalance(t) == Fresh(y.e, a, b);
      assert AvlTop(a) && AvlTop(b);
    } else {
      var a := Fresh(t.e, t.left, z.left);
      assert Rebalance(t) == Fresh(z.e, a, z.right);
      assert AvlTop(a);
    }
  }

  // -------------------------------------------------------- list operations

  /** Sorted insertion; an entry with the same address is overwritten where it lives. */
  function InsertEntry<P>(s: seq<Entry<P>>, e: Entry<P>): seq<Entry<P>> {
    if s == [] then [e]
    else if e.addr < s[0].addr then [e] + s
    else if e.addr == s[0].addr then [Entry(s[0].ptr, e.addr, e.pages, e.alloc)] + s[1..]
    else [s[0]] + InsertEntry(s[1..], e)
  }

  lemma SortedParts<P>(a: seq<Entry<P>>, x: Entry<P>, b: seq<Entry<P>>)
    requires Sorted(a + [x] + b)
    ensures Sorted(a) && Sorted(b)
    ensures forall i :: 0 <= i < |a| ==> a[i].addr < x.addr
    ensures forall i :: 0 <= i < |b| ==> x.addr < b[i].addr
  {
    var s := a + [x] + b;
    assert forall i :: 0 <= i < |a| ==> s[i] == a[i];
    assert s[|a|] == x;
    assert forall i :: 0 <= i < |b| ==> s[|a| + 1 + i] == b[i];
  }

  lemma {:induction false} InsertBefore<P>(a: seq<Entry<P>>, b: seq<Entry<P>>, e: Entry<P>)
    requires b != [] && e.addr < b[0].addr
    ensures InsertEntry(a + b, e) == InsertEntry(a, e) + b
  {
    if a == [] {
      assert a + b == b;
    } else {
      assert (a + b)[1..] == a[1..] + b;
      InsertBefore(a[1..], b, e);
    }
  }

  lemma {:induction false} InsertAfter<P>(a: seq<Entry<P>>, b: seq<Entry<P>>, e: Entry<P>)
    requires forall i :: 0 <= i < |a| ==> a[i].addr < e.addr
    ensures InsertEntry(a + b, e) == a + InsertEntry(b, e)
  {
    if a == [] {
      assert a + b == b;
    } else {
      assert (a + b)[1..] == a[1..] + b;
      InsertAfter(a[1..], b, e);
    }
  }

  // -------------------------------------------------------------- insertion

  /** The list after `_insert_node` is the old list with the entry put in order. */
  lemma {:induction false} InsertList<P>(t: Tree<P>, p: P, addr: nat, pages: nat)
    requires Sorted(InOrder(t))
    ensures Insert(t, p, addr, pages).Node?
    ensures InOrder(Insert(t, p, addr, pages)) == InsertEntry(InOrder(t), Entry(p, addr, pages, false))
  {
    if t.Node? {
      var e := Entry(p, addr, pages, false);
      var l, r := InOrder(t.left), InOrder(t.right);
      SortedParts(l, t.e, r);
      InsertAround(l, t.e, r, e);
      if addr < t.e.addr {
        InsertList(t.left, p, addr, pages);
        RebalanceKeeps(t.(left := Insert(t.left, p, addr, pages)));
      } else if addr > t.e.addr {
        InsertList(t.right, p, addr, pages);
        RebalanceKeeps(t.(right := Insert(t.right, p, addr, pages)));
      }
    }
  }

  lemma InsertAround<P>(l: seq<Entry<P>>, x: Entry<P>, r: seq<Entry<P>>, e: Entry<P>)
    requires forall i :: 0 <= i < |l| ==> l[i].addr < x.addr
    ensures InsertEntry(l + [x] + r, e) ==
      if e.addr < x.addr then InsertEntry(l, e) + [x] + r
      else if e.addr > x.addr then l + [x] + InsertEntry(r, e)
      else l + [Entry(x.ptr, e.addr, e.pages, e.alloc)] + r
  {
    var b := [x] + r;
    assert l + [x] + r == l + b;
    if e.addr < x.addr {
      InsertBefore(l, b, e);
      assert InsertEntry(l, e) + [x] + r == InsertEntry(l, e) + b;
    } else {
      InsertAfter(l, b, e);
      assert b[1..] == r;
      if e.addr > x.addr {
        assert l + [x] + InsertEntry(r, e) == l + ([x] + InsertEntry(r, e));
      } else {
        var y := [Entry(x.ptr, e.addr, e.pages, e.alloc)];
        assert l + y + r == l + (y + r);
      }
    }
  }

  /** Where sorted insertion puts the entry: everything before it is smaller, everything after
      larger, an equal address is overwritten in place and nothing else changes. */
  lemma InsertSpot<P>(s: seq<Entry<P>>, e: Entry<P>) returns (k: nat)
    requires Sorted(s)
    ensures k <= |s|
    ensures forall i :: 0 <= i < k ==> s[i].addr < e.addr
    ensures forall i :: k <= i < |s| ==> e.addr <= s[i].addr
    ensures InsertEntry(s, e) ==
      if k < |s| && s[k].addr == e.addr then s[k := Entry(s[k].ptr, e.addr, e.pages, e.alloc)]
      else s[..k] + [e] + s[k..]
  {
    k := 0;
    while k < |s| && s[k].addr < e.addr
      invariant k <= |s|
      invariant forall i :: 0 <= i < k ==> s[i].addr < e.addr
    {
      k := k + 1;
    }
    InsertAtSpot(s, e, k);
  }

  lemma InsertAtSpot<P>(s: seq<Entry<P>>, e: Entry<P>, k: nat)
    requires k <= |s|
    requires forall i :: 0 <= i < k ==> s[i].addr < e.addr
    requires k < |s| ==> e.addr <= s[k].addr
    ensures InsertEntry(s, e) ==
      if k < |s| && s[k].addr == e.addr then s[k := Entry(s[k].ptr, e.addr, e.pages, e.alloc)]
      else s[..k] + [e] + s[k..]
  {
    var a, b := s[..k], s[k..];
    SeqParts(s, k);
    InsertAfter(a, b, e);
    if k < |s| && s[k].addr == e.addr {
      SeqReplace(s, k, Entry(s[k].ptr, e.addr, e.pages, e.alloc));
    } else {
      SeqPush(a, e, b);
    }
  }

  lemma SeqParts<T>(s: seq<T>, k: nat)
    requires k <= |s|
    ensures s == s[..k] + s[k..]
    ensures k < |s| ==> s[k..][0] == s[k] && s[k..][1..] == s[k + 1..]
  {
  }

  lemma SeqReplace<T>(s: seq<T>, k: nat, x: T)
    requires k < |s|
    ensures s[..k] + ([x] + s[k + 1..]) == s[k := x]
  {
  }

  lemma SeqPush<T>(a: seq<T>, x: T, b: seq<T>)
    ensures a + ([x] + b) == a + [x] + b
    ensures b == [] ==> a + [x] + b == a + [x]
  {
  }

  lemma InsertEntrySorted<P>(s: seq<Entry<P>>, e: Entry<P>)
    requires Sorted(s)
    ensures Sorted(InsertEntry(s, e))
  {
    var k := InsertSpot(s, e);
  }

  /** `_insert_node` on an AVL tree gives an AVL tree, at most one higher. */
  lemma {:induction false} InsertAvl<P>(t: Tree<P>, p: P, addr: nat, pages: nat)
    requires Avl(t)
    ensures var r := Insert(t, p, addr, pages);
      r.Node? && Avl(r) && Rank(t) <= Rank(r) <= Rank(t) + 1
  {
    if t.Node? {
      if addr < t.e.addr {
        InsertAvl(t.left, p, addr, pages);
        RebalanceAvl(t.(left := Insert(t.left, p, addr, pages)));
      } else if addr > t.e.addr {
        InsertAvl(t.right, p, addr, pages);
        RebalanceAvl(t.(right := Insert(t.right, p, addr, pages)));
      }
    }
  }

  // --------------------------------------------------------------- deletion

  /** The list after entry `i` went away: either its node went, or the node stayed, took over the
      next entry, and the next entry's node went. */
  function Without<P>(s: seq<Entry<P>>, i: nat, moved: bool): seq<Entry<P>>
    requires if moved then i + 1 < |s| else i < |s|
  {
    if moved then s[..i] + [Entry(s[i].ptr, s[i + 1].addr, s[i + 1].pages, s[i + 1].alloc)] + s[i + 2..]
    else s[..i] + s[i + 1..]
  }

  /** `r` is what deletion at `addr` may leave of `s`; `freed` is the node given back. */
  ghost predicate DeletesTo<P>(s: seq<Entry<P>>, r: seq<Entry<P>>, addr: nat, freed: set<P>, i: nat, moved: bool) {
    if i < |s| then
      && s[i].addr == addr && (moved ==> i + 1 < |s|)
      && r == Without(s, i, moved)
      && freed == {if moved then s[i + 1].ptr else s[i].ptr}
    else r == s && freed == {} && forall k :: 0 <= k < |s| ==> s[k].addr != addr
  }

  ghost predicate Deletes<P>(s: seq<Entry<P>>, r: seq<Entry<P>>, addr: nat, freed: set<P>) {
    exists i: nat, moved: bool :: DeletesTo(s, r, addr, freed, i, moved)
  }

  lemma WithoutLeft<P>(a: seq<Entry<P>>, b: seq<Entry<P>>, i: nat, moved: bool)
    requires if moved then i + 1 < |a| else i < |a|
    ensures Without(a + b, i, moved) == Without(a, i, moved) + b
  {
    var k := if moved then i + 2 else i + 1;
    assert (a + b)[..i] == a[..i] && (a + b)[k..] == a[k..] + b;
  }

  lemma WithoutRight<P>(a: seq<Entry<P>>, b: seq<Entry<P>>, i: nat, moved: bool)
    requires if moved then i + 1 < |b| else i < |b|
    ensures Without(a + b, |a| + i, moved) == a + Without(b, i, moved)
  {
    var k := if moved then i + 2 else i + 1;
    assert (a + b)[..|a| + i] == a + b[..i] && (a + b)[|a| + k..] == b[k..];
    assert moved ==> (a + b)[|a| + i] == b[i] && (a + b)[|a| + i + 1] == b[i + 1];
  }

  lemma {:induction false} SpineList<P>(t: Tree<P>)
    requires t.Node?
    ensures InOrder(t) == [SpineMin(t).e] + InOrder(CutSpine(t))
  {
    if t.left.Node? {
      SpineList(t.left);
      var m, c := [SpineMin(t.left).e], InOrder(CutSpine(t.left));
      assert (m + c) + [t.e] + InOrder(t.right) == m + (c + [t.e] + InOrder(t.right));
    }
  }

  lemma DeleteLeft<P>(l: seq<Entry<P>>, x: Entry<P>, r: seq<Entry<P>>, l': seq<Entry<P>>,
                      addr: nat, freed: set<P>, i: nat, moved: bool) returns (k: nat)
    requires Sorted(l + [x] + r) && addr < x.addr && DeletesTo(l, l', addr, freed, i, moved)
    ensures DeletesTo(l + [x] + r, l' + [x] + r, addr, freed, k, moved)
  {
    SortedParts(l, x, r);
    var s, b := l + [x] + r, [x] + r;
    assert s == l + b && l' + [x] + r == l' + b;
    if i < |l| {
      WithoutLeft(l, b, i, moved);
      k := i;
    } else {
      k := |s|;
    }
  }

  lemma DeleteRight<P>(l: seq<Entry<P>>, x: Entry<P>, r: seq<Entry<P>>, r': seq<Entry<P>>,
                       addr: nat, freed: set<P>, i: nat, moved: bool) returns (k: nat)
    requires Sorted(l + [x] + r) && x.addr < addr && DeletesTo(r, r', addr, freed, i, moved)
    ensures DeletesTo(l + [x] + r, l + [x] + r', addr, freed, k, moved)
  {
    var s, a := l + [x] + r, l + [x];
    k := |a| + i;
    if i < |r| {
      WithoutRight(a, r, i, moved);
    } else {
      SortedParts(l, x, r);
      assert forall j :: 0 <= j < |r| ==> s[|a| + j] == r[j];
    }
  }

  /** `_delete_node` removes exactly the entry at `addr`: order and every other interval stay, all
      entries before it keep their node, and one node is given back. Any stored heights will do. */
  lemma {:induction false} DeleteList<P>(t: Tree<P>, addr: nat) returns (i: nat, moved: bool)
    requires Sorted(InOrder(t))
    ensures DeletesTo(InOrder(t), InOrder(Delete(t, addr)), addr, Freed(t, addr), i, moved)
  {
    i, moved := 0, false;
    if t.Node? {
      var l, r := InOrder(t.left), InOrder(t.right);
      SortedParts(l, t.e, r);
      if addr < t.e.addr {
        var k, m := DeleteList(t.left, addr);
        moved := m;
        i := DeleteLeft(l, t.e, r, InOrder(Delete(t.left, addr)), addr, Freed(t.left, addr), k, m);
        RebalanceKeeps(t.(left := Delete(t.left, addr)));
      } else if addr > t.e.addr {
        var k, m := DeleteList(t.right, addr);
        moved := m;
        i := DeleteRight(l, t.e, r, InOrder(Delete(t.right, addr)), addr, Freed(t.right, addr), k, m);
        RebalanceKeeps(t.(right := Delete(t.right, addr)));
      } else {
        i, moved := |l|, t.left.Node? && t.right.Node?;
        DeleteHere(t);
      }
    }
  }

  lemma WithoutMoved<P>(l: seq<Entry<P>>, x: Entry<P>, m: Entry<P>, c: seq<Entry<P>>)
    ensures DeletesTo(l + [x] + ([m] + c), l + [Entry(x.ptr, m.addr, m.pages, m.alloc)] + c,
                      x.addr, {m.ptr}, |l|, true)
  {
    var s := l + [x] + ([m] + c);
    assert s[..|l|] == l && s[|l| + 2..] == c;
  }

  lemma WithoutPlain<P>(l: seq<Entry<P>>, x: Entry<P>, r: seq<Entry<P>>)
    ensures DeletesTo(l + [x] + r, l + r, x.addr, {x.ptr}, |l|, false)
  {
    var s := l + [x] + r;
    assert s[..|l|] == l && s[|l| + 1..] == r;
  }

  lemma DeleteHere<P>(t: Tree<P>)
    requires t.Node?
    ensures DeletesTo(InOrder(t), InOrder(Delete(t, t.e.addr)), t.e.addr, Freed(t, t.e.addr),
                      |InOrder(t.left)|, t.left.Node? && t.right.Node?)
  {
    hide Rebalance, DeletesTo, SpineMin, CutSpine;
    var l, r := InOrder(t.left), InOrder(t.right);
    if t.left.Node? && t.right.Node? {
      SpineList(t.right);
      RebalanceKeeps(TakeOver(t, SpineMin(t.right).e, CutSpine(t.right)));
      WithoutMoved(l, t.e, SpineMin(t.right).e, InOrder(CutSpine(t.right)));
    } else {
      WithoutPlain(l, t.e, r);
      if t.left.Node? {
        RebalanceKeeps(t.left);
        assert l + r == l;
      } else if t.right.Node? {
        RebalanceKeeps(t.right);
        assert l + r == r;
      }
    }
  }

  // ------------------------------------------------ deletion and the balance

  /** The last node on the way to the successor. */
  function SpineParent<P>(t: Tree<P>): Tree<P>
    requires t.Node? && t.left.Node?
    ensures SpineParent(t).Node?
  {
    if t.left.left.Nil? then t else SpineParent(t.left)
  }

  /** The entry at `addr` has two children and its successor lies below its right child. */
  predicate DeepSuccessor<P>(t: Tree<P>, addr: nat) {
    t.Node? &&
    if addr < t.e.addr then DeepSuccessor(t.left, addr)
    else if addr > t.e.addr then DeepSuccessor(t.right, addr)
    else t.left.Node? && t.right.Node? && t.right.left.Node?
  }

  /** In that case: the successor's parent leans to neither side. */
  predicate LevelSpine<P>(t: Tree<P>, addr: nat)
    requires DeepSuccessor(t, addr)
  {
    if addr < t.e.addr then LevelSpine(t.left, addr)
    else if addr > t.e.addr then LevelSpine(t.right, addr)
    else Balance(SpineParent(t.right)) == 0
  }

  /** Without a deep successor, deletion restores exact heights and balance, at most one lower. */
  lemma {:induction false} DeleteAvl<P>(t: Tree<P>, addr: nat)
    requires Avl(t) && !DeepSuccessor(t, addr)
    ensures Avl(Delete(t, addr))
    ensures Rank(t) <= Rank(Delete(t, addr)) + 1 && Rank(Delete(t, addr)) <= Rank(t)
  {
    if t.Node? {
      if addr < t.e.addr {
        DeleteAvl(t.left, addr);
        RebalanceAvl(t.(left := Delete(t.left, addr)));
      } else if addr > t.e.addr {
        DeleteAvl(t.right, addr);
        RebalanceAvl(t.(right := Delete(t.right, addr)));
      } else {
        DeleteAvlHere(t);
      }
    }
  }

  lemma DeleteAvlHere<P>(t: Tree<P>)
    requires t.Node? && Avl(t) && !DeepSuccessor(t, t.e.addr)
    ensures Avl(Delete(t, t.e.addr))
    ensures Rank(t) <= Rank(Delete(t, t.e.addr)) + 1 && Rank(Delete(t, t.e.addr)) <= Rank(t)
  {
    if t.left.Node? && t.right.Node? {
      assert CutSpine(t.right) == t.right.right;
      RebalanceAvl(TakeOver(t, SpineMin(t.right).e, t.right.right));
    } else if t.left.Node? {
      RebalanceAvl(t.left);
    } else if t.right.Node? {
      RebalanceAvl(t.right);
    }
  }

  /** Cutting a spine of two or more nodes leaves the stored height alone, which is right exactly
      when the successor's parent was level. */
  lemma {:induction false} CutSpineAvl<P>(t: Tree<P>)
    requires t.Node? && t.left.Node? && Avl(t)
    ensures CutSpine(t).Node? && CutSpine(t).height == t.height
    ensures Avl(CutSpine(t)) <==> Balance(SpineParent(t)) == 0
  {
    if t.left.left.Node? {
      CutSpineAvl(t.left);
    } else {
      var m := t.left;
      assert Avl(m) && Avl(m.right);
      assert m.height == Rank(m.right) <= 1;
      assert CutSpine(t) == t.(left := m.right);
    }
  }

  /** With a deep successor no stored height changes anywhere, so nothing rotates, and the result
      is an AVL tree if and only if the successor's parent was level. */
  lemma {:induction false} DeleteDeep<P>(t: Tree<P>, addr: nat)
    requires Avl(t) && DeepSuccessor(t, addr)
    ensures Delete(t, addr).Node? && Delete(t, addr).height == t.height
    ensures Avl(Delete(t, addr)) <==> LevelSpine(t, addr)
  {
    if addr < t.e.addr {
      DeleteDeep(t.left, addr);
    } else if addr > t.e.addr {
      DeleteDeep(t.right, addr);
    } else {
      CutSpineAvl(t.right);
    }
  }

  /** Exactly when deletion restores the AVL invariant. */
  lemma DeleteAvlIff<P>(t: Tree<P>, addr: nat)
    requires Avl(t)
    ensures Avl(Delete(t, addr)) <==> (DeepSuccessor(t, addr) ==> LevelSpine(t, addr))
  {
    if DeepSuccessor(t, addr) { DeleteDeep(t, addr); } else { DeleteAvl(t, addr); }
  }

  // ------------------------------------------------- deletion as it is coded

  /** The entry at `addr` has two children and the right one is a leaf. */
  predicate LeafSuccessor<P>(t: Tree<P>, addr: nat) {
    t.Node? &&
    if addr < t.e.addr then LeafSuccessor(t.left, addr)
    else if addr > t.e.addr then LeafSuccessor(t.right, addr)
    else t.left.Node? && t.right.Node? && t.right.left.Nil? && t.right.right.Nil?
  }

  lemma {:induction false} AsWrittenLength<P>(t: Tree<P>, addr: nat)
    ensures LeafSuccessor(t, addr) ==> |InOrder(DeleteAsWritten(t, addr))| == |InOrder(t)|
    ensures !LeafSuccessor(t, addr) ==> DeleteAsWritten(t, addr) == Delete(t, addr)
  {
    if t.Node? {
      if addr < t.e.addr {
        AsWrittenLength(t.left, addr);
        RebalanceKeeps(t.(left := DeleteAsWritten(t.left, addr)));
      } else if addr > t.e.addr {
        AsWrittenLength(t.right, addr);
        RebalanceKeeps(t.(right := DeleteAsWritten(t.right, addr)));
      } else if LeafSuccessor(t, addr) {
        RebalanceKeeps(TakeOver(t, t.right.e, t.right));
      }
    }
  }

  /** The code as written deletes properly if and only if the successor is not a leaf right child;
      otherwise the freed node stays linked and its interval is listed twice. */
  lemma DeleteAsWrittenIff<P>(t: Tree<P>, addr: nat)
    requires Sorted(InOrder(t))
    ensures Deletes(InOrder(t), InOrder(DeleteAsWritten(t, addr)), addr, Freed(t, addr))
      <==> !LeafSuccessor(t, addr)
  {
    AsWrittenLength(t, addr);
    var i, moved := DeleteList(t, addr);
    if LeafSuccessor(t, addr) {
      FreedSomething(t, addr);
      var s, r := InOrder(t), InOrder(DeleteAsWritten(t, addr));
      forall i: nat, moved: bool ensures !DeletesTo(s, r, addr, Freed(t, addr), i, moved) {
        assert i < |s| && (moved ==> i + 1 < |s|) ==> |Without(s, i, moved)| == |s| - 1;
      }
    }
  }

  lemma {:induction false} FreedSomething<P>(t: Tree<P>, addr: nat)
    requires LeafSuccessor(t, addr)
    ensures Freed(t, addr) != {}
  {
    if addr < t.e.addr { FreedSomething(t.left, addr); }
    else if addr > t.e.addr { FreedSomething(t.right, addr); }
  }

  // ---------------------------------------------------------- machine widths

  lemma {:induction false} Pow2Monotone(a: nat, b: nat)
    requires a <= b
    ensures Pow2(a) <= Pow2(b)
  {
    if a < b { Pow2Monotone(a, b - 1); }
  }

  /** Logarithmic height: an AVL tree of height h has at least 2^((h+1)/2) nodes. */
  lemma {:induction false} AvlIsFlat<P>(t: Tree<P>)
    requires t.Node? && Avl(t)
    ensures Count(t) >= Pow2((t.height + 1) / 2)
    decreases t
  {
    if t.height >= 2 {
      assert t.left.Node? && t.right.Node?;
      AvlIsFlat(t.left);
      AvlIsFlat(t.right);
      var h := t.height - 2;
      assert (t.height + 1) / 2 == (h + 1) / 2 + 1;
      Pow2Monotone((h + 1) / 2, (t.left.height + 1) / 2);
      Pow2Monotone((h + 1) / 2, (t.right.height + 1) / 2);
    } else if t.height == 1 {
      assert t.left.Node? || t.right.Node?;
      assert Pow2(1) == 2;
    }
  }

  lemma {:induction false} CountList<P>(t: Tree<P>)
    ensures Count(t) == |InOrder(t)|
  {
    if t.Node? { CountList(t.left); CountList(t.right); }
  }

  lemma {:induction false} SortedSpread<P>(s: seq<Entry<P>>, n: nat)
    requires Sorted(s) && n < |s|
    ensures s[n].addr >= n
  {
    if n > 0 { SortedSpread(s, n - 1); }
  }

  /** With 64-bit addresses no height of a valid tree exceeds 128: neither the 16-bit height field
      nor the 8-bit balance can wrap in it. */
  lemma AvlFitsWidths<P>(t: Tree<P>)
    requires t.Node? && Avl(t) && Sorted(InOrder(t))
    requires forall e :: e in InOrder(t) ==> e.addr < Pow2(64)
    ensures t.height <= 128
  {
    AvlIsFlat(t);
    CountList(t);
    var s := InOrder(t);
    assert |s| > 0;
    SortedSpread(s, |s| - 1);
    assert s[|s| - 1] in s;
    assert Pow2(65) == 2 * Pow2(64);
    if t.height > 128 { Pow2Monotone(65, (t.height + 1) / 2); }
  }

  /** Conversion to the 8-bit type in which `balance` returns its result. */
  function Int8(x: int): int {
    var m := x % 0x100;
    if m < 0x80 then m else m - 0x100
  }

  /** The 8-bit balance selects the same branches as the mathematical one while ranks are below
      254, and at 254 it rotates through a missing child. */
  lemma BalanceFitsInt8<P>(t: Tree<P>)
    requires t.Node?
    ensures Rank(t.left) < 254 && Rank(t.right) < 254 ==>
      (Int8(Balance(t)) == 2 <==> Balance(t) == 2) && (Int8(Balance(t)) == -2 <==> Balance(t) == -2)
    ensures t.left.Nil? && Rank(t.right) == 254 ==> Int8(Balance(t)) == -2
    ensures t.right.Nil? && Rank(t.left) == 254 ==> Int8(Balance(t)) == 2
  {
  }
}
