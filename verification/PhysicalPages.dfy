/**
 The free-page stack of kernel/system/mem_mgmt/pmm.c as it runs: an array and an
 index. Every method does to the stack what the functions of `PageTables` and
 `LowPages` do to its value.
 */
module PhysicalPages {
  import opened LowPages

  /** `_free_pages` and `_free_index`: a stack in a buffer of fixed size. */
  class Pmm {
    var pages: array<nat>
    var index: nat

    ghost predicate Valid()
      reads this
    {
      index <= pages.Length
    }

    ghost function Stack(): seq<nat>
      requires Valid()
      reads this, pages
    {
      pages[..index]
    }

    constructor (buffer: array<nat>)
      ensures Valid() && pages == buffer && Stack() == []
    {
      pages, index := buffer, 0;
    }

    /** `pmm_alloc_page`: zero when there is no page. */
    method AllocPage() returns (x: nat)
      requires Valid()
      modifies this`index
      ensures Valid()
      ensures old(Stack()) == [] ==> x == 0 && Stack() == []
      ensures old(Stack()) != [] ==> old(Stack()) == Stack() + [x]
      ensures 0 !in old(Stack()) ==> (x == 0 <==> old(Stack()) == [])
    {
      if index > 0 {
        index := index - 1;
        x := pages[index];
      } else {
        x := 0;
      }
    }

    /** `pmm_free_page`: the buffer must have room, which the kernel does not check. */
    method FreePage(x: nat)
      requires Valid() && index < pages.Length
      modifies this`index, pages
      ensures Valid() && Stack() == old(Stack()) + [x]
    {
      pages[index] := x;
      index := index + 1;
    }

    /** `_get_low_page`: finds the lowest page and closes the gap it leaves. */
    method TakeLowest() returns (x: nat)
      requires Valid() && index > 0
      modifies this`index, pages
      ensures Valid() && x == Low(old(Stack())) && Stack() == WithoutLow(old(Stack()))
    {
      var low := FindLowest();
      x := pages[low];
      CloseGap(low);
    }

    method FindLowest() returns (low: nat)
      requires Valid() && index > 0
      ensures low == LowIndex(Stack())
    {
      low := 0;
      var i := 0;
      while i < index
        invariant 0 <= i <= index && low < index && (i == 0 ==> low == 0)
        invariant forall k :: 0 <= k < i ==> pages[low] <= pages[k]
        invariant forall k :: 0 <= k < low ==> pages[low] < pages[k]
      {
        if pages[i] < pages[low] { low := i; }
        i := i + 1;
      }
      OnlyLow(Stack(), low);
    }

    method CloseGap(low: nat)
      requires Valid() && low < index
      modifies this`index, pages
      ensures Valid() && Stack() == RemoveAt(old(Stack()), low)
    {
      ghost var q := Stack();
      var i := low + 1;
      while i < index
        invariant low < i <= index && index == old(index)
        invariant forall k :: 0 <= k < low ==> pages[k] == q[k]
        invariant forall k :: low <= k < i - 1 ==> pages[k] == q[k + 1]
        invariant forall k :: i <= k < index ==> pages[k] == q[k]
      {
        pages[i - 1] := pages[i];
        i := i + 1;
      }
      index := index - 1;
    }

    static lemma OnlyLow(q: seq<nat>, i: nat)
      requires i < |q| && (forall k :: 0 <= k < |q| ==> q[i] <= q[k]) && (forall k :: 0 <= k < i ==> q[i] < q[k])
      ensures i == LowIndex(q)
    {
    }
  }
}
