/**
 Reading the multiple APIC description table in kernel/system/apic/apic.c, from
 decoded records (section 5.2.12 of the ACPI specification). Fields the source
 leaves uninitialised are absent here.
 */
module Madt {
  datatype Option<T> = None | Some(value: T)

  datatype Mode = Legacy | X2Apic

  /** What a local APIC record says of a processor. */
  datatype Ident = Ident(id: nat, mode: Mode, enabled: bool, onlineCapable: bool)

  /** Where an NMI is connected; one bit is kept of the pin number. */
  datatype Nmi = Nmi(lint: nat, polarity: nat, trigger: nat)

  /** An element of the list of processors. */
  datatype Lapic = Lapic(uid: nat, ident: Option<Ident>, nmi: Option<Nmi>)

  datatype Record =
    | LapicRecord(uid: nat, ident: Ident)
    | NmiRecord(uid: nat, polarity: nat, trigger: nat, lintNo: nat)
    | AddressRecord(addr: nat)
    | OtherRecord

  datatype Info = Info(lapics: seq<Lapic>, globalNmi: Option<Nmi>, address: nat)

  /** The processor number that stands for all of them. */
  const ALL := 0xff

  function NmiOf(r: Record): Nmi
    requires r.NmiRecord?
  {
    Nmi(r.lintNo % 2, r.polarity, r.trigger)
  }

  // ------------------------------------------------------------------ folding

  /** The first element for a processor, or the length of the list. */
  function Find(l: seq<Lapic>, uid: nat): (k: nat)
    ensures k <= |l| && (k < |l| ==> l[k].uid == uid) && (forall j :: 0 <= j < k ==> l[j].uid != uid)
  {
    if l == [] then 0
    else if l[0].uid == uid then 0
    else
      var k := Find(l[1..], uid);
      assert forall j :: 0 < j < k + 1 ==> l[j] == l[1..][j - 1];
      k + 1
  }

  /** `_register_lapic`. */
  function Register(l: seq<Lapic>, uid: nat, ident: Ident): seq<Lapic> {
    var k := Find(l, uid);
    if k < |l| then l[k := l[k].(ident := Some(ident))] else [Lapic(uid, Some(ident), None)] + l
  }

  /** `_set_lapic_nmi_lint` for a single processor. */
  function Connect(l: seq<Lapic>, uid: nat, nmi: Nmi): seq<Lapic> {
    var k := Find(l, uid);
    if k < |l| then l[k := l[k].(nmi := Some(nmi))] else [Lapic(uid, None, Some(nmi))] + l
  }

  /** One turn of the loop of `apic_parse_madt`. */
  function Step(st: Info, r: Record): Info {
    match r
    case LapicRecord(uid, ident) => st.(lapics := Register(st.lapics, uid, ident))
    case NmiRecord(uid, _, _, _) =>
      if uid == ALL then st.(globalNmi := Some(NmiOf(r))) else st.(lapics := Connect(st.lapics, uid, NmiOf(r)))
    case AddressRecord(addr) => st.(address := addr)
    case OtherRecord => st
  }

  /** The loop, over the first `n` records. */
  function Fold(st: Info, rs: seq<Record>, n: nat): Info
    requires n <= |rs|
  {
    if n == 0 then st else Step(Fold(st, rs, n - 1), rs[n - 1])
  }

  function Overridden(l: seq<Lapic>, nmi: Nmi): (r: seq<Lapic>)
    ensures |r| == |l| && forall k :: 0 <= k < |l| ==> r[k] == l[k].(nmi := Some(nmi))
  {
    if l == [] then [] else [l[0].(nmi := Some(nmi))] + Overridden(l[1..], nmi)
  }

  /** `apic_parse_madt`. */
  function Parse(address: nat, rs: seq<Record>): Info {
    var st := Fold(Info([], None, address), rs, |rs|);
    if st.globalNmi.Some? then st.(lapics := Overridden(st.lapics, st.globalNmi.value)) else st
  }

  // ------------------------------------------------------------ specification

  /** The last local APIC record of a processor. */
  function LastIdent(rs: seq<Record>, n: nat, uid: nat): Option<Ident>
    requires n <= |rs|
  {
    if n == 0 then None
    else if rs[n - 1].LapicRecord? && rs[n - 1].uid == uid then Some(rs[n - 1].ident)
    else LastIdent(rs, n - 1, uid)
  }

  /** The last NMI record of a processor, or of all of them. */
  function LastNmi(rs: seq<Record>, n: nat, uid: nat): Option<Nmi>
    requires n <= |rs|
  {
    if n == 0 then None
    else if rs[n - 1].NmiRecord? && rs[n - 1].uid == uid then Some(NmiOf(rs[n - 1]))
    else LastNmi(rs, n - 1, uid)
  }

  /** What should be known of a processor: its last local APIC record, and its last NMI record unless
      there is one for all processors. */
  function Expected(rs: seq<Record>, uid: nat): Option<Lapic> {
    var ident, own, all := LastIdent(rs, |rs|, uid), LastNmi(rs, |rs|, uid), LastNmi(rs, |rs|, ALL);
    if ident.None? && (own.None? || uid == ALL) then None
    else Some(Lapic(uid, ident, if all.Some? then all else own))
  }

  ghost predicate Unique(l: seq<Lapic>) { forall i, j :: 0 <= i < j < |l| ==> l[i].uid != l[j].uid }

  /** The list read as a map from processor numbers. */
  function Get(l: seq<Lapic>, uid: nat): Option<Lapic> { if Find(l, uid) < |l| then Some(l[Find(l, uid)]) else None }

  lemma FindIs(l: seq<Lapic>, uid: nat, k: nat)
    requires Unique(l) && k < |l| && l[k].uid == uid
    ensures Find(l, uid) == k
  {
  }

  lemma FindNone(l: seq<Lapic>, uid: nat)
    requires forall k :: 0 <= k < |l| ==> l[k].uid != uid
    ensures Find(l, uid) == |l|
  {
  }

  /** Replacing or prepending one element changes the map at its processor only. */
  lemma Put(l: seq<Lapic>, x: Lapic, uid: nat)
    requires Unique(l)
    ensures var k := Find(l, x.uid);
      var l' := if k < |l| then l[k := x] else [x] + l;
      Unique(l') && Get(l', uid) == (if uid == x.uid then Some(x) else Get(l, uid))
  {
    var k, j := Find(l, x.uid), Find(l, uid);
    var l' := if k < |l| then l[k := x] else [x] + l;
    assert Unique(l');
    if uid == x.uid {
      FindIs(l', uid, if k < |l| then k else 0);
    } else if j < |l| {
      FindIs(l', uid, if k < |l| then j else j + 1);
    } else {
      FindNone(l', uid);
    }
  }

  /** State of the list after `n` records. */
  function SoFar(rs: seq<Record>, n: nat, uid: nat): Option<Lapic>
    requires n <= |rs|
  {
    var ident, own := LastIdent(rs, n, uid), if uid == ALL then None else LastNmi(rs, n, uid);
    if ident.None? && own.None? then None else Some(Lapic(uid, ident, own))
  }

  /** After any number of records the list has each processor once and agrees with the map. */
  lemma {:induction false} FoldIs(address: nat, rs: seq<Record>, n: nat, uid: nat)
    requires n <= |rs|
    ensures var st := Fold(Info([], None, address), rs, n);
      Unique(st.lapics) && Get(st.lapics, uid) == SoFar(rs, n, uid) && st.globalNmi == LastNmi(rs, n, ALL)
  {
    hide Find, Unique, Register, Connect;
    if n == 0 {
      assert Unique([]) by { UniqueNone(); }
    } else {
      FoldIs(address, rs, n - 1, uid);
      var st, r := Fold(Info([], None, address), rs, n - 1), rs[n - 1];
      if r.LapicRecord? || (r.NmiRecord? && r.uid != ALL) {
        FoldIs(address, rs, n - 1, r.uid);
        StepIs(st, r, uid);
      }
    }
  }

  /** One record changes what is known of its own processor only. */
  lemma StepIs(st: Info, r: Record, uid: nat)
    requires Unique(st.lapics) && (r.LapicRecord? || (r.NmiRecord? && r.uid != ALL))
    ensures var l := Step(st, r).lapics;
      var was := if Get(st.lapics, r.uid).Some? then Get(st.lapics, r.uid).value else Lapic(r.uid, None, None);
      var now := if r.LapicRecord? then was.(ident := Some(r.ident)) else was.(nmi := Some(NmiOf(r)));
      Unique(l) && Get(l, uid) == if uid == r.uid then Some(now) else Get(st.lapics, uid)
  {
    hide Unique;
    var was := if Get(st.lapics, r.uid).Some? then Get(st.lapics, r.uid).value else Lapic(r.uid, None, None);
    Put(st.lapics, if r.LapicRecord? then was.(ident := Some(r.ident)) else was.(nmi := Some(NmiOf(r))), uid);
  }

  lemma UniqueNone()
    ensures Unique([])
  {
  }

  lemma OverriddenIs(l: seq<Lapic>, nmi: Nmi, uid: nat)
    requires Unique(l)
    ensures var l' := Overridden(l, nmi);
      Unique(l') && Get(l', uid) == (if Get(l, uid).Some? then Some(Get(l, uid).value.(nmi := Some(nmi))) else None)
  {
    var l', k := Overridden(l, nmi), Find(l, uid);
    if k < |l| { FindIs(l', uid, k); } else { FindNone(l', uid); }
  }

  /** Parsing, the main result: whatever the records, the list has each processor once and says of
      each what its last records say, a global NMI before any other. */
  lemma ParseIs(address: nat, rs: seq<Record>, uid: nat)
    ensures var l := Parse(address, rs).lapics; Unique(l) && Get(l, uid) == Expected(rs, uid)
  {
    hide Find, Unique, Get, Overridden;
    FoldIs(address, rs, |rs|, uid);
    var st := Fold(Info([], None, address), rs, |rs|);
    if st.globalNmi.Some? { OverriddenIs(st.lapics, st.globalNmi.value, uid); }
    NoOwnForAll(rs, uid);
  }

  lemma NoOwnForAll(rs: seq<Record>, uid: nat)
    ensures var all := LastNmi(rs, |rs|, ALL);
      Expected(rs, uid) ==
        if SoFar(rs, |rs|, uid).None? then None
        else Some(SoFar(rs, |rs|, uid).value.(nmi := if all.Some? then all else SoFar(rs, |rs|, uid).value.nmi))
  {
  }

  // ------------------------------------------------------------- interleaving

  /** The records of one kind, in order. */
  function Lapics(rs: seq<Record>): seq<Record> {
    if rs == [] then [] else (if rs[0].LapicRecord? then [rs[0]] else []) + Lapics(rs[1..])
  }

  function Nmis(rs: seq<Record>): seq<Record> {
    if rs == [] then [] else (if rs[0].NmiRecord? then [rs[0]] else []) + Nmis(rs[1..])
  }

  lemma {:induction false} Append(rs: seq<Record>, r: Record)
    ensures Lapics(rs + [r]) == Lapics(rs) + (if r.LapicRecord? then [r] else [])
    ensures Nmis(rs + [r]) == Nmis(rs) + (if r.NmiRecord? then [r] else [])
    decreases |rs|
  {
    if rs != [] {
      assert (rs + [r])[1..] == rs[1..] + [r];
      Append(rs[1..], r);
    }
  }

  lemma {:induction false} IdentOnly(rs: seq<Record>, n: nat, uid: nat)
    requires n <= |rs|
    ensures LastIdent(rs, n, uid) == LastIdent(Lapics(rs[..n]), |Lapics(rs[..n])|, uid)
  {
    if n > 0 {
      IdentOnly(rs, n - 1, uid);
      assert rs[..n] == rs[..n - 1] + [rs[n - 1]];
      Append(rs[..n - 1], rs[n - 1]);
      IdentPrefix(Lapics(rs[..n - 1]), Lapics(rs[..n]), |Lapics(rs[..n - 1])|, uid);
    }
  }

  lemma {:induction false} IdentPrefix(a: seq<Record>, b: seq<Record>, n: nat, uid: nat)
    requires n <= |a| && n <= |b| && a[..n] == b[..n]
    ensures LastIdent(a, n, uid) == LastIdent(b, n, uid)
  {
    if n > 0 {
      assert a[n - 1] == a[..n][n - 1] == b[..n][n - 1] == b[n - 1];
      assert a[..n - 1] == a[..n][..n - 1] == b[..n][..n - 1] == b[..n - 1];
      IdentPrefix(a, b, n - 1, uid);
    }
  }

  lemma {:induction false} NmiOnly(rs: seq<Record>, n: nat, uid: nat)
    requires n <= |rs|
    ensures LastNmi(rs, n, uid) == LastNmi(Nmis(rs[..n]), |Nmis(rs[..n])|, uid)
  {
    if n > 0 {
      NmiOnly(rs, n - 1, uid);
      assert rs[..n] == rs[..n - 1] + [rs[n - 1]];
      Append(rs[..n - 1], rs[n - 1]);
      NmiPrefix(Nmis(rs[..n - 1]), Nmis(rs[..n]), |Nmis(rs[..n - 1])|, uid);
    }
  }

  lemma {:induction false} NmiPrefix(a: seq<Record>, b: seq<Record>, n: nat, uid: nat)
    requires n <= |a| && n <= |b| && a[..n] == b[..n]
    ensures LastNmi(a, n, uid) == LastNmi(b, n, uid)
  {
    if n > 0 {
      assert a[n - 1] == a[..n][n - 1] == b[..n][n - 1] == b[n - 1];
      assert a[..n - 1] == a[..n][..n - 1] == b[..n][..n - 1] == b[..n - 1];
      NmiPrefix(a, b, n - 1, uid);
    }
  }

  /** Two tables with the same local APIC records in the same order and the same NMI records in the
      same order, however the two are mixed, say the same of every processor. */
  lemma MixingIsFree(a: nat, rs: seq<Record>, b: nat, qs: seq<Record>, uid: nat)
    requires Lapics(rs) == Lapics(qs) && Nmis(rs) == Nmis(qs)
    ensures Get(Parse(a, rs).lapics, uid) == Get(Parse(b, qs).lapics, uid)
  {
    hide Get, Parse, LastIdent, LastNmi, Lapics, Nmis;
    assert rs[..|rs|] == rs && qs[..|qs|] == qs;
    ParseIs(a, rs, uid);
    ParseIs(b, qs, uid);
    IdentOnly(rs, |rs|, uid);
    IdentOnly(qs, |qs|, uid);
    NmiOnly(rs, |rs|, uid);
    NmiOnly(qs, |qs|, uid);
    NmiOnly(rs, |rs|, ALL);
    NmiOnly(qs, |qs|, ALL);
  }

  // ------------------------------------------------------------------ the walk

  /** Where the walk over the table's bytes is after `n` steps: the second byte of each entry is its
      length. */
  function Position(mem: seq<nat>, start: nat, end: nat, n: nat): nat
    requires end < |mem|
  {
    if n == 0 then start
    else
      var p := Position(mem, start, end, n - 1);
      if p < end then p + mem[p + 1] else p
  }

  ghost predicate Ends(mem: seq<nat>, start: nat, end: nat)
    requires end < |mem|
  {
    exists n: nat :: Position(mem, start, end, n) >= end
  }

  ghost predicate AllPositive(mem: seq<nat>, start: nat, end: nat)
    requires end < |mem|
  {
    forall n: nat :: Position(mem, start, end, n) < end ==> mem[Position(mem, start, end, n) + 1] > 0
  }

  lemma {:induction false} Advances(mem: seq<nat>, start: nat, end: nat, n: nat)
    requires end < |mem| && AllPositive(mem, start, end)
    ensures Position(mem, start, end, n) >= end || Position(mem, start, end, n) >= start + n
  {
    if n > 0 { Advances(mem, start, end, n - 1); }
  }

  lemma {:induction false} Stuck(mem: seq<nat>, start: nat, end: nat, n: nat, m: nat)
    requires end < |mem| && Position(mem, start, end, n) < end && mem[Position(mem, start, end, n) + 1] == 0 && n <= m
    ensures Position(mem, start, end, m) == Position(mem, start, end, n)
    decreases m
  {
    if m > n { Stuck(mem, start, end, n, m - 1); }
  }

  lemma {:induction false} NeverBack(mem: seq<nat>, start: nat, end: nat, n: nat, m: nat)
    requires end < |mem| && n <= m
    ensures Position(mem, start, end, n) <= Position(mem, start, end, m)
    decreases m
  {
    if m > n { NeverBack(mem, start, end, n, m - 1); }
  }

  /** The walk ends if and only if every entry it comes to has a positive length. */
  lemma WalkEndsIff(mem: seq<nat>, start: nat, end: nat)
    requires end < |mem|
    ensures Ends(mem, start, end) <==> AllPositive(mem, start, end)
  {
    if AllPositive(mem, start, end) {
      var n := if start < end then end - start else 0;
      Advances(mem, start, end, n);
      assert Position(mem, start, end, n) >= end;
    }
    if Ends(mem, start, end) && !AllPositive(mem, start, end) {
      var n: nat :| Position(mem, start, end, n) >= end;
      var k: nat :| Position(mem, start, end, k) < end && mem[Position(mem, start, end, k) + 1] == 0;
      if k <= n { Stuck(mem, start, end, k, n); } else { NeverBack(mem, start, end, n, k); }
    }
  }

  // ----------------------------------------------------------------- program

  class ApicInfo {
    var lapics: seq<Lapic>
    var globalNmi: Option<Nmi>
    var address: nat

    ghost function State(): Info
      reads this
    {
      Info(lapics, globalNmi, address)
    }

    constructor ()
      ensures State() == Info([], None, 0)
    {
      lapics, globalNmi, address := [], None, 0;
    }

    method Search(uid: nat) returns (k: nat)
      ensures k == Find(lapics, uid)
    {
      k := 0;
      while k < |lapics|
        invariant 0 <= k <= |lapics| && forall j :: 0 <= j < k ==> lapics[j].uid != uid
      {
        if lapics[k].uid == uid {
          return;
        }
        k := k + 1;
      }
    }

    /** `_register_lapic`. */
    method RegisterLapic(uid: nat, ident: Ident)
      modifies this`lapics
      ensures lapics == Register(old(lapics), uid, ident)
    {
      var k := Search(uid);
      if k < |lapics| {
        lapics := lapics[k := lapics[k].(ident := Some(ident))];
      } else {
        lapics := [Lapic(uid, Some(ident), None)] + lapics;
      }
    }

    /** `_set_lapic_nmi_lint`. */
    method SetNmi(uid: nat, polarity: nat, trigger: nat, lintNo: nat)
      modifies this
      ensures State() == Step(old(State()), NmiRecord(uid, polarity, trigger, lintNo))
    {
      var nmi := Nmi(lintNo % 2, polarity, trigger);
      if uid == ALL {
        globalNmi := Some(nmi);
        return;
      }
      var k := Search(uid);
      if k < |lapics| {
        lapics := lapics[k := lapics[k].(nmi := Some(nmi))];
      } else {
        lapics := [Lapic(uid, None, Some(nmi))] + lapics;
      }
    }

    /** The last loop: one NMI for every processor in the list. */
    method ApplyGlobal(nmi: Nmi)
      modifies this`lapics
      ensures lapics == Overridden(old(lapics), nmi)
    {
      var k := 0;
      while k < |lapics|
        invariant 0 <= k <= |lapics| == |old(lapics)|
        invariant forall j :: 0 <= j < k ==> lapics[j] == old(lapics)[j].(nmi := Some(nmi))
        invariant forall j :: k <= j < |lapics| ==> lapics[j] == old(lapics)[j]
      {
        lapics := lapics[k := lapics[k].(nmi := Some(nmi))];
        k := k + 1;
      }
    }

    /** `apic_parse_madt` on a fresh list. */
    method ParseMadt(madtAddress: nat, rs: seq<Record>)
      requires lapics == [] && globalNmi == None
      modifies this
      ensures State() == Parse(madtAddress, rs)
    {
      address := madtAddress;
      var i := 0;
      while i < |rs|
        invariant 0 <= i <= |rs| && State() == Fold(Info([], None, madtAddress), rs, i)
      {
        match rs[i] {
          case LapicRecord(uid, ident) => RegisterLapic(uid, ident);
          case NmiRecord(uid, polarity, trigger, lintNo) => SetNmi(uid, polarity, trigger, lintNo);
          case AddressRecord(addr) => address := addr;
          case OtherRecord =>
        }
        i := i + 1;
      }
      if globalNmi.Some? {
        ApplyGlobal(globalNmi.value);
      }
    }
  }
}
