/**
 The growable descriptor table of kernel/system/gdt/gdt.c. Descriptors are laid
 out as in section 3.4.5 of the Intel SDM Volume 3A.
 */
module Gdt {
  import opened ByteMemory

  const ENTRY_SIZE := 8

  /** What a caller asks for; base and limit are 64-bit numbers. */
  datatype Entry = Entry(base: nat, limit: nat, kind: byte, code64: bool)

  // ---------------------------------------------------------------- encoding

  /** The entry is refused when its limit is neither small nor a whole number of pages. */
  predicate Accepted(e: Entry) { e.limit <= 65536 || e.limit % 0x1000 == 0xfff }

  /** The limit as stored: in bytes, or in pages above 65536. */
  function Stored(e: Entry): nat { if e.limit > 65536 then e.limit / 0x1000 else e.limit }

  /** Flags and upper limit bits; the parts use different bits, so adding them is ORing them. */
  function Sixth(e: Entry): byte {
    (if e.code64 then 0x20 else 0) + (if e.limit > 65536 then 0x80 else 0) + Stored(e) / 0x1_0000 % 16
  }

  function Encode(e: Entry): (b: seq<byte>)
    ensures |b| == ENTRY_SIZE
  {
    [Stored(e) % 256, Stored(e) / 256 % 256, e.base % 256, e.base / 256 % 256, e.base / 0x1_0000 % 256,
     e.kind, Sixth(e), e.base / 0x100_0000 % 256]
  }

  /** A descriptor as the processor reads it. */
  function Decode(b: seq<nat>): Entry
    requires |b| == ENTRY_SIZE && b[5] < 256
  {
    var raw := b[0] + b[1] * 256 + b[6] % 16 * 0x1_0000;
    Entry(b[2] + b[3] * 256 + b[4] * 0x1_0000 + b[7] * 0x100_0000,
          if b[6] / 0x80 % 2 == 1 then raw * 0x1000 + 0xfff else raw,
          b[5],
          b[6] / 0x20 % 2 == 1)
  }

  lemma FourBytes(x: nat)
    ensures x % 256 + x / 256 % 256 * 256 + x / 0x1_0000 % 256 * 0x1_0000 + x / 0x100_0000 % 256 * 0x100_0000 == x % 0x1_0000_0000
  {
    var a, b, c := x / 256, x / 0x1_0000, x / 0x100_0000;
    assert a / 256 == b && b / 256 == c;
    assert x == a * 256 + x % 256 && a == b * 256 + a % 256 && b == c * 256 + b % 256;
    assert c == c / 256 * 256 + c % 256;
    assert x / 0x1_0000_0000 == c / 256;
  }

  lemma TwentyBits(x: nat)
    ensures x % 256 + x / 256 % 256 * 256 + x / 0x1_0000 % 16 * 0x1_0000 == x % 0x10_0000
  {
    var a, b := x / 256, x / 0x1_0000;
    assert a / 256 == b;
    assert x == a * 256 + x % 256 && a == b * 256 + a % 256;
    assert b == b / 16 * 16 + b % 16;
    assert x / 0x10_0000 == b / 16;
  }

  lemma SixthParts(e: Entry)
    ensures Sixth(e) % 16 == Stored(e) / 0x1_0000 % 16
    ensures Sixth(e) / 0x80 % 2 == 1 <==> e.limit > 65536
    ensures Sixth(e) / 0x20 % 2 == 1 <==> e.code64
  {
  }

  lemma PageLimit(l: nat)
    requires l % 0x1000 == 0xfff
    ensures l / 0x1000 % 0x10_0000 * 0x1000 + 0xfff == l % 0x1_0000_0000
  {
    var p := l / 0x1000;
    assert l == p * 0x1000 + 0xfff && p == p / 0x10_0000 * 0x10_0000 + p % 0x10_0000;
    assert l / 0x1_0000_0000 == p / 0x10_0000;
  }

  /** What a stored descriptor reads as: everything asked for, base and limit modulo 2^32. */
  lemma DecodeEncode(e: Entry)
    requires Accepted(e)
    ensures Decode(Encode(e)) == e.(base := e.base % 0x1_0000_0000, limit := e.limit % 0x1_0000_0000)
  {
    FourBytes(e.base);
    TwentyBits(Stored(e));
    SixthParts(e);
    hide Sixth;
    if e.limit > 65536 { PageLimit(e.limit); }
  }

  /** A descriptor reads back as asked for if and only if base and limit are below 2^32. */
  lemma RoundTripIff(e: Entry)
    requires Accepted(e)
    ensures Decode(Encode(e)) == e <==> e.base < 0x1_0000_0000 && e.limit < 0x1_0000_0000
  {
    DecodeEncode(e);
  }

  /** The TSS of a processor is allocated in the upper half of the address space; its descriptor
      loses the upper half of the base. */
  lemma TssBaseLost()
    ensures var e := Entry(0xffff_8000_0100_0030, 103, 0x89, false);
      Accepted(e) && Decode(Encode(e)).base == 0x0100_0030
  {
    DecodeEncode(Entry(0xffff_8000_0100_0030, 103, 0x89, false));
  }

  // ------------------------------------------------------------------- table

  /** The whole block of memory in use for the table, and the number of entries. */
  datatype Table = Table(bytes: seq<byte>, entries: nat)

  ghost predicate TableOk(t: Table) {
    |t.bytes| > 0 && |t.bytes| % ENTRY_SIZE == 0 && t.entries * ENTRY_SIZE <= |t.bytes|
  }

  /** Doubling: the old block is copied to the start of the new one. */
  function Grown(t: Table, block: seq<byte>): (b: seq<byte>)
    requires TableOk(t) && |block| == 2 * |t.bytes|
    ensures |b| % ENTRY_SIZE == 0 && (t.entries + 1) * ENTRY_SIZE <= |b|
    ensures |b| == if |t.bytes| == t.entries * ENTRY_SIZE then 2 * |t.bytes| else |t.bytes|
  {
    var n := |t.bytes| / ENTRY_SIZE;
    assert |t.bytes| == n * ENTRY_SIZE;
    if |t.bytes| / ENTRY_SIZE == t.entries then t.bytes + block[|t.bytes|..] else t.bytes
  }

  function PutAt(b: seq<byte>, i: nat, d: seq<byte>): (r: seq<byte>)
    requires i + |d| <= |b|
    ensures |r| == |b|
  {
    b[..i] + d + b[i + |d|..]
  }

  /** `_add_entry`; `block` is what the new block contains, should the table be full. */
  function Add(t: Table, e: Entry, block: seq<byte>): (t': Table)
    requires TableOk(t) && |block| == 2 * |t.bytes|
    ensures TableOk(t')
    ensures Accepted(e) ==> t'.entries == t.entries + 1 && |t'.bytes| == |Grown(t, block)|
  {
    if !Accepted(e) then t
    else Table(PutAt(Grown(t, block), t.entries * ENTRY_SIZE, Encode(e)), t.entries + 1)
  }

  /** The selector returned, zero on refusal. */
  function Selector(t: Table, e: Entry): nat { if Accepted(e) then t.entries * ENTRY_SIZE else 0 }

  /** The descriptor a selector leads to. */
  function Lookup(t: Table, sel: nat): seq<byte>
    requires sel + ENTRY_SIZE <= |t.bytes|
  {
    t.bytes[sel..sel + ENTRY_SIZE]
  }

  ghost predicate InUse(t: Table, sel: nat) { sel % ENTRY_SIZE == 0 && sel < t.entries * ENTRY_SIZE }

  /** Adding puts the new descriptor at its selector and leaves all earlier ones readable in place,
      whether or not the table had to grow. */
  lemma AddKeeps(t: Table, e: Entry, block: seq<byte>, sel: nat)
    requires TableOk(t) && |block| == 2 * |t.bytes| && Accepted(e)
    ensures var t' := Add(t, e, block);
      && InUse(t', Selector(t, e)) && Lookup(t', Selector(t, e)) == Encode(e)
      && (InUse(t, sel) ==> InUse(t', sel) && Lookup(t', sel) == Lookup(t, sel))
  {
    var g, i, d := Grown(t, block), t.entries * ENTRY_SIZE, Encode(e);
    assert i + ENTRY_SIZE <= |g|;
    PutRead(g, i, d);
    if InUse(t, sel) {
      assert sel + ENTRY_SIZE <= i;
      PutSpares(g, i, d, sel);
      assert g[sel..sel + ENTRY_SIZE] == t.bytes[sel..sel + ENTRY_SIZE];
    }
  }

  lemma PutRead(b: seq<byte>, i: nat, d: seq<byte>)
    requires i + |d| <= |b|
    ensures PutAt(b, i, d)[i..i + |d|] == d
  {
  }

  lemma PutSpares(b: seq<byte>, i: nat, d: seq<byte>, j: nat)
    requires i + |d| <= |b| && j + ENTRY_SIZE <= i
    ensures PutAt(b, i, d)[j..j + ENTRY_SIZE] == b[j..j + ENTRY_SIZE]
  {
  }

  // ----------------------------------------------------------------- in memory

  function Bytes(m: Ram, a: nat, n: nat): (b: seq<byte>)
    ensures |b| == n && forall i :: 0 <= i < n ==> b[i] == ByteAt(m, a + i)
  {
    seq<byte>(n, i requires 0 <= i < n => ByteAt(m, a + i))
  }

  predicate In(a: nat, x: nat, n: nat) { a <= x < a + n }

  function Put(m: Ram, a: nat, d: seq<byte>): Ram { m + map x: nat | x < a + |d| && In(a, x, |d|) :: d[x - a] }

  lemma PutIs(m: Ram, a: nat, d: seq<byte>, x: nat)
    ensures ByteAt(Put(m, a, d), x) == if a <= x < a + |d| then d[x - a] else ByteAt(m, x)
  {
  }

  /** The table in memory: where its block is, how long it was asked to be, and the number of
      entries. */
  datatype Placed = Placed(ram: Ram, base: nat, size: nat, entries: nat)

  function View(s: Placed): Table { Table(Bytes(s.ram, s.base, s.size), s.entries) }

  ghost predicate PlacedOk(s: Placed) { TableOk(View(s)) }

  predicate Full(s: Placed) { s.size / ENTRY_SIZE == s.entries }

  /** `_add_entry` in memory; `at` is what `malloc` returns, should the table be full. */
  function AddAt(s: Placed, e: Entry, at: nat): Placed {
    if !Accepted(e) then s
    else
      var s1 := if Full(s) then Placed(Copy(s.ram, at, s.base, s.size), at, 2 * s.size, s.entries) else s;
      Placed(Put(s1.ram, s1.base + s.entries * ENTRY_SIZE, Encode(e)), s1.base, s1.size, s.entries + 1)
  }

  lemma GrownAt(s: Placed, at: nat)
    requires PlacedOk(s) && (Full(s) ==> Apart(at, 2 * s.size, s.base, s.size))
    ensures var s1 := if Full(s) then Placed(Copy(s.ram, at, s.base, s.size), at, 2 * s.size, s.entries) else s;
      View(s1).bytes == Grown(View(s), Bytes(s.ram, at, 2 * s.size))
  {
    if Full(s) {
      var m := Copy(s.ram, at, s.base, s.size);
      var b, c := Bytes(m, at, 2 * s.size), Grown(View(s), Bytes(s.ram, at, 2 * s.size));
      forall i | 0 <= i < 2 * s.size ensures b[i] == c[i] { CopyIs(s.ram, at, s.base, s.size, at + i); }
    }
  }

  lemma PutView(m: Ram, base: nat, size: nat, i: nat, d: seq<byte>)
    requires i + |d| <= size
    ensures Bytes(Put(m, base + i, d), base, size) == PutAt(Bytes(m, base, size), i, d)
  {
    var b, c := Bytes(Put(m, base + i, d), base, size), PutAt(Bytes(m, base, size), i, d);
    forall j | 0 <= j < size ensures b[j] == c[j] { PutIs(m, base + i, d, base + j); }
  }

  /** A new block apart from the table is all `_add_entry` needs to do what it does to the bytes. */
  lemma AddAtIs(s: Placed, e: Entry, at: nat)
    requires PlacedOk(s) && (Accepted(e) && Full(s) ==> Apart(at, 2 * s.size, s.base, s.size))
    ensures View(AddAt(s, e, at)) == Add(View(s), e, Bytes(s.ram, at, 2 * s.size)) && PlacedOk(AddAt(s, e, at))
  {
    hide Encode, Put, PutAt, Bytes, Grown, Copy;
    if Accepted(e) {
      GrownAt(s, at);
      var s1 := if Full(s) then Placed(Copy(s.ram, at, s.base, s.size), at, 2 * s.size, s.entries) else s;
      PutView(s1.ram, s1.base, s1.size, s.entries * ENTRY_SIZE, Encode(e));
    }
  }

  // -------------------------------------------------------------------- runs

  /** What happens to the table: entries are added, and other callers of `malloc` write to the memory
      they were handed. */
  datatype Op = Adding(e: Entry, at: nat) | Using(at: nat, data: seq<byte>)

  function Step(s: Placed, op: Op): Placed {
    match op
    case Adding(e, at) => AddAt(s, e, at)
    case Using(at, data) => s.(ram := Put(s.ram, at, data))
  }

  /** `malloc` does not hand out memory of the live table. */
  ghost predicate Spares(s: Placed, op: Op) {
    match op
    case Adding(e, at) => Accepted(e) && Full(s) ==> Apart(at, 2 * s.size, s.base, s.size)
    case Using(at, data) => Apart(at, |data|, s.base, s.size)
  }

  function Run(s: Placed, ops: seq<Op>): Placed
    decreases |ops|
  {
    if ops == [] then s else Run(Step(s, ops[0]), ops[1..])
  }

  ghost predicate AllSpare(s: Placed, ops: seq<Op>)
    decreases |ops|
  {
    ops != [] ==> Spares(s, ops[0]) && AllSpare(Step(s, ops[0]), ops[1..])
  }

  lemma UsingKeeps(s: Placed, at: nat, data: seq<byte>)
    requires Apart(at, |data|, s.base, s.size)
    ensures View(s.(ram := Put(s.ram, at, data))) == View(s)
  {
    var b, c := Bytes(Put(s.ram, at, data), s.base, s.size), Bytes(s.ram, s.base, s.size);
    forall i | 0 <= i < s.size ensures b[i] == c[i] { PutIs(s.ram, at, data, s.base + i); }
  }

  lemma StepKeeps(s: Placed, op: Op, sel: nat)
    requires PlacedOk(s) && Spares(s, op) && InUse(View(s), sel)
    ensures PlacedOk(Step(s, op)) && InUse(View(Step(s, op)), sel) && Lookup(View(Step(s, op)), sel) == Lookup(View(s), sel)
  {
    hide Encode, Put, Bytes, Grown, Copy, PutAt, AddAt;
    match op
    case Adding(e, at) =>
      AddAtIs(s, e, at);
      if Accepted(e) { AddKeeps(View(s), e, Bytes(s.ram, at, 2 * s.size), sel); }
    case Using(at, data) => UsingKeeps(s, at, data);
  }

  /** A selector in use leads to the same descriptor for the whole of any further run in which the live
      table is not handed out. */
  lemma {:induction false} RunKeeps(s: Placed, ops: seq<Op>, sel: nat)
    requires PlacedOk(s) && AllSpare(s, ops) && InUse(View(s), sel)
    ensures PlacedOk(Run(s, ops)) && InUse(View(Run(s, ops)), sel) && Lookup(View(Run(s, ops)), sel) == Lookup(View(s), sel)
    decreases |ops|
  {
    hide Step, View, PlacedOk, Spares;
    if ops != [] {
      StepKeeps(s, ops[0], sel);
      RunKeeps(Step(s, ops[0]), ops[1..], sel);
    }
  }

  /** Every selector returned on success keeps decoding to what was asked for, over every later such run
      with all its doublings, if and only if base and limit were below 2^32. */
  lemma SelectorLasts(s: Placed, e: Entry, at: nat, ops: seq<Op>)
    requires PlacedOk(s) && Accepted(e) && Spares(s, Adding(e, at)) && AllSpare(AddAt(s, e, at), ops)
    ensures var t, sel := View(Run(AddAt(s, e, at), ops)), Selector(View(s), e);
      && InUse(t, sel) && sel + ENTRY_SIZE <= |t.bytes|
      && (Decode(Lookup(t, sel)) == e <==> e.base < 0x1_0000_0000 && e.limit < 0x1_0000_0000)
  {
    hide Grown, PutAt, Encode, Decode, Bytes, Run, AllSpare, AddAt;
    AddAtIs(s, e, at);
    AddKeeps(View(s), e, Bytes(s.ram, at, 2 * s.size), 0);
    RunKeeps(AddAt(s, e, at), ops, Selector(View(s), e));
    RoundTripIff(e);
  }

  // -------------------------------------------------------------------- init

  const NULL_ENTRY := Entry(0, 0, 0, false)
  const KERNEL_DATA := Entry(0, 0, 0x92, false)
  const KERNEL_CODE := Entry(0, 0, 0x9a, true)
  const USER_DATA := Entry(0, 0, 0xf2, false)
  const USER_CODE := Entry(0, 0, 0xfa, true)

  /** `gdt_init`: five entries in a block of 32 bytes, which has to grow for the last. */
  function Init(first: seq<byte>, second: seq<byte>): (t: Table)
    requires |first| == 32 && |second| == 64
    ensures TableOk(t) && t.entries == 5 && |t.bytes| == 64
  {
    var t1 := Add(Table(first, 0), NULL_ENTRY, second);
    var t2 := Add(t1, KERNEL_DATA, second);
    var t3 := Add(t2, KERNEL_CODE, second);
    var t4 := Add(t3, USER_DATA, second);
    Add(t4, USER_CODE, second)
  }

  /** The table as `gdt_init` leaves it. */
  ghost predicate Begun(s: Placed) {
    exists first: seq<byte>, second: seq<byte> :: |first| == 32 && |second| == 64 && View(s) == Init(first, second)
  }

  /** The descriptor of a selector in use. */
  ghost function DescriptorAt(s: Placed, sel: nat): Entry
    requires PlacedOk(s) && InUse(View(s), sel)
  {
    Decode(Lookup(View(s), sel))
  }

  /** The kernel and user code selectors that `gdt_init` records decode to 64-bit code segments for as
      long as the live table is not handed out. */
  lemma InitLasts(s: Placed, ops: seq<Op>)
    requires Begun(s) && AllSpare(s, ops)
    ensures var s' := Run(s, ops);
      && PlacedOk(s') && InUse(View(s'), 0x10) && DescriptorAt(s', 0x10) == KERNEL_CODE
      && InUse(View(s'), 0x20) && DescriptorAt(s', 0x20) == USER_CODE
  {
    hide Decode, Run, AllSpare, Encode;
    var first: seq<byte>, second: seq<byte> :| |first| == 32 && |second| == 64 && View(s) == Init(first, second);
    InitHolds(first, second);
    hide Init, Lookup, View;
    RunKeeps(s, ops, 0x10);
    RunKeeps(s, ops, 0x20);
  }

  lemma InitHolds(first: seq<byte>, second: seq<byte>)
    requires |first| == 32 && |second| == 64
    ensures var t := Init(first, second);
      && InUse(t, 0x10) && Decode(Lookup(t, 0x10)) == KERNEL_CODE
      && InUse(t, 0x20) && Decode(Lookup(t, 0x20)) == USER_CODE
      && InUse(t, 0x8) && Lookup(t, 0x8) == Encode(KERNEL_DATA)
  {
    hide Grown, PutAt, Encode, Decode;
    var t1 := Add(Table(first, 0), NULL_ENTRY, second);
    var t2 := Add(t1, KERNEL_DATA, second);
    var t3 := Add(t2, KERNEL_CODE, second);
    var t4 := Add(t3, USER_DATA, second);
    AddKeeps(t1, KERNEL_DATA, second, 0);
    AddKeeps(t2, KERNEL_CODE, second, 0x8);
    AddKeeps(t3, USER_DATA, second, 0x10);
    AddKeeps(t3, USER_DATA, second, 0x8);
    AddKeeps(t4, USER_CODE, second, 0x10);
    AddKeeps(t4, USER_CODE, second, 0x8);
    RoundTripIff(KERNEL_CODE);
    RoundTripIff(USER_CODE);
  }

  /** Only the block of the fifth entry matters. */
  lemma InitIs(t0: Table, t1: Table, t2: Table, t3: Table, t4: Table, b1: seq<byte>, b2: seq<byte>, b3: seq<byte>, b4: seq<byte>, b5: seq<byte>)
    requires |t0.bytes| == 32 && t0.entries == 0 && |b1| == |b2| == |b3| == |b4| == |b5| == 64
    requires t1 == Add(t0, NULL_ENTRY, b1) && |t1.bytes| == 32 && t2 == Add(t1, KERNEL_DATA, b2) && |t2.bytes| == 32
    requires t3 == Add(t2, KERNEL_CODE, b3) && |t3.bytes| == 32 && t4 == Add(t3, USER_DATA, b4) && |t4.bytes| == 32
    ensures Init(t0.bytes, b5) == Add(t4, USER_CODE, b5)
  {
    hide Encode, PutAt;
    assert t0 == Table(t0.bytes, 0);
    NoGrowth(t0, NULL_ENTRY, b1, b5);
    NoGrowth(t1, KERNEL_DATA, b2, b5);
    NoGrowth(t2, KERNEL_CODE, b3, b5);
    NoGrowth(t3, USER_DATA, b4, b5);
  }

  lemma NoGrowth(t: Table, e: Entry, b: seq<byte>, c: seq<byte>)
    requires TableOk(t) && |b| == |c| == 2 * |t.bytes| && |t.bytes| == 32 && t.entries < 4 && Accepted(e)
    ensures Add(t, e, b) == Add(t, e, c) && |Add(t, e, b).bytes| == 32 && Add(t, e, b).entries == t.entries + 1
  {
  }

  // -------------------------------------------------------- a table handed out

  /** A 64-bit number as it is stored. */
  function Stored64(x: nat): (b: seq<byte>)
    ensures |b| == 8
  {
    [x % 256, x / 256 % 256, x / 0x1_0000 % 256, x / 0x100_0000 % 256,
     x / 0x1_0000_0000 % 256, x / 0x1_0000_0000 / 256 % 256, x / 0x1_0000_0000 / 0x1_0000 % 256,
     x / 0x1_0000_0000 / 0x100_0000 % 256]
  }

  /** `gdt_add_tss` when `malloc` hands out the live table: the stack pointer, stored at offset 4, reaches
      into the kernel data descriptor, which survives if and only if the pointer is below 2^32. */
  lemma TssOverwrites(s: Placed, stack: nat)
    requires PlacedOk(s) && s.entries >= 2 && Lookup(View(s), 0x8) == Encode(KERNEL_DATA) && stack < 0x1_0000_0000_0000_0000
    ensures Decode(Lookup(View(s.(ram := Put(s.ram, s.base + 4, Stored64(stack)))), 0x8)) == KERNEL_DATA <==>
      stack < 0x1_0000_0000
  {
    hide Bytes, Lookup, Put, Decode, Stored64, Encode;
    var b, d := Lookup(View(s.(ram := Put(s.ram, s.base + 4, Stored64(stack)))), 0x8), Stored64(stack);
    Overwritten(s, d);
    DataBytes();
    assert b == [d[4], d[5], d[6], d[7], 0, 0x92, 0, 0];
    Halves(b);
    UpperHalf(stack);
  }

  lemma UpperHalf(x: nat)
    requires x < 0x1_0000_0000_0000_0000
    ensures var b := Stored64(x);
      b[4] == 0 && b[5] == 0 && b[6] == 0 && b[7] == 0 <==> x < 0x1_0000_0000
  {
    var u := x / 0x1_0000_0000;
    FourBytes(u);
    assert u % 0x1_0000_0000 == u;
  }

  lemma DataBytes()
    ensures Encode(KERNEL_DATA) == [0, 0, 0, 0, 0, 0x92, 0, 0]
  {
  }

  lemma Overwritten(s: Placed, d: seq<byte>)
    requires PlacedOk(s) && s.entries >= 2 && |d| == 8
    ensures Lookup(View(s.(ram := Put(s.ram, s.base + 4, d))), 0x8) == d[4..] + Lookup(View(s), 0x8)[4..]
  {
    hide Put;
    var b, c := Lookup(View(s.(ram := Put(s.ram, s.base + 4, d))), 0x8), Lookup(View(s), 0x8);
    forall i | 0 <= i < 8 ensures b[i] == if i < 4 then d[i + 4] else c[i] { PutIs(s.ram, s.base + 4, d, s.base + 8 + i); }
    assert b == d[4..] + c[4..];
  }

  lemma Halves(b: seq<byte>)
    requires |b| == 8 && b[4] == 0 && b[5] == 0x92 && b[6] == 0 && b[7] == 0
    ensures Decode(b) == KERNEL_DATA <==> b[0] == 0 && b[1] == 0 && b[2] == 0 && b[3] == 0
  {
  }
}
