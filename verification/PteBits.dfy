/**
 The records of `PageTables` and the 64-bit words of
 kernel/system/mem_mgmt/vmm/paging.c: the masks and ORs of the source are the
 field updates of the model. A word is the list of its bits, lowest first.
 */
module PteBits {
  import opened PageTables
  import opened Words

  type Word = w: seq<bool> | |w| == 64 witness seq(64, i => false)

  const PRESENT := 0
  const RW := 1
  const USER := 2
  const SIZE := 7
  const GLOBAL := 8
  const USABLE := 9
  const NX := 63

  function Or(a: Word, b: Word): Word { seq(64, i requires 0 <= i < 64 => a[i] || b[i]) }
  function And(a: Word, b: Word): Word { seq(64, i requires 0 <= i < 64 => a[i] && b[i]) }

  /** The mask of bits 12 to 47. */
  function AddressMask(): Word { seq(64, i => 12 <= i < 48) }

  function Bit(k: nat): Word { seq(64, i => i == k) }

  // ------------------------------------------------------------------ numbers

  function Bits(n: nat, k: nat): (b: seq<bool>)
    ensures |b| == k
  {
    if k == 0 then [] else [n % 2 == 1] + Bits(n / 2, k - 1)
  }

  function Value(b: seq<bool>): nat {
    if b == [] then 0 else (if b[0] then 1 else 0) + 2 * Value(b[1..])
  }

  lemma {:induction false} ValueOfBits(n: nat, k: nat)
    ensures Value(Bits(n, k)) == n % Pow2(k)
    decreases k
  {
    if k > 0 {
      ValueOfBits(n / 2, k - 1);
      assert Bits(n, k)[1..] == Bits(n / 2, k - 1);
      HalfMod(n, Pow2(k - 1));
    }
  }

  lemma HalfMod(n: nat, p: nat)
    requires p > 0
    ensures n % (2 * p) == n % 2 + 2 * (n / 2 % p)
  {
    var q := n / 2 / p;
    assert n / 2 == q * p + n / 2 % p;
    assert n == 2 * (n / 2) + n % 2;
    assert n == q * (2 * p) + (2 * (n / 2 % p) + n % 2);
    Remainder(n, 2 * p, q, 2 * (n / 2 % p) + n % 2);
  }

  lemma Remainder(n: nat, d: nat, q: nat, r: nat)
    requires d > 0 && n == q * d + r && r < d
    ensures n % d == r && n / d == q
  {
    var q', r' := n / d, n % d;
    assert n == q' * d + r';
    assert (q' - q) * d == r - r';
    Multiple(q' - q, d);
  }

  lemma Multiple(k: int, d: nat)
    ensures k == 0 || k * d >= d || k * d + d <= 0
  {
    if k > 0 { assert (k - 1) * d >= 0; } else if k < 0 { assert (-k - 1) * d >= 0; }
  }

  lemma {:induction false} BitsTake(n: nat, k: nat, t: nat)
    requires t <= k
    ensures Bits(n, k)[..t] == Bits(n, t)
    decreases k
  {
    if t > 0 {
      BitsTake(n / 2, k - 1, t - 1);
      assert Bits(n, k)[..t] == [n % 2 == 1] + Bits(n / 2, k - 1)[..t - 1];
    }
  }

  lemma {:induction false} BitsDrop(n: nat, k: nat, d: nat)
    requires d <= k
    ensures Bits(n, k)[d..] == Bits(n / Pow2(d), k - d)
    decreases d
  {
    if d > 0 {
      BitsDrop(n / 2, k - 1, d - 1);
      assert Bits(n, k)[d..] == Bits(n / 2, k - 1)[d - 1..];
      HalfDiv(n, Pow2(d - 1));
    }
  }

  lemma HalfDiv(n: nat, p: nat)
    requires p > 0
    ensures n / 2 / p == n / (2 * p)
  {
    HalfMod(n, p);
    var q := n / 2 / p;
    assert n / 2 == q * p + n / 2 % p;
    assert n == q * (2 * p) + (2 * (n / 2 % p) + n % 2);
    Remainder(n, 2 * p, q, 2 * (n / 2 % p) + n % 2);
  }

  lemma Pow2At()
    ensures Pow2(12) == 4096 && Pow2(36) == FRAMES
  {
    assert Pow2(6) == 64;
    assert Pow2(12) == 4096;
    assert Pow2(18) == 0x4_0000;
    assert Pow2(24) == 0x100_0000;
    assert Pow2(30) == 0x4000_0000;
    assert Pow2(36) == FRAMES;
  }

  // ------------------------------------------------------------------ entries

  function FrameOf(w: Word): nat { Value(w[12..48]) }

  function PteOf(w: Word): Pte {
    Pte(FrameOf(w), w[PRESENT], w[RW], w[USER], w[SIZE], w[GLOBAL], w[USABLE], w[NX])
  }

  /** The frame field of an address is its page number, without the upper 16 bits. */
  lemma FrameOfAddress(a: nat)
    ensures FrameOf(Bits(a, 64)) == a / 4096 % FRAMES
  {
    hide Bits, Value, Pow2;
    Pow2At();
    assert Bits(a, 64)[12..48] == Bits(a, 64)[..48][12..];
    BitsTake(a, 64, 48);
    BitsDrop(a, 48, 12);
    ValueOfBits(a / 4096, 36);
  }

  /** The flag word that `set_page` builds and passes down. */
  function FlagWord(fl: Flags): Word {
    seq(64, i => (i == PRESENT && fl.present) || (i == RW && fl.rw) || (i == USER && fl.user)
                 || (i == GLOBAL && fl.global) || (i == USABLE && fl.usable))
  }

  /** ORing the flag word into an entry is the model's update. */
  lemma OrIsOr(w: Word, fl: Flags)
    ensures PteOf(Or(w, FlagWord(fl))) == OrFlags(PteOf(w), fl)
  {
    hide FrameOf;
    OrKeepsFrame(w, fl);
  }

  lemma OrKeepsFrame(w: Word, fl: Flags)
    ensures FrameOf(Or(w, FlagWord(fl))) == FrameOf(w)
  {
    hide Value;
    assert Or(w, FlagWord(fl))[12..48] == w[12..48];
  }

  /** A masked address is an entry with that frame and no flag. */
  lemma MaskedIs(a: nat)
    ensures PteOf(And(Bits(a, 64), AddressMask())) == ZERO.(frame := a / 4096 % FRAMES)
  {
    hide Value, Bits;
    FrameOfAddress(a);
    assert And(Bits(a, 64), AddressMask())[12..48] == Bits(a, 64)[12..48];
  }

  /** The entry of a new table: its frame and the present bit. */
  lemma NewTableIs(n: nat)
    requires n < FRAMES
    ensures PteOf(Or(And(Bits(n * 4096, 64), AddressMask()), Bit(PRESENT))) == ZERO.(frame := n % FRAMES, present := true)
  {
    hide Value, Bits, PteOf;
    MaskedIs(n * 4096);
    OrIsOr(And(Bits(n * 4096, 64), AddressMask()), Flags(true, false, false, false, false));
    assert FlagWord(Flags(true, false, false, false, false)) == Bit(PRESENT);
  }

  /** The entry that `set_page` writes. */
  lemma LeafIs(paddr: nat, pf: PageFlags)
    ensures var w := Or(And(Bits(paddr, 64), AddressMask()), FlagWord(TableFlags(pf)));
      PteOf(if pf.exec then w else Or(w, Bit(NX))) == LeafEntry(paddr / 4096, pf)
  {
    hide Value, Bits, FlagWord, TableFlags, And, AddressMask;
    MaskedIs(paddr);
    var w := Or(And(Bits(paddr, 64), AddressMask()), FlagWord(TableFlags(pf)));
    OrIsOr(And(Bits(paddr, 64), AddressMask()), TableFlags(pf));
    assert Or(w, Bit(NX))[12..48] == w[12..48];
  }

  /** The test and the address in `free_page`: a usable entry gives back the frame it holds. */
  lemma FreedAddressIs(w: Word)
    ensures FrameOf(And(w, AddressMask())) == PteOf(w).frame
  {
    hide Value;
    assert And(w, AddressMask())[12..48] == w[12..48];
  }
}
