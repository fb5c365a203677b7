/**
 The search for a place for the kernel, `find_elf64_phys_origin` in
 loader/loader.c, with its 32-bit and 64-bit arithmetic.
 */
module LoaderOrigin {
  import opened Words

  /** An entry of the memory map; kind 1 is available memory. */
  datatype Region = Region(base: nat, length: nat, kind: nat)

  datatype Piece = Skip | Piece(base: nat, length: nat)

  /** The part of an entry above the least address, with the source's 32-bit difference. */
  function Trim(r: Region, least: nat): Piece {
    if r.kind != 1 then Skip
    else if r.base >= least then Piece(r.base, r.length)
    else
      var diff := Int32(least - r.base);
      if U64(diff) > r.length then Skip else Piece(U64(r.base + diff), U64(r.length - diff))
  }

  /** Rounds the start up to a page; the length is not checked and may wrap. */
  function Align(p: Piece): Piece {
    if p.Skip? || p.base % 4096 == 0 then p
    else
      var pad := 4096 - p.base % 4096;
      Piece(U64(p.base + pad), U64(p.length - pad))
  }

  predicate Chosen(r: Region, least: nat, size: nat) {
    var p := Align(Trim(r, least));
    p.Piece? && p.length >= size
  }

  /** `find_elf64_phys_origin`. */
  function Origin(regions: seq<Region>, least: nat, size: nat): nat {
    if regions == [] then 0
    else if Chosen(regions[0], least, size) then Align(Trim(regions[0], least)).base % HALF
    else Origin(regions[1..], least, size)
  }

  // ------------------------------------------------------- without machine words

  /** The fields of an entry are 64-bit numbers. */
  predicate Stored(r: Region) { r.base < WORD && r.length < WORD }

  function EndOf(r: Region): nat { r.base + r.length }

  /** The distance to the least address fits a signed 32-bit integer. */
  predicate Near(r: Region, least: nat) { least - r.base < 0x8000_0000 }

  /** Where the trimmed part starts; from too far below, the difference comes out negative. */
  function From(r: Region, least: nat): nat {
    if r.base >= least then r.base else if Near(r, least) then least else least + (WORD - HALF)
  }

  function Boundary(r: Region, least: nat): nat { AlignUp(From(r, least)) }

  /** Room for `size` bytes from the page boundary on. */
  predicate Fits(r: Region, least: nat, size: nat) { r.kind == 1 && Boundary(r, least) + size <= EndOf(r) }

  /** The trimmed part ends before the next page boundary, and its length wraps to a large one. */
  predicate Wraps(r: Region, least: nat, size: nat) {
    r.kind == 1 && From(r, least) <= EndOf(r) < Boundary(r, least) && Boundary(r, least) + size <= EndOf(r) + WORD
  }

  lemma UpIs(x: nat)
    ensures x <= AlignUp(x) < x + 4096 && AlignUp(x) % 4096 == 0
  {
  }

  lemma TrimIs(r: Region, least: nat)
    requires Stored(r) && r.kind == 1 && least < HALF
    ensures Trim(r, least) ==
      if EndOf(r) < From(r, least) then Skip else Piece(From(r, least), EndOf(r) - From(r, least))
  {
    if r.base < least {
      var d := least - r.base;
      if Near(r, least) {
        assert Int32(d) == d == U64(d);
      } else {
        assert Int32(d) == d - HALF;
        assert U64(d - HALF) == d - HALF + WORD;
        WordIs(r.base + (d - HALF), From(r, least));
        if EndOf(r) >= From(r, least) { WordIs(r.length - (d - HALF), EndOf(r) - From(r, least)); }
      }
    }
  }

  lemma WordIs(x: int, y: nat)
    requires y < WORD && (x == y || x == y - WORD || x == y + WORD)
    ensures U64(x) == y
  {
  }

  lemma AlignIs(b: nat, l: nat)
    requires b < WORD && l < WORD
    ensures var p := Align(Piece(b, l));
      var pad := AlignUp(b) - b;
      && p.Piece? && p.base % HALF == AlignUp(b) % HALF
      && p.length == if l < pad then l - pad + WORD else l - pad
  {
    UpIs(b);
    var c := AlignUp(b);
    if c < WORD { WordIs(c, c); } else { WordIs(c, 0); }
    var d := l - (c - b);
    if d < 0 { WordIs(d, d + WORD); } else { WordIs(d, d); }
    assert WORD % HALF == 0;
  }

  /** An entry ends the search if and only if it has room from its page boundary on, or ends before
      that boundary; the address is the boundary cut to 32 bits. */
  lemma ChosenExactly(r: Region, least: nat, size: nat)
    requires Stored(r) && least < HALF
    ensures Chosen(r, least, size) <==> Fits(r, least, size) || Wraps(r, least, size)
    ensures Chosen(r, least, size) ==> Align(Trim(r, least)).base % HALF == Boundary(r, least) % HALF
  {
    hide Trim, Align, AlignUp;
    if r.kind == 1 {
      TrimIs(r, least);
      UpIs(From(r, least));
      if From(r, least) <= EndOf(r) { AlignIs(From(r, least), EndOf(r) - From(r, least)); }
      else { SkipAligned(); }
    } else {
      NotAvailable(r, least);
    }
  }

  lemma SkipAligned()
    ensures Align(Skip) == Skip
  {
  }

  lemma NotAvailable(r: Region, least: nat)
    requires r.kind != 1
    ensures Align(Trim(r, least)) == Skip
  {
  }

  /** The first entry that ends the search. */
  function FirstChosen(regions: seq<Region>, least: nat, size: nat): (k: nat)
    ensures k <= |regions|
    ensures forall j :: 0 <= j < k ==> !Fits(regions[j], least, size) && !Wraps(regions[j], least, size)
    ensures k < |regions| ==> Fits(regions[k], least, size) || Wraps(regions[k], least, size)
  {
    if regions == [] then 0
    else if Fits(regions[0], least, size) || Wraps(regions[0], least, size) then 0
    else
      var k := FirstChosen(regions[1..], least, size);
      assert forall j :: 0 < j < k + 1 ==> regions[j] == regions[1..][j - 1];
      k + 1
  }

  ghost predicate AllStored(regions: seq<Region>) { forall i :: 0 <= i < |regions| ==> Stored(regions[i]) }

  lemma {:induction false} OriginIsFirst(regions: seq<Region>, least: nat, size: nat)
    requires AllStored(regions) && least < HALF
    ensures var k := FirstChosen(regions, least, size);
      Origin(regions, least, size) == if k < |regions| then Boundary(regions[k], least) % HALF else 0
  {
    hide Chosen, Fits, Wraps, Boundary, Stored, Align, Trim;
    if regions != [] {
      ChosenExactly(regions[0], least, size);
      if !Chosen(regions[0], least, size) { OriginIsFirst(regions[1..], least, size); }
    }
  }

  // ---------------------------------------------------------- what it should be

  /** The first page boundary of an entry at or above the least address. */
  function PlaceIn(r: Region, least: nat): nat { AlignUp(if r.base < least then least else r.base) }

  predicate Room(r: Region, least: nat, size: nat) { r.kind == 1 && PlaceIn(r, least) + size <= EndOf(r) }

  /** An address for the image: page-aligned, not below the least address, the whole image inside
      the entry. */
  predicate Right(r: Region, a: nat, least: nat, size: nat) {
    r.base <= a && least <= a && a % 4096 == 0 && a + size <= EndOf(r)
  }

  lemma BoundaryCut(r: Region, least: nat)
    requires least < HALF
    ensures Boundary(r, least) % HALF == PlaceIn(r, least) % HALF
  {
    if r.base < least && !Near(r, least) {
      assert (least + (WORD - HALF)) % 4096 == least % 4096;
      assert AlignUp(least + (WORD - HALF)) == AlignUp(least) + (WORD - HALF);
      assert (AlignUp(least) + (WORD - HALF)) % HALF == AlignUp(least) % HALF;
    }
  }

  lemma CutIsRightIff(r: Region, least: nat, size: nat)
    requires least < HALF && r.kind == 1
    ensures Right(r, PlaceIn(r, least) % HALF, least, size) <==> Room(r, least, size) && PlaceIn(r, least) < HALF
  {
    hide AlignUp;
    var x := if r.base < least then least else r.base;
    UpIs(x);
    var w := PlaceIn(r, least);
    if w >= HALF {
      assert w % HALF < HALF;
      if x < HALF {
        assert w == HALF;
      }
    }
  }

  /** The address found is right for the entry it was taken from if and only if that entry has room
      from its first page boundary on and the boundary lies below 4 GiB. The other cases are an
      entry that ends before the boundary, where the unchecked subtraction of the padding wraps, and
      one at or above 4 GiB, where the address is cut to 32 bits. */
  lemma OriginRightIff(regions: seq<Region>, least: nat, size: nat)
    requires AllStored(regions) && least < HALF
    ensures var k, a := FirstChosen(regions, least, size), Origin(regions, least, size);
      k < |regions| ==>
        (Right(regions[k], a, least, size) <==> Room(regions[k], least, size) && PlaceIn(regions[k], least) < HALF)
  {
    hide Fits, Wraps, Boundary, PlaceIn, Right, Room, Chosen;
    var k := FirstChosen(regions, least, size);
    OriginIsFirst(regions, least, size);
    if k < |regions| {
      BoundaryCut(regions[k], least);
      ChosenAvailable(regions[k], least, size);
      CutIsRightIff(regions[k], least, size);
    }
  }

  lemma ChosenAvailable(r: Region, least: nat, size: nat)
    requires Fits(r, least, size) || Wraps(r, least, size)
    ensures r.kind == 1
  {
  }

  /** An entry with room is passed over only if the least address is 2^31 or more above its base; such
      an entry is passed over unless it reaches into the last 4 GiB of the 64-bit range. */
  lemma PassedOver(r: Region, least: nat, size: nat)
    requires Room(r, least, size) && least < HALF
    ensures Near(r, least) ==> Fits(r, least, size)
    ensures !Near(r, least) && EndOf(r) < least + (WORD - HALF) ==> !Fits(r, least, size) && !Wraps(r, least, size)
  {
    UpIs(From(r, least));
  }

  ghost predicate Below(r: Region, least: nat) { Near(r, least) || EndOf(r) < least + (WORD - HALF) }

  /** The search fails if and only if every entry is unavailable, starts 2^31 or more below the least
      address, or neither has room nor ends just before its boundary. */
  lemma SearchFailsIff(regions: seq<Region>, least: nat, size: nat)
    requires AllStored(regions) && least < HALF && forall i :: 0 <= i < |regions| ==> Below(regions[i], least)
    ensures FirstChosen(regions, least, size) == |regions| <==>
      forall i :: 0 <= i < |regions| ==>
        !(Near(regions[i], least) && (Room(regions[i], least, size) || Wraps(regions[i], least, size)))
  {
    hide AlignUp;
    var k := FirstChosen(regions, least, size);
    forall i | 0 <= i < |regions|
      ensures Fits(regions[i], least, size) || Wraps(regions[i], least, size) <==>
        Near(regions[i], least) && (Room(regions[i], least, size) || Wraps(regions[i], least, size))
    {
      assert Below(regions[i], least);
      UpIs(From(regions[i], least));
    }
  }

  // --------------------------------------------------------------- failing inputs

  /** A one-byte entry just past a page boundary makes the search answer with memory beyond it. */
  lemma OriginEscapes()
    ensures var r := Region(0x50_0001, 1, 1);
      Origin([r], 0x50_0000, 0x10_0000) == 0x50_1000 && !Right(r, 0x50_1000, 0x50_0000, 0x10_0000)
  {
    var r := Region(0x50_0001, 1, 1);
    assert Boundary(r, 0x50_0000) == 0x50_1000;
    assert Wraps(r, 0x50_0000, 0x10_0000);
    OriginIsFirst([r], 0x50_0000, 0x10_0000);
  }

  /** Memory above 4 GiB with room is answered with an address cut to 32 bits. */
  lemma OriginTruncates()
    ensures var r := Region(0x1_0020_0000, 0x1000_0000, 1);
      && Room(r, 0x50_0000, 0x10_0000) && Origin([r], 0x50_0000, 0x10_0000) == 0x20_0000
      && !Right(r, 0x20_0000, 0x50_0000, 0x10_0000)
  {
    var r := Region(0x1_0020_0000, 0x1000_0000, 1);
    assert Boundary(r, 0x50_0000) == 0x1_0020_0000;
    assert Fits(r, 0x50_0000, 0x10_0000);
    OriginIsFirst([r], 0x50_0000, 0x10_0000);
  }

  /** An entry with room is passed over because it starts 2 GiB below the least address. */
  lemma OriginPassesOver()
    ensures var r := Region(0, 0xF000_0000, 1);
      Room(r, 0x8000_0000, 0x10_0000) && Origin([r], 0x8000_0000, 0x10_0000) == 0
  {
    var r := Region(0, 0xF000_0000, 1);
    PassedOver(r, 0x8000_0000, 0x10_0000);
    OriginIsFirst([r], 0x8000_0000, 0x10_0000);
  }
}
