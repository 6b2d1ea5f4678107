/** The emulator: the same nand_* interface over a backing file, synchronously.
    Usable blocks are those that the bad-block scan hands out, 1 to `blks` of
    each bank. */
module Emulator {
  import opened Common
  import opened Division
  import opened FlashCommands

  datatype Setup = Setup(banks: nat, blks: nat, pages: nat, sectors: nat, bankMap: seq<nat>,
                         dramBase: nat, dramSize: nat) {
    function PageBytes(): nat { sectors * BYTES_PER_SECTOR }

    /** No 32-bit product in a file position wraps. */
    predicate NoWrap() {
      PageNumber(this, banks, 1, 0) * PageBytes() <= TWO_TO_32
    }

    /** Or only those of the last block do, which starts right at the wrap point. */
    predicate Fits() {
      NoWrap() || UsableSectors(this) * BYTES_PER_SECTOR == TWO_TO_32
    }

    ghost predicate Sane() {
      && 0 < blks && 0 < pages && 0 < sectors
      && |bankMap| == banks
      && (forall x, y :: 0 <= x < banks && 0 <= y < banks && x != y ==> bankMap[x] != bankMap[y])
      && dramBase + dramSize < TWO_TO_32
    }
  }

  function PageNumber(c: Setup, bank: nat, vblock: nat, page: nat): nat {
    (bank * c.blks + vblock) * c.pages + page
  }

  /** Position of a sector in the backing file, in 32-bit arithmetic. */
  function Position(c: Setup, bank: nat, vblock: nat, page: nat, sect: nat): u32 {
    Wrap32((PageNumber(c, bank, vblock, page) * c.sectors + sect) * BYTES_PER_SECTOR)
  }

  /** The place of a block in the file: a last block at the wrap point is where
      the reserved block 0 of bank 0 would be. */
  function BlockSlot(c: Setup, bank: nat, vblock: nat): nat {
    var n := bank * c.blks + vblock;
    if !c.NoWrap() && n == c.banks * c.blks then 0 else n
  }

  /** Where a page starts in the file. */
  function FileStart(c: Setup, bank: nat, vblock: nat, page: nat): nat {
    (BlockSlot(c, bank, vblock) * c.pages + page) * c.PageBytes()
  }

  predicate Usable(c: Setup, bank: nat, vblock: nat, page: nat) {
    bank < c.banks && 1 <= vblock <= c.blks && page < c.pages
  }

  // ----- addressing -----

  lemma BlockNumberUnique(c: Setup, bank: nat, vblock: nat, bank': nat, vblock': nat)
    requires 1 <= vblock <= c.blks && 1 <= vblock' <= c.blks
    requires bank * c.blks + vblock == bank' * c.blks + vblock'
    ensures bank == bank' && vblock == vblock'
  {
    DivUnique(bank * c.blks + vblock - 1, bank, vblock - 1, c.blks);
    DivUnique(bank * c.blks + vblock - 1, bank', vblock' - 1, c.blks);
  }

  lemma PageNumberUnique(c: Setup, bank: nat, vblock: nat, page: nat, bank': nat, vblock': nat, page': nat)
    requires Usable(c, bank, vblock, page) && Usable(c, bank', vblock', page')
    requires PageNumber(c, bank, vblock, page) == PageNumber(c, bank', vblock', page')
    ensures bank == bank' && vblock == vblock' && page == page'
  {
    var n := PageNumber(c, bank, vblock, page);
    DivUnique(n, bank * c.blks + vblock, page, c.pages);
    DivUnique(n, bank' * c.blks + vblock', page', c.pages);
    BlockNumberUnique(c, bank, vblock, bank', vblock');
  }

  lemma BlockNumberBound(c: Setup, bank: nat, vblock: nat)
    requires bank < c.banks && vblock <= c.blks
    ensures bank * c.blks + vblock <= c.banks * c.blks
  {
    SlotOrder(bank, c.banks, c.blks);
  }

  lemma BlockSlotUnique(c: Setup, bank: nat, vblock: nat, bank': nat, vblock': nat)
    requires 1 <= vblock <= c.blks && 1 <= vblock' <= c.blks
    requires BlockSlot(c, bank, vblock) == BlockSlot(c, bank', vblock')
    ensures bank == bank' && vblock == vblock'
  {
    BlockNumberUnique(c, bank, vblock, bank', vblock');
  }

  lemma PageNumberBound(c: Setup, bank: nat, vblock: nat, page: nat)
    requires bank < c.banks && vblock <= c.blks && page < c.pages
    ensures PageNumber(c, bank, vblock, page) < PageNumber(c, c.banks, 1, 0)
  {
    SlotOrder(bank, c.banks, c.blks);
    SlotOrder(bank * c.blks + vblock, c.banks * c.blks + 1, c.pages);
  }

  /** Position of a sector whose page ends before the wrap point. */
  lemma FlatPosition(n: nat, sectors: nat, sect: nat, start: nat)
    requires sect < sectors && start == n * (sectors * BYTES_PER_SECTOR)
    requires start + sectors * BYTES_PER_SECTOR <= TWO_TO_32
    ensures Wrap32((n * sectors + sect) * BYTES_PER_SECTOR) == start + sect * BYTES_PER_SECTOR
  {
    Flatten(n, sectors, sect, BYTES_PER_SECTOR);
    WrapSmall((n * sectors + sect) * BYTES_PER_SECTOR);
  }

  lemma FlatPage(c: Setup, bank: nat, vblock: nat, page: nat, sect: nat)
    requires c.Sane() && c.NoWrap() && bank < c.banks && vblock <= c.blks && page < c.pages && sect < c.sectors
    ensures var start := PageNumber(c, bank, vblock, page) * c.PageBytes();
      Position(c, bank, vblock, page, sect) == start + sect * BYTES_PER_SECTOR && start + c.PageBytes() <= TWO_TO_32
  {
    var n := PageNumber(c, bank, vblock, page);
    PageNumberBound(c, bank, vblock, page);
    SlotOrder(n, PageNumber(c, c.banks, 1, 0), c.PageBytes());
    FlatPosition(n, c.sectors, sect, n * c.PageBytes());
  }

  /** Without wrap, the banks follow each other in the file, in each of them the
      blocks, in each of these the pages, and in these the sectors; every page ends
      before the wrap point. */
  lemma PositionIsFlat(c: Setup, bank: nat, vblock: nat, page: nat, sect: nat)
    requires c.Sane() && c.NoWrap() && bank < c.banks && vblock <= c.blks && page < c.pages && sect < c.sectors
    ensures var start := ((bank * c.blks + vblock) * c.pages + page) * (c.sectors * 512);
      Position(c, bank, vblock, page, sect) == start + sect * 512 && start + c.sectors * 512 <= TWO_TO_32
  {
    FlatPage(c, bank, vblock, page, sect);
  }

  lemma Flatten(n: int, s: int, x: int, k: int)
    ensures (n * s + x) * k == n * (s * k) + x * k
  {
  }

  /** A sector of a bank. */
  datatype Place = Place(bank: nat, vblock: nat, page: nat, sect: nat)

  predicate UsableSector(c: Setup, x: Place) { Usable(c, x.bank, x.vblock, x.page) && x.sect < c.sectors }

  function PositionOf(c: Setup, x: Place): u32 { Position(c, x.bank, x.vblock, x.page, x.sect) }

  function SectorNumber(c: Setup, x: Place): nat { PageNumber(c, x.bank, x.vblock, x.page) * c.sectors + x.sect }

  /** Usable sectors are numbered from here on ... */
  function FirstSector(c: Setup): nat { c.pages * c.sectors }

  /** ... and there are as many of them. */
  function UsableSectors(c: Setup): nat { c.banks * c.blks * c.pages * c.sectors }

  /** Different usable sectors are at different positions in the file. */
  ghost predicate PositionsDiffer(c: Setup) {
    forall x: Place, y: Place ::
      UsableSector(c, x) && UsableSector(c, y) && PositionOf(c, x) == PositionOf(c, y) ==> x == y
  }

  /** Usable sectors are at the positions that arithmetic without wrap-around gives. */
  ghost predicate PositionsAreFlat(c: Setup) {
    forall x: Place :: UsableSector(c, x) ==> PositionOf(c, x) == SectorNumber(c, x) * BYTES_PER_SECTOR
  }

  lemma SectorNumberUnique(c: Setup, x: Place, y: Place)
    requires UsableSector(c, x) && UsableSector(c, y) && SectorNumber(c, x) == SectorNumber(c, y)
    ensures x == y
  {
    DivUnique(SectorNumber(c, x), PageNumber(c, x.bank, x.vblock, x.page), x.sect, c.sectors);
    DivUnique(SectorNumber(c, x), PageNumber(c, y.bank, y.vblock, y.page), y.sect, c.sectors);
    PageNumberUnique(c, x.bank, x.vblock, x.page, y.bank, y.vblock, y.page);
  }

  lemma SectorNumberRange(c: Setup, x: Place)
    requires UsableSector(c, x)
    ensures FirstSector(c) <= SectorNumber(c, x) < FirstSector(c) + UsableSectors(c)
  {
    var b := x.bank * c.blks + x.vblock - 1;
    var p := b * c.pages + x.page;
    SlotOrder(x.bank, c.banks, c.blks);
    SlotOrder(b, c.banks * c.blks, c.pages);
    SlotOrder(p, c.banks * c.blks * c.pages, c.sectors);
    Distribute(b, 1, c.pages);
    Distribute(p, c.pages, c.sectors);
  }

  lemma QuotientBelow(k: nat, m: nat, n: nat)
    requires 0 < n && k < m * n
    ensures k / n < m && k == k / n * n + k % n
  {
    if m <= k / n { MulMonotone(m, k / n, n); }
  }

  /** Every number in the range is that of a usable sector. */
  lemma SectorOfNumber(c: Setup, k: nat) returns (x: Place)
    requires 0 < c.blks && 0 < c.pages && 0 < c.sectors && k < UsableSectors(c)
    ensures UsableSector(c, x) && SectorNumber(c, x) == FirstSector(c) + k
  {
    QuotientBelow(k, c.banks * c.blks * c.pages, c.sectors);
    var p := k / c.sectors;
    QuotientBelow(p, c.banks * c.blks, c.pages);
    var b := p / c.pages;
    QuotientBelow(b, c.banks, c.blks);
    x := Place(b / c.blks, b % c.blks + 1, p % c.pages, k % c.sectors);
    Distribute(b, 1, c.pages);
    Distribute(p, c.pages, c.sectors);
  }

  /** Sectors share a position when their numbers differ by this many. */
  const WRAP_SECTORS: nat := 0x80_0000

  lemma SamePosition(c: Setup, x: Place, y: Place)
    requires SectorNumber(c, x) + WRAP_SECTORS == SectorNumber(c, y)
    ensures PositionOf(c, x) == PositionOf(c, y)
  {
  }

  lemma SamePositionApart(c: Setup, x: Place, y: Place)
    requires PositionOf(c, x) == PositionOf(c, y) && SectorNumber(c, x) < SectorNumber(c, y)
    ensures SectorNumber(c, x) + WRAP_SECTORS <= SectorNumber(c, y)
  {
    SameResidue(SectorNumber(c, x) * BYTES_PER_SECTOR, SectorNumber(c, y) * BYTES_PER_SECTOR, TWO_TO_32);
  }

  /** File addressing is injective on the usable sectors exactly when all of
      them, end to end, are no longer than 32 bits can count. */
  lemma PositionsDifferExactly(c: Setup)
    requires 0 < c.blks && 0 < c.pages && 0 < c.sectors
    ensures PositionsDiffer(c) <==> UsableSectors(c) * BYTES_PER_SECTOR <= TWO_TO_32
  {
    if UsableSectors(c) <= WRAP_SECTORS {
      forall x: Place, y: Place | UsableSector(c, x) && UsableSector(c, y) && PositionOf(c, x) == PositionOf(c, y)
        ensures x == y
      {
        SectorNumberRange(c, x);
        SectorNumberRange(c, y);
        if SectorNumber(c, x) < SectorNumber(c, y) { SamePositionApart(c, x, y); }
        if SectorNumber(c, y) < SectorNumber(c, x) { SamePositionApart(c, y, x); }
        SectorNumberUnique(c, x, y);
      }
    } else {
      var x := SectorOfNumber(c, 0);
      var y := SectorOfNumber(c, WRAP_SECTORS);
      SamePosition(c, x, y);
    }
  }

  /** They are where unbounded arithmetic puts them exactly when, besides, there is
      room for the block before the first one. */
  lemma PositionsFlatExactly(c: Setup)
    requires 0 < c.banks && 0 < c.blks && 0 < c.pages && 0 < c.sectors
    ensures PositionsAreFlat(c) <==> c.NoWrap()
    ensures c.NoWrap() <==> (FirstSector(c) + UsableSectors(c)) * BYTES_PER_SECTOR <= TWO_TO_32
  {
    NoWrapSectors(c);
    if c.NoWrap() {
      forall x: Place | UsableSector(c, x) ensures PositionOf(c, x) == SectorNumber(c, x) * BYTES_PER_SECTOR {
        SectorNumberRange(c, x);
      }
    } else {
      SectorsPositive(c);
      var x := SectorOfNumber(c, UsableSectors(c) - 1);
      assert PositionOf(c, x) < TWO_TO_32 <= SectorNumber(c, x) * BYTES_PER_SECTOR;
    }
  }

  lemma SectorsPositive(c: Setup)
    requires 0 < c.banks && 0 < c.blks && 0 < c.pages && 0 < c.sectors
    ensures 0 < UsableSectors(c)
  {
    MulGrows(c.banks, c.blks);
    MulGrows(c.banks * c.blks, c.pages);
    MulGrows(c.banks * c.blks * c.pages, c.sectors);
  }

  lemma NoWrapSectors(c: Setup)
    ensures c.NoWrap() <==> (FirstSector(c) + UsableSectors(c)) * BYTES_PER_SECTOR <= TWO_TO_32
  {
    Distribute(c.banks * c.blks, 1, c.pages);
    Distribute(c.banks * c.blks * c.pages, c.pages, c.sectors);
    Flatten(PageNumber(c, c.banks, 1, 0), c.sectors, 0, BYTES_PER_SECTOR);
  }

  /** Block 0 of a bank is not usable: the last usable block of the bank before
      is where it would be. */
  lemma LastBlockIsNextZero(c: Setup, bank: nat, page: nat, sect: nat)
    ensures Position(c, bank, c.blks, page, sect) == Position(c, bank + 1, 0, page, sect)
  {
  }

  /** A page of a block before the wrap point, of `all` blocks that end there. */
  lemma BelowWrap(n: nat, all: nat, pages: nat, page: nat, sectors: nat, sect: nat, size: nat)
    requires n < all && page < pages && sect < sectors && size == sectors * BYTES_PER_SECTOR
    requires all * pages * size == TWO_TO_32
    ensures Wrap32(((n * pages + page) * sectors + sect) * BYTES_PER_SECTOR)
         == (n * pages + page) * size + sect * BYTES_PER_SECTOR
    ensures (n * pages + page) * size + size <= TWO_TO_32
  {
    SlotOrder(n, all, pages);
    SlotOrder(n * pages + page, all * pages, size);
    FlatPosition(n * pages + page, sectors, sect, (n * pages + page) * size);
  }

  /** A page of the block that starts at the wrap point. */
  lemma AtWrap(all: nat, pages: nat, page: nat, sectors: nat, sect: nat, size: nat)
    requires 0 < all && page < pages && sect < sectors && size == sectors * BYTES_PER_SECTOR
    requires all * pages * size == TWO_TO_32
    ensures Wrap32(((all * pages + page) * sectors + sect) * BYTES_PER_SECTOR)
         == page * size + sect * BYTES_PER_SECTOR
    ensures page * size + size <= TWO_TO_32
  {
    MulGrows(all, pages);
    SlotOrder(page, all * pages, size);
    Distribute(all * pages, page, size);
    Flatten(all * pages + page, sectors, sect, BYTES_PER_SECTOR);
    LastBlockWraps(page * size + sect * BYTES_PER_SECTOR);
  }

  /** Setups that fit and wrap end right at the wrap point, but for the last block. */
  lemma WrapsAtEnd(c: Setup)
    requires c.Fits() && !c.NoWrap()
    ensures c.banks * c.blks * c.pages * c.PageBytes() == TWO_TO_32
  {
    Flatten(c.banks * c.blks * c.pages, c.sectors, 0, BYTES_PER_SECTOR);
  }

  lemma PositionBelowWrap(c: Setup, bank: nat, vblock: nat, page: nat, sect: nat)
    requires c.Sane() && c.Fits() && !c.NoWrap() && page < c.pages && sect < c.sectors
    requires bank * c.blks + vblock < c.banks * c.blks
    ensures Position(c, bank, vblock, page, sect) == FileStart(c, bank, vblock, page) + sect * BYTES_PER_SECTOR
    ensures FileStart(c, bank, vblock, page) + c.PageBytes() <= TWO_TO_32
  {
    WrapsAtEnd(c);
    BelowWrap(bank * c.blks + vblock, c.banks * c.blks, c.pages, page, c.sectors, sect, c.PageBytes());
  }

  lemma PositionAtWrap(c: Setup, bank: nat, vblock: nat, page: nat, sect: nat)
    requires c.Sane() && c.Fits() && !c.NoWrap() && 0 < c.banks && page < c.pages && sect < c.sectors
    requires bank * c.blks + vblock == c.banks * c.blks
    ensures Position(c, bank, vblock, page, sect) == FileStart(c, bank, vblock, page) + sect * BYTES_PER_SECTOR
    ensures FileStart(c, bank, vblock, page) + c.PageBytes() <= TWO_TO_32
  {
    WrapsAtEnd(c);
    MulGrows(c.banks, c.blks);
    AtWrap(c.banks * c.blks, c.pages, page, c.sectors, sect, c.PageBytes());
  }

  /** Sectors of a page follow each other in the file, which then ends before the
      wrap point. */
  lemma PositionInPage(c: Setup, bank: nat, vblock: nat, page: nat, sect: nat)
    requires c.Sane() && c.Fits() && Usable(c, bank, vblock, page) && sect < c.sectors
    ensures Position(c, bank, vblock, page, sect) == FileStart(c, bank, vblock, page) + sect * BYTES_PER_SECTOR
    ensures FileStart(c, bank, vblock, page) + c.PageBytes() <= TWO_TO_32
  {
    BlockNumberBound(c, bank, vblock);
    if c.NoWrap() {
      FlatPage(c, bank, vblock, page, sect);
    } else if bank * c.blks + vblock < c.banks * c.blks {
      PositionBelowWrap(c, bank, vblock, page, sect);
    } else {
      PositionAtWrap(c, bank, vblock, page, sect);
    }
  }

  lemma LastBlockWraps(x: u32)
    ensures Wrap32(TWO_TO_32 + x) == x
  {
  }

  /** Every block is in one piece. */
  ghost predicate BlocksAreWhole(c: Setup) {
    forall x: Place :: UsableSector(c, x) ==>
      PositionOf(c, x) == Position(c, x.bank, x.vblock, 0, 0) + (x.page * c.sectors + x.sect) * BYTES_PER_SECTOR
  }

  lemma WholeWhenFits(c: Setup, x: Place)
    requires c.Sane() && c.Fits() && UsableSector(c, x)
    ensures PositionOf(c, x) == Position(c, x.bank, x.vblock, 0, 0) + (x.page * c.sectors + x.sect) * BYTES_PER_SECTOR
  {
    PositionInPage(c, x.bank, x.vblock, x.page, x.sect);
    PositionInPage(c, x.bank, x.vblock, 0, 0);
    Distribute(BlockSlot(c, x.bank, x.vblock) * c.pages, x.page, c.PageBytes());
    Flatten(x.page, c.sectors, x.sect, BYTES_PER_SECTOR);
  }

  /** The first and the last sector of the last block. */
  lemma LastBlockSectors(c: Setup)
    requires 0 < c.banks && 0 < c.blks && 0 < c.pages && 0 < c.sectors
    ensures SectorNumber(c, Place(c.banks - 1, c.blks, 0, 0)) == UsableSectors(c)
    ensures SectorNumber(c, Place(c.banks - 1, c.blks, c.pages - 1, c.sectors - 1))
         == UsableSectors(c) + FirstSector(c) - 1
    ensures (c.pages - 1) * c.sectors + (c.sectors - 1) == FirstSector(c) - 1
  {
    Distribute(c.banks, -1, c.blks);
    Distribute(c.banks * c.blks * c.pages, c.pages - 1, c.sectors);
    Distribute(c.pages, -1, c.sectors);
  }

  lemma BeyondWrap(n: nat, k: nat, x: u32)
    requires TWO_TO_32 < (k + n) * BYTES_PER_SECTOR
    ensures x != n * BYTES_PER_SECTOR + (k - 1) * BYTES_PER_SECTOR
  {
  }

  /** If the last block starts before the wrap point and ends beyond, it is not. */
  lemma StraddlingBlock(c: Setup)
    requires c.Sane() && 0 < c.banks && !c.NoWrap() && UsableSectors(c) * BYTES_PER_SECTOR < TWO_TO_32
    ensures !BlocksAreWhole(c)
  {
    var first, last := Place(c.banks - 1, c.blks, 0, 0), Place(c.banks - 1, c.blks, c.pages - 1, c.sectors - 1);
    NoWrapSectors(c);
    LastBlockSectors(c);
    WrapSmall(SectorNumber(c, first) * BYTES_PER_SECTOR);
    assert PositionOf(c, first) == UsableSectors(c) * BYTES_PER_SECTOR;
    BeyondWrap(UsableSectors(c), FirstSector(c), PositionOf(c, last));
    assert UsableSector(c, last);
    assert PositionOf(c, last)
        != Position(c, last.bank, last.vblock, 0, 0) + (last.page * c.sectors + last.sect) * BYTES_PER_SECTOR;
  }

  /** Blocks are in one piece, and different sectors at different positions,
      exactly in the setups that fit. */
  lemma FitsExactly(c: Setup)
    requires c.Sane() && 0 < c.banks
    ensures c.Fits() <==> PositionsDiffer(c) && BlocksAreWhole(c)
  {
    PositionsDifferExactly(c);
    if c.Fits() {
      NoWrapSectors(c);
      forall x: Place | UsableSector(c, x)
        ensures PositionOf(c, x)
             == Position(c, x.bank, x.vblock, 0, 0) + (x.page * c.sectors + x.sect) * BYTES_PER_SECTOR
      {
        WholeWhenFits(c, x);
      }
    } else if UsableSectors(c) * BYTES_PER_SECTOR < TWO_TO_32 {
      StraddlingBlock(c);
    }
  }

  /** Different usable pages do not meet in the file. */
  lemma FileStartsApart(c: Setup, b: nat, v: nat, p: nat, b': nat, v': nat, p': nat)
    requires Usable(c, b, v, p) && Usable(c, b', v', p') && (b != b' || v != v' || p != p')
    ensures FileStart(c, b, v, p) + c.PageBytes() <= FileStart(c, b', v', p')
         || FileStart(c, b', v', p') + c.PageBytes() <= FileStart(c, b, v, p)
  {
    var x, x' := BlockSlot(c, b, v), BlockSlot(c, b', v');
    var n, n' := x * c.pages + p, x' * c.pages + p';
    if n == n' {
      DivUnique(n, x, p, c.pages);
      DivUnique(n, x', p', c.pages);
      BlockSlotUnique(c, b, v, b', v');
    }
    if n < n' { SlotOrder(n, n', c.PageBytes()); } else { SlotOrder(n', n, c.PageBytes()); }
  }

  /** Nor does a usable block meet a page of another one. */
  lemma BlocksApart(c: Setup, b: nat, v: nat, b': nat, v': nat, p': nat)
    requires 1 <= v <= c.blks && 1 <= v' <= c.blks && p' < c.pages && (b != b' || v != v')
    ensures FileStart(c, b', v', p') + c.PageBytes() <= FileStart(c, b, v, 0)
         || FileStart(c, b, v, 0) + c.pages * c.PageBytes() <= FileStart(c, b', v', p')
  {
    var n, n' := BlockSlot(c, b, v), BlockSlot(c, b', v');
    if n == n' { BlockSlotUnique(c, b, v, b', v'); }
    if n < n' {
      SlotOrder(n, n', c.pages);
      Distribute(n * c.pages, c.pages, c.PageBytes());
      MulMonotone(n * c.pages + c.pages, n' * c.pages + p', c.PageBytes());
    } else {
      SlotOrder(n', n, c.pages);
      MulMonotone(n' * c.pages + p' + 1, n * c.pages, c.PageBytes());
      Distribute(n' * c.pages + p', 1, c.PageBytes());
    }
  }

  lemma MulMonotone(x: int, y: int, n: nat)
    requires x <= y
    ensures x * n <= y * n
  {
  }

  /** The shipped emulator: 32 banks of 8 blocks, 128 pages, 64 sectors a page. */
  lemma ShippedEmulatorFits(bankMap: seq<nat>)
    requires |bankMap| == 32
      && forall x, y :: 0 <= x < 32 && 0 <= y < 32 && x != y ==> bankMap[x] != bankMap[y]
    ensures Setup(32, 8, 128, 64, bankMap, 0x4000_0000, 65075200).Sane()
      && Setup(32, 8, 128, 64, bankMap, 0x4000_0000, 65075200).NoWrap()
    ensures Setup(32, 8, 128, 64, bankMap, 0x4000_0000, 65075200).PageBytes() == 32768
  {
  }

  /** The sizes that the emulator's header offers, by data blocks in a bank:
      positions differ, and blocks are in one piece, up to 32 of them, and no position
      wraps up to 31. */
  lemma HeaderOptions(blks: nat, bankMap: seq<nat>)
    requires 0 < blks
    ensures var c := Setup(32, blks, 128, 64, bankMap, 0x4000_0000, 65075200);
      (PositionsDiffer(c) <==> blks <= 32) && (c.Fits() <==> blks <= 32) && (PositionsAreFlat(c) <==> blks <= 31)
  {
    var c := Setup(32, blks, 128, 64, bankMap, 0x4000_0000, 65075200);
    PositionsDifferExactly(c);
    PositionsFlatExactly(c);
  }

  /** With 64 of them, the next option, the first blocks of banks 0 and 16 share
      their positions. */
  lemma LargeOptionShares(bankMap: seq<nat>)
    ensures var c := Setup(32, 64, 128, 64, bankMap, 0x4000_0000, 65075200);
      Usable(c, 0, 1, 0) && Usable(c, 16, 1, 0) && Position(c, 0, 1, 0, 0) == Position(c, 16, 1, 0, 0)
  {
  }

  // ----- operations -----

  /** The backing file, sparse, and the DRAM array. */
  datatype Disk = Disk(file: map<nat, byte>, dram: seq<byte>)

  function FileAt(f: map<nat, byte>, pos: nat): byte { if pos in f then f[pos] else 0 }

  /** Index into the DRAM array for the buffer of a page and a sector in it. */
  function DramIndex(c: Setup, buf: u32, sect: nat): u32 {
    Wrap32(buf + sect * BYTES_PER_SECTOR - c.dramBase)
  }

  function ReadInto(d: Disk, pos: nat, index: nat, n: nat): Disk {
    d.(dram := seq(|d.dram|, a requires 0 <= a < |d.dram| =>
                 if index <= a < index + n then FileAt(d.file, pos + (a - index)) else d.dram[a]))
  }

  function Pwrite(f: map<nat, byte>, pos: nat, data: seq<byte>): map<nat, byte> {
    f + map p: nat | pos <= p < pos + |data| && Within(p, pos, |data|) :: data[p - pos]
  }

  function WriteFrom(d: Disk, pos: nat, index: nat, n: nat): Disk
    requires index + n <= |d.dram|
  {
    d.(file := d.file + map p: nat | pos <= p < pos + n && Within(p, pos, n) :: d.dram[index + (p - pos)])
  }

  lemma WriteFromIsPwrite(d: Disk, pos: nat, index: nat, n: nat)
    requires index + n <= |d.dram|
    ensures WriteFrom(d, pos, index, n) == d.(file := Pwrite(d.file, pos, d.dram[index..index + n]))
  {
  }

  function WriteOnes(d: Disk, pos: nat, n: nat): Disk {
    d.(file := d.file + map p: nat | pos <= p < pos + n && Within(p, pos, n) :: 0xFF)
  }

  datatype Call =
    | Read(bank: nat, vblock: nat, page: nat, sect: nat, num: nat, buf: u32)
    | Write(bank: nat, vblock: nat, page: nat, sect: nat, num: nat, buf: u32)
    | Erase(bank: nat, vblock: nat)
    | Store(addr: u32, val: byte)

  /** A call within a usable block and a page, with its bytes inside the DRAM. */
  ghost predicate Allowed(c: Setup, k: Call) {
    match k
    case Read(bank, vblock, page, sect, num, buf) =>
      Usable(c, bank, vblock, page) && InPage(c, sect, num, buf)
    case Write(bank, vblock, page, sect, num, buf) =>
      Usable(c, bank, vblock, page) && InPage(c, sect, num, buf)
    case Erase(bank, vblock) => Usable(c, bank, vblock, 0)
    case Store(addr, _) => c.dramBase <= addr < c.dramBase + c.dramSize
  }

  predicate InPage(c: Setup, sect: nat, num: nat, buf: u32) {
    && sect < c.sectors && sect + num <= c.sectors
    && c.dramBase <= buf + sect * BYTES_PER_SECTOR
    && buf + sect * BYTES_PER_SECTOR + num * BYTES_PER_SECTOR <= c.dramBase + c.dramSize
  }

  /** What a call on the emulator comes to. */
  function Emulate(c: Setup, k: Call, d: Disk): (r: Disk)
    requires c.Sane() && Allowed(c, k) && |d.dram| == c.dramSize
    ensures |r.dram| == c.dramSize
  {
    match k
    case Read(bank, vblock, page, sect, num, buf) =>
      ReadInto(d, Position(c, bank, vblock, page, sect),
               buf + sect * BYTES_PER_SECTOR - c.dramBase, num * BYTES_PER_SECTOR)
    case Write(bank, vblock, page, sect, num, buf) =>
      WriteFrom(d, Position(c, bank, vblock, page, sect),
                buf + sect * BYTES_PER_SECTOR - c.dramBase, num * BYTES_PER_SECTOR)
    case Erase(bank, vblock) =>
      WriteOnes(d, Position(c, bank, vblock, 0, 0), c.pages * c.PageBytes())
    case Store(addr, val) => d.(dram := d.dram[addr - c.dramBase := val])
  }

  lemma IndexIsFlat(c: Setup, buf: u32, sect: nat, num: nat)
    requires c.Sane() && InPage(c, sect, num, buf)
    ensures DramIndex(c, buf, sect) == buf + sect * BYTES_PER_SECTOR - c.dramBase
    ensures DramIndex(c, buf, sect) + num * BYTES_PER_SECTOR <= c.dramSize
  {
  }

  /** A program of `n` bytes, in terms of position and index. */
  lemma WriteAt(c: Setup, k: Call, d: Disk, index: nat, n: nat)
    requires c.Sane() && k.Write? && Allowed(c, k) && |d.dram| == c.dramSize
    requires index == k.buf + k.sect * BYTES_PER_SECTOR - c.dramBase && n == k.num * BYTES_PER_SECTOR
    ensures index + n <= |d.dram|
    ensures Emulate(c, k, d) == WriteFrom(d, Position(c, k.bank, k.vblock, k.page, k.sect), index, n)
  {
  }

  lemma EmulatedWrite(c: Setup, k: Call, d: Disk, pos: nat, index: nat, n: nat)
    requires c.Sane() && c.Fits() && k.Write? && Allowed(c, k) && |d.dram| == c.dramSize
    requires pos == FileStart(c, k.bank, k.vblock, k.page) + k.sect * BYTES_PER_SECTOR
    requires index == k.buf + k.sect * BYTES_PER_SECTOR - c.dramBase && n == k.num * BYTES_PER_SECTOR
    ensures index + n <= |d.dram| && Emulate(c, k, d) == WriteFrom(d, pos, index, n)
  {
    assert pos == Position(c, k.bank, k.vblock, k.page, k.sect) by {
      PositionInPage(c, k.bank, k.vblock, k.page, k.sect);
    }
    WriteAt(c, k, d, index, n);
  }

  /** A read of `n` bytes likewise. */
  lemma ReadAt(c: Setup, k: Call, d: Disk, index: nat, n: nat)
    requires c.Sane() && k.Read? && Allowed(c, k) && |d.dram| == c.dramSize
    requires index == k.buf + k.sect * BYTES_PER_SECTOR - c.dramBase && n == k.num * BYTES_PER_SECTOR
    ensures index + n <= |d.dram|
    ensures Emulate(c, k, d) == ReadInto(d, Position(c, k.bank, k.vblock, k.page, k.sect), index, n)
  {
  }

  lemma EmulatedRead(c: Setup, k: Call, d: Disk, pos: nat, index: nat, n: nat)
    requires c.Sane() && c.Fits() && k.Read? && Allowed(c, k) && |d.dram| == c.dramSize
    requires pos == FileStart(c, k.bank, k.vblock, k.page) + k.sect * BYTES_PER_SECTOR
    requires index == k.buf + k.sect * BYTES_PER_SECTOR - c.dramBase && n == k.num * BYTES_PER_SECTOR
    ensures index + n <= |d.dram| && Emulate(c, k, d) == ReadInto(d, pos, index, n)
  {
    assert pos == Position(c, k.bank, k.vblock, k.page, k.sect) by {
      PositionInPage(c, k.bank, k.vblock, k.page, k.sect);
    }
    ReadAt(c, k, d, index, n);
  }

  lemma EmulatedErase(c: Setup, k: Call, d: Disk, pos: nat, n: nat)
    requires c.Sane() && c.Fits() && k.Erase? && Allowed(c, k) && |d.dram| == c.dramSize
    requires pos == FileStart(c, k.bank, k.vblock, 0) && n == c.pages * c.PageBytes()
    ensures Emulate(c, k, d) == WriteOnes(d, pos, n)
  {
    PositionInPage(c, k.bank, k.vblock, 0, 0);
  }

  ghost predicate AllAllowed(c: Setup, ks: seq<Call>) {
    forall i :: 0 <= i < |ks| ==> Allowed(c, ks[i])
  }

  ghost function EmulateAll(c: Setup, ks: seq<Call>, d: Disk): (r: Disk)
    requires c.Sane() && AllAllowed(c, ks) && |d.dram| == c.dramSize
    ensures |r.dram| == c.dramSize
    decreases |ks|
  {
    if ks == [] then d else EmulateAll(c, ks[1..], Emulate(c, ks[0], d))
  }

  // ----- what was written stays readable -----

  /** A program of some of the same sectors, or an erase of their block. */
  predicate Overlaps(k: Call, w: Call)
    requires w.Write?
  {
    match k
    case Read(_, _, _, _, _, _) => false
    case Write(bank, vblock, page, sect, num, _) =>
      && bank == w.bank && vblock == w.vblock && page == w.page
      && sect < w.sect + w.num && w.sect < sect + num
    case Erase(bank, vblock) => bank == w.bank && vblock == w.vblock
    case Store(_, _) => false
  }

  lemma WriteSpares(c: Setup, k: Call, w: Call, d: Disk, q: nat, i: nat)
    requires c.Sane() && c.Fits() && Allowed(c, k) && Allowed(c, w) && |d.dram| == c.dramSize
    requires k.Write? && w.Write? && !Overlaps(k, w)
    requires w.sect * BYTES_PER_SECTOR <= i < w.sect * BYTES_PER_SECTOR + w.num * BYTES_PER_SECTOR
    requires q == FileStart(c, w.bank, w.vblock, w.page) + i
    ensures FileAt(Emulate(c, k, d).file, q) == FileAt(d.file, q)
  {
    var start := FileStart(c, k.bank, k.vblock, k.page);
    var pos, index, n := start + k.sect * BYTES_PER_SECTOR, k.buf + k.sect * BYTES_PER_SECTOR - c.dramBase,
                         k.num * BYTES_PER_SECTOR;
    EmulatedWrite(c, k, d, pos, index, n);
    if k.bank != w.bank || k.vblock != w.vblock || k.page != w.page {
      FileStartsApart(c, k.bank, k.vblock, k.page, w.bank, w.vblock, w.page);
    }
    assert !Within(q, pos, n);
  }

  lemma EraseSpares(c: Setup, k: Call, w: Call, d: Disk, q: nat, i: nat)
    requires c.Sane() && c.Fits() && Allowed(c, k) && Allowed(c, w) && |d.dram| == c.dramSize
    requires k.Erase? && w.Write? && !Overlaps(k, w)
    requires i < c.PageBytes() && q == FileStart(c, w.bank, w.vblock, w.page) + i
    ensures FileAt(Emulate(c, k, d).file, q) == FileAt(d.file, q)
  {
    var pos, n := FileStart(c, k.bank, k.vblock, 0), c.pages * c.PageBytes();
    EmulatedErase(c, k, d, pos, n);
    BlocksApart(c, k.bank, k.vblock, w.bank, w.vblock, w.page);
    assert !Within(q, pos, n);
  }

  lemma {:induction false} CallsSpare(c: Setup, ks: seq<Call>, w: Call, d: Disk, q: nat, i: nat)
    requires c.Sane() && c.Fits() && AllAllowed(c, ks) && Allowed(c, w) && |d.dram| == c.dramSize && w.Write?
    requires forall j :: 0 <= j < |ks| ==> !Overlaps(ks[j], w)
    requires w.sect * BYTES_PER_SECTOR <= i < w.sect * BYTES_PER_SECTOR + w.num * BYTES_PER_SECTOR
    requires q == FileStart(c, w.bank, w.vblock, w.page) + i
    ensures FileAt(EmulateAll(c, ks, d).file, q) == FileAt(d.file, q)
    decreases |ks|
  {
    if ks != [] {
      if ks[0].Write? { WriteSpares(c, ks[0], w, d, q, i); }
      if ks[0].Erase? { EraseSpares(c, ks[0], w, d, q, i); }
      CallsSpare(c, ks[1..], w, Emulate(c, ks[0], d), q, i);
    }
  }

  lemma WrittenAt(d: Disk, pos: nat, index: nat, n: nat, j: nat)
    requires index + n <= |d.dram| && j < n
    ensures FileAt(WriteFrom(d, pos, index, n).file, pos + j) == d.dram[index + j]
  {
    assert index + (pos + j - pos) == index + j;
  }

  /** A programmed byte is in the file. */
  lemma Programmed(c: Setup, w: Call, d: Disk, pos: nat, index: nat, j: nat)
    requires c.Sane() && c.Fits() && |d.dram| == c.dramSize && w.Write? && Allowed(c, w) && j < w.num * BYTES_PER_SECTOR
    requires pos == FileStart(c, w.bank, w.vblock, w.page) + w.sect * BYTES_PER_SECTOR
    requires index == w.buf + w.sect * BYTES_PER_SECTOR - c.dramBase
    ensures index + j < |d.dram| && FileAt(Emulate(c, w, d).file, pos + j) == d.dram[index + j]
  {
    EmulatedWrite(c, w, d, pos, index, w.num * BYTES_PER_SECTOR);
    WrittenAt(d, pos, index, w.num * BYTES_PER_SECTOR, j);
  }

  lemma ReadBack(c: Setup, r: Call, d: Disk, pos: nat, index: nat, j: nat)
    requires c.Sane() && c.Fits() && |d.dram| == c.dramSize && r.Read? && Allowed(c, r) && j < r.num * BYTES_PER_SECTOR
    requires pos == FileStart(c, r.bank, r.vblock, r.page) + r.sect * BYTES_PER_SECTOR
    requires index == r.buf + r.sect * BYTES_PER_SECTOR - c.dramBase
    ensures index + j < |d.dram| && Emulate(c, r, d).dram[index + j] == FileAt(d.file, pos + j)
  {
    EmulatedRead(c, r, d, pos, index, r.num * BYTES_PER_SECTOR);
  }

  /** Program then read: whatever calls come between, short of an overlapping
      program or an erase of the block, a later read of the same sectors into any
      buffer delivers the bytes that were programmed. */
  lemma ProgramThenRead(c: Setup, w: Call, ks: seq<Call>, r: Call, d: Disk, from: nat, to: nat, j: nat)
    requires c.Sane() && c.Fits() && |d.dram| == c.dramSize && Allowed(c, w) && AllAllowed(c, ks) && Allowed(c, r)
    requires w.Write? && r.Read? && r.bank == w.bank && r.vblock == w.vblock && r.page == w.page
    requires r.sect == w.sect && r.num == w.num && j < w.num * BYTES_PER_SECTOR
    requires forall l :: 0 <= l < |ks| ==> !Overlaps(ks[l], w)
    requires from == w.buf + w.sect * BYTES_PER_SECTOR - c.dramBase
    requires to == r.buf + r.sect * BYTES_PER_SECTOR - c.dramBase
    ensures from + j < |d.dram| && to + j < |d.dram|
    ensures Emulate(c, r, EmulateAll(c, ks, Emulate(c, w, d))).dram[to + j] == d.dram[from + j]
  {
    var pos := FileStart(c, w.bank, w.vblock, w.page) + w.sect * BYTES_PER_SECTOR;
    var d1 := Emulate(c, w, d);
    Programmed(c, w, d, pos, from, j);
    CallsSpare(c, ks, w, d1, pos + j, w.sect * BYTES_PER_SECTOR + j);
    ReadBack(c, r, EmulateAll(c, ks, d1), pos, to, j);
  }

  lemma ReadWhatWasWritten(d: Disk, pos: nat, from: nat, to: nat, n: nat, j: nat)
    requires from + n <= |d.dram| && to + n <= |d.dram| && j < n
    ensures ReadInto(WriteFrom(d, pos, from, n), pos, to, n).dram[to + j] == d.dram[from + j]
  {
    var a := to + j;
    WrittenAt(d, pos, from, n, j);
    assert pos + (a - to) == pos + j;
  }

  /** In setups where a program of another page has the same position, it is that
      one's bytes which a later read delivers. */
  lemma SharedIsOverwritten(c: Setup, w: Call, k: Call, r: Call, d: Disk, from: nat, to: nat, j: nat)
    requires c.Sane() && |d.dram| == c.dramSize && Allowed(c, w) && Allowed(c, k) && Allowed(c, r)
    requires w.Write? && k.Write? && r.Read? && r == Read(w.bank, w.vblock, w.page, w.sect, w.num, r.buf)
    requires k.num == w.num
    requires Position(c, k.bank, k.vblock, k.page, k.sect) == Position(c, w.bank, w.vblock, w.page, w.sect)
    requires from == k.buf + k.sect * BYTES_PER_SECTOR - c.dramBase
    requires to == r.buf + r.sect * BYTES_PER_SECTOR - c.dramBase && j < w.num * BYTES_PER_SECTOR
    ensures from + j < |d.dram| && to + j < |d.dram|
    ensures Emulate(c, r, Emulate(c, k, Emulate(c, w, d))).dram[to + j] == d.dram[from + j]
  {
    var d1 := Emulate(c, w, d);
    var d2 := Emulate(c, k, d1);
    WriteAt(c, w, d, w.buf + w.sect * BYTES_PER_SECTOR - c.dramBase, w.num * BYTES_PER_SECTOR);
    WriteAt(c, k, d1, from, k.num * BYTES_PER_SECTOR);
    ReadAt(c, r, d2, to, r.num * BYTES_PER_SECTOR);
    ReadWhatWasWritten(d1, Position(c, k.bank, k.vblock, k.page, k.sect), from, to, k.num * BYTES_PER_SECTOR, j);
  }

  class Mock {
    const c: Setup
    const dram: array<byte>
    var file: map<nat, byte>

    ghost predicate Valid()
      reads this
    {
      c.Sane() && dram.Length == c.dramSize
    }

    ghost function Contents(): Disk
      reads this, dram
    {
      Disk(file, dram[..])
    }

    /** A partial page read: `pread` into the DRAM array. */
    method NandPagePtread(bank: nat, vblock: nat, page: nat, sect: nat, num: nat, buf: u32)
      requires Valid() && Allowed(c, Read(bank, vblock, page, sect, num, buf))
      modifies dram
      ensures Valid() && Contents() == Emulate(c, Read(bank, vblock, page, sect, num, buf), old(Contents()))
    {
      var position := Position(c, bank, vblock, page, sect);
      var numBytes := num * BYTES_PER_SECTOR;
      var realAddr := DramIndex(c, buf, sect);
      IndexIsFlat(c, buf, sect, num);
      ReadAt(c, Read(bank, vblock, page, sect, num, buf), Contents(), realAddr, numBytes);
      forall a | realAddr <= a < realAddr + numBytes {
        dram[a] := FileAt(file, position + (a - realAddr));
      }
    }

    /** A partial page program: `pwrite` from the DRAM array. */
    method NandPagePtprogram(bank: nat, vblock: nat, page: nat, sect: nat, num: nat, buf: u32)
      requires Valid() && Allowed(c, Write(bank, vblock, page, sect, num, buf))
      modifies this`file
      ensures Valid() && Contents() == Emulate(c, Write(bank, vblock, page, sect, num, buf), old(Contents()))
    {
      var position := Position(c, bank, vblock, page, sect);
      var numBytes := num * BYTES_PER_SECTOR;
      var realAddr := DramIndex(c, buf, sect);
      IndexIsFlat(c, buf, sect, num);
      WriteAt(c, Write(bank, vblock, page, sect, num, buf), Contents(), realAddr, numBytes);
      WriteFromIsPwrite(Contents(), position, realAddr, numBytes);
      assert Contents().dram[realAddr..realAddr + numBytes] == dram[realAddr..realAddr + numBytes];
      file := Pwrite(file, position, dram[realAddr..realAddr + numBytes]);
    }

    /** Erasing writes ones over the block. */
    method NandBlockErase(bank: nat, vblock: nat)
      requires Valid() && Allowed(c, Erase(bank, vblock))
      modifies this`file
      ensures Valid() && Contents() == Emulate(c, Erase(bank, vblock), old(Contents()))
    {
      var position := Position(c, bank, vblock, 0, 0);
      var numBytes := c.pages * c.PageBytes();
      file := file + map p: nat | position <= p < position + numBytes && Within(p, position, numBytes) :: 0xFF;
    }

    /** A store of the firmware into the DRAM array. */
    method WriteDram8(addr: u32, val: byte)
      requires Valid() && Allowed(c, Store(addr, val))
      modifies dram
      ensures Valid() && Contents() == Emulate(c, Store(addr, val), old(Contents()))
    {
      var realAddr := addr - c.dramBase;
      dram[realAddr] := val;
    }
  }
}
