/** The driver refines the emulator: its nand_* calls, on the asynchronous
    hardware and with any return modes, come to what the same calls on the
    emulator do, for every page by its block and page number. */
module DriverRefined {
  import opened Common
  import Division
  import opened FlashMemory
  import opened FlashCommands
  import opened FlashCalls
  import opened FlashEngine
  import opened FlashRuns
  import opened FlashDriver
  import opened Emulator
  import opened EmulatorRefined

  /** Row numbers, read back: the block is the quotient and the page the remainder. */
  lemma PageRowExact(g: Geometry, vblock: nat, page: nat)
    requires page < g.pagesPerBlk
    ensures g.PageRow(vblock, page) / g.pagesPerBlk == vblock && g.PageRow(vblock, page) % g.pagesPerBlk == page
  {
    Division.DivUnique(g.PageRow(vblock, page), vblock, page, g.pagesPerBlk);
  }

  /** The driver is configured like the emulator, with room for its blocks. */
  ghost predicate SameChip(c: Setup, dr: Driver) {
    Matches(c, dr.g) && dr.bankMap == c.bankMap && c.blks < dr.vblksPerBank
  }

  /** The DRAM bytes of a call are not in use by other banks, or, for a store, by any. */
  ghost predicate May(c: Setup, g: Geometry, e: Engine, k: Call)
    requires !k.Store? ==> k.bank < |c.bankMap|
  {
    if k.Store? then Untouched(g, e, k.addr) else ApartFrom(g, e, c.bankMap[k.bank], CallOps(c, k))
  }

  /** The later call `k` meets nothing of the earlier call `before`. */
  ghost predicate Separate(c: Setup, before: Call, k: Call)
    requires !before.Store? ==> before.bank < |c.bankMap|
    requires !k.Store? ==> k.bank < |c.bankMap|
  {
    if before.Store? then true
    else if k.Store? then NeverTouches(CallOps(c, before), k.addr)
    else c.bankMap[k.bank] == c.bankMap[before.bank] || Independent(CallOps(c, k), CallOps(c, before))
  }

  /** After the call `k`, calls that do not meet it may still be made. */
  ghost predicate StillMay(c: Setup, g: Geometry, e: Engine, e': Engine, k: Call)
    requires c.Sane() && Allowed(c, k)
  {
    forall x: Call :: Allowed(c, x) && May(c, g, e, x) && Separate(c, k, x) ==> May(c, g, e', x)
  }

  // ----- one call -----

  method PerformRead(dr: Driver, k: Call, sync: u32, ghost c: Setup, ghost erased: set<(nat, nat)>, ghost d: Disk)
    requires dr.Ready() && SameChip(c, dr) && k.Read? && Allowed(c, k) && May(c, dr.g, dr.engine, k)
    requires Agrees(c, erased, d, Settled(dr.g, dr.engine)) && (k.bank, k.vblock) in erased
    modifies dr
    ensures dr.Ready() && Agrees(c, erased, Emulate(c, k, d), Settled(dr.g, dr.engine))
    ensures StaysApart(dr.g, old(dr.engine), dr.engine, c.bankMap[k.bank], CallOps(c, k))
  {
    ghost var m := Settled(dr.g, dr.engine);
    dr.NandPagePtread(k.bank, k.vblock, k.page, k.sect, k.num, k.buf, sync);
    ReadKeepsAgreement(c, erased, k, d, m);
  }

  method PerformWrite(dr: Driver, k: Call, sync: u32, ghost c: Setup, ghost erased: set<(nat, nat)>, ghost d: Disk)
    requires dr.Ready() && SameChip(c, dr) && k.Write? && Allowed(c, k) && May(c, dr.g, dr.engine, k)
    requires Agrees(c, erased, d, Settled(dr.g, dr.engine))
    modifies dr
    ensures dr.Ready() && Agrees(c, erased, Emulate(c, k, d), Settled(dr.g, dr.engine))
    ensures StaysApart(dr.g, old(dr.engine), dr.engine, c.bankMap[k.bank], CallOps(c, k))
  {
    ghost var m := Settled(dr.g, dr.engine);
    dr.NandPagePtprogram(k.bank, k.vblock, k.page, k.sect, k.num, k.buf, sync);
    WriteKeepsAgreement(c, erased, k, d, m);
  }

  method PerformErase(dr: Driver, k: Call, sync: bool, ghost c: Setup, ghost erased: set<(nat, nat)>, ghost d: Disk)
    requires dr.Ready() && SameChip(c, dr) && k.Erase? && Allowed(c, k) && May(c, dr.g, dr.engine, k)
    requires Agrees(c, erased, d, Settled(dr.g, dr.engine))
    modifies dr
    ensures dr.Ready() && Agrees(c, erased + {(k.bank, k.vblock)}, Emulate(c, k, d), Settled(dr.g, dr.engine))
    ensures StaysApart(dr.g, old(dr.engine), dr.engine, c.bankMap[k.bank], CallOps(c, k))
  {
    ghost var m := Settled(dr.g, dr.engine);
    dr.NandBlockErase(k.bank, k.vblock, sync);
    EraseKeepsAgreement(c, dr.g, erased, k, d, m);
  }

  method PerformStore(dr: Driver, k: Call, ghost c: Setup, ghost erased: set<(nat, nat)>, ghost d: Disk)
    requires dr.Ready() && SameChip(c, dr) && k.Store? && Allowed(c, k) && May(c, dr.g, dr.engine, k)
    requires Agrees(c, erased, d, Settled(dr.g, dr.engine))
    modifies dr
    ensures dr.Ready() && Agrees(c, erased, Emulate(c, k, d), Settled(dr.g, dr.engine))
    ensures forall b: nat, xs :: old(ApartFrom(dr.g, dr.engine, b, xs)) ==> ApartFrom(dr.g, dr.engine, b, xs)
    ensures forall a :: old(Untouched(dr.g, dr.engine, a)) ==> Untouched(dr.g, dr.engine, a)
  {
    ghost var m := Settled(dr.g, dr.engine);
    dr.StoreByte(k.addr, k.val);
    StoreKeepsAgreement(c, erased, k, d, m);
  }

  /** One call, with any return mode: what the memory settles to then agrees with
      the emulator after the same call. Later calls that do not meet this one
      still may be made. */
  method Perform(dr: Driver, k: Call, sync: u32, ghost c: Setup, ghost erased: set<(nat, nat)>, ghost d: Disk)
    requires dr.Ready() && SameChip(c, dr) && Allowed(c, k) && May(c, dr.g, dr.engine, k)
    requires Agrees(c, erased, d, Settled(dr.g, dr.engine)) && (k.Read? ==> (k.bank, k.vblock) in erased)
    modifies dr
    ensures dr.Ready() && Agrees(c, ErasedAfter(erased, k), Emulate(c, k, d), Settled(dr.g, dr.engine))
    ensures StillMay(c, dr.g, old(dr.engine), dr.engine, k)
  {
    match k {
      case Read(_, _, _, _, _, _) => PerformRead(dr, k, sync, c, erased, d);
      case Write(_, _, _, _, _, _) => PerformWrite(dr, k, sync, c, erased, d);
      case Erase(_, _) => PerformErase(dr, k, sync == RETURN_WHEN_DONE, c, erased, d);
      case Store(_, _) => PerformStore(dr, k, c, erased, d);
    }
  }

  // ----- any number of calls -----

  ghost predicate AllMay(c: Setup, g: Geometry, e: Engine, ks: seq<Call>)
    requires c.Sane() && AllAllowed(c, ks)
  {
    forall i :: 0 <= i < |ks| ==> May(c, g, e, ks[i])
  }

  ghost predicate AllSeparate(c: Setup, ks: seq<Call>)
    requires c.Sane() && AllAllowed(c, ks)
  {
    forall i, j :: 0 <= i < j < |ks| ==> Separate(c, ks[i], ks[j])
  }

  lemma FirstAndRest(c: Setup, g: Geometry, e: Engine, e': Engine, erased: set<(nat, nat)>, ks: seq<Call>)
    requires c.Sane() && ks != [] && AllAllowed(c, ks) && AllSeparate(c, ks) && Orderly(erased, ks)
    requires AllMay(c, g, e, ks) && StillMay(c, g, e, e', ks[0])
    ensures AllAllowed(c, ks[1..]) && AllSeparate(c, ks[1..]) && Orderly(ErasedAfter(erased, ks[0]), ks[1..])
    ensures AllMay(c, g, e', ks[1..])
  {
    forall i | 0 <= i < |ks[1..]| ensures May(c, g, e', ks[1..][i]) {
      assert ks[1..][i] == ks[i + 1] && Separate(c, ks[0], ks[i + 1]);
    }
  }

  /** Any calls one after the other, with any return modes, while the hardware
      takes its steps whenever it likes: the memory settles to what agrees with the
      emulator after the same calls. Calls on different banks, and stores after
      calls, are not to meet in DRAM; reads are of erased blocks. */
  method PerformAll(dr: Driver, ks: seq<Call>, syncs: seq<u32>, ghost c: Setup, ghost erased: set<(nat, nat)>,
                    ghost d: Disk)
    requires dr.Ready() && SameChip(c, dr) && AllAllowed(c, ks) && |syncs| == |ks|
    requires AllMay(c, dr.g, dr.engine, ks) && AllSeparate(c, ks) && Orderly(erased, ks)
    requires Agrees(c, erased, d, Settled(dr.g, dr.engine))
    modifies dr
    ensures dr.Ready() && Agrees(c, ErasedInAll(erased, ks), EmulateAll(c, ks, d), Settled(dr.g, dr.engine))
    decreases |ks|
  {
    if ks != [] {
      ghost var before := dr.engine;
      Perform(dr, ks[0], syncs[0], c, erased, d);
      FirstAndRest(c, dr.g, before, dr.engine, erased, ks);
      PerformAll(dr, ks[1..], syncs[1..], c, ErasedAfter(erased, ks[0]), Emulate(c, ks[0], d));
    }
  }

  /** And once the driver has waited for all banks, the memory itself agrees. */
  method PerformAndFinish(dr: Driver, ks: seq<Call>, syncs: seq<u32>, ghost c: Setup, ghost erased: set<(nat, nat)>,
                          ghost d: Disk)
    requires dr.Ready() && SameChip(c, dr) && AllAllowed(c, ks) && |syncs| == |ks|
    requires AllMay(c, dr.g, dr.engine, ks) && AllSeparate(c, ks) && Orderly(erased, ks)
    requires Agrees(c, erased, d, Settled(dr.g, dr.engine))
    modifies dr
    ensures dr.Ready() && Idle(dr.engine)
    ensures Agrees(c, ErasedInAll(erased, ks), EmulateAll(c, ks, d), dr.engine.mem)
  {
    PerformAll(dr, ks, syncs, c, erased, d);
    dr.FlashFinish();
  }

  // ----- the copybacks, which the emulator lacks -----

  /** A page by its bank, block and number in the block. */
  datatype Site = Site(bank: nat, vblock: nat, page: nat)

  predicate OnChip(c: Setup, m: Mem, x: Site) {
    x.bank < |c.bankMap| && c.bankMap[x.bank] < |m.banks| && x.page < c.pages
  }

  function PageAt(c: Setup, m: Mem, x: Site): Page
    requires OnChip(c, m, x)
  {
    Row(m.banks[c.bankMap[x.bank]], RowNumber(c, x.vblock, x.page))
  }

  /** Byte `i` of a copy of the page at `from`, in which `cnt` bytes from offset
      `off` on are those at `addr` in DRAM. */
  function CopiedByte(c: Setup, m: Mem, from: Site, off: nat, cnt: nat, addr: int, d: Dram, i: nat): byte
    requires OnChip(c, m, from)
  {
    if off <= i < off + cnt then Peek(d, addr + (i - off)) else At(PageAt(c, m, from), i)
  }

  /** What a copy within a bank is to do: the page at `to` shows the copy, no
      other page changes, and no DRAM byte outside the copy buffer. */
  ghost predicate PageCopied(c: Setup, m: Mem, m': Mem, from: Site, to: Site, off: nat, cnt: nat, addr: int,
                             ca: CopyArea)
    requires OnChip(c, m, from) && OnChip(c, m, to) && |m'.banks| == |m.banks|
  {
    && (forall i: nat :: i < c.PageBytes() ==>
          At(PageAt(c, m', to), i) == CopiedByte(c, m, from, off, cnt, addr, m'.dram, i))
    && (forall x: Site :: OnChip(c, m, x) && x != to ==> PageAt(c, m', x) == PageAt(c, m, x))
    && (forall a: int :: !(ca.base <= a < ca.base + ca.bytes) ==> Peek(m'.dram, a) == Peek(m.dram, a))
  }

  lemma SameRow(c: Setup, g: Geometry, x: Site)
    requires Matches(c, g)
    ensures g.PageRow(x.vblock, x.page) == RowNumber(c, x.vblock, x.page)
  {
  }

  lemma CopyIsOfPages(c: Setup, ca: CopyArea, from: Site, to: Site, sect: nat, addr: int, cnt: nat, m: Mem)
    requires c.Sane() && |c.bankMap| == c.banks && OnChip(c, m, from) && OnChip(c, m, to) && from.bank == to.bank
    requires ca.Fits() && ca.bytes == c.PageBytes()
    ensures PageCopied(c, m,
              ModifiedCopy(ca, c.bankMap[to.bank], RowNumber(c, from.vblock, from.page),
                           RowNumber(c, to.vblock, to.page), sect, addr, cnt, m),
              from, to, sect * BYTES_PER_SECTOR, cnt, addr, ca)
  {
    var b, srcRow, dstRow := c.bankMap[to.bank], RowNumber(c, from.vblock, from.page), RowNumber(c, to.vblock, to.page);
    var off := sect * BYTES_PER_SECTOR;
    var m' := ModifiedCopy(ca, b, srcRow, dstRow, sect, addr, cnt, m);
    forall i: nat | i < c.PageBytes()
      ensures At(PageAt(c, m', to), i) == CopiedByte(c, m, from, off, cnt, addr, m'.dram, i)
    {
      SpliceAt(ca.bytes, Row(m.banks[b], srcRow), off, cnt, m'.dram, addr, i, addr + (i - off));
    }
    forall x: Site | OnChip(c, m, x) && x != to ensures PageAt(c, m', x) == PageAt(c, m, x) {
      if x.bank == to.bank {
        if RowNumber(c, x.vblock, x.page) == dstRow { RowNumberUnique(c, x.vblock, x.page, to.vblock, to.page); }
      } else {
        assert c.bankMap[x.bank] != b;
      }
    }
  }

  /** A copy of a page to another page of its bank. */
  method CopyPage(dr: Driver, from: Site, to: Site, ghost c: Setup)
    requires dr.Ready() && SameChip(c, dr) && from.bank == to.bank < c.banks
    requires dr.Addresses(from.bank, from.vblock, from.page) && dr.Addresses(to.bank, to.vblock, to.page)
    requires ApartFrom(dr.g, dr.engine, c.bankMap[to.bank],
               WholePageCopy(dr.g.CopyBuf(c.bankMap[to.bank]), RowNumber(c, from.vblock, from.page),
                             RowNumber(c, to.vblock, to.page)))
    modifies dr
    ensures dr.Ready() && |dr.engine.work| == old(|dr.engine.work|)
    ensures PageCopied(c, old(Settled(dr.g, dr.engine)), Settled(dr.g, dr.engine), from, to, 0, 0, 0,
                       dr.g.CopyBuf(c.bankMap[to.bank]))
  {
    ghost var m := Settled(dr.g, dr.engine);
    SameRow(c, dr.g, from);
    SameRow(c, dr.g, to);
    dr.NandPageCopyback(to.bank, from.vblock, from.page, to.vblock, to.page);
    CopyIsOfPages(c, dr.g.CopyBuf(c.bankMap[to.bank]), from, to, 0, 0, 0, m);
  }

  /** The same with whole sectors of the page replaced. */
  method CopyPageModified(dr: Driver, from: Site, to: Site, sect: nat, addr: u32, cnt: nat, ghost c: Setup)
    requires dr.Ready() && SameChip(c, dr) && from.bank == to.bank < c.banks
    requires dr.Addresses(from.bank, from.vblock, from.page) && dr.Addresses(to.bank, to.vblock, to.page)
    requires sect * BYTES_PER_SECTOR + cnt <= c.PageBytes() && addr + cnt <= TWO_TO_32 && cnt % BYTES_PER_SECTOR == 0
    requires ApartFrom(dr.g, dr.engine, c.bankMap[to.bank],
               dr.ModifyOps(c.bankMap[to.bank], RowNumber(c, from.vblock, from.page),
                            RowNumber(c, to.vblock, to.page), sect, addr, cnt))
    modifies dr
    ensures dr.Ready() && |dr.engine.work| == old(|dr.engine.work|)
    ensures PageCopied(c, old(Settled(dr.g, dr.engine)), Settled(dr.g, dr.engine), from, to,
                       sect * BYTES_PER_SECTOR, cnt, addr, dr.g.CopyBuf(c.bankMap[to.bank]))
  {
    ghost var m := Settled(dr.g, dr.engine);
    SameRow(c, dr.g, from);
    SameRow(c, dr.g, to);
    dr.NandPageModifiedCopyback(to.bank, from.vblock, from.page, to.vblock, to.page, sect, addr, cnt);
    CopyIsOfPages(c, dr.g.CopyBuf(c.bankMap[to.bank]), from, to, sect, addr, cnt, m);
  }
}
