/** What the driver issues is what whole runs are made of: its modified
    copybacks are the tasks of a bank, its reads for the host and programs from the
    host are the requests that the rings of SATA buffers serve. */
module DriverRuns {
  import opened Common
  import Division
  import opened FlashMemory
  import opened FlashCommands
  import opened FlashCalls
  import opened FlashEngine
  import opened FlashRuns
  import opened FlashDriver
  import opened DramLayout
  import opened ReadRing
  import FlashApart
  import FlashCopybacks
  import HostReads
  import HostWrites
  import SataBuffers

  /** The events of issuing commands. */
  function Issues(cs: seq<Cmd>): seq<Event> { seq(|cs|, i requires 0 <= i < |cs| => FwIssue(cs[i])) }

  lemma {:induction false} WorkIsBankOps(g: Geometry, b: nat, cs: seq<Cmd>)
    requires forall i :: 0 <= i < |cs| ==> cs[i].bank == b
    ensures FlashApart.BankOps(g, b, Issues(cs)) == WorkOf(g, cs)
    decreases |cs|
  {
    if cs != [] {
      assert Issues(cs)[1..] == Issues(cs[1..]);
      WorkIsBankOps(g, b, cs[1..]);
    }
  }

  lemma DoesCarryOut(g: Geometry, before: seq<Cmd>, after: seq<Cmd>, b: nat, k: FlashCopybacks.Copyback)
    requires k.Off() + k.cnt <= g.CopyBuf(b).bytes
    requires DoesAll(g, before, after, b, FlashCopybacks.CopybackOps(g.CopyBuf(b), k))
    ensures FlashCopybacks.CarriesOut(g, b, FlashCopybacks.Copying(k), Issues(after[|before|..]))
  {
    WorkIsBankOps(g, b, after[|before|..]);
  }

  /** A modified copyback, whichever way the driver takes, carries out the task of
      its rows, sectors and buffer. */
  method IssueCopyback(dr: Driver, bank: nat, srcVblock: nat, srcPage: nat, dstVblock: nat, dstPage: nat,
                       sect: nat, dmaAddr: u32, cnt: nat)
    requires dr.Ready() && dr.Addresses(bank, srcVblock, srcPage) && dr.Addresses(bank, dstVblock, dstPage)
    requires sect * BYTES_PER_SECTOR + cnt <= dr.g.CopyBuf(dr.bankMap[bank]).bytes && dmaAddr + cnt <= TWO_TO_32
    requires ApartFrom(dr.g, dr.engine, dr.bankMap[bank],
               dr.ModifyOps(dr.bankMap[bank], dr.g.PageRow(srcVblock, srcPage), dr.g.PageRow(dstVblock, dstPage),
                            sect, dmaAddr, cnt))
    modifies dr
    ensures dr.Ready() && |old(dr.engine.issued)| <= |dr.engine.issued|
    ensures var srcRow, dstRow := dr.g.PageRow(srcVblock, srcPage), dr.g.PageRow(dstVblock, dstPage);
      var k := FlashCopybacks.Copyback(srcRow, dstRow, sect, dmaAddr, cnt,
                                       dr.copybackAllowed(srcRow, dstRow) && dr.modifyCopy);
      FlashCopybacks.CarriesOut(dr.g, dr.bankMap[bank], FlashCopybacks.Copying(k),
                                Issues(dr.engine.issued[|old(dr.engine.issued)|..]))
  {
    dr.NandPageModifiedCopyback(bank, srcVblock, srcPage, dstVblock, dstPage, sect, dmaAddr, cnt);
    ghost var srcRow, dstRow := dr.g.PageRow(srcVblock, srcPage), dr.g.PageRow(dstVblock, dstPage);
    DoesCarryOut(dr.g, old(dr.engine.issued), dr.engine.issued, dr.bankMap[bank],
                 FlashCopybacks.Copyback(srcRow, dstRow, sect, dmaAddr, cnt,
                                         dr.copybackAllowed(srcRow, dstRow) && dr.modifyCopy));
  }

  /** The command of a read for the host is the one of a request in the run: for
      the row of its block and page, and into the buffer that its number in the
      order of requests gives. */
  method IssueRequest(dr: Driver, bank: nat, vblock: nat, page: nat, sect: nat, num: nat, ring: Ring, c: Config)
    requires dr.Ready() && dr.Addresses(bank, vblock, page) && sect + num <= dr.g.sectorsPerPage
    requires ring.Valid() && c.Roomy() && ring.size == c.NumRd() && c.pageBytes == dr.g.PageBytes()
    requires c.dramBase + c.dramSize <= TWO_TO_32
    requires ApartFrom(dr.g, dr.engine, dr.bankMap[bank],
               ReadOut(dr.g.PageRow(vblock, page), Ptr(c, Rd(ring.bufId)), sect, num * BYTES_PER_SECTOR))
    modifies dr, ring
    ensures dr.Ready() && ring.Valid() && |dr.engine.issued| == |old(dr.engine.issued)| + 1
    ensures var q := SataBuffers.Request(dr.bankMap[bank], dr.g.PageRow(vblock, page), sect, num * BYTES_PER_SECTOR);
      var cmd := dr.engine.issued[|old(dr.engine.issued)|];
      && cmd.bank == q.bank && SataBuffers.Fits(HostReads.RingOf(c), q)
      && Decode(dr.g, cmd)
         == ReadOut(q.row, SataBuffers.BufOf(HostReads.RingOf(c), old(ring.sent + ring.pending)), q.sect, q.cnt)
  {
    HostReads.LayoutHasRing(c, ring.sent + ring.pending);
    SectorsInPage(sect, num, dr.g.sectorsPerPage);
    dr.NandPagePtreadToHost(bank, vblock, page, sect, num, ring, c);
  }

  /** The write buffers of the DRAM layout. */
  function WriteRing(c: Config): SataBuffers.Buffers
    requires c.Sane() && 0 <= c.WrBufAddr() && 0 <= c.NumWr()
  {
    SataBuffers.Buffers(c.WrBufAddr(), c.NumWr(), c.pageBytes)
  }

  /** So is the command of the `k`-th program of data from the host, which leaves
      the buffer of the next one as the one to be used next. */
  method IssueProgramRequest(dr: Driver, bank: nat, vblock: nat, page: nat, sect: nat, num: nat, bufId: nat, c: Config,
                             ghost k: nat)
    returns (next: nat)
    requires dr.Ready() && dr.Addresses(bank, vblock, page) && sect + num <= dr.g.sectorsPerPage
    requires c.Roomy() && 2 <= c.NumWr() && bufId == k % c.NumWr() && c.pageBytes == dr.g.PageBytes()
    requires 0 <= c.WrBufAddr() && c.dramBase + c.dramSize <= TWO_TO_32
    requires ApartFrom(dr.g, dr.engine, dr.bankMap[bank],
               InProg(dr.g.PageRow(vblock, page), Ptr(c, Wr(bufId)), sect, num * BYTES_PER_SECTOR))
    modifies dr
    ensures dr.Ready() && |dr.engine.issued| == |old(dr.engine.issued)| + 1 && next == (k + 1) % c.NumWr()
    ensures var q := SataBuffers.Request(dr.bankMap[bank], dr.g.PageRow(vblock, page), sect, num * BYTES_PER_SECTOR);
      var cmd := dr.engine.issued[|old(dr.engine.issued)|];
      && cmd.bank == q.bank && SataBuffers.Fits(WriteRing(c), q)
      && Decode(dr.g, cmd) == HostWrites.OpsOf(WriteRing(c), k, q)
  {
    HostWrites.LayoutHasRing(c, WriteRing(c), k);
    SectorsInPage(sect, num, dr.g.sectorsPerPage);
    Division.NextResidue(k, c.NumWr());
    next := dr.NandPagePtprogramFromHost(bank, vblock, page, sect, num, bufId, c);
  }
}
