/** The firmware's side of the flash controller: the FCP registers, the issue
    routine with its three return modes, and the nand_* calls built on it. The
    hardware may take any number of steps whenever the firmware is not storing
    to a register it reads. */
module FlashDriver {
  import opened Common
  import opened FlashMemory
  import opened FlashCommands
  import opened FlashCalls
  import opened FlashEngine
  import opened FlashRuns
  import opened DramLayout
  import opened ReadRing

  // return modes of the issue routine
  const RETURN_ON_ISSUE: u32 := 0
  const RETURN_ON_ACCEPT: u32 := 1
  const RETURN_WHEN_DONE: u32 := 2

  // option flags
  const FO_P: u32 := 0x01
  const FO_E: u32 := 0x06
  const FO_B_W_DRDY: u32 := 0x40
  const FO_B_SATA_W: u32 := 0x80
  const FO_B_SATA_R: u32 := 0x100

  /** What any number of hardware steps may do between two firmware actions. */
  ghost predicate Progressed(g: Geometry, e: Engine, e': Engine) {
    && Valid(g, e) && Valid(g, e') && |e'.work| == |e.work|
    && Settled(g, e') == Settled(g, e)
    && e'.issued == e.issued
    && (e'.room == e.room || e'.room.None?)
    && (forall b :: 0 <= b < |e.work| && e.work[b].None? && (e.room.Some? ==> e.room.value.bank != b)
          ==> e'.work[b].None?)
    && (forall b: nat, ops :: ApartFrom(g, e, b, ops) ==> ApartFrom(g, e', b, ops))
    && (forall a :: Untouched(g, e, a) ==> Untouched(g, e', a))
  }

  /** What met nothing in flight still meets nothing, unless it is for another bank
      than the new work `ops` of bank `rbank` and meets that; and the DRAM bytes
      that nothing in flight touches are still such, except those that `ops` touch. */
  ghost predicate StaysApart(g: Geometry, e: Engine, e': Engine, rbank: nat, ops: seq<Op>) {
    && (forall b: nat, xs :: ApartFrom(g, e, b, xs) && (b == rbank || Independent(xs, ops)) ==> ApartFrom(g, e', b, xs))
    && (forall a :: Untouched(g, e, a) && NeverTouches(ops, a) ==> Untouched(g, e', a))
  }

  lemma AcceptProgresses(g: Geometry, e: Engine)
    requires Valid(g, e) && CanAccept(e)
    ensures Progressed(g, e, Accept(g, e))
  {
    AcceptStep(g, e);
  }

  lemma WorkProgresses(g: Geometry, e: Engine, k: nat)
    requires Valid(g, e) && CanWork(e, k)
    ensures Progressed(g, e, DoWork(e, k))
  {
    WorkStep(g, e, k);
    forall b: nat, ops | ApartFrom(g, e, b, ops) ensures ApartFrom(g, DoWork(e, k), b, ops) {
      if k != b {
        IndependentSym(ops, e.work[k].value);
        IndependentTail(e.work[k].value, ops);
        IndependentSym(ops, e.work[k].value[1..]);
      }
    }
    forall a | Untouched(g, e, a) ensures Untouched(g, DoWork(e, k), a) {
      assert NeverTouches(e.work[k].value, a);
      assert NeverTouches(e.work[k].value[1..], a);
    }
  }

  lemma FinishProgresses(g: Geometry, e: Engine, b: nat)
    requires Valid(g, e) && CanFinish(e, b)
    ensures Progressed(g, e, Finish(e, b))
  {
    FinishStep(g, e, b);
  }

  /** An idle bank without a waiting command already holds what it settles to. */
  lemma BankIsSettled(g: Geometry, e: Engine, b: nat)
    requires Shape(e) && b < |e.work| && e.work[b].None? && (e.room.Some? ==> e.room.value.bank != b)
    ensures Settled(g, e).banks[b] == e.mem.banks[b]
  {
    DrainBank(e.work, |e.work|, b, e.mem);
    if e.room.Some? {
      RunFrame(e.room.value.bank, Decode(g, e.room.value), Drain(e.work, |e.work|, e.mem), 0);
    }
  }

  lemma {:induction false} DrainBank(work: seq<Option<seq<Op>>>, n: nat, b: nat, m: Mem)
    requires n <= |work| == |m.banks| && b < |work| && work[b].None?
    ensures Drain(work, n, m).banks[b] == m.banks[b]
  {
    if n > 0 {
      DrainBank(work, n - 1, b, m);
      if work[n - 1].Some? { RunFrame(n - 1, work[n - 1].value, Drain(work, n - 1, m), 0); }
    }
  }

  /** A DRAM byte that `ops` stores is in place once their bank is idle again. */
  lemma StoredIsSettled(g: Geometry, e: Engine, b: nat, ops: seq<Op>, i: nat)
    requires Shape(e) && b < |e.work| && e.work[b].None? && e.room.None? && ApartFrom(g, e, b, ops)
    requires i < |ops| && ops[i].Unload?
    ensures Peek(e.mem.dram, ops[i].addr) == Peek(Settled(g, e).dram, ops[i].addr)
  {
    forall c | 0 <= c < |e.work| && e.work[c].Some? ensures NeverStores(e.work[c].value, ops[i].addr) {
      assert Independent(ops, e.work[c].value);
      forall j | 0 <= j < |e.work[c].value|
        ensures !(e.work[c].value[j].Unload? && e.work[c].value[j].addr == ops[i].addr)
      {
        assert !Conflict(ops[i], e.work[c].value[j]);
      }
    }
    ReadIsSettled(g, e, ops[i].addr);
  }

  /** Once the bank of a page read is idle again, its buffer holds the page. */
  lemma ReadIsDone(g: Geometry, e: Engine, b: nat, row: nat, buf: int, sect: nat, cnt: nat, m: Mem)
    requires Shape(e) && b < |e.work| == |m.banks| && e.work[b].None? && e.room.None?
    requires ApartFrom(g, e, b, ReadOut(row, buf, sect, cnt))
    requires Wrap32(buf + sect * BYTES_PER_SECTOR) + cnt <= TWO_TO_32
    requires Settled(g, e) == PageRead(b, row, sect, cnt, buf, m)
    ensures BufferHolds(e.mem.dram, buf, sect, cnt, Row(m.banks[b], row))
  {
    var ops, p := ReadOut(row, buf, sect, cnt), Row(m.banks[b], row);
    var base := sect * BYTES_PER_SECTOR;
    forall off: nat | base <= off < base + cnt
      ensures Peek(e.mem.dram, Wrap32(buf + off)) == At(p, off)
    {
      var i := off - base;
      assert ops[i + 1] == Unload(off, Wrap32(buf + off));
      StoredIsSettled(g, e, b, ops, i + 1);
      WrapAdd(buf + base, i);
      assert buf + base + i == buf + off;
      assert Within(Wrap32(buf + off), Wrap32(buf + base), cnt);
      assert Wrap32(buf + off) in ToDram(p, base, Wrap32(buf + base), cnt);
    }
  }

  lemma RowBound(vblock: nat, page: nat, vblks: nat, pages: nat)
    requires vblock < vblks && page < pages && vblks * pages <= TWO_TO_32
    ensures vblock * pages + page < TWO_TO_32
  {
  }

  lemma SectorsInPage(sect: nat, num: nat, sectorsPerPage: nat)
    requires sect + num <= sectorsPerPage
    ensures sect * BYTES_PER_SECTOR + num * BYTES_PER_SECTOR <= sectorsPerPage * BYTES_PER_SECTOR
  {
  }

  lemma ApartFromParts(g: Geometry, e: Engine, b: nat, xs: seq<Op>, ys: seq<Op>)
    requires Shape(e) && ApartFrom(g, e, b, xs + ys)
    ensures ApartFrom(g, e, b, xs) && ApartFrom(g, e, b, ys)
  {
    var all := xs + ys;
    forall zs | Independent(all, zs) ensures Independent(xs, zs) && Independent(ys, zs) {
      assert forall i :: 0 <= i < |xs| ==> xs[i] == all[i];
      assert forall i :: 0 <= i < |ys| ==> ys[i] == all[|xs| + i];
    }
  }

  lemma TwoParts(g: Geometry, e: Engine, b: nat, xs: seq<Op>, ys: seq<Op>)
    requires Shape(e) && b < |e.work| && ApartFrom(g, e, b, xs + ys)
    ensures ApartFrom(g, e, b, xs) && ApartFrom(g, e, b, ys)
    ensures Run(b, xs + ys, Settled(g, e)) == Run(b, ys, Run(b, xs, Settled(g, e)))
  {
    ApartFromParts(g, e, b, xs, ys);
    RunAppend(b, xs, ys, Settled(g, e));
  }

  lemma ApartFromJoin(g: Geometry, e: Engine, b: nat, xs: seq<Op>, ys: seq<Op>)
    requires Shape(e) && ApartFrom(g, e, b, xs) && ApartFrom(g, e, b, ys)
    ensures ApartFrom(g, e, b, xs + ys)
  {
  }

  class Driver {
    const g: Geometry
    const bankMap: seq<nat>                     // bank -> real bank
    const vblksPerBank: nat
    const copybackAllowed: (nat, nat) -> bool   // for these source and destination rows
    const modifyCopy: bool                      // the chip supports FC_MODIFY_COPYBACK

    // the FCP registers; the hardware never changes them
    var fcpCmd: u32
    var fcpBank: u32
    var fcpOption: u32
    var fcpDmaAddr: u32
    var fcpDmaCnt: u32
    var fcpCol: u32
    var fcpRowL: seq<u32>         // one pair per real bank
    var fcpRowH: seq<u32>
    var fcpDstCol: u32
    var fcpDstRowL: u32
    var fcpDstRowH: u32

    var engine: Engine

    ghost predicate Ready()
      reads this
    {
      && Valid(g, engine)
      && |fcpRowL| == |fcpRowH| == |engine.work| <= 64
      && (forall i :: 0 <= i < |bankMap| ==> bankMap[i] < |engine.work|)
      && 0 < g.pagesPerBlk && vblksPerBank * g.pagesPerBlk <= TWO_TO_32
      && g.PageBytes() < TWO_TO_32
      && |g.copyBufs| == |engine.work|
      && (forall b :: 0 <= b < |g.copyBufs| ==> g.copyBufs[b].Fits() && g.copyBufs[b].bytes == g.PageBytes())
    }

    /** One hardware step, if there is one to take: any step that is enabled. */
    method Tick()
      requires Ready()
      modifies this`engine
      ensures Ready() && Progressed(g, old(engine), engine)
      ensures !old(Idle(engine)) ==> HardwareSteps(g, engine) < HardwareSteps(g, old(engine))
    {
      if !Idle(engine) {
        Progress(g, engine);
        StepsShrink(g, engine);
        if {
          case CanAccept(engine) =>
            AcceptProgresses(g, engine);
            engine := Accept(g, engine);
          case b: nat :| b < |engine.work| && CanWork(engine, b) =>
            WorkProgresses(g, engine, b);
            engine := DoWork(engine, b);
          case b: nat :| b < |engine.work| && CanFinish(engine, b) =>
            FinishProgresses(g, engine, b);
            engine := Finish(engine, b);
        }
      }
    }

    /** Any number of hardware steps. */
    method Hardware()
      requires Ready()
      modifies this`engine
      ensures Ready() && Progressed(g, old(engine), engine)
    {
      while *
        invariant Ready() && Progressed(g, old(engine), engine)
        decreases HardwareSteps(g, engine)
      {
        if Idle(engine) { break; }
        Tick();
      }
    }

    /** Poll WR_STAT until the Waiting Room is empty, with any number of hardware
        steps meanwhile. */
    method PollRoom()
      requires Ready()
      modifies this`engine
      ensures Ready() && Progressed(g, old(engine), engine) && engine.room.None?
    {
      Hardware();
      while engine.room.Some?
        invariant Ready() && Progressed(g, old(engine), engine)
        decreases HardwareSteps(g, engine)
      {
        Tick();
      }
    }

    /** Poll the state of bank `rbank` until it is idle. */
    method PollBank(rbank: nat)
      requires Ready() && rbank < |engine.work| && engine.room.None?
      modifies this`engine
      ensures Ready() && Progressed(g, old(engine), engine) && engine.room.None?
      ensures engine.work[rbank].None? && engine.mem.banks[rbank] == Settled(g, engine).banks[rbank]
    {
      while engine.work[rbank].Some?
        invariant Ready() && Progressed(g, old(engine), engine) && engine.room.None?
        decreases HardwareSteps(g, engine)
      {
        Tick();
      }
      BankIsSettled(g, engine, rbank);
    }

    /** The command that the present register contents make for a real bank. */
    function IssuedBy(rbank: nat): Cmd
      requires rbank < |fcpRowL| == |fcpRowH| <= 64
      reads this
    {
      Cmd(fcpCmd, rbank, fcpOption, fcpDmaAddr, fcpDmaCnt, fcpCol, fcpRowL[rbank], fcpRowH[rbank],
          fcpDstCol, fcpDstRowL, fcpDstRowH)
    }

    /** The write to FCP_ISSUE: allowed only into an empty Waiting Room. */
    method WriteIssue()
      requires Ready() && fcpBank < |engine.work| && engine.room.None?
      requires ApartFrom(g, engine, fcpBank, Decode(g, IssuedBy(fcpBank)))
      modifies this`engine
      ensures Ready() && |engine.work| == old(|engine.work|)
      ensures engine.room == Some(IssuedBy(fcpBank)) && engine.issued == old(engine.issued) + [IssuedBy(fcpBank)]
      ensures Settled(g, engine) == Run(fcpBank, Decode(g, IssuedBy(fcpBank)), old(Settled(g, engine)))
      ensures StaysApart(g, old(engine), engine, fcpBank, Decode(g, IssuedBy(fcpBank)))
    {
      IssueStep(g, engine, IssuedBy(fcpBank));
      engine := Issue(engine, IssuedBy(fcpBank));
    }

    /** The issue routine. A full Waiting Room is never overwritten; the command's
        work `ops` joins what the memory settles to; depending on `sync` the
        command has been accepted, or fully executed, on return. `rest` is what
        the caller is going to issue next for the same bank. */
    method FlashIssueCmd(bank: nat, sync: u32, ghost ops: seq<Op>, ghost rest: seq<Op>)
      requires Ready() && bank < |bankMap| && ops == Decode(g, IssuedBy(bankMap[bank]))
      requires ApartFrom(g, engine, bankMap[bank], ops) && ApartFrom(g, engine, bankMap[bank], rest)
      modifies this`engine, this`fcpBank
      ensures Ready() && fcpBank == bankMap[bank] && |engine.work| == old(|engine.work|)
      ensures engine.issued == old(engine.issued) + [IssuedBy(bankMap[bank])]
      ensures Does(g, old(engine.issued), engine.issued, bankMap[bank], ops)
      ensures Settled(g, engine) == Run(bankMap[bank], ops, old(Settled(g, engine)))
      ensures ApartFrom(g, engine, bankMap[bank], ops) && ApartFrom(g, engine, bankMap[bank], rest)
      ensures StaysApart(g, old(engine), engine, bankMap[bank], ops)
      ensures sync != RETURN_ON_ISSUE ==> engine.room.None?
      ensures sync != RETURN_ON_ISSUE && sync != RETURN_ON_ACCEPT ==>
        && engine.work[bankMap[bank]].None?
        && engine.mem.banks[bankMap[bank]] == Settled(g, engine).banks[bankMap[bank]]
    {
      fcpBank := bankMap[bank];
      PollRoom();
      WriteIssue();
      if sync == RETURN_ON_ISSUE { return; }
      PollRoom();
      if sync == RETURN_ON_ACCEPT { return; }
      PollBank(bankMap[bank]);
    }

    /** Poll MON_CHABANKIDLE until nothing is in flight. */
    method FlashFinish()
      requires Ready()
      modifies this`engine
      ensures Ready() && Progressed(g, old(engine), engine) && Idle(engine)
      ensures engine.mem == old(Settled(g, engine))
    {
      while !Idle(engine)
        invariant Ready() && Progressed(g, old(engine), engine)
        decreases HardwareSteps(g, engine)
      {
        Tick();
      }
      DrainIdle(engine.work, |engine.work|, engine.mem);
    }

    /** A store of the firmware to a DRAM byte that nothing in flight touches. */
    method StoreByte(addr: int, val: byte)
      requires Ready() && Untouched(g, engine, addr)
      modifies this`engine
      ensures Ready() && |engine.work| == old(|engine.work|) && engine.issued == old(engine.issued)
      ensures Settled(g, engine) == Poke(addr, val, old(Settled(g, engine)))
      ensures forall b: nat, xs :: old(ApartFrom(g, engine, b, xs)) ==> ApartFrom(g, engine, b, xs)
      ensures forall a :: old(Untouched(g, engine, a)) ==> Untouched(g, engine, a)
    {
      PokeStep(g, engine, addr, val);
      engine := engine.(mem := Poke(addr, val, engine.mem));
    }

    // ----- the nand_* calls -----

    ghost predicate Addresses(bank: nat, vblock: nat, page: nat)
      reads this
    {
      && bank < |bankMap| && vblock < vblksPerBank && page < g.pagesPerBlk
      && vblksPerBank * g.pagesPerBlk <= TWO_TO_32
    }

    function RowOf(vblock: nat, page: nat): (row: u32)
      requires vblock < vblksPerBank && page < g.pagesPerBlk && vblksPerBank * g.pagesPerBlk <= TWO_TO_32
      ensures row == g.PageRow(vblock, page)
    {
      RowBound(vblock, page, vblksPerBank, g.pagesPerBlk);
      vblock * g.pagesPerBlk + page
    }

    /** Both row registers of a bank, for its low and its high chip. */
    method SetRow(bank: nat, row: u32)
      requires Ready() && bank < |bankMap|
      modifies this`fcpRowL, this`fcpRowH
      ensures Ready() && fcpRowL[bankMap[bank]] == row && fcpRowH[bankMap[bank]] == row
    {
      fcpRowL := fcpRowL[bankMap[bank] := row];
      fcpRowH := fcpRowH[bankMap[bank] := row];
    }

    /** The registers that are common to all banks. */
    method SetTransfer(code: u32, option: u32, dmaAddr: u32, dmaCnt: u32, col: u32)
      requires Ready()
      modifies this`fcpCmd, this`fcpOption, this`fcpDmaAddr, this`fcpDmaCnt, this`fcpCol
      ensures Ready() && fcpCmd == code && fcpOption == option
      ensures fcpDmaAddr == dmaAddr && fcpDmaCnt == dmaCnt && fcpCol == col
    {
      fcpCmd := code;
      fcpOption := option;
      fcpDmaAddr := dmaAddr;
      fcpDmaCnt := dmaCnt;
      fcpCol := col;
    }

    /** Both row registers of the bank hold `row`. */
    ghost predicate SameRow(bank: nat, row: nat)
      requires bank < |bankMap| && bankMap[bank] < |fcpRowL| == |fcpRowH|
      reads this
    {
      fcpRowL[bankMap[bank]] == row && fcpRowH[bankMap[bank]] == row
    }

    /** The registers of a page read, and its issue. With RETURN_WHEN_DONE the
        bytes are in the buffer on return. */
    method IssueRead(bank: nat, row: u32, sect: nat, cnt: u32, buf: u32, option: u32, sync: u32)
      requires Ready() && bank < |bankMap| && sect < TWO_TO_32
      requires Wrap32(buf + sect * BYTES_PER_SECTOR) + cnt <= TWO_TO_32
      requires ApartFrom(g, engine, bankMap[bank], ReadOut(row, buf, sect, cnt))
      modifies this
      ensures Ready() && |engine.work| == old(|engine.work|)
      ensures Settled(g, engine) == PageRead(bankMap[bank], row, sect, cnt, buf, old(Settled(g, engine)))
      ensures sync == RETURN_WHEN_DONE ==> BufferHolds(engine.mem.dram, buf, sect, cnt,
                                             Row(old(Settled(g, engine)).banks[bankMap[bank]], row))
      ensures Appends(old(engine.issued), engine.issued, FC_COL_ROW_READ_OUT, option, row)
      ensures Does(g, old(engine.issued), engine.issued, bankMap[bank], ReadOut(row, buf, sect, cnt))
      ensures SameRow(bank, row)
      ensures StaysApart(g, old(engine), engine, bankMap[bank], ReadOut(row, buf, sect, cnt))
    {
      SetTransfer(FC_COL_ROW_READ_OUT, option, buf, cnt, sect);
      SetRow(bank, row);
      FlashIssueCmd(bank, sync, ReadOut(row, buf, sect, cnt), []);
      ReadOutMeaning(bankMap[bank], row, sect, cnt, buf, old(Settled(g, engine)));
      if sync == RETURN_WHEN_DONE {
        ReadIsDone(g, engine, bankMap[bank], row, buf, sect, cnt, old(Settled(g, engine)));
      }
    }

    /** Read part of a page into a page buffer. */
    method NandPagePtread(bank: nat, vblock: nat, page: nat, sect: nat, num: nat, buf: u32, sync: u32)
      requires Ready() && Addresses(bank, vblock, page) && sect + num <= g.sectorsPerPage
      requires Wrap32(buf + sect * BYTES_PER_SECTOR) + num * BYTES_PER_SECTOR <= TWO_TO_32
      requires ApartFrom(g, engine, bankMap[bank],
                 ReadOut(g.PageRow(vblock, page), buf, sect, num * BYTES_PER_SECTOR))
      modifies this
      ensures Ready() && |engine.work| == old(|engine.work|)
      ensures Settled(g, engine) == PageRead(bankMap[bank], g.PageRow(vblock, page), sect, num * BYTES_PER_SECTOR, buf,
                                             old(Settled(g, engine)))
      ensures sync == RETURN_WHEN_DONE ==>
        BufferHolds(engine.mem.dram, buf, sect, num * BYTES_PER_SECTOR,
                    Row(old(Settled(g, engine)).banks[bankMap[bank]], g.PageRow(vblock, page)))
      ensures Appends(old(engine.issued), engine.issued, FC_COL_ROW_READ_OUT, READ_OPTION, g.PageRow(vblock, page))
      ensures Does(g, old(engine.issued), engine.issued, bankMap[bank],
                   ReadOut(g.PageRow(vblock, page), buf, sect, num * BYTES_PER_SECTOR))
      ensures StaysApart(g, old(engine), engine, bankMap[bank],
                         ReadOut(g.PageRow(vblock, page), buf, sect, num * BYTES_PER_SECTOR))
    {
      IssueRead(bank, RowOf(vblock, page), sect, num * BYTES_PER_SECTOR, buf, FO_P + FO_E, sync);
    }

    /** Synchronous read of a full page. */
    method NandPageRead(bank: nat, vblock: nat, page: nat, buf: u32)
      requires Ready() && Addresses(bank, vblock, page) && buf + g.PageBytes() <= TWO_TO_32
      requires ApartFrom(g, engine, bankMap[bank], ReadOut(g.PageRow(vblock, page), buf, 0, g.PageBytes()))
      modifies this
      ensures Ready() && |engine.work| == old(|engine.work|)
      ensures Settled(g, engine) == PageRead(bankMap[bank], g.PageRow(vblock, page), 0, g.PageBytes(), buf,
                                             old(Settled(g, engine)))
      ensures BufferHolds(engine.mem.dram, buf, 0, g.PageBytes(),
                          Row(old(Settled(g, engine)).banks[bankMap[bank]], g.PageRow(vblock, page)))
      ensures Appends(old(engine.issued), engine.issued, FC_COL_ROW_READ_OUT, READ_OPTION, g.PageRow(vblock, page))
      ensures Does(g, old(engine.issued), engine.issued, bankMap[bank],
                   ReadOut(g.PageRow(vblock, page), buf, 0, g.PageBytes()))
    {
      IssueRead(bank, RowOf(vblock, page), 0, g.PageBytes(), buf, FO_P + FO_E, RETURN_WHEN_DONE);
    }

    /** Read part of a page into the next SATA read buffer: the wait before the
        issue ensures that the DMA target is none of the buffers that still await
        transmission to the host. */
    method NandPagePtreadToHost(bank: nat, vblock: nat, page: nat, sect: nat, num: nat, ring: Ring, c: Config)
      requires Ready() && Addresses(bank, vblock, page) && sect + num <= g.sectorsPerPage
      requires ring.Valid() && c.Roomy() && ring.size == c.NumRd() && c.pageBytes == g.PageBytes()
      requires c.dramBase + c.dramSize <= TWO_TO_32
      requires ApartFrom(g, engine, bankMap[bank],
                 ReadOut(g.PageRow(vblock, page), Ptr(c, Rd(ring.bufId)), sect, num * BYTES_PER_SECTOR))
      modifies this, ring
      ensures Ready() && |engine.work| == old(|engine.work|)
      ensures ring.Valid() && ring.sent + ring.pending == old(ring.sent + ring.pending) + 1
      ensures ring.bufId == (old(ring.bufId) + 1) % ring.size
      ensures forall k: nat :: ring.sent <= k < ring.sent + ring.pending - 1 ==> k % ring.size != old(ring.bufId)
      ensures Settled(g, engine) == PageRead(bankMap[bank], g.PageRow(vblock, page), sect, num * BYTES_PER_SECTOR,
                                             Ptr(c, Rd(old(ring.bufId))), old(Settled(g, engine)))
      ensures Appends(old(engine.issued), engine.issued, FC_COL_ROW_READ_OUT, TO_HOST_OPTION, g.PageRow(vblock, page))
      ensures Does(g, old(engine.issued), engine.issued, bankMap[bank],
                   ReadOut(g.PageRow(vblock, page), Ptr(c, Rd(old(ring.bufId))), sect, num * BYTES_PER_SECTOR))
    {
      var id := ring.Take();
      BuffersFit(c, Rd(id));
      SectorsInPage(sect, num, g.sectorsPerPage);
      var row := RowOf(vblock, page);
      IssueRead(bank, row, sect, num * BYTES_PER_SECTOR, Ptr(c, Rd(id)), FO_P + FO_E + FO_B_SATA_R,
                RETURN_ON_ISSUE);
    }

    /** The registers of a page program, and its issue. */
    method IssueProgram(bank: nat, row: u32, sect: nat, cnt: u32, buf: u32, option: u32, sync: u32)
      requires Ready() && bank < |bankMap| && sect < TWO_TO_32
      requires ApartFrom(g, engine, bankMap[bank], InProg(row, buf, sect, cnt))
      modifies this
      ensures Ready() && |engine.work| == old(|engine.work|)
      ensures Settled(g, engine) == PageProgram(bankMap[bank], row, sect, cnt, buf, old(Settled(g, engine)))
      ensures sync == RETURN_WHEN_DONE ==>
        engine.mem.banks[bankMap[bank]] == Settled(g, engine).banks[bankMap[bank]]
      ensures Appends(old(engine.issued), engine.issued, FC_COL_ROW_IN_PROG, option, row)
      ensures Does(g, old(engine.issued), engine.issued, bankMap[bank], InProg(row, buf, sect, cnt))
      ensures StaysApart(g, old(engine), engine, bankMap[bank], InProg(row, buf, sect, cnt))
    {
      SetTransfer(FC_COL_ROW_IN_PROG, option, buf, cnt, sect);
      SetRow(bank, row);
      FlashIssueCmd(bank, sync, InProg(row, buf, sect, cnt), []);
      InProgMeaning(bankMap[bank], row, sect, cnt, buf, old(Settled(g, engine)));
    }

    /** Program part of a page from a page buffer. */
    method NandPagePtprogram(bank: nat, vblock: nat, page: nat, sect: nat, num: nat, buf: u32, sync: u32)
      requires Ready() && Addresses(bank, vblock, page) && sect + num <= g.sectorsPerPage
      requires ApartFrom(g, engine, bankMap[bank],
                 InProg(g.PageRow(vblock, page), buf, sect, num * BYTES_PER_SECTOR))
      modifies this
      ensures Ready() && |engine.work| == old(|engine.work|)
      ensures Settled(g, engine) == PageProgram(bankMap[bank], g.PageRow(vblock, page), sect,
                                                num * BYTES_PER_SECTOR, buf, old(Settled(g, engine)))
      ensures sync == RETURN_WHEN_DONE ==>
        engine.mem.banks[bankMap[bank]] == Settled(g, engine).banks[bankMap[bank]]
      ensures Appends(old(engine.issued), engine.issued, FC_COL_ROW_IN_PROG, WRITE_OPTION, g.PageRow(vblock, page))
      ensures Does(g, old(engine.issued), engine.issued, bankMap[bank],
                   InProg(g.PageRow(vblock, page), buf, sect, num * BYTES_PER_SECTOR))
      ensures StaysApart(g, old(engine), engine, bankMap[bank],
                         InProg(g.PageRow(vblock, page), buf, sect, num * BYTES_PER_SECTOR))
    {
      IssueProgram(bank, RowOf(vblock, page), sect, num * BYTES_PER_SECTOR, buf, FO_P + FO_E + FO_B_W_DRDY, sync);
    }

    /** Issue the program of part of a page from the write buffer `bufId`, which the
        SATA hardware may still have to fill; the next call uses the next buffer. */
    method NandPagePtprogramFromHost(bank: nat, vblock: nat, page: nat, sect: nat, num: nat, bufId: nat, c: Config)
      returns (next: nat)
      requires Ready() && Addresses(bank, vblock, page) && sect + num <= g.sectorsPerPage
      requires c.Roomy() && bufId < c.NumWr() && c.dramBase + c.dramSize <= TWO_TO_32
      requires ApartFrom(g, engine, bankMap[bank],
                 InProg(g.PageRow(vblock, page), Ptr(c, Wr(bufId)), sect, num * BYTES_PER_SECTOR))
      modifies this
      ensures Ready() && |engine.work| == old(|engine.work|) && next == (bufId + 1) % c.NumWr()
      ensures Appends(old(engine.issued), engine.issued, FC_COL_ROW_IN_PROG, FROM_HOST_OPTION, g.PageRow(vblock, page))
      ensures Does(g, old(engine.issued), engine.issued, bankMap[bank],
                   InProg(g.PageRow(vblock, page), Ptr(c, Wr(bufId)), sect, num * BYTES_PER_SECTOR))
    {
      var row := RowOf(vblock, page);
      BuffersFit(c, Wr(bufId));
      IssueProgram(bank, row, sect, num * BYTES_PER_SECTOR, Ptr(c, Wr(bufId)), FO_P + FO_E + FO_B_SATA_W,
                   RETURN_ON_ISSUE);
      next := (bufId + 1) % c.NumWr();
    }

    /** The registers of a block erase, and its issue. */
    method IssueErase(bank: nat, row: u32, sync: u32)
      requires Ready() && bank < |bankMap|
      modifies this
      ensures Ready() && |engine.work| == old(|engine.work|)
      ensures Settled(g, engine) == BlockErase(g, bankMap[bank], row, old(Settled(g, engine)))
      ensures sync == RETURN_WHEN_DONE ==>
        engine.mem.banks[bankMap[bank]] == Settled(g, engine).banks[bankMap[bank]]
      ensures Appends(old(engine.issued), engine.issued, FC_ERASE, ERASE_OPTION, row)
      ensures Does(g, old(engine.issued), engine.issued, bankMap[bank], Erases(row, g.pagesPerBlk))
      ensures StaysApart(g, old(engine), engine, bankMap[bank], Erases(row, g.pagesPerBlk))
    {
      fcpCmd := FC_ERASE;
      fcpBank := bankMap[bank];
      fcpOption := FO_P;
      SetRow(bank, row);
      assert ApartFrom(g, engine, bankMap[bank], Erases(row, g.pagesPerBlk));
      FlashIssueCmd(bank, sync, Erases(row, g.pagesPerBlk), []);
      EraseMeaning(g, bankMap[bank], row, old(Settled(g, engine)));
    }

    /** Erase a block; `sync` tells the two erase calls apart. */
    method NandBlockErase(bank: nat, vblock: nat, sync: bool)
      requires Ready() && Addresses(bank, vblock, 0)
      modifies this
      ensures Ready() && |engine.work| == old(|engine.work|)
      ensures Settled(g, engine) == BlockErase(g, bankMap[bank], g.PageRow(vblock, 0), old(Settled(g, engine)))
      ensures sync ==> engine.mem.banks[bankMap[bank]] == Settled(g, engine).banks[bankMap[bank]]
      ensures Appends(old(engine.issued), engine.issued, FC_ERASE, ERASE_OPTION, g.PageRow(vblock, 0))
      ensures Does(g, old(engine.issued), engine.issued, bankMap[bank],
                   Erases(g.PageRow(vblock, 0), g.pagesPerBlk))
      ensures StaysApart(g, old(engine), engine, bankMap[bank],
                         Erases(g.PageRow(vblock, 0), g.pagesPerBlk))
    {
      IssueErase(bank, RowOf(vblock, 0), if sync then RETURN_WHEN_DONE else RETURN_ON_ISSUE);
    }

    method SetDestination(row: u32, col: u32)
      requires Ready()
      modifies this`fcpDstRowL, this`fcpDstRowH, this`fcpDstCol
      ensures Ready() && fcpDstRowL == row && fcpDstRowH == row && fcpDstCol == col
    {
      fcpDstRowH := row;
      fcpDstRowL := row;
      fcpDstCol := col;
    }

    /** FC_COPYBACK. */
    method CopyInChip(bank: nat, srcRow: u32, dstRow: u32)
      requires Ready() && bank < |bankMap|
      requires ApartFrom(g, engine, bankMap[bank], WholePageCopy(g.CopyBuf(bankMap[bank]), srcRow, dstRow))
      modifies this
      ensures Ready() && |engine.work| == old(|engine.work|)
      ensures Settled(g, engine) == Run(bankMap[bank], WholePageCopy(g.CopyBuf(bankMap[bank]), srcRow, dstRow),
                                        old(Settled(g, engine)))
      ensures Appends(old(engine.issued), engine.issued, FC_COPYBACK, WRITE_OPTION, srcRow)
      ensures Does(g, old(engine.issued), engine.issued, bankMap[bank],
                   WholePageCopy(g.CopyBuf(bankMap[bank]), srcRow, dstRow))
      ensures SameRow(bank, srcRow)
    {
      fcpCmd := FC_COPYBACK;
      fcpOption := FO_P + FO_E + FO_B_W_DRDY;
      fcpCol := 0;
      SetRow(bank, srcRow);
      SetDestination(dstRow, 0);
      CopybackDecoded(g, IssuedBy(bankMap[bank]));
      FlashIssueCmd(bank, RETURN_ON_ISSUE, WholePageCopy(g.CopyBuf(bankMap[bank]), srcRow, dstRow), []);
    }

    /** First command of the copies by way of the copy buffer: read the source page. */
    method ReadOldPage(bank: nat, srcRow: u32, ghost rest: seq<Op>)
      requires Ready() && bank < |bankMap|
      requires ApartFrom(g, engine, bankMap[bank], ReadOut(srcRow, BufAddr(bank), 0, g.PageBytes()))
      requires ApartFrom(g, engine, bankMap[bank], rest)
      modifies this
      ensures Ready() && |engine.work| == old(|engine.work|) && ApartFrom(g, engine, bankMap[bank], rest)
      ensures fcpDmaAddr == BufAddr(bank) && fcpDmaCnt == g.PageBytes() && fcpCol == 0
      ensures Settled(g, engine) == Run(bankMap[bank], ReadOut(srcRow, BufAddr(bank), 0, g.PageBytes()),
                                        old(Settled(g, engine)))
      ensures Appends(old(engine.issued), engine.issued, FC_COL_ROW_READ_OUT, READ_OPTION, srcRow)
      ensures Does(g, old(engine.issued), engine.issued, bankMap[bank],
                   ReadOut(srcRow, BufAddr(bank), 0, g.PageBytes()))
      ensures SameRow(bank, srcRow)
    {
      SetTransfer(FC_COL_ROW_READ_OUT, FO_P + FO_E, BufAddr(bank), g.PageBytes(), 0);
      SetRow(bank, srcRow);
      FlashIssueCmd(bank, RETURN_ON_ISSUE, ReadOut(srcRow, BufAddr(bank), 0, g.PageBytes()), rest);
    }

    function BufAddr(bank: nat): u32
      requires bank < |bankMap| && g.CopyBuf(bankMap[bank]).Fits()
    {
      g.CopyBuf(bankMap[bank]).base
    }

    /** Program the destination page; the DMA registers are as the read left them. */
    method WriteOldPage(bank: nat, dstRow: u32)
      requires Ready() && bank < |bankMap|
      requires fcpDmaAddr == BufAddr(bank) && fcpDmaCnt == g.PageBytes() && fcpCol == 0
      requires ApartFrom(g, engine, bankMap[bank], InProg(dstRow, BufAddr(bank), 0, g.PageBytes()))
      modifies this
      ensures Ready() && |engine.work| == old(|engine.work|)
      ensures Settled(g, engine) == Run(bankMap[bank], InProg(dstRow, BufAddr(bank), 0, g.PageBytes()),
                                        old(Settled(g, engine)))
      ensures Appends(old(engine.issued), engine.issued, FC_COL_ROW_IN_PROG, WRITE_OPTION, dstRow)
      ensures Does(g, old(engine.issued), engine.issued, bankMap[bank],
                   InProg(dstRow, BufAddr(bank), 0, g.PageBytes()))
      ensures SameRow(bank, dstRow)
    {
      fcpCmd := FC_COL_ROW_IN_PROG;
      fcpOption := FO_P + FO_E + FO_B_W_DRDY;
      SetRow(bank, dstRow);
      FlashIssueCmd(bank, RETURN_ON_ISSUE, InProg(dstRow, BufAddr(bank), 0, g.PageBytes()), []);
    }

    /** A page read into the copy buffer and a page program out of it. */
    method CopyByBuffer(bank: nat, srcRow: u32, dstRow: u32)
      requires Ready() && bank < |bankMap|
      requires ApartFrom(g, engine, bankMap[bank], WholePageCopy(g.CopyBuf(bankMap[bank]), srcRow, dstRow))
      modifies this
      ensures Ready() && |engine.work| == old(|engine.work|)
      ensures Settled(g, engine) == Run(bankMap[bank], WholePageCopy(g.CopyBuf(bankMap[bank]), srcRow, dstRow),
                                        old(Settled(g, engine)))
      ensures |old(engine.issued)| <= |engine.issued| && engine.issued[..|old(engine.issued)|] == old(engine.issued)
      ensures PageCopySequence(engine.issued[|old(engine.issued)|..], srcRow, dstRow)
      ensures DoesAll(g, old(engine.issued), engine.issued, bankMap[bank],
                      WholePageCopy(g.CopyBuf(bankMap[bank]), srcRow, dstRow))
    {
      ghost var read := ReadOut(srcRow, BufAddr(bank), 0, g.PageBytes());
      ghost var prog := InProg(dstRow, BufAddr(bank), 0, g.PageBytes());
      assert WholePageCopy(g.CopyBuf(bankMap[bank]), srcRow, dstRow) == read + prog;
      TwoParts(g, engine, bankMap[bank], read, prog);
      ghost var start := engine.issued;
      ReadOldPage(bank, srcRow, prog);
      ghost var first := engine.issued;
      WriteOldPage(bank, dstRow);
      TwoAppended(start, first, engine.issued, srcRow, dstRow);
      DoesOne(g, start, first, bankMap[bank], read);
      DoesMore(g, start, first, engine.issued, bankMap[bank], read, prog);
    }

    /** Copy a page within a bank: inside the chip, or by way of the copy buffer
        when the chip cannot. */
    method NandPageCopyback(bank: nat, srcVblock: nat, srcPage: nat, dstVblock: nat, dstPage: nat)
      requires Ready() && Addresses(bank, srcVblock, srcPage) && Addresses(bank, dstVblock, dstPage)
      requires ApartFrom(g, engine, bankMap[bank],
                 WholePageCopy(g.CopyBuf(bankMap[bank]), g.PageRow(srcVblock, srcPage), g.PageRow(dstVblock, dstPage)))
      modifies this
      ensures Ready() && |engine.work| == old(|engine.work|)
      ensures Settled(g, engine) == ModifiedCopy(g.CopyBuf(bankMap[bank]), bankMap[bank], g.PageRow(srcVblock, srcPage),
                                      g.PageRow(dstVblock, dstPage), 0, 0, 0, old(Settled(g, engine)))
      ensures |old(engine.issued)| <= |engine.issued| && engine.issued[..|old(engine.issued)|] == old(engine.issued)
      ensures WholeSequences(engine.issued[|old(engine.issued)|..]) && Usual(engine.issued[|old(engine.issued)|..])
      ensures DoesAll(g, old(engine.issued), engine.issued, bankMap[bank],
                 WholePageCopy(g.CopyBuf(bankMap[bank]), g.PageRow(srcVblock, srcPage), g.PageRow(dstVblock, dstPage)))
    {
      var srcRow, dstRow := RowOf(srcVblock, srcPage), RowOf(dstVblock, dstPage);
      CopybackMeaning(g.CopyBuf(bankMap[bank]), bankMap[bank], srcRow, dstRow, Settled(g, engine));
      if copybackAllowed(srcRow, dstRow) {
        CopyInChip(bank, srcRow, dstRow);
        OneAppended(old(engine.issued), engine.issued, FC_COPYBACK, srcRow);
        DoesOne(g, old(engine.issued), engine.issued, bankMap[bank],
                WholePageCopy(g.CopyBuf(bankMap[bank]), srcRow, dstRow));
      } else {
        CopyByBuffer(bank, srcRow, dstRow);
        PageCopySequenceIsWhole(engine.issued[|old(engine.issued)|..], srcRow, dstRow);
      }
    }

    /** FC_MODIFY_COPYBACK; the address register points to the start of the page
        that the caller's sectors belong to. */
    method ModifyInChip(bank: nat, srcRow: u32, dstRow: u32, sect: nat, dmaAddr: u32, cnt: nat)
      requires Ready() && bank < |bankMap| && sect * BYTES_PER_SECTOR + cnt <= g.PageBytes()
      requires ApartFrom(g, engine, bankMap[bank],
                 OneCommandCopyback(g.CopyBuf(bankMap[bank]), srcRow, dstRow, sect, dmaAddr, cnt))
      modifies this
      ensures Ready() && |engine.work| == old(|engine.work|)
      ensures Settled(g, engine) == Run(bankMap[bank],
                OneCommandCopyback(g.CopyBuf(bankMap[bank]), srcRow, dstRow, sect, dmaAddr, cnt),
                old(Settled(g, engine)))
      ensures Appends(old(engine.issued), engine.issued, FC_MODIFY_COPYBACK, WRITE_OPTION, srcRow)
      ensures Does(g, old(engine.issued), engine.issued, bankMap[bank],
                   OneCommandCopyback(g.CopyBuf(bankMap[bank]), srcRow, dstRow, sect, dmaAddr, cnt))
      ensures SameRow(bank, srcRow)
    {
      SetTransfer(FC_MODIFY_COPYBACK, FO_P + FO_E + FO_B_W_DRDY, PageAddr(dmaAddr, sect), cnt, 0);
      SetRow(bank, srcRow);
      SetDestination(dstRow, sect);
      ModifyCopybackDecoded(g, IssuedBy(bankMap[bank]), sect, dmaAddr);
      FlashIssueCmd(bank, RETURN_ON_ISSUE,
                    OneCommandCopyback(g.CopyBuf(bankMap[bank]), srcRow, dstRow, sect, dmaAddr, cnt), []);
    }

    /** Second of four commands: the head of the page from the copy buffer, at the
        address register left by the first. */
    method WriteOldHead(bank: nat, dstRow: u32, headCnt: u32, ghost rest: seq<Op>)
      requires Ready() && bank < |bankMap| && fcpDmaAddr == BufAddr(bank)
      requires ApartFrom(g, engine, bankMap[bank], [Address(dstRow)] + Loads(BufAddr(bank), 0, headCnt))
      requires ApartFrom(g, engine, bankMap[bank], rest)
      modifies this
      ensures Ready() && |engine.work| == old(|engine.work|) && ApartFrom(g, engine, bankMap[bank], rest)
      ensures Settled(g, engine) == Run(bankMap[bank], [Address(dstRow)] + Loads(BufAddr(bank), 0, headCnt),
                                        old(Settled(g, engine)))
      ensures Appends(old(engine.issued), engine.issued, FC_COL_ROW_IN, WRITE_OPTION, dstRow)
      ensures Does(g, old(engine.issued), engine.issued, bankMap[bank],
                   [Address(dstRow)] + Loads(BufAddr(bank), 0, headCnt))
      ensures SameRow(bank, dstRow) && fcpOption == WRITE_OPTION
    {
      fcpCmd := FC_COL_ROW_IN;
      fcpOption := FO_P + FO_E + FO_B_W_DRDY;
      fcpDmaCnt := headCnt;
      SetRow(bank, dstRow);
      fcpCol := 0;
      FlashIssueCmd(bank, RETURN_ON_ISSUE, [Address(dstRow)] + Loads(BufAddr(bank), 0, headCnt), rest);
    }

    /** Third: the caller's bytes, addressed from the start of the page. */
    method WriteNewData(bank: nat, ghost dstRow: u32, sect: nat, dmaAddr: u32, cnt: nat, ghost rest: seq<Op>)
      requires Ready() && bank < |bankMap| && SameRow(bank, dstRow) && fcpOption == WRITE_OPTION
      requires sect * BYTES_PER_SECTOR + cnt <= g.PageBytes()
      requires ApartFrom(g, engine, bankMap[bank], Loads(PageAddr(dmaAddr, sect), sect, cnt))
      requires ApartFrom(g, engine, bankMap[bank], rest)
      modifies this
      ensures Ready() && |engine.work| == old(|engine.work|) && ApartFrom(g, engine, bankMap[bank], rest)
      ensures Settled(g, engine) == Run(bankMap[bank], Loads(PageAddr(dmaAddr, sect), sect, cnt),
                                        old(Settled(g, engine)))
      ensures Appends(old(engine.issued), engine.issued, FC_IN, WRITE_OPTION, dstRow)
      ensures Does(g, old(engine.issued), engine.issued, bankMap[bank],
                   Loads(PageAddr(dmaAddr, sect), sect, cnt))
      ensures SameRow(bank, dstRow) && fcpOption == WRITE_OPTION
    {
      fcpCmd := FC_IN;
      fcpDmaAddr := PageAddr(dmaAddr, sect);
      fcpDmaCnt := cnt;
      fcpCol := sect;
      FlashIssueCmd(bank, RETURN_ON_ISSUE, Loads(PageAddr(dmaAddr, sect), sect, cnt), rest);
    }

    /** Fourth: the tail from the copy buffer, and the program command. */
    method WriteOldTail(bank: nat, ghost dstRow: u32, col: u32, cnt: u32)
      requires Ready() && bank < |bankMap| && SameRow(bank, dstRow) && fcpOption == WRITE_OPTION
      requires ApartFrom(g, engine, bankMap[bank], Loads(BufAddr(bank), col, cnt) + [Program])
      modifies this
      ensures Ready() && |engine.work| == old(|engine.work|)
      ensures Settled(g, engine) == Run(bankMap[bank], Loads(BufAddr(bank), col, cnt) + [Program],
                                        old(Settled(g, engine)))
      ensures Appends(old(engine.issued), engine.issued, FC_IN_PROG, WRITE_OPTION, dstRow)
      ensures Does(g, old(engine.issued), engine.issued, bankMap[bank],
                   Loads(BufAddr(bank), col, cnt) + [Program])
    {
      fcpCmd := FC_IN_PROG;
      fcpDmaAddr := BufAddr(bank);
      fcpDmaCnt := cnt;
      fcpCol := col;
      FlashIssueCmd(bank, RETURN_ON_ISSUE, Loads(BufAddr(bank), col, cnt) + [Program], []);
    }

    /** The path without hardware support, in four commands. */
    method ModifyByBuffer(bank: nat, srcRow: u32, dstRow: u32, sect: nat, dmaAddr: u32, cnt: nat)
      requires Ready() && bank < |bankMap| && sect * BYTES_PER_SECTOR + cnt <= g.CopyBuf(bankMap[bank]).bytes
      requires ApartFrom(g, engine, bankMap[bank],
                 FourCommandCopyback(g.CopyBuf(bankMap[bank]), srcRow, dstRow, sect, dmaAddr, cnt))
      modifies this
      ensures Ready() && |engine.work| == old(|engine.work|)
      ensures Settled(g, engine) == Run(bankMap[bank],
                FourCommandCopyback(g.CopyBuf(bankMap[bank]), srcRow, dstRow, sect, dmaAddr, cnt),
                old(Settled(g, engine)))
      ensures |old(engine.issued)| <= |engine.issued| && engine.issued[..|old(engine.issued)|] == old(engine.issued)
      ensures CopySequence(engine.issued[|old(engine.issued)|..], srcRow, dstRow)
      ensures DoesAll(g, old(engine.issued), engine.issued, bankMap[bank],
                FourCommandCopyback(g.CopyBuf(bankMap[bank]), srcRow, dstRow, sect, dmaAddr, cnt))
    {
      var tailCol, tailCnt := TailCol(sect, cnt), TailCnt(g.CopyBuf(bankMap[bank]), sect, cnt);
      ghost var start := engine.issued;
      ghost var c1 := ReadOut(srcRow, BufAddr(bank), 0, g.PageBytes());
      ghost var c2 := [Address(dstRow)] + Loads(BufAddr(bank), 0, sect * BYTES_PER_SECTOR);
      ghost var c3 := Loads(PageAddr(dmaAddr, sect), sect, cnt);
      ghost var c4 := Loads(BufAddr(bank), tailCol, tailCnt) + [Program];
      TwoParts(g, engine, bankMap[bank], c1 + c2, c3 + c4);
      TwoParts(g, engine, bankMap[bank], c1, c2);
      ApartFromJoin(g, engine, bankMap[bank], c2, c3 + c4);
      ReadOldPage(bank, srcRow, c2 + (c3 + c4));
      ghost var first := engine.issued;
      TwoParts(g, engine, bankMap[bank], c2, c3 + c4);
      WriteOldHead(bank, dstRow, sect * BYTES_PER_SECTOR, c3 + c4);
      ghost var second := engine.issued;
      TwoParts(g, engine, bankMap[bank], c3, c4);
      WriteNewData(bank, dstRow, sect, dmaAddr, cnt, c4);
      ghost var third := engine.issued;
      WriteOldTail(bank, dstRow, tailCol, tailCnt);
      FourAppended(start, first, second, third, engine.issued, srcRow, dstRow);
      DoesFour(g, start, first, second, third, engine.issued, bankMap[bank], c1, c2, c3, c4);
    }

    /** Copy a page while replacing `cnt` bytes from sector `sect` on. */
    method NandPageModifiedCopyback(bank: nat, srcVblock: nat, srcPage: nat, dstVblock: nat, dstPage: nat,
                                    sect: nat, dmaAddr: u32, cnt: nat)
      requires Ready() && Addresses(bank, srcVblock, srcPage) && Addresses(bank, dstVblock, dstPage)
      requires sect * BYTES_PER_SECTOR + cnt <= g.CopyBuf(bankMap[bank]).bytes && dmaAddr + cnt <= TWO_TO_32
      requires ApartFrom(g, engine, bankMap[bank],
                 ModifyOps(bankMap[bank], g.PageRow(srcVblock, srcPage), g.PageRow(dstVblock, dstPage),
                           sect, dmaAddr, cnt))
      modifies this
      ensures Ready() && |engine.work| == old(|engine.work|)
      ensures Settled(g, engine) == Run(bankMap[bank],
                ModifyOps(bankMap[bank], g.PageRow(srcVblock, srcPage), g.PageRow(dstVblock, dstPage),
                          sect, dmaAddr, cnt),
                old(Settled(g, engine)))
      ensures cnt % BYTES_PER_SECTOR == 0 ==>
        Settled(g, engine) == ModifiedCopy(g.CopyBuf(bankMap[bank]), bankMap[bank], g.PageRow(srcVblock, srcPage),
                                g.PageRow(dstVblock, dstPage), sect, dmaAddr, cnt, old(Settled(g, engine)))
      ensures |old(engine.issued)| <= |engine.issued| && engine.issued[..|old(engine.issued)|] == old(engine.issued)
      ensures WholeSequences(engine.issued[|old(engine.issued)|..]) && Usual(engine.issued[|old(engine.issued)|..])
      ensures DoesAll(g, old(engine.issued), engine.issued, bankMap[bank],
                      ModifyOps(bankMap[bank], g.PageRow(srcVblock, srcPage), g.PageRow(dstVblock, dstPage),
                                sect, dmaAddr, cnt))
    {
      var srcRow, dstRow := RowOf(srcVblock, srcPage), RowOf(dstVblock, dstPage);
      ModifyRows(bank, srcRow, dstRow, sect, dmaAddr, cnt);
    }

    /** The same for rows: with one command, if the chip can, or else with four. */
    method ModifyRows(bank: nat, srcRow: u32, dstRow: u32, sect: nat, dmaAddr: u32, cnt: nat)
      requires Ready() && bank < |bankMap|
      requires sect * BYTES_PER_SECTOR + cnt <= g.CopyBuf(bankMap[bank]).bytes && dmaAddr + cnt <= TWO_TO_32
      requires ApartFrom(g, engine, bankMap[bank], ModifyOps(bankMap[bank], srcRow, dstRow, sect, dmaAddr, cnt))
      modifies this
      ensures Ready() && |engine.work| == old(|engine.work|)
      ensures Settled(g, engine) == Run(bankMap[bank], ModifyOps(bankMap[bank], srcRow, dstRow, sect, dmaAddr, cnt),
                                        old(Settled(g, engine)))
      ensures cnt % BYTES_PER_SECTOR == 0 ==>
        Settled(g, engine) == ModifiedCopy(g.CopyBuf(bankMap[bank]), bankMap[bank], srcRow, dstRow, sect, dmaAddr, cnt,
                                           old(Settled(g, engine)))
      ensures |old(engine.issued)| <= |engine.issued| && engine.issued[..|old(engine.issued)|] == old(engine.issued)
      ensures WholeSequences(engine.issued[|old(engine.issued)|..]) && Usual(engine.issued[|old(engine.issued)|..])
      ensures DoesAll(g, old(engine.issued), engine.issued, bankMap[bank],
                      ModifyOps(bankMap[bank], srcRow, dstRow, sect, dmaAddr, cnt))
    {
      ghost var before := Settled(g, engine);
      if copybackAllowed(srcRow, dstRow) && modifyCopy {
        ModifyInChip(bank, srcRow, dstRow, sect, dmaAddr, cnt);
        OneCommandMeaning(g.CopyBuf(bankMap[bank]), bankMap[bank], srcRow, dstRow, sect, dmaAddr, cnt, before);
        OneAppended(old(engine.issued), engine.issued, FC_MODIFY_COPYBACK, srcRow);
        DoesOne(g, old(engine.issued), engine.issued, bankMap[bank],
                OneCommandCopyback(g.CopyBuf(bankMap[bank]), srcRow, dstRow, sect, dmaAddr, cnt));
      } else {
        ModifyByBuffer(bank, srcRow, dstRow, sect, dmaAddr, cnt);
        CopySequenceIsWhole(engine.issued[|old(engine.issued)|..], srcRow, dstRow);
        if cnt % BYTES_PER_SECTOR == 0 {
          FourCommandMeaning(g.CopyBuf(bankMap[bank]), bankMap[bank], srcRow, dstRow, sect, dmaAddr, cnt, before);
        }
      }
    }

    function ModifyOps(b: nat, srcRow: nat, dstRow: nat, sect: nat, dmaAddr: int, cnt: nat): seq<Op>
      requires sect * BYTES_PER_SECTOR + cnt <= g.CopyBuf(b).bytes
    {
      if copybackAllowed(srcRow, dstRow) && modifyCopy
      then OneCommandCopyback(g.CopyBuf(b), srcRow, dstRow, sect, dmaAddr, cnt)
      else FourCommandCopyback(g.CopyBuf(b), srcRow, dstRow, sect, dmaAddr, cnt)
    }
  }
}
