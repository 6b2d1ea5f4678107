/** Flash controller commands: what a bank does for each command code, and what
    that amounts to for a whole page. */
module FlashCommands {
  import opened Common
  import opened FlashMemory

  // command codes
  const FC_COL_ROW_IN_PROG: u32 := 0x01
  const FC_COL_ROW_IN: u32 := 0x02
  const FC_IN: u32 := 0x03
  const FC_IN_PROG: u32 := 0x04
  const FC_PROG: u32 := 0x09
  const FC_COL_ROW_READ_OUT: u32 := 0x0a
  const FC_COL_ROW_READ: u32 := 0x0b
  const FC_OUT: u32 := 0x0c
  const FC_COL_OUT: u32 := 0x0f
  const FC_COPYBACK: u32 := 0x12
  const FC_ERASE: u32 := 0x14
  const FC_MODIFY_COPYBACK: u32 := 0x17

  // options of a command: two planes (0x01) and error correction (0x06), with data
  // that is ready (0x40), that comes from the host (0x80), or goes there (0x100)
  const ERASE_OPTION: u32 := 0x01
  const READ_OPTION: u32 := 0x07
  const WRITE_OPTION: u32 := 0x47
  const FROM_HOST_OPTION: u32 := 0x87
  const TO_HOST_OPTION: u32 := 0x107

  const BYTES_PER_SECTOR: int := 512

  /** The copy buffer of one bank: a page of DRAM. */
  datatype CopyArea = CopyArea(base: int, bytes: nat) {
    predicate Fits() { 0 <= base < TWO_TO_32 && base + bytes <= TWO_TO_32 }
  }

  /** The sizes the controller is configured with, and the copy buffer of each
      real bank. */
  datatype Geometry = Geometry(pagesPerBlk: nat, sectorsPerPage: nat, copyBufs: seq<CopyArea>) {
    function PageBytes(): nat { sectorsPerPage * BYTES_PER_SECTOR }

    /** Row of a page: the pages of a block, and then the blocks, follow each other. */
    function PageRow(vblock: nat, page: nat): nat { vblock * pagesPerBlk + page }

    function CopyBuf(rbank: nat): CopyArea {
      if rbank < |copyBufs| then copyBufs[rbank] else CopyArea(0, 0)
    }
  }

  /** The registers copied to the Waiting Room by a write to FCP_ISSUE. The row
      registers are those of the addressed bank. */
  datatype Cmd = Cmd(code: u32, bank: u32, option: u32, dmaAddr: u32, dmaCnt: u32, col: u32,
                     rowL: u32, rowH: u32, dstCol: u32, dstRowL: u32, dstRowH: u32)

  /** The memory address of a page byte is DMA_ADDR plus its offset in the page,
      since FCP_COL is added to DMA_ADDR in sectors. */
  function Loads(dmaAddr: int, col: nat, cnt: nat): seq<Op> {
    seq(cnt, i requires 0 <= i =>
      Load(col * BYTES_PER_SECTOR + i, Wrap32(dmaAddr + (col * BYTES_PER_SECTOR + i))))
  }

  function Unloads(dmaAddr: int, col: nat, cnt: nat): seq<Op> {
    seq(cnt, i requires 0 <= i =>
      Unload(col * BYTES_PER_SECTOR + i, Wrap32(dmaAddr + (col * BYTES_PER_SECTOR + i))))
  }

  function Erases(first: nat, cnt: nat): seq<Op> {
    seq(cnt, i requires 0 <= i => EraseRow(first + i))
  }

  function ReadOut(row: nat, dmaAddr: int, col: nat, cnt: nat): seq<Op> {
    [Sense(row)] + Unloads(dmaAddr, col, cnt)
  }

  function InProg(row: nat, dmaAddr: int, col: nat, cnt: nat): seq<Op> {
    [Address(row)] + Loads(dmaAddr, col, cnt) + [Program]
  }

  /** Read into the copy buffer, then start a write of the whole page from it. */
  function CopyThroughBuffer(ca: CopyArea, srcRow: nat, dstRow: nat): seq<Op> {
    ReadOut(srcRow, ca.base, 0, ca.bytes) + [Address(dstRow)] + Loads(ca.base, 0, ca.bytes)
  }

  function Decode(g: Geometry, c: Cmd): seq<Op> {
    if c.code == FC_COL_ROW_IN_PROG then InProg(c.rowL, c.dmaAddr, c.col, c.dmaCnt)
    else if c.code == FC_COL_ROW_IN then [Address(c.rowL)] + Loads(c.dmaAddr, c.col, c.dmaCnt)
    else if c.code == FC_IN then Loads(c.dmaAddr, c.col, c.dmaCnt)
    else if c.code == FC_IN_PROG then Loads(c.dmaAddr, c.col, c.dmaCnt) + [Program]
    else if c.code == FC_PROG then [Program]
    else if c.code == FC_COL_ROW_READ_OUT then ReadOut(c.rowL, c.dmaAddr, c.col, c.dmaCnt)
    else if c.code == FC_COL_ROW_READ then [Sense(c.rowL)]
    else if c.code == FC_OUT || c.code == FC_COL_OUT then Unloads(c.dmaAddr, c.col, c.dmaCnt)
    else if c.code == FC_COPYBACK then CopyThroughBuffer(g.CopyBuf(c.bank), c.rowL, c.dstRowL) + [Program]
    else if c.code == FC_MODIFY_COPYBACK then
      CopyThroughBuffer(g.CopyBuf(c.bank), c.rowL, c.dstRowL) + Loads(c.dmaAddr, c.dstCol, c.dmaCnt) + [Program]
    else if c.code == FC_ERASE then Erases(c.rowL, g.pagesPerBlk)
    else []
  }

  // ----- the rules for sequences of commands of one bank -----

  /** Between sequences, or in a write or read sequence on a row. */
  datatype Phase = Between | InWrite(row: u32) | InRead(row: u32) | Broken

  /** A write sequence starts with a row address, keeps to that row and ends with
      a program command; a read sequence starts with a row address and keeps to
      that row. */
  function NextPhase(p: Phase, c: Cmd): Phase {
    if c.rowL != c.rowH || p.Broken? then Broken
    else if p.InWrite? then
      (if c.rowL != p.row then Broken
       else if c.code == FC_IN then p
       else if c.code == FC_IN_PROG || c.code == FC_PROG then Between
       else Broken)
    else if c.code == FC_COL_ROW_IN then InWrite(c.rowL)
    else if c.code == FC_COL_ROW_READ_OUT || c.code == FC_COL_ROW_READ then InRead(c.rowL)
    else if c.code == FC_OUT || c.code == FC_COL_OUT then (if p == InRead(c.rowL) then p else Broken)
    else if c.code == FC_COL_ROW_IN_PROG || c.code == FC_ERASE || c.code == FC_COPYBACK || c.code == FC_MODIFY_COPYBACK
      then Between
    else Broken
  }

  function PhaseAfter(p: Phase, cs: seq<Cmd>): Phase {
    if cs == [] then p else NextPhase(PhaseAfter(p, cs[..|cs| - 1]), cs[|cs| - 1])
  }

  predicate OpensWrite(c: Cmd) { c.code == FC_COL_ROW_IN || c.code == FC_IN }
  predicate NeedsWrite(c: Cmd) { c.code == FC_IN || c.code == FC_IN_PROG || c.code == FC_PROG }
  predicate NeedsRead(c: Cmd) { c.code == FC_OUT || c.code == FC_COL_OUT }
  predicate OpensRead(c: Cmd) { c.code == FC_COL_ROW_READ_OUT || c.code == FC_COL_ROW_READ || NeedsRead(c) }

  predicate StandsAlone(c: Cmd) {
    c.code == FC_COL_ROW_IN_PROG || c.code == FC_ERASE || c.code == FC_COPYBACK || c.code == FC_MODIFY_COPYBACK
  }

  /** The rule for a command, by the one before it: data and program commands
      come right after, and only after, a command that opens or continues a write,
      on the same row; output commands after one that reads that row. */
  predicate MayFollow(before: Option<Cmd>, c: Cmd) {
    && c.rowL == c.rowH
    && (OpensWrite(c) || NeedsWrite(c) || OpensRead(c) || StandsAlone(c))
    && (NeedsWrite(c) <==> before.Some? && OpensWrite(before.value))
    && (NeedsWrite(c) || NeedsRead(c) ==> before.Some? && before.value.rowL == c.rowL)
    && (NeedsRead(c) ==> OpensRead(before.value))
  }

  function Before(cs: seq<Cmd>, i: nat): Option<Cmd>
    requires i <= |cs|
  {
    if i == 0 then None else Some(cs[i - 1])
  }

  /** The phase after commands that keep to the rules is given by the last one. */
  predicate PhaseOf(p: Phase, last: Option<Cmd>) {
    if last.Some? && OpensWrite(last.value) then p == InWrite(last.value.rowL)
    else if last.Some? && OpensRead(last.value) then p == InRead(last.value.rowL)
    else p == Between
  }

  ghost predicate AllFollow(cs: seq<Cmd>) {
    forall i :: 0 <= i < |cs| ==> MayFollow(Before(cs, i), cs[i])
  }

  lemma AllFollowLast(cs: seq<Cmd>)
    requires cs != []
    ensures AllFollow(cs) <==> AllFollow(cs[..|cs| - 1]) && MayFollow(Before(cs, |cs| - 1), cs[|cs| - 1])
  {
    assert forall i: nat :: i < |cs| ==> Before(cs[..|cs| - 1], i) == Before(cs, i);
  }

  /** A sequence of commands is not broken exactly when each of them may follow
      the one before it. */
  lemma {:induction false} RulesExact(cs: seq<Cmd>)
    ensures PhaseAfter(Between, cs) != Broken <==> AllFollow(cs)
    ensures AllFollow(cs) ==> PhaseOf(PhaseAfter(Between, cs), Before(cs, |cs|))
    decreases |cs|
  {
    if cs != [] {
      var n := |cs| - 1;
      RulesExact(cs[..n]);
      AllFollowLast(cs);
      assert Before(cs[..n], n) == Before(cs, n);
      NextByRule(PhaseAfter(Between, cs[..n]), Before(cs, n), cs[n]);
    }
  }

  lemma NextByRule(p: Phase, last: Option<Cmd>, c: Cmd)
    requires !p.Broken? ==> PhaseOf(p, last)
    ensures p.Broken? ==> NextPhase(p, c).Broken?
    ensures !p.Broken? ==> (NextPhase(p, c).Broken? <==> !MayFollow(last, c))
    ensures !p.Broken? && MayFollow(last, c) ==> PhaseOf(NextPhase(p, c), Some(c))
  {
  }

  /** Commands that may follow whenever no write sequence is open, and that leave none open. */
  ghost predicate WholeSequences(cs: seq<Cmd>) {
    forall p: Phase :: p.Between? || p.InRead? ==> PhaseAfter(p, cs).Between? || PhaseAfter(p, cs).InRead?
  }

  /** Reads, erases and all others have their own options. */
  predicate UsualOption(c: Cmd) {
    c.option == if c.code == FC_COL_ROW_READ_OUT then READ_OPTION
                else if c.code == FC_ERASE then ERASE_OPTION
                else WRITE_OPTION
  }

  ghost predicate Usual(cs: seq<Cmd>) { forall i :: 0 <= i < |cs| ==> UsualOption(cs[i]) }

  // ----- what whole transfers do -----

  predicate Within(x: int, lo: int, cnt: nat) { lo <= x < lo + cnt }

  /** The page bytes [col, col + cnt) as DRAM holds them behind `dmaAddr`. */
  function FromDram(d: Dram, dmaAddr: int, col: nat, cnt: nat): Page {
    map i: nat | col * BYTES_PER_SECTOR <= i < col * BYTES_PER_SECTOR + cnt
                 && Within(i, col * BYTES_PER_SECTOR, cnt)
      :: Peek(d, Wrap32(dmaAddr + i))
  }

  function WithReg(m: Mem, b: nat, reg: Page): Mem
    requires b < |m.banks|
  {
    m.(banks := m.banks[b := m.banks[b].(reg := reg)])
  }

  lemma WithRegTwice(m: Mem, b: nat, p: Page, q: Page)
    requires b < |m.banks|
    ensures WithReg(m, b, m.banks[b].reg) == m
    ensures WithReg(WithReg(m, b, p), b, q) == WithReg(m, b, q)
  {
  }

  lemma FromDramExtend(reg: Page, d: Dram, dmaAddr: int, col: nat, n: nat)
    ensures reg + FromDram(d, dmaAddr, col, 0) == reg
    ensures var off := col * BYTES_PER_SECTOR + n;
      (reg + FromDram(d, dmaAddr, col, n))[off := Peek(d, Wrap32(dmaAddr + off))]
      == reg + FromDram(d, dmaAddr, col, n + 1)
  {
    var off := col * BYTES_PER_SECTOR + n;
    var l := (reg + FromDram(d, dmaAddr, col, n))[off := Peek(d, Wrap32(dmaAddr + off))];
    var r := reg + FromDram(d, dmaAddr, col, n + 1);
    assert forall i :: i in FromDram(d, dmaAddr, col, n + 1) <==> i in FromDram(d, dmaAddr, col, n) || i == off;
    assert l == r;
  }

  lemma {:induction false} LoadsEffect(b: nat, dmaAddr: int, col: nat, cnt: nat, m: Mem)
    requires b < |m.banks|
    ensures Run(b, Loads(dmaAddr, col, cnt), m)
         == WithReg(m, b, m.banks[b].reg + FromDram(m.dram, dmaAddr, col, cnt))
    decreases cnt
  {
    var reg := m.banks[b].reg;
    if cnt == 0 {
      FromDramExtend(reg, m.dram, dmaAddr, col, 0);
      WithRegTwice(m, b, reg, reg);
    } else {
      var n := cnt - 1;
      var off := col * BYTES_PER_SECTOR + n;
      var last := Load(off, Wrap32(dmaAddr + off));
      var p := reg + FromDram(m.dram, dmaAddr, col, n);
      var m1 := WithReg(m, b, p);
      assert Loads(dmaAddr, col, cnt) == Loads(dmaAddr, col, n) + [last];
      RunAppend(b, Loads(dmaAddr, col, n), [last], m);
      LoadsEffect(b, dmaAddr, col, n, m);
      FromDramExtend(reg, m.dram, dmaAddr, col, n);
      var q := p[off := Peek(m.dram, Wrap32(dmaAddr + off))];
      assert Step(b, last, m1) == WithReg(m1, b, q);
      WithRegTwice(m, b, p, q);
    }
  }

  /** The DRAM bytes [start, start + cnt) as page `p` holds them from offset `off`. */
  function ToDram(p: Page, off: nat, start: int, cnt: nat): Dram {
    map a: int | start <= a < start + cnt && Within(a, start, cnt) :: At(p, off + (a - start))
  }

  lemma ToDramExtend(d: Dram, p: Page, off: nat, start: int, n: nat)
    ensures d + ToDram(p, off, start, 0) == d
    ensures (d + ToDram(p, off, start, n))[start + n := At(p, off + n)] == d + ToDram(p, off, start, n + 1)
  {
  }

  lemma {:induction false} UnloadsEffect(b: nat, dmaAddr: int, col: nat, cnt: nat, m: Mem)
    requires b < |m.banks|
    requires Wrap32(dmaAddr + col * BYTES_PER_SECTOR) + cnt <= TWO_TO_32
    ensures Run(b, Unloads(dmaAddr, col, cnt), m)
         == m.(dram := m.dram + ToDram(m.banks[b].reg, col * BYTES_PER_SECTOR,
                                       Wrap32(dmaAddr + col * BYTES_PER_SECTOR), cnt))
    decreases cnt
  {
    var base := col * BYTES_PER_SECTOR;
    var start := Wrap32(dmaAddr + base);
    var reg := m.banks[b].reg;
    if cnt == 0 {
      ToDramExtend(m.dram, reg, base, start, 0);
    } else {
      var n := cnt - 1;
      WrapAdd(dmaAddr + base, n);
      assert (dmaAddr + base) + n == dmaAddr + (base + n);
      var last := Unload(base + n, start + n);
      assert Unloads(dmaAddr, col, cnt) == Unloads(dmaAddr, col, n) + [last];
      RunAppend(b, Unloads(dmaAddr, col, n), [last], m);
      UnloadsEffect(b, dmaAddr, col, n, m);
      ToDramExtend(m.dram, reg, base, start, n);
      var m1 := m.(dram := m.dram + ToDram(reg, base, start, n));
      assert Run(b, [last], m1) == Step(b, last, m1);
    }
  }

  /** Erased pages, for the rows [first, first + cnt). */
  function Blank(first: nat, cnt: nat): map<nat, Page> {
    map row: nat | first <= row < first + cnt && Within(row, first, cnt) :: map[]
  }

  lemma {:induction false} ErasesEffect(b: nat, first: nat, cnt: nat, m: Mem)
    requires b < |m.banks|
    ensures Run(b, Erases(first, cnt), m)
         == m.(banks := m.banks[b := m.banks[b].(rows := m.banks[b].rows + Blank(first, cnt))])
    decreases cnt
  {
    var rows := m.banks[b].rows;
    if cnt == 0 {
      assert rows + Blank(first, 0) == rows;
      assert m.banks[b := m.banks[b].(rows := rows)] == m.banks;
    } else {
      var n := cnt - 1;
      assert Erases(first, cnt) == Erases(first, n) + [EraseRow(first + n)];
      RunAppend(b, Erases(first, n), [EraseRow(first + n)], m);
      ErasesEffect(b, first, n, m);
      assert (rows + Blank(first, n))[first + n := map[]] == rows + Blank(first, cnt);
      var m1 := Run(b, Erases(first, n), m);
      assert Run(b, [EraseRow(first + n)], m1) == Step(b, EraseRow(first + n), m1);
    }
  }
}
