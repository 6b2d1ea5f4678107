/** The nand_* calls of the firmware: the work each one issues, and its meaning
    for whole pages. */
module FlashCalls {
  import opened Common
  import opened FlashMemory
  import opened FlashCommands

  /** Read the source page into the copy buffer, and write its head from there. */
  function HeadOps(ca: CopyArea, srcRow: nat, dstRow: nat, headCnt: nat): seq<Op> {
    ReadOut(srcRow, ca.base, 0, ca.bytes) + ([Address(dstRow)] + Loads(ca.base, 0, headCnt))
  }

  /** DMA address for a transfer of the bytes at `addr` to sector `sect` on: FCP_COL
      is added to it. */
  function PageAddr(addr: int, sect: nat): u32 { Wrap32(addr - sect * BYTES_PER_SECTOR) }

  // the rest of a page after `cnt` bytes from sector `sect` on
  function TailCol(sect: nat, cnt: nat): nat { sect + cnt / BYTES_PER_SECTOR }

  function TailCnt(ca: CopyArea, sect: nat, cnt: nat): nat
    requires sect * BYTES_PER_SECTOR + cnt <= ca.bytes
  {
    ca.bytes - sect * BYTES_PER_SECTOR - cnt
  }

  /** The caller's bytes, and the tail of the page from the copy buffer. */
  function TailOps(ca: CopyArea, sect: nat, dmaAddr: int, cnt: nat): seq<Op>
    requires sect * BYTES_PER_SECTOR + cnt <= ca.bytes
  {
    Loads(PageAddr(dmaAddr, sect), sect, cnt)
    + (Loads(ca.base, TailCol(sect, cnt), TailCnt(ca, sect, cnt)) + [Program])
  }

  /** Work of `nand_page_modified_copyback` without hardware support: read the
      source page, write the head from the copy buffer, the new sectors from the
      caller's buffer, and the tail from the copy buffer again. */
  function FourCommandCopyback(ca: CopyArea, srcRow: nat, dstRow: nat,
                               sect: nat, dmaAddr: int, cnt: nat): seq<Op>
    requires sect * BYTES_PER_SECTOR + cnt <= ca.bytes
  {
    HeadOps(ca, srcRow, dstRow, sect * BYTES_PER_SECTOR) + TailOps(ca, sect, dmaAddr, cnt)
  }

  /** The same with FC_MODIFY_COPYBACK. */
  function OneCommandCopyback(ca: CopyArea, srcRow: nat, dstRow: nat,
                              sect: nat, dmaAddr: int, cnt: nat): seq<Op>
  {
    CopyThroughBuffer(ca, srcRow, dstRow)
    + Loads(PageAddr(dmaAddr, sect), sect, cnt) + [Program]
  }

  /** The commands of a modified copyback without hardware support: read the
      source row, then one write sequence on the destination row. */
  ghost predicate CopySequence(cs: seq<Cmd>, srcRow: u32, dstRow: u32) {
    && |cs| == 4
    && cs[0].code == FC_COL_ROW_READ_OUT && cs[0].rowL == cs[0].rowH == srcRow
    && cs[1].code == FC_COL_ROW_IN && cs[1].rowL == cs[1].rowH == dstRow
    && cs[2].code == FC_IN && cs[2].rowL == cs[2].rowH == dstRow
    && cs[3].code == FC_IN_PROG && cs[3].rowL == cs[3].rowH == dstRow
    && Usual(cs)
  }

  lemma CopySequenceIsWhole(cs: seq<Cmd>, srcRow: u32, dstRow: u32)
    requires CopySequence(cs, srcRow, dstRow)
    ensures WholeSequences(cs)
  {
    forall p: Phase | p.Between? || p.InRead? ensures PhaseAfter(p, cs).Between? {
      assert cs[..3][..2] == cs[..2] && cs[..2][..1] == cs[..1] && cs[..1][..0] == [];
      assert PhaseAfter(p, cs[..1]) == InRead(srcRow) && PhaseAfter(p, cs[..2]) == InWrite(dstRow);
      assert PhaseAfter(p, cs[..3]) == InWrite(dstRow);
    }
  }

  /** The commands of a whole-page copy by way of the copy buffer. */
  ghost predicate PageCopySequence(cs: seq<Cmd>, srcRow: u32, dstRow: u32) {
    && |cs| == 2
    && cs[0].code == FC_COL_ROW_READ_OUT && cs[0].rowL == cs[0].rowH == srcRow
    && cs[1].code == FC_COL_ROW_IN_PROG && cs[1].rowL == cs[1].rowH == dstRow
    && Usual(cs)
  }

  lemma PageCopySequenceIsWhole(cs: seq<Cmd>, srcRow: u32, dstRow: u32)
    requires PageCopySequence(cs, srcRow, dstRow)
    ensures WholeSequences(cs)
  {
    forall p: Phase | p.Between? || p.InRead? ensures PhaseAfter(p, cs).Between? {
      assert cs[..1][..0] == [];
      assert PhaseAfter(p, cs[..1]) == NextPhase(p, cs[0]);
    }
  }

  /** A command that is a sequence of its own. */
  lemma SingleIsWhole(c: Cmd)
    requires c.rowL == c.rowH
    requires c.code == FC_COL_ROW_READ_OUT || c.code == FC_COL_ROW_IN_PROG || c.code == FC_ERASE
             || c.code == FC_COPYBACK || c.code == FC_MODIFY_COPYBACK
    ensures WholeSequences([c])
  {
  }

  /** One command more was issued, for the same row of both chips. */
  predicate Appends(before: seq<Cmd>, after: seq<Cmd>, code: u32, option: u32, row: nat) {
    && |after| == |before| + 1 && after[..|before|] == before
    && after[|before|].code == code && after[|before|].option == option
    && after[|before|].rowL == after[|before|].rowH == row
  }

  /** That command is for bank `rbank`, and its work is `ops`. */
  predicate Does(g: Geometry, before: seq<Cmd>, after: seq<Cmd>, rbank: nat, ops: seq<Op>) {
    && |after| == |before| + 1 && after[..|before|] == before
    && after[|before|].bank == rbank && Decode(g, after[|before|]) == ops
  }

  /** The work of commands, one after the other. */
  function WorkOf(g: Geometry, cs: seq<Cmd>): seq<Op> {
    if cs == [] then [] else Decode(g, cs[0]) + WorkOf(g, cs[1..])
  }

  /** The commands issued since are for bank `rbank`, and their work is `ops`. */
  ghost predicate DoesAll(g: Geometry, before: seq<Cmd>, after: seq<Cmd>, rbank: nat, ops: seq<Op>) {
    && |before| <= |after| && after[..|before|] == before
    && (forall i :: |before| <= i < |after| ==> after[i].bank == rbank)
    && WorkOf(g, after[|before|..]) == ops
  }

  lemma DoesOne(g: Geometry, s: seq<Cmd>, s1: seq<Cmd>, rbank: nat, ops: seq<Op>)
    requires Does(g, s, s1, rbank, ops)
    ensures DoesAll(g, s, s1, rbank, ops)
  {
    assert s1[|s|..] == [s1[|s|]] && s1[|s|..][1..] == [];
    assert ops + [] == ops;
  }

  lemma {:induction false} WorkJoins(g: Geometry, xs: seq<Cmd>, ys: seq<Cmd>)
    ensures WorkOf(g, xs + ys) == WorkOf(g, xs) + WorkOf(g, ys)
    decreases |xs|
  {
    if xs == [] {
      assert xs + ys == ys;
    } else {
      assert (xs + ys)[1..] == xs[1..] + ys;
      WorkJoins(g, xs[1..], ys);
    }
  }

  lemma DoesMore(g: Geometry, s: seq<Cmd>, s1: seq<Cmd>, s2: seq<Cmd>, rbank: nat, ops: seq<Op>, more: seq<Op>)
    requires DoesAll(g, s, s1, rbank, ops) && Does(g, s1, s2, rbank, more)
    ensures DoesAll(g, s, s2, rbank, ops + more)
  {
    DoesOne(g, s1, s2, rbank, more);
    assert s2[|s|..] == s1[|s|..] + s2[|s1|..];
    WorkJoins(g, s1[|s|..], s2[|s1|..]);
    assert s2[..|s|] == s2[..|s1|][..|s|];
    forall i | |s| <= i < |s1| ensures s2[i].bank == rbank { assert s2[i] == s2[..|s1|][i]; }
  }

  lemma Regroup(xs: seq<Op>, ys: seq<Op>, zs: seq<Op>)
    ensures xs + ys + zs == xs + (ys + zs)
  {
  }

  lemma DoesFour(g: Geometry, s: seq<Cmd>, s1: seq<Cmd>, s2: seq<Cmd>, s3: seq<Cmd>, s4: seq<Cmd>, rbank: nat,
                 c1: seq<Op>, c2: seq<Op>, c3: seq<Op>, c4: seq<Op>)
    requires Does(g, s, s1, rbank, c1) && Does(g, s1, s2, rbank, c2)
    requires Does(g, s2, s3, rbank, c3) && Does(g, s3, s4, rbank, c4)
    ensures DoesAll(g, s, s4, rbank, (c1 + c2) + (c3 + c4))
  {
    DoesOne(g, s, s1, rbank, c1);
    var c12 := c1 + c2;
    var c123 := c12 + c3;
    DoesMore(g, s, s1, s2, rbank, c1, c2);
    DoesMore(g, s, s2, s3, rbank, c12, c3);
    DoesMore(g, s, s3, s4, rbank, c123, c4);
    Regroup(c12, c3, c4);
  }

  lemma OneAppended(s: seq<Cmd>, s1: seq<Cmd>, code: u32, row: u32)
    requires Appends(s, s1, code, WRITE_OPTION, row) && (code == FC_COPYBACK || code == FC_MODIFY_COPYBACK)
    ensures WholeSequences(s1[|s|..]) && Usual(s1[|s|..])
  {
    assert s1[|s|..] == [s1[|s|]];
    SingleIsWhole(s1[|s|]);
  }

  lemma TwoAppended(s: seq<Cmd>, s1: seq<Cmd>, s2: seq<Cmd>, srcRow: u32, dstRow: u32)
    requires Appends(s, s1, FC_COL_ROW_READ_OUT, READ_OPTION, srcRow)
    requires Appends(s1, s2, FC_COL_ROW_IN_PROG, WRITE_OPTION, dstRow)
    ensures s2[..|s|] == s && PageCopySequence(s2[|s|..], srcRow, dstRow)
  {
    assert s2[|s|] == s2[..|s1|][|s|];
    assert s2[..|s|] == s2[..|s1|][..|s|];
  }

  lemma FourAppended(s: seq<Cmd>, s1: seq<Cmd>, s2: seq<Cmd>, s3: seq<Cmd>, s4: seq<Cmd>, srcRow: u32, dstRow: u32)
    requires Appends(s, s1, FC_COL_ROW_READ_OUT, READ_OPTION, srcRow)
    requires Appends(s1, s2, FC_COL_ROW_IN, WRITE_OPTION, dstRow)
    requires Appends(s2, s3, FC_IN, WRITE_OPTION, dstRow)
    requires Appends(s3, s4, FC_IN_PROG, WRITE_OPTION, dstRow)
    ensures s4[..|s|] == s && CopySequence(s4[|s|..], srcRow, dstRow)
  {
    assert s4[..|s1|] == s4[..|s2|][..|s1|] == s4[..|s3|][..|s2|][..|s1|] == s1;
    assert s4[..|s2|] == s4[..|s3|][..|s2|] == s2;
    assert s4[|s|] == s4[..|s1|][|s|] && s4[|s1|] == s4[..|s2|][|s1|] && s4[|s2|] == s4[..|s3|][|s2|];
    assert s4[..|s|] == s4[..|s1|][..|s|];
  }

  lemma CopybackDecoded(g: Geometry, c: Cmd)
    requires c.code == FC_COPYBACK
    ensures Decode(g, c) == WholePageCopy(g.CopyBuf(c.bank), c.rowL, c.dstRowL)
  {
  }

  lemma ModifyCopybackDecoded(g: Geometry, c: Cmd, sect: nat, dmaAddr: int)
    requires c.code == FC_MODIFY_COPYBACK && c.dmaAddr == PageAddr(dmaAddr, sect) && c.dstCol == sect
    ensures Decode(g, c) == OneCommandCopyback(g.CopyBuf(c.bank), c.rowL, c.dstRowL, sect, dmaAddr, c.dmaCnt)
  {
  }

  // ----- meanings -----

  /** `cnt` bytes of a page from sector `sect` on are copied to the same offset of
      a page buffer. */
  function PageRead(b: nat, row: nat, sect: nat, cnt: nat, buf: int, m: Mem): Mem
    requires b < |m.banks|
  {
    var p := Row(m.banks[b], row);
    WithReg(m, b, p).(dram := m.dram + ToDram(p, sect * BYTES_PER_SECTOR,
                        Wrap32(buf + sect * BYTES_PER_SECTOR), cnt))
  }

  /** A page buffer holds `cnt` bytes of a page from sector `sect` on. */
  ghost predicate BufferHolds(d: Dram, buf: int, sect: nat, cnt: nat, p: Page) {
    forall off: nat :: sect * BYTES_PER_SECTOR <= off < sect * BYTES_PER_SECTOR + cnt
      ==> Peek(d, Wrap32(buf + off)) == At(p, off)
  }

  /** The page bytes held in `reg` replace those of row `row`. */
  function PageWritten(b: nat, row: nat, reg: Page, m: Mem): Mem
    requires b < |m.banks|
  {
    m.(banks := m.banks[b := Bank(m.banks[b].rows[row := Row(m.banks[b], row) + reg], reg, row)])
  }

  lemma PageWrittenAt(b: nat, row: nat, reg: Page, m: Mem, i: nat)
    requires b < |m.banks| && i in reg
    ensures At(Row(PageWritten(b, row, reg, m).banks[b], row), i) == reg[i]
  {
  }

  function PageProgram(b: nat, row: nat, sect: nat, cnt: nat, buf: int, m: Mem): Mem
    requires b < |m.banks|
  {
    PageWritten(b, row, FromDram(m.dram, buf, sect, cnt), m)
  }

  function BlockErase(g: Geometry, b: nat, firstRow: nat, m: Mem): Mem
    requires b < |m.banks|
  {
    m.(banks := m.banks[b := m.banks[b].(rows := m.banks[b].rows + Blank(firstRow, g.pagesPerBlk))])
  }

  /** A whole page: `src` with `cnt` bytes from offset `off` taken from DRAM at `addr`. */
  function Splice(pageBytes: nat, src: Page, off: nat, cnt: nat, d: Dram, addr: int): Page {
    map i: nat | 0 <= i < pageBytes && Within(i, 0, pageBytes)
      :: if off <= i < off + cnt then Peek(d, addr + (i - off)) else At(src, i)
  }

  /** DRAM once the source page is in the bank's copy buffer. */
  function CopyBufFilled(ca: CopyArea, src: Page, d: Dram): Dram {
    d + ToDram(src, 0, ca.base, ca.bytes)
  }

  function ModifiedCopy(ca: CopyArea, b: nat, srcRow: nat, dstRow: nat,
                        sect: nat, addr: int, cnt: nat, m: Mem): Mem
    requires b < |m.banks|
  {
    var src := Row(m.banks[b], srcRow);
    var d := CopyBufFilled(ca, src, m.dram);
    PageWritten(b, dstRow, Splice(ca.bytes, src, sect * BYTES_PER_SECTOR, cnt, d, addr),
                m.(dram := d))
  }

  // ----- the issued work has these meanings -----

  lemma RunOne(b: nat, x: Op, m: Mem)
    requires b < |m.banks|
    ensures Run(b, [x], m) == Step(b, x, m)
  {
  }

  lemma ReadOutMeaning(b: nat, row: nat, sect: nat, cnt: nat, buf: int, m: Mem)
    requires b < |m.banks|
    requires Wrap32(buf + sect * BYTES_PER_SECTOR) + cnt <= TWO_TO_32
    ensures Run(b, ReadOut(row, buf, sect, cnt), m) == PageRead(b, row, sect, cnt, buf, m)
  {
    RunAppend(b, [Sense(row)], Unloads(buf, sect, cnt), m);
    RunOne(b, Sense(row), m);
    UnloadsEffect(b, buf, sect, cnt, Step(b, Sense(row), m));
  }

  lemma AddressStep(b: nat, row: nat, m: Mem)
    requires b < |m.banks|
    ensures Step(b, Address(row), m).banks == m.banks[b := Bank(m.banks[b].rows, map[], row)]
    ensures Step(b, Address(row), m).dram == m.dram
  {
  }

  /** Register `reg` loaded after the address `row`, then programmed. */
  lemma ProgramLoaded(b: nat, row: nat, reg: Page, m: Mem)
    requires b < |m.banks|
    ensures Step(b, Program, WithReg(Step(b, Address(row), m), b, reg)) == PageWritten(b, row, reg, m)
  {
  }

  lemma InProgMeaning(b: nat, row: nat, sect: nat, cnt: nat, buf: int, m: Mem)
    requires b < |m.banks|
    ensures Run(b, InProg(row, buf, sect, cnt), m) == PageProgram(b, row, sect, cnt, buf, m)
  {
    var ls := Loads(buf, sect, cnt);
    RunAppend(b, [Address(row)] + ls, [Program], m);
    RunAppend(b, [Address(row)], ls, m);
    RunOne(b, Address(row), m);
    var m1 := Step(b, Address(row), m);
    LoadsEffect(b, buf, sect, cnt, m1);
    AddressStep(b, row, m);
    var reg := FromDram(m.dram, buf, sect, cnt);
    assert map[] + reg == reg;
    RunOne(b, Program, WithReg(m1, b, reg));
    ProgramLoaded(b, row, reg, m);
  }

  lemma EraseMeaning(g: Geometry, b: nat, firstRow: nat, m: Mem)
    requires b < |m.banks|
    ensures Run(b, Erases(firstRow, g.pagesPerBlk), m) == BlockErase(g, b, firstRow, m)
  {
    ErasesEffect(b, firstRow, g.pagesPerBlk, m);
  }

  // ----- page images, byte by byte -----

  lemma FromDramAt(d: Dram, dma: int, col: nat, cnt: nat, i: nat)
    ensures i in FromDram(d, dma, col, cnt) <==> col * BYTES_PER_SECTOR <= i < col * BYTES_PER_SECTOR + cnt
    ensures i in FromDram(d, dma, col, cnt) ==> FromDram(d, dma, col, cnt)[i] == Peek(d, Wrap32(dma + i))
  {
  }

  lemma SpliceAt(pageBytes: nat, src: Page, off: nat, cnt: nat, d: Dram, addr: int, i: nat, a: int)
    requires i < pageBytes && a == addr + (i - off)
    ensures var p := Splice(pageBytes, src, off, cnt, d, addr);
      i in p && p[i] == if off <= i < off + cnt then Peek(d, a) else At(src, i)
  {
  }

  /** Byte `i` of a page, once the page is in the copy buffer. */
  lemma CopyBufByte(ca: CopyArea, src: Page, d: Dram, i: nat)
    requires ca.Fits() && i < ca.bytes
    ensures Peek(CopyBufFilled(ca, src, d), Wrap32(ca.base + i)) == At(src, i)
  {
  }

  /** The caller's byte for page offset `i`. */
  lemma CallerByte(addr: int, sect: nat, cnt: nat, i: nat, a: int)
    requires 0 <= addr && addr + cnt <= TWO_TO_32 && a == addr + (i - sect * BYTES_PER_SECTOR)
    requires sect * BYTES_PER_SECTOR <= i < sect * BYTES_PER_SECTOR + cnt
    ensures Wrap32(PageAddr(addr, sect) + i) == a
  {
  }

  lemma OverWholeAt(ca: CopyArea, src: Page, d: Dram, sect: nat, cnt: nat, dma: int, i: nat, a: int)
    requires ca.Fits() && i < ca.bytes && a == Wrap32(dma + i)
    ensures var d1 := CopyBufFilled(ca, src, d);
      var p := FromDram(d1, ca.base, 0, ca.bytes) + FromDram(d1, dma, sect, cnt);
      i in p
      && p[i] == if sect * BYTES_PER_SECTOR <= i < sect * BYTES_PER_SECTOR + cnt then Peek(d1, a) else At(src, i)
  {
    var d1 := CopyBufFilled(ca, src, d);
    FromDramAt(d1, dma, sect, cnt, i);
    FromDramAt(d1, ca.base, 0, ca.bytes, i);
    CopyBufByte(ca, src, d, i);
  }

  lemma DataOverWholeAt(ca: CopyArea, src: Page, d: Dram, sect: nat, cnt: nat, addr: int, i: nat)
    requires ca.Fits() && 0 <= addr && addr + cnt <= TWO_TO_32 && i < ca.bytes
    ensures var d1 := CopyBufFilled(ca, src, d);
      var l := FromDram(d1, ca.base, 0, ca.bytes) + FromDram(d1, PageAddr(addr, sect), sect, cnt);
      var r := Splice(ca.bytes, src, sect * BYTES_PER_SECTOR, cnt, d1, addr);
      i in l && i in r && l[i] == r[i]
  {
    var a := addr + (i - sect * BYTES_PER_SECTOR);
    SpliceAt(ca.bytes, src, sect * BYTES_PER_SECTOR, cnt, CopyBufFilled(ca, src, d), addr, i, a);
    OverWholeAt(ca, src, d, sect, cnt, PageAddr(addr, sect), i, Wrap32(PageAddr(addr, sect) + i));
    if sect * BYTES_PER_SECTOR <= i < sect * BYTES_PER_SECTOR + cnt { CallerByte(addr, sect, cnt, i, a); }
  }

  lemma FromDramBelow(d: Dram, dma: int, col: nat, cnt: nat, n: nat)
    requires col * BYTES_PER_SECTOR + cnt <= n
    ensures forall i :: i in FromDram(d, dma, col, cnt) ==> i < n
  {
  }

  /** A splice is the caller's part over the whole copy buffer (one command). */
  lemma DataOverWhole(ca: CopyArea, src: Page, d: Dram, sect: nat, cnt: nat, addr: int)
    requires ca.Fits() && 0 <= addr && addr + cnt <= TWO_TO_32 && sect * BYTES_PER_SECTOR + cnt <= ca.bytes
    ensures var d1 := CopyBufFilled(ca, src, d);
      FromDram(d1, ca.base, 0, ca.bytes) + FromDram(d1, PageAddr(addr, sect), sect, cnt)
      == Splice(ca.bytes, src, sect * BYTES_PER_SECTOR, cnt, d1, addr)
  {
    var d1 := CopyBufFilled(ca, src, d);
    var l := FromDram(d1, ca.base, 0, ca.bytes) + FromDram(d1, PageAddr(addr, sect), sect, cnt);
    var r := Splice(ca.bytes, src, sect * BYTES_PER_SECTOR, cnt, d1, addr);
    FromDramBelow(d1, ca.base, 0, ca.bytes, ca.bytes);
    FromDramBelow(d1, PageAddr(addr, sect), sect, cnt, ca.bytes);
    forall i: nat | i < ca.bytes ensures i in l && i in r && l[i] == r[i] {
      DataOverWholeAt(ca, src, d, sect, cnt, addr, i);
    }
    SamePages(l, r, ca.bytes);
  }

  lemma SamePages(l: Page, r: Page, n: nat)
    requires forall i :: i in l || i in r ==> i < n
    requires forall i: nat :: i < n ==> i in l && i in r && l[i] == r[i]
    ensures l == r
  {
  }

  lemma HeadDataTailAt(ca: CopyArea, d1: Dram, sect: nat, cnt: nat, dma: int, i: nat)
    requires sect * BYTES_PER_SECTOR + cnt <= ca.bytes && cnt % BYTES_PER_SECTOR == 0 && i < ca.bytes
    ensures var data := FromDram(d1, dma, sect, cnt);
      var l := FromDram(d1, ca.base, 0, sect * BYTES_PER_SECTOR) + data
               + FromDram(d1, ca.base, TailCol(sect, cnt), TailCnt(ca, sect, cnt));
      var r := FromDram(d1, ca.base, 0, ca.bytes) + data;
      i in l && i in r && l[i] == r[i]
  {
    assert TailCol(sect, cnt) * BYTES_PER_SECTOR == sect * BYTES_PER_SECTOR + cnt;
    FromDramAt(d1, ca.base, 0, sect * BYTES_PER_SECTOR, i);
    FromDramAt(d1, dma, sect, cnt, i);
    FromDramAt(d1, ca.base, TailCol(sect, cnt), TailCnt(ca, sect, cnt), i);
    FromDramAt(d1, ca.base, 0, ca.bytes, i);
  }

  /** Head, caller's part and tail (four commands) make up the same image. */
  lemma HeadDataTail(ca: CopyArea, d1: Dram, sect: nat, cnt: nat, dma: int)
    requires sect * BYTES_PER_SECTOR + cnt <= ca.bytes && cnt % BYTES_PER_SECTOR == 0
    ensures FromDram(d1, ca.base, 0, sect * BYTES_PER_SECTOR) + FromDram(d1, dma, sect, cnt)
            + FromDram(d1, ca.base, TailCol(sect, cnt), TailCnt(ca, sect, cnt))
         == FromDram(d1, ca.base, 0, ca.bytes) + FromDram(d1, dma, sect, cnt)
  {
    var head, data := FromDram(d1, ca.base, 0, sect * BYTES_PER_SECTOR), FromDram(d1, dma, sect, cnt);
    var tail := FromDram(d1, ca.base, TailCol(sect, cnt), TailCnt(ca, sect, cnt));
    var whole := FromDram(d1, ca.base, 0, ca.bytes);
    FromDramBelow(d1, ca.base, 0, sect * BYTES_PER_SECTOR, ca.bytes);
    FromDramBelow(d1, dma, sect, cnt, ca.bytes);
    FromDramBelow(d1, ca.base, TailCol(sect, cnt), TailCnt(ca, sect, cnt), ca.bytes);
    FromDramBelow(d1, ca.base, 0, ca.bytes, ca.bytes);
    forall i: nat | i < ca.bytes
      ensures i in head + data + tail && i in whole + data && (head + data + tail)[i] == (whole + data)[i]
    {
      HeadDataTailAt(ca, d1, sect, cnt, dma, i);
    }
    SamePages(head + data + tail, whole + data, ca.bytes);
  }

  // ----- copybacks -----

  /** A write address empties the page register, whatever it held. */
  lemma AddressForgets(b: nat, row: nat, p: Page, m: Mem)
    requires b < |m.banks|
    ensures Step(b, Address(row), WithReg(m, b, p)) == Step(b, Address(row), m)
  {
  }

  lemma AddressAfter(b: nat, row: nat, p: Page, m: Mem)
    requires b < |m.banks|
    ensures Run(b, [Address(row)], WithReg(m, b, p)) == Step(b, Address(row), m)
  {
    RunOne(b, Address(row), WithReg(m, b, p));
    AddressForgets(b, row, p, m);
  }

  lemma WholePageRead(ca: CopyArea, b: nat, row: nat, m: Mem)
    requires b < |m.banks| && ca.Fits()
    ensures Run(b, ReadOut(row, ca.base, 0, ca.bytes), m)
         == WithReg(m.(dram := CopyBufFilled(ca, Row(m.banks[b], row), m.dram)), b, Row(m.banks[b], row))
  {
    WrapSmall(ca.base);
    ReadOutMeaning(b, row, 0, ca.bytes, ca.base, m);
  }

  /** The page read that every copyback starts with, followed by a write address. */
  lemma ReadThenAddress(ca: CopyArea, b: nat, srcRow: nat, dstRow: nat, m: Mem)
    requires b < |m.banks| && ca.Fits()
    ensures Run(b, ReadOut(srcRow, ca.base, 0, ca.bytes) + [Address(dstRow)], m)
         == Step(b, Address(dstRow), m.(dram := CopyBufFilled(ca, Row(m.banks[b], srcRow), m.dram)))
  {
    RunAppend(b, ReadOut(srcRow, ca.base, 0, ca.bytes), [Address(dstRow)], m);
    WholePageRead(ca, b, srcRow, m);
    AddressAfter(b, dstRow, Row(m.banks[b], srcRow), m.(dram := CopyBufFilled(ca, Row(m.banks[b], srcRow), m.dram)));
  }

  /** After a write address, two transfers and the program command write both
      register images over the row. */
  lemma TwoLoadsProgram(b: nat, row: nat, dma1: int, col1: nat, cnt1: nat, dma2: int, col2: nat, cnt2: nat, m: Mem)
    requires b < |m.banks|
    ensures Run(b, Loads(dma1, col1, cnt1) + Loads(dma2, col2, cnt2) + [Program], Step(b, Address(row), m))
         == PageWritten(b, row, FromDram(m.dram, dma1, col1, cnt1) + FromDram(m.dram, dma2, col2, cnt2), m)
  {
    var m0 := Step(b, Address(row), m);
    AddressStep(b, row, m);
    var p1, p2 := FromDram(m.dram, dma1, col1, cnt1), FromDram(m.dram, dma2, col2, cnt2);
    var l1, l2 := Loads(dma1, col1, cnt1), Loads(dma2, col2, cnt2);
    RunAppend(b, l1 + l2, [Program], m0);
    RunAppend(b, l1, l2, m0);
    LoadsEffect(b, dma1, col1, cnt1, m0);
    assert map[] + p1 == p1;
    var m1 := WithReg(m0, b, p1);
    LoadsEffect(b, dma2, col2, cnt2, m1);
    WithRegTwice(m0, b, p1, p1 + p2);
    RunOne(b, Program, WithReg(m0, b, p1 + p2));
    ProgramLoaded(b, row, p1 + p2, m);
  }

  lemma Assoc(p: seq<Op>, q: seq<Op>, r: seq<Op>, s: seq<Op>, t: seq<Op>, u: seq<Op>)
    ensures (p + (q + r)) + (s + (t + u)) == (p + q) + (r + s + t + u)
  {
  }

  lemma OneCommandMeaning(ca: CopyArea, b: nat, srcRow: nat, dstRow: nat, sect: nat, addr: int, cnt: nat, m: Mem)
    requires b < |m.banks| && ca.Fits()
    requires sect * BYTES_PER_SECTOR + cnt <= ca.bytes && 0 <= addr && addr + cnt <= TWO_TO_32
    ensures Run(b, OneCommandCopyback(ca, srcRow, dstRow, sect, addr, cnt), m)
         == ModifiedCopy(ca, b, srcRow, dstRow, sect, addr, cnt, m)
  {
    var cb := ca.base;
    var dma := PageAddr(addr, sect);
    var first := ReadOut(srcRow, cb, 0, ca.bytes) + [Address(dstRow)];
    var rest := Loads(cb, 0, ca.bytes) + Loads(dma, sect, cnt) + [Program];
    assert OneCommandCopyback(ca, srcRow, dstRow, sect, addr, cnt) == first + rest;
    RunAppend(b, first, rest, m);
    ReadThenAddress(ca, b, srcRow, dstRow, m);
    var src := Row(m.banks[b], srcRow);
    var m1 := m.(dram := CopyBufFilled(ca, src, m.dram));
    TwoLoadsProgram(b, dstRow, cb, 0, ca.bytes, dma, sect, cnt, m1);
    DataOverWhole(ca, src, m.dram, sect, cnt, addr);
  }

  /** After a write address, three transfers and the program command. */
  lemma ThreeLoadsProgram(b: nat, row: nat, dma1: int, col1: nat, cnt1: nat, dma2: int, col2: nat, cnt2: nat,
                          col3: nat, cnt3: nat, m: Mem)
    requires b < |m.banks|
    ensures Run(b, Loads(dma1, col1, cnt1) + Loads(dma2, col2, cnt2) + Loads(dma1, col3, cnt3) + [Program],
                Step(b, Address(row), m))
         == PageWritten(b, row, FromDram(m.dram, dma1, col1, cnt1) + FromDram(m.dram, dma2, col2, cnt2)
                                + FromDram(m.dram, dma1, col3, cnt3), m)
  {
    var m0 := Step(b, Address(row), m);
    AddressStep(b, row, m);
    var p1, p2 := FromDram(m.dram, dma1, col1, cnt1), FromDram(m.dram, dma2, col2, cnt2);
    var p3 := FromDram(m.dram, dma1, col3, cnt3);
    var l1, l2, l3 := Loads(dma1, col1, cnt1), Loads(dma2, col2, cnt2), Loads(dma1, col3, cnt3);
    RunAppend(b, l1 + l2 + l3, [Program], m0);
    RunAppend(b, l1 + l2, l3, m0);
    RunAppend(b, l1, l2, m0);
    LoadsEffect(b, dma1, col1, cnt1, m0);
    assert map[] + p1 == p1;
    WithRegTwice(m0, b, p1, p1 + p2);
    LoadsEffect(b, dma2, col2, cnt2, WithReg(m0, b, p1));
    WithRegTwice(m0, b, p1 + p2, p1 + p2 + p3);
    LoadsEffect(b, dma1, col3, cnt3, WithReg(m0, b, p1 + p2));
    RunOne(b, Program, WithReg(m0, b, p1 + p2 + p3));
    ProgramLoaded(b, row, p1 + p2 + p3, m);
  }

  /** Four transfers through the copy buffer, wherever the pieces start and end. */
  lemma CopyInPieces(ca: CopyArea, b: nat, srcRow: nat, dstRow: nat, headCnt: nat,
                     dma: int, col: nat, cnt: nat, tailCol: nat, tailCnt: nat, m: Mem)
    requires b < |m.banks| && ca.Fits()
    ensures var d := CopyBufFilled(ca, Row(m.banks[b], srcRow), m.dram);
      Run(b, HeadOps(ca, srcRow, dstRow, headCnt)
             + (Loads(dma, col, cnt) + (Loads(ca.base, tailCol, tailCnt) + [Program])), m)
      == PageWritten(b, dstRow, FromDram(d, ca.base, 0, headCnt) + FromDram(d, dma, col, cnt)
                                + FromDram(d, ca.base, tailCol, tailCnt), m.(dram := d))
  {
    var read, head := ReadOut(srcRow, ca.base, 0, ca.bytes), Loads(ca.base, 0, headCnt);
    var data, tail := Loads(dma, col, cnt), Loads(ca.base, tailCol, tailCnt);
    Assoc(read, [Address(dstRow)], head, data, tail, [Program]);
    RunAppend(b, read + [Address(dstRow)], head + data + tail + [Program], m);
    ReadThenAddress(ca, b, srcRow, dstRow, m);
    var m1 := m.(dram := CopyBufFilled(ca, Row(m.banks[b], srcRow), m.dram));
    ThreeLoadsProgram(b, dstRow, ca.base, 0, headCnt, dma, col, cnt, tailCol, tailCnt, m1);
  }

  /** The register image of the four commands, for any split. */
  function FourCommandImage(ca: CopyArea, sect: nat, addr: int, cnt: nat, d: Dram): Page
    requires sect * BYTES_PER_SECTOR + cnt <= ca.bytes
  {
    FromDram(d, ca.base, 0, sect * BYTES_PER_SECTOR)
    + FromDram(d, PageAddr(addr, sect), sect, cnt)
    + FromDram(d, ca.base, TailCol(sect, cnt), TailCnt(ca, sect, cnt))
  }

  lemma FourCommandEffect(ca: CopyArea, b: nat, srcRow: nat, dstRow: nat, sect: nat, addr: int, cnt: nat, m: Mem)
    requires b < |m.banks| && ca.Fits() && sect * BYTES_PER_SECTOR + cnt <= ca.bytes
    ensures var d := CopyBufFilled(ca, Row(m.banks[b], srcRow), m.dram);
      Run(b, FourCommandCopyback(ca, srcRow, dstRow, sect, addr, cnt), m)
      == PageWritten(b, dstRow, FourCommandImage(ca, sect, addr, cnt, d), m.(dram := d))
  {
    CopyInPieces(ca, b, srcRow, dstRow, sect * BYTES_PER_SECTOR, PageAddr(addr, sect), sect, cnt,
                 TailCol(sect, cnt), TailCnt(ca, sect, cnt), m);
  }

  lemma AlignedImage(ca: CopyArea, src: Page, d: Dram, sect: nat, addr: int, cnt: nat)
    requires ca.Fits() && sect * BYTES_PER_SECTOR + cnt <= ca.bytes && cnt % BYTES_PER_SECTOR == 0
    requires 0 <= addr && addr + cnt <= TWO_TO_32
    ensures FourCommandImage(ca, sect, addr, cnt, CopyBufFilled(ca, src, d))
         == Splice(ca.bytes, src, sect * BYTES_PER_SECTOR, cnt, CopyBufFilled(ca, src, d), addr)
  {
    HeadDataTail(ca, CopyBufFilled(ca, src, d), sect, cnt, PageAddr(addr, sect));
    DataOverWhole(ca, src, d, sect, cnt, addr);
  }

  lemma FourCommandMeaning(ca: CopyArea, b: nat, srcRow: nat, dstRow: nat, sect: nat, addr: int, cnt: nat, m: Mem)
    requires b < |m.banks| && ca.Fits() && cnt % BYTES_PER_SECTOR == 0
    requires sect * BYTES_PER_SECTOR + cnt <= ca.bytes && 0 <= addr && addr + cnt <= TWO_TO_32
    ensures Run(b, FourCommandCopyback(ca, srcRow, dstRow, sect, addr, cnt), m)
         == ModifiedCopy(ca, b, srcRow, dstRow, sect, addr, cnt, m)
  {
    FourCommandEffect(ca, b, srcRow, dstRow, sect, addr, cnt, m);
    AlignedImage(ca, Row(m.banks[b], srcRow), m.dram, sect, addr, cnt);
  }

  lemma ShortTail(bytes: nat, sect: nat, cnt: nat)
    requires cnt % 512 != 0 && sect * 512 + cnt <= bytes && bytes % 512 == 0
    ensures sect * 512 + cnt < bytes
    ensures (sect + cnt / 512) * 512 + (bytes - sect * 512 - cnt) < bytes
  {
  }

  lemma ImageMissesLast(ca: CopyArea, d: Dram, sect: nat, addr: int, cnt: nat)
    requires cnt % BYTES_PER_SECTOR != 0 && ca.bytes % BYTES_PER_SECTOR == 0
    requires sect * BYTES_PER_SECTOR + cnt <= ca.bytes
    ensures ca.bytes - 1 !in FourCommandImage(ca, sect, addr, cnt, d)
  {
    ShortTail(ca.bytes, sect, cnt);
    var n := ca.bytes - 1;
    FromDramAt(d, ca.base, 0, sect * BYTES_PER_SECTOR, n);
    FromDramAt(d, PageAddr(addr, sect), sect, cnt, n);
    FromDramAt(d, ca.base, TailCol(sect, cnt), TailCnt(ca, sect, cnt), n);
  }

  /** A split inside a sector never writes the last byte of the page: the tail
      starts at the sector boundary below it and its count stops short. */
  lemma UnalignedTailIsLost(ca: CopyArea, b: nat, srcRow: nat, dstRow: nat, sect: nat, addr: int, cnt: nat, m: Mem)
    requires b < |m.banks| && ca.Fits() && cnt % BYTES_PER_SECTOR != 0 && ca.bytes % BYTES_PER_SECTOR == 0
    requires sect * BYTES_PER_SECTOR + cnt <= ca.bytes
    ensures var m' := Run(b, FourCommandCopyback(ca, srcRow, dstRow, sect, addr, cnt), m);
      At(Row(m'.banks[b], dstRow), ca.bytes - 1) == At(Row(m.banks[b], dstRow), ca.bytes - 1)
  {
    FourCommandEffect(ca, b, srcRow, dstRow, sect, addr, cnt, m);
    ImageMissesLast(ca, CopyBufFilled(ca, Row(m.banks[b], srcRow), m.dram), sect, addr, cnt);
  }

  /** First byte of the tail. */
  function TailOff(sect: nat, cnt: nat): nat { TailCol(sect, cnt) * BYTES_PER_SECTOR }

  lemma PartialSector(sect: nat, cnt: nat)
    requires cnt % BYTES_PER_SECTOR != 0
    ensures sect * BYTES_PER_SECTOR <= TailOff(sect, cnt) < sect * BYTES_PER_SECTOR + cnt
  {
  }

  lemma OverridesAt(p: Page, q: Page, i: nat)
    requires i in q
    ensures i in p + q && (p + q)[i] == q[i]
  {
  }

  lemma ImageRepeatsSource(ca: CopyArea, src: Page, d: Dram, sect: nat, addr: int, cnt: nat, i: nat)
    requires ca.Fits() && sect * BYTES_PER_SECTOR + cnt < ca.bytes && i == TailOff(sect, cnt) < ca.bytes
    ensures var image := FourCommandImage(ca, sect, addr, cnt, CopyBufFilled(ca, src, d));
      i in image && image[i] == At(src, i)
  {
    var d1 := CopyBufFilled(ca, src, d);
    var tail := FromDram(d1, ca.base, TailCol(sect, cnt), TailCnt(ca, sect, cnt));
    assert i in tail && tail[i] == At(src, i) by {
      FromDramAt(d1, ca.base, TailCol(sect, cnt), TailCnt(ca, sect, cnt), i);
      CopyBufByte(ca, src, d, i);
    }
    OverridesAt(FromDram(d1, ca.base, 0, sect * BYTES_PER_SECTOR) + FromDram(d1, PageAddr(addr, sect), sect, cnt),
                tail, i);
  }

  /** The first sector of the tail overlaps the caller's last, partial sector:
      its first byte is the source page's again. */
  lemma UnalignedOverwritesNew(ca: CopyArea, b: nat, srcRow: nat, dstRow: nat, sect: nat, addr: int, cnt: nat, m: Mem)
    requires b < |m.banks| && ca.Fits() && cnt % BYTES_PER_SECTOR != 0 && ca.bytes % BYTES_PER_SECTOR == 0
    requires sect * BYTES_PER_SECTOR + cnt <= ca.bytes
    ensures var m' := Run(b, FourCommandCopyback(ca, srcRow, dstRow, sect, addr, cnt), m);
      At(Row(m'.banks[b], dstRow), TailOff(sect, cnt)) == At(Row(m.banks[b], srcRow), TailOff(sect, cnt))
  {
    var src := Row(m.banks[b], srcRow);
    var d := CopyBufFilled(ca, src, m.dram);
    ShortTail(ca.bytes, sect, cnt);
    PartialSector(sect, cnt);
    FourCommandEffect(ca, b, srcRow, dstRow, sect, addr, cnt, m);
    ImageRepeatsSource(ca, src, m.dram, sect, addr, cnt, TailOff(sect, cnt));
    PageWrittenAt(b, dstRow, FourCommandImage(ca, sect, addr, cnt, d), m.(dram := d), TailOff(sect, cnt));
  }

  /** The four commands make the splice of every memory exactly for whole
      sectors, when the caller's bytes are outside of the copy buffer. */
  lemma FourCommandExact(ca: CopyArea, b: nat, srcRow: nat, dstRow: nat, sect: nat, addr: int, cnt: nat)
    requires ca.Fits() && ca.bytes % BYTES_PER_SECTOR == 0 && sect * BYTES_PER_SECTOR + cnt <= ca.bytes
    requires 0 <= addr && addr + cnt <= TWO_TO_32
    requires addr + cnt <= ca.base || ca.base + ca.bytes <= addr
    ensures cnt % BYTES_PER_SECTOR == 0 <==>
      forall m: Mem :: b < |m.banks| ==>
        Run(b, FourCommandCopyback(ca, srcRow, dstRow, sect, addr, cnt), m)
        == ModifiedCopy(ca, b, srcRow, dstRow, sect, addr, cnt, m)
  {
    if cnt % BYTES_PER_SECTOR == 0 {
      forall m: Mem | b < |m.banks|
        ensures Run(b, FourCommandCopyback(ca, srcRow, dstRow, sect, addr, cnt), m)
             == ModifiedCopy(ca, b, srcRow, dstRow, sect, addr, cnt, m)
      {
        FourCommandMeaning(ca, b, srcRow, dstRow, sect, addr, cnt, m);
      }
    } else {
      UnalignedFails(ca, b, srcRow, dstRow, sect, addr, cnt, BlankMem(b));
    }
  }

  /** Erased flash and zeroed DRAM. */
  function BlankMem(b: nat): (m: Mem)
    ensures b < |m.banks|
  {
    Mem(seq(b + 1, _ => Bank(map[], map[], 0)), map[])
  }

  lemma UnalignedFails(ca: CopyArea, b: nat, srcRow: nat, dstRow: nat, sect: nat, addr: int, cnt: nat, m: Mem)
    requires ca.Fits() && ca.bytes % BYTES_PER_SECTOR == 0 && sect * BYTES_PER_SECTOR + cnt <= ca.bytes
    requires addr + cnt <= ca.base || ca.base + ca.bytes <= addr
    requires cnt % BYTES_PER_SECTOR != 0 && m == BlankMem(b)
    ensures Run(b, FourCommandCopyback(ca, srcRow, dstRow, sect, addr, cnt), m)
         != ModifiedCopy(ca, b, srcRow, dstRow, sect, addr, cnt, m)
  {
    var off := sect * BYTES_PER_SECTOR;
    var i := TailOff(sect, cnt);
    ShortTail(ca.bytes, sect, cnt);
    PartialSector(sect, cnt);
    UnalignedOverwritesNew(ca, b, srcRow, dstRow, sect, addr, cnt, m);
    var d := CopyBufFilled(ca, map[], map[]);
    var page := Splice(ca.bytes, map[], off, cnt, d, addr);
    SpliceAt(ca.bytes, map[], off, cnt, d, addr, i, addr + (i - off));
    assert page[i] == 0;
    PageWrittenAt(b, dstRow, page, m.(dram := d), i);
  }

  function WholePageCopy(ca: CopyArea, srcRow: nat, dstRow: nat): seq<Op> {
    CopyThroughBuffer(ca, srcRow, dstRow) + [Program]
  }

  /** FC_COPYBACK, or a page read and a page program through the copy buffer. */
  lemma CopybackMeaning(ca: CopyArea, b: nat, srcRow: nat, dstRow: nat, m: Mem)
    requires b < |m.banks| && ca.Fits()
    ensures Run(b, WholePageCopy(ca, srcRow, dstRow), m) == ModifiedCopy(ca, b, srcRow, dstRow, 0, 0, 0, m)
    ensures WholePageCopy(ca, srcRow, dstRow)
         == ReadOut(srcRow, ca.base, 0, ca.bytes) + InProg(dstRow, ca.base, 0, ca.bytes)
  {
    OneCommandMeaning(ca, b, srcRow, dstRow, 0, 0, 0, m);
    assert Loads(Wrap32(0), 0, 0) == [];
    assert WholePageCopy(ca, srcRow, dstRow) == OneCommandCopyback(ca, srcRow, dstRow, 0, 0, 0);
  }
}
