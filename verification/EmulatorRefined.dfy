/** The flash controller refines the emulator: on blocks erased through either,
    both show the same bytes after any sequence of reads, programs, erases and stores. */
module EmulatorRefined {
  import opened Common
  import Division
  import opened FlashMemory
  import opened FlashCommands
  import opened FlashCalls
  import opened FlashEngine
  import opened FlashRuns
  import opened Emulator

  function RowNumber(c: Setup, vblock: nat, page: nat): nat { vblock * c.pages + page }

  ghost predicate Matches(c: Setup, g: Geometry) {
    c.Sane() && g.pagesPerBlk == c.pages && g.sectorsPerPage == c.sectors
  }

  /** What a call on a bank means for its whole pages. */
  function Meaning(c: Setup, g: Geometry, k: Call, m: Mem): (r: Mem)
    requires Matches(c, g) && Allowed(c, k) && !k.Store? && c.bankMap[k.bank] < |m.banks|
    ensures |r.banks| == |m.banks|
  {
    match k
    case Read(bank, vblock, page, sect, num, buf) =>
      PageRead(c.bankMap[bank], RowNumber(c, vblock, page), sect, num * BYTES_PER_SECTOR, buf, m)
    case Write(bank, vblock, page, sect, num, buf) =>
      PageProgram(c.bankMap[bank], RowNumber(c, vblock, page), sect, num * BYTES_PER_SECTOR, buf, m)
    case Erase(bank, vblock) => BlockErase(g, c.bankMap[bank], RowNumber(c, vblock, 0), m)
  }

  /** The `size` file bytes from `start` on are those of a page. */
  ghost predicate Shows(file: map<nat, byte>, start: nat, p: Page, size: nat) {
    forall i: nat {:trigger At(p, i)} :: i < size ==> FileAt(file, start + i) == At(p, i)
  }

  /** A page in the backing file shows the same bytes as the page in its bank. */
  ghost predicate PageAgrees(c: Setup, file: map<nat, byte>, m: Mem, bank: nat, vblock: nat, page: nat)
    requires bank < |c.bankMap| && c.bankMap[bank] < |m.banks|
  {
    Shows(file, FileStart(c, bank, vblock, page), Row(m.banks[c.bankMap[bank]], RowNumber(c, vblock, page)),
          c.PageBytes())
  }

  ghost predicate SameDram(dram: seq<byte>, base: nat, d: Dram) {
    forall a :: 0 <= a < |dram| ==> dram[a] == Peek(d, base + a)
  }

  /** `erased` are the blocks that were erased at least once. */
  ghost predicate Agrees(c: Setup, erased: set<(nat, nat)>, d: Disk, m: Mem) {
    && c.Sane() && c.Fits() && |d.dram| == c.dramSize
    && (forall b :: 0 <= b < c.banks ==> c.bankMap[b] < |m.banks|)
    && SameDram(d.dram, c.dramBase, m.dram)
    && PagesAgree(c, erased, d.file, m)
  }

  ghost predicate PagesAgree(c: Setup, erased: set<(nat, nat)>, file: map<nat, byte>, m: Mem)
    requires c.Sane() && forall b :: 0 <= b < c.banks ==> c.bankMap[b] < |m.banks|
  {
    forall b: nat, v: nat, p: nat :: Usable(c, b, v, p) && (b, v) in erased ==> PageAgrees(c, file, m, b, v, p)
  }

  lemma RowNumberUnique(c: Setup, v: nat, p: nat, v': nat, p': nat)
    requires p < c.pages && p' < c.pages && RowNumber(c, v, p) == RowNumber(c, v', p')
    ensures v == v' && p == p'
  {
    Division.DivUnique(RowNumber(c, v, p), v, p, c.pages);
    Division.DivUnique(RowNumber(c, v, p), v', p', c.pages);
  }

  /** The pages of a block are consecutive in the file. */
  lemma PageOfBlock(c: Setup, b: nat, v: nat, p: nat)
    ensures FileStart(c, b, v, p) == FileStart(c, b, v, 0) + p * c.PageBytes()
  {
    Division.Distribute(BlockSlot(c, b, v) * c.pages, p, c.PageBytes());
  }

  // ----- transfers between file and DRAM -----

  lemma ReadShows(d: Disk, base: nat, md: Dram, p: Page, start: nat, size: nat, off: nat, addr: nat, n: nat,
                  pos: nat, index: nat)
    requires Shows(d.file, start, p, size) && SameDram(d.dram, base, md) && off + n <= size
    requires pos == start + off && index + base == addr
    ensures SameDram(ReadInto(d, pos, index, n).dram, base, md + ToDram(p, off, addr, n))
  {
  }

  /** Byte `i` of the page, in the file and in the bank, after a write of the
      `n` bytes from offset `off` on. */
  lemma WrittenByte(d: Disk, base: nat, md: Dram, p: Page, start: nat, sect: nat, off: nat, index: nat, n: nat,
                    buf: u32, pos: nat, i: nat)
    requires FileAt(d.file, start + i) == At(p, i) && SameDram(d.dram, base, md) && pos == start + off
    requires off == sect * BYTES_PER_SECTOR && index + n <= |d.dram| && base + |d.dram| < TWO_TO_32
    requires buf + off == base + index
    ensures FileAt(WriteFrom(d, pos, index, n).file, start + i) == At(p + FromDram(md, buf, sect, n), i)
  {
    var q := start + i;
    assert Within(q, pos, n) <==> off <= i < off + n;
    FromDramAt(md, buf, sect, n, i);
    if off <= i < off + n {
      var j, a := index + (i - off), base + (index + (i - off));
      assert d.dram[j] == Peek(md, a) && Wrap32(buf + i) == a;
      assert index + (q - pos) == j;
    }
  }

  lemma WriteElsewhere(d: Disk, p: Page, start: nat, size: nat, pos: nat, index: nat, n: nat)
    requires Shows(d.file, start, p, size) && index + n <= |d.dram|
    requires pos + n <= start || start + size <= pos
    ensures Shows(WriteFrom(d, pos, index, n).file, start, p, size)
  {
  }

  lemma OnesShow(d: Disk, start: nat, size: nat, pos: nat, n: nat)
    requires pos <= start && start + size <= pos + n
    ensures Shows(WriteOnes(d, pos, n).file, start, map[], size)
  {
  }

  lemma OnesElsewhere(d: Disk, p: Page, start: nat, size: nat, pos: nat, n: nat)
    requires Shows(d.file, start, p, size) && (pos + n <= start || start + size <= pos)
    ensures Shows(WriteOnes(d, pos, n).file, start, p, size)
  {
  }

  // ----- one call -----

  lemma SectorsFit(c: Setup, sect: nat, num: nat)
    requires sect + num <= c.sectors
    ensures sect * BYTES_PER_SECTOR + num * BYTES_PER_SECTOR <= c.PageBytes()
  {
  }

  lemma AfterPageRead(base: nat, b: nat, row: nat, sect: nat, off: nat, addr: nat, n: nat, buf: u32,
                      dram: seq<byte>, m: Mem)
    requires b < |m.banks| && off == sect * BYTES_PER_SECTOR && addr == buf + off < TWO_TO_32
    requires SameDram(dram, base, m.dram + ToDram(Row(m.banks[b], row), off, addr, n))
    ensures SameDram(dram, base, PageRead(b, row, sect, n, buf, m).dram)
  {
    assert Wrap32(buf + sect * BYTES_PER_SECTOR) == addr;
  }

  lemma ReadDram(base: nat, start: nat, size: nat, b: nat, row: nat, sect: nat, n: nat, buf: u32, d: Disk, m: Mem,
                 pos: nat, index: nat, off: nat, addr: nat)
    requires b < |m.banks| && SameDram(d.dram, base, m.dram) && Shows(d.file, start, Row(m.banks[b], row), size)
    requires off == sect * BYTES_PER_SECTOR && off + n <= size && addr == buf + off < TWO_TO_32
    requires pos == start + off && index + base == addr
    ensures SameDram(ReadInto(d, pos, index, n).dram, base, PageRead(b, row, sect, n, buf, m).dram)
  {
    ReadShows(d, base, m.dram, Row(m.banks[b], row), start, size, off, addr, n, pos, index);
    AfterPageRead(base, b, row, sect, off, addr, n, buf, ReadInto(d, pos, index, n).dram, m);
  }

  lemma ReadKeepsAgreement(c: Setup, erased: set<(nat, nat)>, k: Call, d: Disk, m: Mem)
    requires Agrees(c, erased, d, m) && k.Read? && Allowed(c, k) && (k.bank, k.vblock) in erased
    ensures Agrees(c, erased, Emulate(c, k, d), PageRead(c.bankMap[k.bank], RowNumber(c, k.vblock, k.page), k.sect,
                                                         k.num * BYTES_PER_SECTOR, k.buf, m))
  {
    assert PageAgrees(c, d.file, m, k.bank, k.vblock, k.page);
    SectorsFit(c, k.sect, k.num);
    var off := k.sect * BYTES_PER_SECTOR;
    var pos, addr := FileStart(c, k.bank, k.vblock, k.page) + off, k.buf + off;
    EmulatedRead(c, k, d, pos, addr - c.dramBase, k.num * BYTES_PER_SECTOR);
    ReadDram(c.dramBase, FileStart(c, k.bank, k.vblock, k.page), c.PageBytes(), c.bankMap[k.bank],
             RowNumber(c, k.vblock, k.page), k.sect, k.num * BYTES_PER_SECTOR, k.buf, d, m, pos,
             addr - c.dramBase, off, addr);
    var m' := PageRead(c.bankMap[k.bank], RowNumber(c, k.vblock, k.page), k.sect, k.num * BYTES_PER_SECTOR, k.buf, m);
    PagesKept(c, erased, d.file, m, m');
  }

  /** Agreement of pages is about rows only. */
  lemma PagesKept(c: Setup, erased: set<(nat, nat)>, file: map<nat, byte>, m: Mem, m': Mem)
    requires c.Sane() && |m'.banks| == |m.banks| && (forall b :: 0 <= b < c.banks ==> c.bankMap[b] < |m.banks|)
    requires forall k: nat :: k < |m.banks| ==> m'.banks[k].rows == m.banks[k].rows
    requires PagesAgree(c, erased, file, m)
    ensures PagesAgree(c, erased, file, m')
  {
  }

  lemma OtherRows(c: Setup, b: nat, v: nat, p: nat, b': nat, v': nat, p': nat, reg: Page, m: Mem)
    requires c.Sane() && Usable(c, b, v, p) && Usable(c, b', v', p') && (b != b' || v != v' || p != p')
    requires c.bankMap[b] < |m.banks| && c.bankMap[b'] < |m.banks|
    ensures Row(PageWritten(c.bankMap[b], RowNumber(c, v, p), reg, m).banks[c.bankMap[b']], RowNumber(c, v', p'))
         == Row(m.banks[c.bankMap[b']], RowNumber(c, v', p'))
  {
    if b == b' {
      if RowNumber(c, v, p) == RowNumber(c, v', p') { RowNumberUnique(c, v, p, v', p'); }
    } else {
      assert c.bankMap[b] != c.bankMap[b'];
    }
  }

  lemma RowWritten(b: nat, row: nat, reg: Page, m: Mem)
    requires b < |m.banks|
    ensures Row(PageWritten(b, row, reg, m).banks[b], row) == Row(m.banks[b], row) + reg
  {
  }

  /** Every other page. */
  lemma OtherPage(c: Setup, k: Call, d: Disk, m: Mem, b: nat, v: nat, p: nat)
    requires c.Sane() && c.Fits() && |d.dram| == c.dramSize && k.Write? && Allowed(c, k) && Usable(c, b, v, p)
    requires b != k.bank || v != k.vblock || p != k.page
    requires c.bankMap[k.bank] < |m.banks| && c.bankMap[b] < |m.banks| && PageAgrees(c, d.file, m, b, v, p)
    ensures PageAgrees(c, Emulate(c, k, d).file,
              PageProgram(c.bankMap[k.bank], RowNumber(c, k.vblock, k.page), k.sect,
                          k.num * BYTES_PER_SECTOR, k.buf, m),
              b, v, p)
  {
    var off, n := k.sect * BYTES_PER_SECTOR, k.num * BYTES_PER_SECTOR;
    var pos, index := FileStart(c, k.bank, k.vblock, k.page) + off, k.buf + off - c.dramBase;
    EmulatedWrite(c, k, d, pos, index, n);
    OtherRows(c, k.bank, k.vblock, k.page, b, v, p, FromDram(m.dram, k.buf, k.sect, n), m);
    assert Shows(Emulate(c, k, d).file, FileStart(c, b, v, p), Row(m.banks[c.bankMap[b]], RowNumber(c, v, p)),
                 c.PageBytes()) by {
      SectorsFit(c, k.sect, k.num);
      FileStartsApart(c, k.bank, k.vblock, k.page, b, v, p);
      WriteElsewhere(d, Row(m.banks[c.bankMap[b]], RowNumber(c, v, p)), FileStart(c, b, v, p), c.PageBytes(),
                     pos, index, n);
    }
  }

  /** Byte `i` of the page that is written. */
  lemma ThisByte(c: Setup, k: Call, d: Disk, m: Mem, start: nat, b: nat, row: nat, i: nat)
    requires c.Sane() && c.Fits() && |d.dram| == c.dramSize && SameDram(d.dram, c.dramBase, m.dram)
    requires k.Write? && Allowed(c, k)
    requires start == FileStart(c, k.bank, k.vblock, k.page) && b < |m.banks|
    requires FileAt(d.file, start + i) == At(Row(m.banks[b], row), i)
    ensures FileAt(Emulate(c, k, d).file, start + i)
         == At(Row(PageProgram(b, row, k.sect, k.num * BYTES_PER_SECTOR, k.buf, m).banks[b], row), i)
  {
    var off, n := k.sect * BYTES_PER_SECTOR, k.num * BYTES_PER_SECTOR;
    var pos, index := start + off, k.buf + off - c.dramBase;
    EmulatedWrite(c, k, d, pos, index, n);
    WrittenByte(d, c.dramBase, m.dram, Row(m.banks[b], row), start, k.sect, off, index, n, k.buf, pos, i);
    RowWritten(b, row, FromDram(m.dram, k.buf, k.sect, n), m);
  }

  lemma ThisPage(c: Setup, k: Call, d: Disk, m: Mem)
    requires c.Sane() && c.Fits() && |d.dram| == c.dramSize && SameDram(d.dram, c.dramBase, m.dram)
    requires k.Write? && Allowed(c, k) && c.bankMap[k.bank] < |m.banks|
    requires PageAgrees(c, d.file, m, k.bank, k.vblock, k.page)
    ensures PageAgrees(c, Emulate(c, k, d).file,
              PageProgram(c.bankMap[k.bank], RowNumber(c, k.vblock, k.page), k.sect,
                          k.num * BYTES_PER_SECTOR, k.buf, m),
              k.bank, k.vblock, k.page)
  {
    var b, row := c.bankMap[k.bank], RowNumber(c, k.vblock, k.page);
    var d', m' := Emulate(c, k, d), PageProgram(b, row, k.sect, k.num * BYTES_PER_SECTOR, k.buf, m);
    forall i: nat | i < c.PageBytes()
      ensures FileAt(d'.file, FileStart(c, k.bank, k.vblock, k.page) + i) == At(Row(m'.banks[b], row), i)
    {
      assert FileAt(d.file, FileStart(c, k.bank, k.vblock, k.page) + i) == At(Row(m.banks[b], row), i);
      ThisByte(c, k, d, m, FileStart(c, k.bank, k.vblock, k.page), b, row, i);
    }
  }

  lemma WriteKeepsAgreement(c: Setup, erased: set<(nat, nat)>, k: Call, d: Disk, m: Mem)
    requires Agrees(c, erased, d, m) && k.Write? && Allowed(c, k)
    ensures Agrees(c, erased, Emulate(c, k, d), PageProgram(c.bankMap[k.bank], RowNumber(c, k.vblock, k.page), k.sect,
                                                            k.num * BYTES_PER_SECTOR, k.buf, m))
  {
    var d' := Emulate(c, k, d);
    var m' := PageProgram(c.bankMap[k.bank], RowNumber(c, k.vblock, k.page), k.sect, k.num * BYTES_PER_SECTOR, k.buf,
                          m);
    assert PagesAgree(c, erased, d'.file, m') by {
      forall b: nat, v: nat, p: nat | Usable(c, b, v, p) && (b, v) in erased
        ensures PageAgrees(c, d'.file, m', b, v, p)
      {
        assert PageAgrees(c, d.file, m, b, v, p);
        if b == k.bank && v == k.vblock && p == k.page {
          ThisPage(c, k, d, m);
        } else {
          OtherPage(c, k, d, m, b, v, p);
        }
      }
    }
  }

  lemma ErasedRows(c: Setup, g: Geometry, bank: nat, vblock: nat, m: Mem, b': nat, v': nat, p': nat)
    requires Matches(c, g) && Usable(c, bank, vblock, 0) && Usable(c, b', v', p')
    requires c.bankMap[bank] < |m.banks| && c.bankMap[b'] < |m.banks|
    ensures Row(BlockErase(g, c.bankMap[bank], RowNumber(c, vblock, 0), m).banks[c.bankMap[b']], RowNumber(c, v', p'))
         == if b' == bank && v' == vblock then map[] else Row(m.banks[c.bankMap[b']], RowNumber(c, v', p'))
  {
    if b' != bank {
      assert c.bankMap[b'] != c.bankMap[bank];
    } else if v' != vblock {
      if v' < vblock { Division.SlotOrder(v', vblock, c.pages); } else { Division.SlotOrder(vblock, v', c.pages); }
    } else {
      assert Within(RowNumber(c, v', p'), RowNumber(c, vblock, 0), g.pagesPerBlk);
    }
  }

  lemma PageErased(c: Setup, g: Geometry, k: Call, d: Disk, m: Mem, p: nat, pos: nat, n: nat)
    requires Matches(c, g) && |d.dram| == c.dramSize && k.Erase? && Allowed(c, k) && p < c.pages
    requires c.bankMap[k.bank] < |m.banks|
    requires pos == FileStart(c, k.bank, k.vblock, 0) && n == c.pages * c.PageBytes()
    ensures PageAgrees(c, WriteOnes(d, pos, n).file, BlockErase(g, c.bankMap[k.bank], RowNumber(c, k.vblock, 0), m),
                       k.bank, k.vblock, p)
  {
    ErasedRows(c, g, k.bank, k.vblock, m, k.bank, k.vblock, p);
    PageOfBlock(c, k.bank, k.vblock, p);
    Division.SlotOrder(p, c.pages, c.PageBytes());
    OnesShow(d, FileStart(c, k.bank, k.vblock, p), c.PageBytes(), pos, n);
  }

  lemma PageSpared(c: Setup, g: Geometry, k: Call, d: Disk, m: Mem, b: nat, v: nat, p: nat, pos: nat, n: nat)
    requires Matches(c, g) && |d.dram| == c.dramSize && k.Erase? && Allowed(c, k) && Usable(c, b, v, p)
    requires c.bankMap[k.bank] < |m.banks| && c.bankMap[b] < |m.banks| && (b != k.bank || v != k.vblock)
    requires PageAgrees(c, d.file, m, b, v, p)
    requires pos == FileStart(c, k.bank, k.vblock, 0) && n == c.pages * c.PageBytes()
    ensures PageAgrees(c, WriteOnes(d, pos, n).file, BlockErase(g, c.bankMap[k.bank], RowNumber(c, k.vblock, 0), m),
                       b, v, p)
  {
    ErasedRows(c, g, k.bank, k.vblock, m, b, v, p);
    BlocksApart(c, k.bank, k.vblock, b, v, p);
    OnesElsewhere(d, Row(m.banks[c.bankMap[b]], RowNumber(c, v, p)), FileStart(c, b, v, p), c.PageBytes(), pos, n);
  }

  lemma EraseKeepsAgreement(c: Setup, g: Geometry, erased: set<(nat, nat)>, k: Call, d: Disk, m: Mem)
    requires Matches(c, g) && Agrees(c, erased, d, m) && k.Erase? && Allowed(c, k)
    ensures Agrees(c, erased + {(k.bank, k.vblock)}, Emulate(c, k, d),
                   BlockErase(g, c.bankMap[k.bank], RowNumber(c, k.vblock, 0), m))
  {
    var pos, n := FileStart(c, k.bank, k.vblock, 0), c.pages * c.PageBytes();
    EmulatedErase(c, k, d, pos, n);
    var file', m' := WriteOnes(d, pos, n).file, BlockErase(g, c.bankMap[k.bank], RowNumber(c, k.vblock, 0), m);
    forall b: nat, v: nat, p: nat | Usable(c, b, v, p) && (b, v) in erased + {(k.bank, k.vblock)}
      ensures PageAgrees(c, file', m', b, v, p)
    {
      if b == k.bank && v == k.vblock {
        PageErased(c, g, k, d, m, p, pos, n);
      } else {
        assert PageAgrees(c, d.file, m, b, v, p);
        PageSpared(c, g, k, d, m, b, v, p, pos, n);
      }
    }
  }

  // ----- whole runs -----

  /** Calls that read only blocks erased before. */
  predicate Orderly(erased: set<(nat, nat)>, ks: seq<Call>)
    decreases |ks|
  {
    ks == [] || (
      && (ks[0].Read? ==> (ks[0].bank, ks[0].vblock) in erased)
      && Orderly(ErasedAfter(erased, ks[0]), ks[1..]))
  }

  function ErasedAfter(erased: set<(nat, nat)>, k: Call): set<(nat, nat)> {
    if k.Erase? then erased + {(k.bank, k.vblock)} else erased
  }

  ghost function ErasedInAll(erased: set<(nat, nat)>, ks: seq<Call>): set<(nat, nat)>
    decreases |ks|
  {
    if ks == [] then erased else ErasedInAll(ErasedAfter(erased, ks[0]), ks[1..])
  }

  /** The work issued for a call on the controller. */
  function CallOps(c: Setup, k: Call): seq<Op>
    requires !k.Store?
  {
    match k
    case Read(bank, vblock, page, sect, num, buf) =>
      ReadOut(RowNumber(c, vblock, page), buf, sect, num * BYTES_PER_SECTOR)
    case Write(bank, vblock, page, sect, num, buf) =>
      InProg(RowNumber(c, vblock, page), buf, sect, num * BYTES_PER_SECTOR)
    case Erase(bank, vblock) => Erases(RowNumber(c, vblock, 0), c.pages)
  }

  lemma CallMeaning(c: Setup, g: Geometry, k: Call, m: Mem)
    requires Matches(c, g) && Allowed(c, k) && !k.Store? && c.bankMap[k.bank] < |m.banks|
    ensures Run(c.bankMap[k.bank], CallOps(c, k), m) == Meaning(c, g, k, m)
  {
    match k {
      case Read(bank, vblock, page, sect, num, buf) =>
        ReadOutMeaning(c.bankMap[bank], RowNumber(c, vblock, page), sect, num * BYTES_PER_SECTOR, buf, m);
      case Write(bank, vblock, page, sect, num, buf) =>
        InProgMeaning(c.bankMap[bank], RowNumber(c, vblock, page), sect, num * BYTES_PER_SECTOR, buf, m);
      case Erase(bank, vblock) => EraseMeaning(g, c.bankMap[bank], RowNumber(c, vblock, 0), m);
    }
  }

  lemma CallKeepsAgreement(c: Setup, g: Geometry, erased: set<(nat, nat)>, k: Call, d: Disk, m: Mem)
    requires Matches(c, g) && Agrees(c, erased, d, m) && Allowed(c, k) && !k.Store?
    requires k.Read? ==> (k.bank, k.vblock) in erased
    ensures Agrees(c, ErasedAfter(erased, k), Emulate(c, k, d), Run(c.bankMap[k.bank], CallOps(c, k), m))
  {
    CallMeaning(c, g, k, m);
    match k {
      case Read(bank, vblock, page, sect, num, buf) =>
        ReadKeepsAgreement(c, erased, k, d, m);
      case Write(bank, vblock, page, sect, num, buf) =>
        WriteKeepsAgreement(c, erased, k, d, m);
      case Erase(bank, vblock) => EraseKeepsAgreement(c, g, erased, k, d, m);
    }
  }

  /** A store of the firmware reaches the same DRAM byte on both. */
  lemma StoreKeepsAgreement(c: Setup, erased: set<(nat, nat)>, k: Call, d: Disk, m: Mem)
    requires Agrees(c, erased, d, m) && k.Store? && Allowed(c, k)
    ensures Agrees(c, erased, Emulate(c, k, d), Poke(k.addr, k.val, m))
  {
    PagesKept(c, erased, d.file, m, Poke(k.addr, k.val, m));
  }

  /** The commands that a run issues, and the DRAM bytes that its firmware stores,
      are, one for one, those of the calls. */
  ghost predicate Issues(c: Setup, g: Geometry, ks: seq<Call>, evs: seq<Event>)
    requires Matches(c, g)
    decreases |evs|
  {
    if evs == [] then ks == []
    else if evs[0].FwPoke? then
      && ks != [] && ks[0].Store? && evs[0].addr == ks[0].addr && evs[0].val == ks[0].val
      && Issues(c, g, ks[1..], evs[1..])
    else if !evs[0].FwIssue? then Issues(c, g, ks, evs[1..])
    else
      && ks != [] && !ks[0].Store? && ks[0].bank < c.banks
      && evs[0].cmd.bank == c.bankMap[ks[0].bank] && Decode(g, evs[0].cmd) == CallOps(c, ks[0])
      && Issues(c, g, ks[1..], evs[1..])
  }

  lemma {:induction false} SequentialAgrees(c: Setup, g: Geometry, erased: set<(nat, nat)>, ks: seq<Call>,
                                            evs: seq<Event>, d: Disk, m: Mem)
    requires Matches(c, g) && Agrees(c, erased, d, m) && AllAllowed(c, ks)
    requires Orderly(erased, ks) && Issues(c, g, ks, evs)
    ensures Agrees(c, ErasedInAll(erased, ks), EmulateAll(c, ks, d), Sequential(g, evs, m))
    decreases |evs|
  {
    if evs != [] {
      if evs[0].FwIssue? {
        CallKeepsAgreement(c, g, erased, ks[0], d, m);
        SequentialAgrees(c, g, ErasedAfter(erased, ks[0]), ks[1..], evs[1..], Emulate(c, ks[0], d),
                         Run(evs[0].cmd.bank, Decode(g, evs[0].cmd), m));
      } else if evs[0].FwPoke? {
        StoreKeepsAgreement(c, erased, ks[0], d, m);
        SequentialAgrees(c, g, erased, ks[1..], evs[1..], Emulate(c, ks[0], d), Poke(evs[0].addr, evs[0].val, m));
      } else {
        SequentialAgrees(c, g, erased, ks, evs[1..], d, m);
      }
    }
  }

  /** The asynchronous hardware refines the emulator. However the banks proceed,
      once nothing is in flight any more the DRAM, and every page of a block that
      was erased, are as the emulator has them after the same calls. */
  lemma HardwareRefinesEmulator(c: Setup, g: Geometry, erased: set<(nat, nat)>, ks: seq<Call>,
                                e: Engine, evs: seq<Event>, d: Disk)
    requires Matches(c, g) && Valid(g, e) && Idle(e) && Agrees(c, erased, d, e.mem)
    requires AllAllowed(c, ks) && Orderly(erased, ks) && IsRun(g, e, evs) && Issues(c, g, ks, evs)
    ensures Idle(EndOf(g, e, evs)) ==>
      Agrees(c, ErasedInAll(erased, ks), EmulateAll(c, ks, d), EndOf(g, e, evs).mem)
  {
    DrainIdle(e.work, |e.work|, e.mem);
    AsynchronousRefinesSequential(g, e, evs);
    SequentialAgrees(c, g, erased, ks, evs, d, e.mem);
  }
}
