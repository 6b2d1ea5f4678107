/** Partition of the DRAM into SATA, copy, FTL, HIL and temporary page buffers. */
module DramLayout {
  import opened Division

  /** Sizes the layout is computed from. DRAM is a base address and a number of
      usable bytes; real banks are numbered below `numBanksMax`. */
  datatype Config = Config(dramBase: nat, dramSize: nat, pageBytes: nat, numBanks: nat, numBanksMax: nat) {

    ghost predicate Sane() {
      0 < pageBytes && 0 < numBanks <= numBanksMax
    }

    function CopyBufBytes(): nat { numBanksMax * pageBytes }
    function FtlBufBytes(): nat { numBanks * pageBytes }
    function HilBufBytes(): nat { pageBytes }
    function TempBufBytes(): nat { pageBytes }
    function OtherBytes(): nat { CopyBufBytes() + FtlBufBytes() + HilBufBytes() + TempBufBytes() }

    function NumRw(): int
      requires Sane()
    {
      Truncated(dramSize - OtherBytes(), pageBytes) - 1
    }

    /** Half of the SATA buffers, before rounding up. */
    function HalfRw(): int
      requires Sane()
    {
      Truncated(NumRw(), 2)
    }

    function NumRd(): int
      requires Sane()
    {
      Truncated(HalfRw() + numBanks - 1, numBanks) * numBanks
    }

    function NumWr(): int
      requires Sane()
    {
      NumRw() - NumRd()
    }

    function RdBufAddr(): int { dramBase }
    function WrBufAddr(): int requires Sane() { RdBufAddr() + NumRd() * pageBytes }
    function CopyBufAddr(): int requires Sane() { WrBufAddr() + NumWr() * pageBytes }
    function FtlBufAddr(): int requires Sane() { CopyBufAddr() + CopyBufBytes() }
    function HilBufAddr(): int requires Sane() { FtlBufAddr() + FtlBufBytes() }
    function TempBufAddr(): int requires Sane() { HilBufAddr() + HilBufBytes() }
    function EndAddr(): int requires Sane() { TempBufAddr() + TempBufBytes() }

    /** The DRAM holds the other buffers and at least one page more, and rounding
        up the read share leaves a write share that is not negative. */
    ghost predicate Roomy() {
      && Sane()
      && OtherBytes() + pageBytes <= dramSize
      && 0 <= NumWr()
    }
  }

  /** The quotient of C, which truncates towards zero. */
  function Truncated(x: int, n: nat): int
    requires 0 < n
  {
    if x < 0 then -(-x / n) else x / n
  }

  datatype Buffer = Rd(id: nat) | Wr(id: nat) | Copy(rbank: nat) | Ftl(bank: nat) | Hil | Temp

  ghost predicate Exists(c: Config, b: Buffer)
    requires c.Sane()
  {
    match b
    case Rd(id) => id < c.NumRd()
    case Wr(id) => id < c.NumWr()
    case Copy(rbank) => rbank < c.numBanksMax
    case Ftl(bank) => bank < c.numBanks
    case _ => true
  }

  /** The pointer macros. */
  function Ptr(c: Config, b: Buffer): int
    requires c.Sane()
  {
    match b
    case Rd(id) => c.RdBufAddr() + id * c.pageBytes
    case Wr(id) => c.WrBufAddr() + id * c.pageBytes
    case Copy(rbank) => c.CopyBufAddr() + rbank * c.pageBytes
    case Ftl(bank) => c.FtlBufAddr() + bank * c.pageBytes
    case Hil => c.HilBufAddr()
    case Temp => c.TempBufAddr()
  }

  /** The identifier macros of the SATA buffers. */
  function RdId(c: Config, ptr: int): int requires c.Sane() { (ptr - c.RdBufAddr()) / c.pageBytes }
  function WrId(c: Config, ptr: int): int requires c.Sane() { (ptr - c.WrBufAddr()) / c.pageBytes }

  /** Number of the page of DRAM that a buffer occupies. */
  function Slot(c: Config, b: Buffer): int
    requires c.Sane()
  {
    match b
    case Rd(id) => id
    case Wr(id) => c.NumRd() + id
    case Copy(rbank) => c.NumRw() + rbank
    case Ftl(bank) => c.NumRw() + c.numBanksMax + bank
    case Hil => c.NumRw() + c.numBanksMax + c.numBanks
    case Temp => c.NumRw() + c.numBanksMax + c.numBanks + 1
  }

  /** What rounding up to a multiple of `n` adds. */
  function Padding(q: int, n: nat): int
    requires 0 < n
  {
    (n - q % n) % n
  }

  lemma RoundUp(q: nat, n: nat)
    requires 0 < n
    ensures (q + n - 1) / n * n == q + Padding(q, n)
    ensures 0 <= Padding(q, n) < n && (q + Padding(q, n)) % n == 0
  {
    var d, r := q / n, q % n;
    assert q == d * n + r;
    if r == 0 {
      DivUnique(q + n - 1, d, n - 1, n);
      DivUnique(n, 1, 0, n);
    } else {
      Distribute(d, 1, n);
      DivUnique(q + n - 1, d + 1, r - 1, n);
      DivUnique(n - r, 0, n - r, n);
      MultipleOf(d + 1, n);
    }
  }

  /** The SATA shares: the read share is the smallest multiple of the number of
      banks that is at least half, and the write share is what remains. */
  lemma Shares(c: Config)
    requires c.Roomy()
    ensures c.HalfRw() == c.NumRw() / 2
    ensures c.NumRd() == c.NumRw() / 2 + Padding(c.NumRw() / 2, c.numBanks)
    ensures c.NumRw() / 2 <= c.NumRd() < c.NumRw() / 2 + c.numBanks
    ensures c.NumRd() % c.numBanks == 0
    ensures 0 <= c.NumRw()
  {
    var q := (c.dramSize - c.OtherBytes()) / c.pageBytes;
    assert q * c.pageBytes + (c.dramSize - c.OtherBytes()) % c.pageBytes >= c.pageBytes;
    assert 1 <= q by { if q <= 0 { NotPositive(q, c.pageBytes); } }
    RoundUp(c.NumRw() / 2, c.numBanks);
  }

  lemma NegativeQuotient(x: int, n: nat)
    requires x < 0 < n
    ensures x <= Truncated(x, n) <= 0
    ensures x <= Truncated(x, n) * n <= 0
  {
    var q := -x / n;
    assert -x == q * n + -x % n;
    if 1 <= q { MulGrows(n, q); }
    NotPositive(-q, n);
  }

  /** The write share is not negative exactly when rounding up half of the SATA
      buffers to a multiple of the number of banks takes no more than the other
      half; for all sizes, those that do not fit the DRAM included. */
  lemma SharesExact(c: Config)
    requires c.Sane()
    ensures 0 <= c.NumWr() <==> Padding(c.HalfRw(), c.numBanks) <= c.NumRw() - c.HalfRw()
  {
    var q, n := c.HalfRw(), c.numBanks;
    if 0 <= c.NumRw() {
      RoundUp(q, n);
    } else {
      NegativeQuotient(c.NumRw(), 2);
      if 0 <= q + n - 1 {
        DivUnique(q + n - 1, 0, q + n - 1, n);
      } else {
        NegativeQuotient(q + n - 1, n);
      }
    }
  }

  lemma NotPositive(q: int, n: nat)
    requires q <= 0
    ensures q * n <= 0
  {
  }

  /** Every buffer lies at its slot. */
  lemma PtrIsSlot(c: Config, b: Buffer)
    requires c.Roomy()
    ensures Ptr(c, b) == c.dramBase + Slot(c, b) * c.pageBytes
  {
    var n := c.pageBytes;
    Distribute(c.NumRd(), c.NumWr(), n);
    match b {
      case Rd(id) =>
      case Wr(id) => Distribute(c.NumRd(), id, n);
      case Copy(r) => Distribute(c.NumRw(), r, n);
      case Ftl(k) => Distribute(c.NumRw(), c.numBanksMax, n); Distribute(c.NumRw() + c.numBanksMax, k, n);
      case Hil => Distribute(c.NumRw(), c.numBanksMax, n); Distribute(c.NumRw() + c.numBanksMax, c.numBanks, n);
      case Temp =>
        Distribute(c.NumRw(), c.numBanksMax, n); Distribute(c.NumRw() + c.numBanksMax, c.numBanks, n);
        Distribute(c.NumRw() + c.numBanksMax + c.numBanks, 1, n);
    }
  }

  /** Different buffers share no byte, and all of them lie inside the DRAM. */
  lemma BuffersAreDisjoint(c: Config, x: Buffer, y: Buffer)
    requires c.Roomy() && Exists(c, x) && Exists(c, y) && x != y
    ensures Ptr(c, x) + c.pageBytes <= Ptr(c, y) || Ptr(c, y) + c.pageBytes <= Ptr(c, x)
  {
    Shares(c);
    PtrIsSlot(c, x);
    PtrIsSlot(c, y);
    if Slot(c, x) < Slot(c, y) {
      SlotOrder(Slot(c, x), Slot(c, y), c.pageBytes);
    } else {
      SlotOrder(Slot(c, y), Slot(c, x), c.pageBytes);
    }
  }

  lemma BuffersFit(c: Config, b: Buffer)
    requires c.Roomy() && Exists(c, b)
    ensures c.dramBase <= Ptr(c, b) && Ptr(c, b) + c.pageBytes <= c.EndAddr() <= c.dramBase + c.dramSize
  {
    Shares(c);
    PtrIsSlot(c, b);
    PtrIsSlot(c, Temp);
    if Slot(c, b) != Slot(c, Temp) { SlotOrder(Slot(c, b), Slot(c, Temp), c.pageBytes); }
    assert Slot(c, b) * c.pageBytes >= 0 by { NotPositive(-Slot(c, b), c.pageBytes); }
    LayoutFits(c);
  }

  lemma SharesFit(rd: int, wr: int, room: nat, n: nat)
    requires 0 < n && rd + wr == room / n - 1
    ensures rd * n + wr * n + n <= room
  {
    Distribute(rd, wr, n);
    Distribute(room / n, -1, n);
    assert room == room / n * n + room % n;
  }

  lemma LayoutFits(c: Config)
    requires c.Roomy()
    ensures c.EndAddr() + c.pageBytes <= c.dramBase + c.dramSize
  {
    SharesFit(c.NumRd(), c.NumWr(), c.dramSize - c.OtherBytes(), c.pageBytes);
  }

  /** The check at start-up: the buffers, in sum, fit the DRAM. */
  predicate SanityCheck(c: Config)
    requires 0 < c.pageBytes && 0 < c.numBanks <= c.numBanksMax
  {
    c.OtherBytes() <= c.dramSize && c.NumRd() * c.pageBytes + c.NumWr() * c.pageBytes + c.OtherBytes() <= c.dramSize
  }

  /** All that it checks is its first comparison: whatever the shares are, they
      add up to no more than what the other buffers leave ... */
  lemma SanityCheckExact(c: Config)
    requires c.Sane()
    ensures SanityCheck(c) <==> c.OtherBytes() <= c.dramSize
  {
    if c.OtherBytes() <= c.dramSize {
      SharesFit(c.NumRd(), c.NumWr(), c.dramSize - c.OtherBytes(), c.pageBytes);
    }
  }

  /** ... so that it also passes when rounding up takes more than the other half:
      32 banks of 32 KB pages, with DRAM for 98 of them. */
  lemma SanityCheckMissesShares()
    ensures var c := Config(0x4000_0000, 98 * 32768, 32768, 32, 32);
      c.Sane() && SanityCheck(c) && c.NumRw() == 31 && c.NumRd() == 32 && c.NumWr() == -1
  {
  }

  /** Identifier and pointer macros undo each other, for any address inside the buffer. */
  lemma IdOfPtr(c: Config, id: nat, k: nat)
    requires c.Sane() && k < c.pageBytes
    ensures RdId(c, Ptr(c, Rd(id)) + k) == id && WrId(c, Ptr(c, Wr(id)) + k) == id
  {
    DivUnique(id * c.pageBytes + k, id, k, c.pageBytes);
  }

  /** The board: 16 of 32 banks, 32 KB pages, 64 MB of DRAM less parity. */
  const BOARD := Config(0x4000_0000, 65075200, 32768, 16, 32)
  /** The emulator: all 32 banks. */
  const EMULATOR := Config(0x4000_0000, 65075200, 32768, 32, 32)

  /** Both shipped configurations satisfy the conditions, with these shares; and
      the DRAM with a parity word after every 128 bytes stays below 64 MiB. */
  lemma ShippedLayouts()
    ensures BOARD.Roomy() && BOARD.NumRd() == 976 && BOARD.NumWr() == 958
    ensures EMULATOR.Roomy() && EMULATOR.NumRd() == 960 && EMULATOR.NumWr() == 958
    ensures BOARD.dramSize % 128 == 0 && BOARD.dramSize / 128 * 132 == 67108800 < 64 * 1024 * 1024
  {
  }

  /** Where the buffers of the board are, up to the end of the layout. */
  lemma ShippedAddresses()
    ensures Ptr(BOARD, Rd(0)) == 0x4000_0000 && Ptr(BOARD, Rd(1)) == 0x4000_8000
    ensures Ptr(BOARD, Wr(0)) == 0x41E8_0000 && Ptr(BOARD, Copy(0)) == 0x43C7_0000
    ensures Ptr(BOARD, Ftl(0)) == 0x43D7_0000 && Ptr(BOARD, Ftl(1)) == 0x43D7_8000
    ensures Ptr(BOARD, Hil) == 0x43DF_0000 && Ptr(BOARD, Temp) == 0x43DF_8000 && BOARD.EndAddr() == 0x43E0_0000
  {
    ShippedLayouts();
  }
}
