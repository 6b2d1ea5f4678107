/** Host commands: decoding of the register FIS, the range check, and the event
    queue encoding that carries reads, writes and trims to the main loop. */
module SataCommand {
  import opened Common
  import Division

  const TRIM_MARKER: u32 := 0x3FFF_FFFF

  // command codes
  const ATA_DATA_SET_MANAGEMENT: nat := 0x06
  const ATA_WRITE_DMA_EXT: nat := 0x35
  const ATA_READ_DMA_EXT: nat := 0x25
  const ATA_READ_FPDMA_QUEUED: nat := 0x60
  const ATA_WRITE_FPDMA_QUEUED: nat := 0x61
  const ATA_INITIALIZE_DEV_PARA: nat := 0x91
  const ATA_READ_DMA: nat := 0xC8
  const ATA_WRITE_DMA: nat := 0xCA

  /** How the address fields of a command are laid out. */
  datatype Layout = Short | Ext | LbaAndCount | NoAddress

  datatype Class = DeviceToHost | HostToDevice | Other

  /** Class, layout, and whether the sector count is not one. */
  datatype Attr = Attr(kind: Class, layout: Layout, noSect: bool)

  /** The command class table. */
  function AttrOf(code: nat): Attr {
    if code == 0x20 || code == 0xC4 || code == 0xC8 then Attr(DeviceToHost, Short, false)
    else if code == 0x24 || code == 0x25 || code == 0x29 then Attr(DeviceToHost, Ext, false)
    else if code == 0x30 || code == 0xC5 || code == 0xCA then Attr(HostToDevice, Short, false)
    else if code == 0x34 || code == 0x35 || code == 0x39 then Attr(HostToDevice, Ext, false)
    else if code == ATA_READ_FPDMA_QUEUED then Attr(DeviceToHost, NoAddress, false)
    else if code == ATA_WRITE_FPDMA_QUEUED then Attr(HostToDevice, NoAddress, false)
    else if code == ATA_DATA_SET_MANAGEMENT then Attr(Other, LbaAndCount, false)
    else if code == 0x40 || code == 0x92 || code == 0xFC then Attr(Other, Short, false)
    else if code == 0x2F || code == 0x3F || code == 0x42 || code == 0xFD then Attr(Other, Ext, false)
    else if code == 0x37 then Attr(Other, Ext, true)
    else if code == 0xF9 then Attr(Other, Short, true)
    else if code == 0xFF then Attr(Other, NoAddress, true)
    else Attr(Other, NoAddress, false)
  }

  // the codes of each kind and layout, as the standard and the vendor list them
  predicate ReadCode(code: nat) {
    code == 0x20 || code == 0x24 || code == 0x25 || code == 0x29 || code == 0xC4 || code == 0xC8
  }

  predicate WriteCode(code: nat) {
    code == 0x30 || code == 0x34 || code == 0x35 || code == 0x39 || code == 0xC5 || code == 0xCA
  }

  predicate QueuedCode(code: nat) { code == 0x60 || code == 0x61 }

  predicate Code48(code: nat) {
    || code == 0x24 || code == 0x25 || code == 0x29 || code == 0x34 || code == 0x35 || code == 0x39
    || code == 0x2F || code == 0x37 || code == 0x3F || code == 0x42 || code == 0xFD
  }

  predicate Code28(code: nat) {
    || code == 0x20 || code == 0xC4 || code == 0xC8 || code == 0x30 || code == 0xC5 || code == 0xCA
    || code == 0x40 || code == 0x92 || code == 0xF9 || code == 0xFC
  }

  /** Codes that carry no sector count, so that nothing is checked. */
  predicate UncheckedCode(code: nat) { code == 0x37 || code == 0xF9 || code == 0xFF }

  lemma TableOfCodes(code: nat)
    ensures AttrOf(code).kind == DeviceToHost <==> ReadCode(code) || code == 0x60
    ensures AttrOf(code).kind == HostToDevice <==> WriteCode(code) || code == 0x61
    ensures AttrOf(code).layout == Short <==> Code28(code)
    ensures AttrOf(code).layout == Ext <==> Code48(code)
    ensures AttrOf(code).layout == LbaAndCount <==> code == 0x06
    ensures AttrOf(code).noSect <==> UncheckedCode(code)
  {
  }

  /** The register FIS: command code and data words 1 to 3. */
  datatype Fis = Fis(code: nat, d1: u32, d2: u32, d3: u32)

  /** Cylinders, heads and sectors the host has chosen. */
  datatype Chs = Chs(cylinders: nat, heads: nat, sectors: nat)

  datatype Extent = Extent(lba: u32, count: nat)

  // ----- decoding -----

  predicate LbaBit(d1: u32) { d1 / 0x4000_0000 % 2 == 1 }
  function Cylinder(d1: u32): nat { d1 / 0x100 % 0x1_0000 }
  function Head(d1: u32): nat { d1 / 0x100_0000 % 0x10 }
  function Sector(d1: u32): nat { d1 % 0x100 }

  /** Sectors before the one that a CHS address names, plus one. */
  function ChsNumber(g: Chs, d1: u32): nat { (Cylinder(d1) * g.heads + Head(d1)) * g.sectors + Sector(d1) }

  /** A zero in the count field stands for its full range. */
  function CountOr(field: nat, full: nat, noSect: bool): nat {
    if field == 0 && !noSect then full else field
  }

  function DecodeFis(g: Chs, f: Fis): Extent {
    var a := AttrOf(f.code);
    match a.layout
    case Short =>
      Extent(
        if !LbaBit(f.d1) then Wrap32(ChsNumber(g, f.d1) - 1)
        else f.d1 % 0x1000_0000,
        CountOr(f.d3 % 0x100, 0x100, a.noSect))
    case Ext =>
      Extent(f.d1 % 0x100_0000 + f.d2 % 0x100 * 0x100_0000, CountOr(f.d3 % 0x1_0000, 0x1_0000, a.noSect))
    case LbaAndCount => Extent(f.d1 % 0x1000_0000, f.d3 % 0x1_0000)
    case NoAddress => Extent(0, 0)
  }

  /** The range check, in 32-bit arithmetic. */
  predicate InRange(numSectors: u32, x: Extent) { Wrap32(x.lba + x.count) <= numSectors }

  /** What the host asked for. */
  datatype Request = Read(lba: u32, count: nat) | Write(lba: u32, count: nat) | Trim(count: nat)

  datatype Verdict = Reject | Transfer(req: Request) | Slow(x: Extent)

  function Judge(numSectors: u32, g: Chs, f: Fis): Verdict {
    var a, x := AttrOf(f.code), DecodeFis(g, f);
    if !InRange(numSectors, x) && !a.noSect then Reject
    else if a.kind == HostToDevice then Transfer(Write(x.lba, x.count))
    else if a.kind == DeviceToHost then Transfer(Read(x.lba, x.count))
    else if f.code == ATA_DATA_SET_MANAGEMENT then Transfer(Trim(x.count))
    else Slow(x)
  }

  // ----- the event queue -----

  /** An entry as the hardware keeps it: 30 bits of address, 16 of count. */
  datatype Entry = Entry(lba30: nat, count16: nat, write: bool)

  function Insert(lba: u32, count: nat, write: bool): Entry {
    Entry(lba % 0x4000_0000, count % 0x1_0000, write)
  }

  function EntryOf(r: Request): Entry {
    match r
    case Read(lba, count) => Insert(lba, count, false)
    case Write(lba, count) => Insert(lba, count, true)
    case Trim(count) => Insert(TRIM_MARKER, count, true)
  }

  datatype Call = FtlRead(lba: nat, count: nat) | FtlWrite(lba: nat, count: nat) | FtlTrim(lba: nat, count: nat)

  /** What the main loop calls for an entry. */
  function CallOf(e: Entry): Call {
    var count := if e.count16 == 0 then 0x1_0000 else e.count16;
    if !e.write then FtlRead(e.lba30, count)
    else if e.lba30 == TRIM_MARKER then FtlTrim(0, count)
    else FtlWrite(e.lba30, count)
  }

  /** What a decoded request asks of the FTL. */
  function Meant(r: Request): Call {
    match r
    case Read(lba, count) => FtlRead(lba, count)
    case Write(lba, count) => FtlWrite(lba, count)
    case Trim(count) => FtlTrim(0, count)
  }

  predicate Faithful(r: Request) { CallOf(EntryOf(r)) == Meant(r) }

  /** The queue carries a request faithfully exactly when it fits the fields and
      is no write to the marker address. */
  lemma FaithfulExact(r: Request)
    ensures Faithful(r) <==>
      && 1 <= r.count <= 0x1_0000
      && (r.Trim? || r.lba < 0x4000_0000)
      && !(r.Write? && r.lba == TRIM_MARKER)
  {
  }

  /** A transfer that lies on the disk. */
  predicate OnDisk(numSectors: u32, r: Request) {
    1 <= r.count <= 0x1_0000 && (r.Trim? || r.lba + r.count <= numSectors)
  }

  predicate Queued(f: Fis) { QueuedCode(f.code) }

  /** The decoded extent does not wrap around 32 bits, and a trim has ranges.
      Queued commands are not supported. */
  predicate Contained(g: Chs, f: Fis) {
    var x := DecodeFis(g, f);
    !Queued(f) && x.lba + x.count < TWO_TO_32 && (f.code == ATA_DATA_SET_MANAGEMENT ==> x.count != 0)
  }

  lemma CountBound(g: Chs, f: Fis)
    requires !Queued(f) && AttrOf(f.code).kind != Other
    ensures 1 <= DecodeFis(g, f).count <= 0x1_0000
  {
  }

  /** An accepted transfer, as decoded, lies on the disk exactly when it is contained. */
  lemma AcceptedExact(numSectors: u32, g: Chs, f: Fis)
    requires Judge(numSectors, g, f).Transfer? && !Queued(f)
    ensures OnDisk(numSectors, Judge(numSectors, g, f).req) <==> Contained(g, f)
  {
    if AttrOf(f.code).kind != Other { CountBound(g, f); }
  }

  lemma WrapChs(g: Chs, d1: u32, count: nat)
    requires g.heads <= 16 && g.sectors <= 255 && 1 <= count <= 0x100
    ensures Wrap32(ChsNumber(g, d1) - 1) + count < TWO_TO_32 <==> ChsNumber(g, d1) != 0
  {
    ChsSmall(Cylinder(d1), g.heads, Head(d1), g.sectors, Sector(d1));
  }

  /** Which extents wrap: none with a 28-bit address; with CHS only sector 0 at
      the very start; with a 48-bit address those that end beyond 32 bits. */
  lemma WrapExact(g: Chs, f: Fis)
    requires g.heads <= 16 && g.sectors <= 255 && AttrOf(f.code).kind != Other && !Queued(f)
    ensures var x := DecodeFis(g, f);
      x.lba + x.count < TWO_TO_32 <==>
        match AttrOf(f.code).layout
        case Short => LbaBit(f.d1) || ChsNumber(g, f.d1) != 0
        case _ => f.d1 % 0x100_0000 + f.d2 % 0x100 * 0x100_0000 + CountOr(f.d3 % 0x1_0000, 0x1_0000, false) < TWO_TO_32
  {
    if AttrOf(f.code).layout == Short { WrapChs(g, f.d1, CountOr(f.d3 % 0x100, 0x100, false)); }
  }

  lemma ChsSmall(c: nat, heads: nat, h: nat, sectors: nat, s: nat)
    requires c < 0x1_0000 && heads <= 16 && h < 16 && sectors <= 255 && s < 256
    ensures 0 <= (c * heads + h) * sectors + s < 0x2000_0000
  {
    assert c * heads <= c * 16 by { MulUpTo(c, heads, 16); }
    assert (c * heads + h) * sectors <= (c * heads + h) * 255 by { MulUpTo(c * heads + h, sectors, 255); }
  }

  lemma MulUpTo(x: nat, y: nat, n: nat)
    requires y <= n
    ensures x * y <= x * n
  {
  }

  // ----- what the host sent -----

  /** The 48-bit address: its low three bytes, then its high three. */
  function Lba48(f: Fis): nat { f.d1 % 0x100_0000 + f.d2 % 0x100_0000 * 0x100_0000 }

  /** The data words that a host fills in for a 48-bit address, with whatever
      bytes there are above it. */
  lemma AddressSent(code: nat, lba: nat, device: nat, features: nat, d3: u32)
    requires lba < 0x1_0000_0000_0000 && device < 0x100 && features < 0x100
    ensures var d1, d2 := device * 0x100_0000 + lba % 0x100_0000, features * 0x100_0000 + lba / 0x100_0000;
      d1 < TWO_TO_32 && d2 < TWO_TO_32 && Lba48(Fis(code, d1, d2, d3)) == lba
  {
  }

  /** The data word for cylinder, head and sector: bit 6 of the device byte asks
      for an address instead, and its low half is the head. */
  lemma FieldsSent(device: nat, cylinder: nat, sector: nat)
    requires device < 0x100 && cylinder < 0x1_0000 && sector < 0x100
    ensures var d1 := device * 0x100_0000 + cylinder * 0x100 + sector;
      && d1 < TWO_TO_32 && (LbaBit(d1) <==> device / 0x40 % 2 == 1)
      && Cylinder(d1) == cylinder && Head(d1) == device % 0x10 && Sector(d1) == sector
  {
    var d1 := device * 0x100_0000 + cylinder * 0x100 + sector;
    assert d1 / 0x100_0000 == device && d1 / 0x100 == device * 0x1_0000 + cylinder;
    assert d1 / 0x4000_0000 == device / 0x40;
  }

  /** The address of a transfer, with `h` the geometry in which the host counts. */
  function HostLba(h: Chs, f: Fis): int {
    if Code48(f.code) then Lba48(f)
    else if LbaBit(f.d1) then f.d1 % 0x1000_0000
    else ChsNumber(h, f.d1) - 1
  }

  /** Sector counts are modulo this number. */
  function CountRange(code: nat): nat { if Code28(code) then 0x100 else 0x1_0000 }

  /** The count of a transfer is the positive one that its field stands for; a
      trim may be of no ranges. */
  function HostCount(f: Fis): nat {
    if IsTrim(f) then f.d3 % 0x1_0000
    else if f.d3 % CountRange(f.code) == 0 then CountRange(f.code)
    else f.d3 % CountRange(f.code)
  }

  /** Zero in the count field stands for the full range, and any other number for
      itself: decoder and host agree. */
  lemma CountsAgree(g: Chs, f: Fis)
    requires IsTransfer(f)
    ensures DecodeFis(g, f).count == HostCount(f)
    ensures 1 <= HostCount(f) <= CountRange(f.code) && HostCount(f) % CountRange(f.code) == f.d3 % CountRange(f.code)
  {
  }

  predicate IsTrim(f: Fis) { f.code == ATA_DATA_SET_MANAGEMENT }

  predicate IsTransfer(f: Fis) { ReadCode(f.code) || WriteCode(f.code) }

  /** The call of the FTL does what the host sent. */
  predicate Obeys(h: Chs, f: Fis, c: Call) {
    match c
    case FtlRead(lba, count) => ReadCode(f.code) && lba == HostLba(h, f) && count == HostCount(f)
    case FtlWrite(lba, count) => WriteCode(f.code) && lba == HostLba(h, f) && count == HostCount(f)
    case FtlTrim(lba, count) => IsTrim(f) && lba == 0 && count == HostCount(f)
  }

  /** What the host has to send: with CHS, only sectors of the first track; with
      48 bits, extents that end before address 2^32; no trim of no ranges. */
  predicate Plain(f: Fis) {
    if IsTrim(f) then HostCount(f) != 0
    else if !IsTransfer(f) then true
    else if Code48(f.code) then Lba48(f) + HostCount(f) < TWO_TO_32
    else LbaBit(f.d1) || (Cylinder(f.d1) == 0 && Head(f.d1) == 0 && Sector(f.d1) != 0)
  }

  predicate IsGeometry(h: Chs) { 1 <= h.heads <= 16 && 1 <= h.sectors <= 255 }

  /** The geometry of the firmware, which it never sets. */
  const NO_GEOMETRY := Chs(0, 0, 0)

  /** The high two bytes of a 48-bit address are dropped ... */
  lemma AddressKept(g: Chs, f: Fis)
    requires AttrOf(f.code).layout == Ext
    ensures DecodeFis(g, f).lba == Wrap32(Lba48(f))
    ensures DecodeFis(g, f).lba == Lba48(f) <==> f.d2 / 0x100 % 0x1_0000 == 0
  {
    LowBytes(f.d1 % 0x100_0000, f.d2);
  }

  lemma LowBytes(x: nat, d2: u32)
    requires x < 0x100_0000
    ensures x + d2 % 0x100 * 0x100_0000 == Wrap32(x + d2 % 0x100_0000 * 0x100_0000)
    ensures d2 % 0x100 == d2 % 0x100_0000 <==> d2 / 0x100 % 0x1_0000 == 0
  {
    var high := d2 / 0x100 % 0x1_0000;
    assert d2 % 0x100_0000 == high * 0x100 + d2 % 0x100;
  }

  lemma TrackCounts(c: nat, heads: nat, head: nat, sectors: nat, s: nat, number: nat)
    requires c < 0x1_0000 && head < 16 && s < 256 && 1 <= heads <= 16 && 1 <= sectors <= 255
    requires number == (c * heads + head) * sectors + s
    ensures s <= number < 0x2000_0100 && (number == s <==> c == 0 && head == 0)
  {
    ChsSmall(c, heads, head, sectors, s);
    if 0 < c { Division.MulGrows(c, heads); }
    if 0 < c * heads + head { Division.MulGrows(c * heads + head, sectors); }
  }

  lemma NoTrack(d1: u32)
    ensures ChsNumber(NO_GEOMETRY, d1) == Sector(d1)
  {
  }

  /** ... and so are cylinder and head. */
  lemma TrackKept(h: Chs, d1: u32)
    requires IsGeometry(h)
    ensures ChsNumber(NO_GEOMETRY, d1) == Sector(d1) <= ChsNumber(h, d1) < 0x2000_0100
    ensures ChsNumber(NO_GEOMETRY, d1) == ChsNumber(h, d1) <==> Cylinder(d1) == 0 && Head(d1) == 0
  {
    NoTrack(d1);
    TrackCounts(Cylinder(d1), h.heads, Head(d1), h.sectors, Sector(d1), ChsNumber(h, d1));
  }

  /** An address `lba` that the queue carries is the host's address `host`. */
  predicate SameAddress(lba: u32, host: int, write: bool) {
    lba % 0x4000_0000 == host && !(write && host == TRIM_MARKER)
  }

  lemma TransferOf(numSectors: u32, g: Chs, f: Fis)
    requires IsTransfer(f) && Judge(numSectors, g, f).Transfer?
    ensures 1 <= HostCount(f) <= 0x1_0000
    ensures Judge(numSectors, g, f).req
         == if WriteCode(f.code) then Write(DecodeFis(g, f).lba, HostCount(f))
            else Read(DecodeFis(g, f).lba, HostCount(f))
  {
    TableOfCodes(f.code);
    CountsAgree(g, f);
  }

  lemma CallOfTransfer(lba: u32, count: nat)
    requires 1 <= count <= 0x1_0000
    ensures CallOf(EntryOf(Read(lba, count))) == FtlRead(lba % 0x4000_0000, count)
    ensures CallOf(EntryOf(Write(lba, count)))
         == if lba % 0x4000_0000 == TRIM_MARKER then FtlTrim(0, count) else FtlWrite(lba % 0x4000_0000, count)
  {
  }

  lemma ObeyedNumbers(numSectors: u32, h: Chs, f: Fis)
    requires IsTransfer(f) && Judge(numSectors, NO_GEOMETRY, f).Transfer?
    ensures Obeys(h, f, CallOf(EntryOf(Judge(numSectors, NO_GEOMETRY, f).req))) <==>
      SameAddress(DecodeFis(NO_GEOMETRY, f).lba, HostLba(h, f), WriteCode(f.code))
  {
    TransferOf(numSectors, NO_GEOMETRY, f);
    ObeyedRequest(h, f, Judge(numSectors, NO_GEOMETRY, f).req, HostLba(h, f), HostCount(f));
  }

  lemma ObeyedRequest(h: Chs, f: Fis, r: Request, host: int, count: nat)
    requires IsTransfer(f) && host == HostLba(h, f) && count == HostCount(f) && 1 <= count <= 0x1_0000
    requires !r.Trim? && r == if WriteCode(f.code) then Write(r.lba, count) else Read(r.lba, count)
    ensures Obeys(h, f, CallOf(EntryOf(r))) <==> SameAddress(r.lba, host, WriteCode(f.code))
  {
    CallOfTransfer(r.lba, count);
  }

  lemma SmallAddress(numSectors: u32, lba: u32, count: nat, write: bool)
    requires numSectors <= TRIM_MARKER && 1 <= count <= 0x1_0000
    requires lba + count < TWO_TO_32 && Wrap32(lba + count) <= numSectors
    ensures SameAddress(lba, lba, write) && lba + count <= numSectors
  {
  }

  lemma LargeAddress(lba: u32, count: nat, host: nat, write: bool)
    requires TWO_TO_32 <= host + count && count <= 0x1_0000
    ensures !SameAddress(lba, host, write)
  {
  }

  lemma ChsObeyed(sector: nat, number: nat, write: bool)
    requires sector < 0x100 && sector <= number < 0x2000_0100
    ensures SameAddress(Wrap32(sector - 1), number - 1, write) <==> number == sector && sector != 0
  {
  }

  lemma Obeyed48(numSectors: u32, f: Fis, lba: u32, count: nat, write: bool)
    requires numSectors <= TRIM_MARKER && 1 <= count <= 0x1_0000
    requires lba == Wrap32(Lba48(f)) && Wrap32(lba + count) <= numSectors
    ensures SameAddress(lba, Lba48(f), write) <==> Lba48(f) + count < TWO_TO_32
  {
    if Lba48(f) + count < TWO_TO_32 {
      WrapSmall(Lba48(f));
      SmallAddress(numSectors, lba, count, write);
    } else {
      LargeAddress(lba, count, Lba48(f), write);
    }
  }

  lemma Obeyed28(numSectors: u32, h: Chs, f: Fis, lba: u32, count: nat, write: bool)
    requires numSectors <= TRIM_MARKER && IsGeometry(h) && !Code48(f.code) && 1 <= count <= 0x1_0000
    requires lba == if LbaBit(f.d1) then f.d1 % 0x1000_0000 else Wrap32(Sector(f.d1) - 1)
    requires Wrap32(lba + count) <= numSectors
    ensures SameAddress(lba, HostLba(h, f), write) <==>
      LbaBit(f.d1) || (Cylinder(f.d1) == 0 && Head(f.d1) == 0 && Sector(f.d1) != 0)
  {
    if LbaBit(f.d1) {
      SmallAddress(numSectors, lba, count, write);
    } else {
      TrackKept(h, f.d1);
      ChsObeyed(Sector(f.d1), ChsNumber(h, f.d1), write);
    }
  }

  /** What the firmware makes of the address, without a geometry. */
  lemma LbaDecoded(f: Fis)
    requires IsTransfer(f)
    ensures Code48(f.code) ==> DecodeFis(NO_GEOMETRY, f).lba == Wrap32(Lba48(f))
    ensures !Code48(f.code) ==>
      DecodeFis(NO_GEOMETRY, f).lba == if LbaBit(f.d1) then f.d1 % 0x1000_0000 else Wrap32(Sector(f.d1) - 1)
  {
    TableOfCodes(f.code);
    NoTrack(f.d1);
    if Code48(f.code) { AddressKept(NO_GEOMETRY, f); }
  }

  lemma TransferObeyed(numSectors: u32, h: Chs, f: Fis, lba: u32, count: nat)
    requires numSectors <= TRIM_MARKER && IsGeometry(h) && IsTransfer(f)
    requires lba == DecodeFis(NO_GEOMETRY, f).lba && count == HostCount(f) && 1 <= count <= 0x1_0000
    requires Wrap32(lba + count) <= numSectors
    ensures SameAddress(lba, HostLba(h, f), WriteCode(f.code)) <==> Plain(f)
  {
    LbaDecoded(f);
    if Code48(f.code) {
      Obeyed48(numSectors, f, lba, count, WriteCode(f.code));
    } else {
      Obeyed28(numSectors, h, f, lba, count, WriteCode(f.code));
    }
  }

  /** An accepted transfer reaches the FTL as the host sent it exactly when the
      command is plain. */
  lemma ObeyedExactly(numSectors: u32, h: Chs, f: Fis)
    requires numSectors <= TRIM_MARKER && IsGeometry(h) && !Queued(f)
    requires Judge(numSectors, NO_GEOMETRY, f).Transfer?
    ensures Obeys(h, f, CallOf(EntryOf(Judge(numSectors, NO_GEOMETRY, f).req))) <==> Plain(f)
  {
    TableOfCodes(f.code);
    if IsTransfer(f) {
      JudgedBy(numSectors, f, DecodeFis(NO_GEOMETRY, f).lba, HostCount(f));
      ObeyedNumbers(numSectors, h, f);
      TransferObeyed(numSectors, h, f, DecodeFis(NO_GEOMETRY, f).lba, HostCount(f));
    }
  }

  /** The sectors that the host means lie on the disk. */
  predicate OnHostDisk(numSectors: u32, h: Chs, f: Fis) {
    0 <= HostLba(h, f) && HostLba(h, f) + HostCount(f) <= numSectors
  }

  lemma JudgedBy(numSectors: u32, f: Fis, lba: u32, count: nat)
    requires IsTransfer(f) && lba == DecodeFis(NO_GEOMETRY, f).lba && count == HostCount(f)
    ensures 1 <= count <= 0x1_0000 && Judge(numSectors, NO_GEOMETRY, f) != Slow(DecodeFis(NO_GEOMETRY, f))
    ensures Judge(numSectors, NO_GEOMETRY, f) == Reject <==> numSectors < Wrap32(lba + count)
    ensures Judge(numSectors, NO_GEOMETRY, f).Transfer? <==> Wrap32(lba + count) <= numSectors
  {
    TableOfCodes(f.code);
    CountsAgree(NO_GEOMETRY, f);
    assert DecodeFis(NO_GEOMETRY, f) == Extent(lba, count);
  }

  /** The 32-bit check of an address, against that of the extent meant. */
  lemma RangeOfAddress(numSectors: u32, lba: u32, host: nat, count: nat)
    requires 1 <= count <= 0x1_0000 && lba == Wrap32(host)
    ensures host + count < TWO_TO_32 && Wrap32(lba + count) <= numSectors ==> host + count <= numSectors
    ensures numSectors < Wrap32(lba + count) ==> numSectors < host + count
  {
    WrapSum(host, count);
    WrapBelow(host + count);
    if host + count < TWO_TO_32 { WrapSmall(host + count); }
  }

  lemma RangeOfChs(numSectors: u32, lba: u32, sector: nat, number: nat, count: nat)
    requires sector < 0x100 && sector <= number && 1 <= count <= 0x1_0000 && lba == Wrap32(sector - 1)
    ensures number == sector != 0 && Wrap32(lba + count) <= numSectors ==> number - 1 + count <= numSectors
    ensures numSectors < Wrap32(lba + count) ==> numSectors < number - 1 + count
  {
  }

  /** A plain command that is accepted lies on the disk; one that is rejected does not. */
  lemma PlainIsJudged(numSectors: u32, h: Chs, f: Fis)
    requires numSectors <= TRIM_MARKER && IsGeometry(h) && IsTransfer(f)
    ensures Plain(f) && Judge(numSectors, NO_GEOMETRY, f).Transfer? ==> OnHostDisk(numSectors, h, f)
    ensures Judge(numSectors, NO_GEOMETRY, f) == Reject ==> !OnHostDisk(numSectors, h, f)
  {
    var lba, count := DecodeFis(NO_GEOMETRY, f).lba, HostCount(f);
    TableOfCodes(f.code);
    JudgedBy(numSectors, f, lba, count);
    if Code48(f.code) {
      AddressKept(NO_GEOMETRY, f);
      RangeOfAddress(numSectors, lba, Lba48(f), count);
    } else if LbaBit(f.d1) {
      WrapSmall(lba);
      RangeOfAddress(numSectors, lba, lba, count);
    } else {
      TrackKept(h, f.d1);
      RangeOfChs(numSectors, lba, Sector(f.d1), ChsNumber(h, f.d1), count);
    }
  }

  lemma WrapBelow(x: nat)
    ensures Wrap32(x) <= x
  {
  }

  /** Reads and writes are judged right, served as sent if they are on the disk
      and else rejected, exactly when they are plain or rejected: no rejection is
      wrong, and an acceptance is if the command is not plain. */
  lemma JudgedExactly(numSectors: u32, h: Chs, f: Fis)
    requires numSectors <= TRIM_MARKER && IsGeometry(h) && IsTransfer(f)
    ensures JudgedRight(numSectors, h, f) <==> Plain(f) || Judge(numSectors, NO_GEOMETRY, f) == Reject
  {
    PlainIsJudged(numSectors, h, f);
    if Judge(numSectors, NO_GEOMETRY, f).Transfer? { ObeyedExactly(numSectors, h, f); }
  }

  predicate JudgedRight(numSectors: u32, h: Chs, f: Fis) {
    var v := Judge(numSectors, NO_GEOMETRY, f);
    if OnHostDisk(numSectors, h, f) then v.Transfer? && Obeys(h, f, CallOf(EntryOf(v.req))) else v == Reject
  }

  /** Every other command is left to the main loop, unless it is checked and its
      numbers do not pass the range check. */
  lemma SlowExactly(numSectors: u32, g: Chs, f: Fis)
    requires !IsTransfer(f) && !Queued(f) && !IsTrim(f)
    ensures var x := DecodeFis(g, f); var v := Judge(numSectors, g, f);
      && (v == Reject <==> numSectors < Wrap32(x.lba + x.count) && !UncheckedCode(f.code))
      && (v != Reject ==> v == Slow(x))
  {
    TableOfCodes(f.code);
  }

  /** Its numbers are those that its layout gives. */
  lemma SlowNumbers(g: Chs, f: Fis)
    requires !IsTransfer(f) && !Queued(f) && !IsTrim(f)
    ensures !Code28(f.code) && !Code48(f.code) ==> DecodeFis(g, f) == Extent(0, 0)
    ensures Code28(f.code) || Code48(f.code) ==> SlowCount(f, DecodeFis(g, f).count)
    ensures Code48(f.code) ==> DecodeFis(g, f).lba == Wrap32(Lba48(f))
    ensures Code28(f.code) ==>
      DecodeFis(g, f).lba == if LbaBit(f.d1) then f.d1 % 0x1000_0000 else Wrap32(ChsNumber(g, f.d1) - 1)
  {
    TableOfCodes(f.code);
    if Code48(f.code) { AddressKept(g, f); }
  }

  /** Zero stands for itself only in commands that are not checked. */
  predicate SlowCount(f: Fis, count: nat) {
    && count <= CountRange(f.code) && count % CountRange(f.code) == f.d3 % CountRange(f.code)
    && (count == 0 ==> UncheckedCode(f.code)) && (count == CountRange(f.code) ==> !UncheckedCode(f.code))
  }

  /** A write at address 0xFFFF_FFFF is accepted, and becomes a trim. */
  lemma WrappedWriteTrims(numSectors: u32, g: Chs)
    ensures var f := Fis(ATA_WRITE_DMA_EXT, 0xFF_FFFF, 0xFF, 1);
      && Judge(numSectors, g, f) == Transfer(Write(0xFFFF_FFFF, 1))
      && CallOf(EntryOf(Write(0xFFFF_FFFF, 1))) == FtlTrim(0, 1)
  {
  }

  /** Sector 0 of the first track does not exist, but is accepted. */
  lemma SectorZeroAccepted(numSectors: u32, g: Chs)
    requires 0 < numSectors
    ensures var f := Fis(ATA_READ_DMA, 0, 0, 1);
      Judge(numSectors, g, f) == Transfer(Read(0xFFFF_FFFF, 1))
  {
  }

  /** A trim of no ranges reaches the FTL as one of 65536. */
  lemma EmptyTrimGrows()
    ensures CallOf(EntryOf(Trim(0))) == FtlTrim(0, 0x1_0000)
  {
  }
}
