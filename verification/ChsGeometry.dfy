/** The geometry that INITIALIZE DEVICE PARAMETERS would set: addresses by
    cylinder, head and sector are one for one with sector numbers (section 6.2 of
    ATA/ATAPI-5). */
module ChsGeometry {
  import opened Common
  import Division
  import opened SataCommand
  import opened SataProtocol

  datatype Address = Address(cylinder: nat, head: nat, sector: nat)

  predicate InGeometry(g: Chs, a: Address) {
    a.cylinder < g.cylinders && a.head < g.heads && 1 <= a.sector <= g.sectors
  }

  function Number(g: Chs, a: Address): int { (a.cylinder * g.heads + a.head) * g.sectors + a.sector - 1 }

  function Locate(g: Chs, n: nat): Address
    requires 0 < g.heads && 0 < g.sectors
  {
    Address(n / g.sectors / g.heads, n / g.sectors % g.heads, n % g.sectors + 1)
  }

  function Capacity(g: Chs): nat { g.cylinders * g.heads * g.sectors }

  lemma NumberInCapacity(g: Chs, a: Address)
    requires InGeometry(g, a)
    ensures 0 <= Number(g, a) < Capacity(g) && Locate(g, Number(g, a)) == a
  {
    var track := a.cylinder * g.heads + a.head;
    Division.SlotOrder(a.cylinder, g.cylinders, g.heads);
    Division.SlotOrder(track, g.cylinders * g.heads, g.sectors);
    Division.DivUnique(Number(g, a), track, a.sector - 1, g.sectors);
    Division.DivUnique(track, a.cylinder, a.head, g.heads);
  }

  lemma LocateWithin(g: Chs, n: nat)
    requires 0 < g.heads && 0 < g.sectors && n < Capacity(g)
    ensures InGeometry(g, Locate(g, n)) && Number(g, Locate(g, n)) == n
  {
    var track := n / g.sectors;
    assert n == track * g.sectors + n % g.sectors;
    assert track == track / g.heads * g.heads + track % g.heads;
    if g.cylinders * g.heads <= track { NotMore(g.cylinders * g.heads, track, g.sectors); }
    if g.cylinders <= track / g.heads { NotMore(g.cylinders, track / g.heads, g.heads); }
  }

  lemma NotMore(x: nat, y: nat, n: nat)
    requires x <= y
    ensures x * n <= y * n
  {
  }

  /** The capacity of a new geometry does not exceed the highest address that it
      is computed from. */
  lemma NewGeometryFits(maxAddr: nat, d1: u32, count: nat)
    requires count % 0x100 != 0
    ensures var g := NewGeometry(maxAddr, d1, count);
      && 1 <= g.heads <= 16 && 1 <= g.sectors <= 255 && g.cylinders <= 65535 && Capacity(g) <= maxAddr
  {
  }

  /** Heads and sectors are the host's, and there are as many cylinders as fit, up
      to the limit of a 16-bit field. */
  lemma NewGeometryFull(maxAddr: nat, d1: u32, count: nat)
    requires count % 0x100 != 0
    ensures var g := NewGeometry(maxAddr, d1, count);
      && g.heads == Head(d1) + 1 && g.sectors == count % 0x100
      && (g.cylinders == 65535 || maxAddr < Capacity(g.(cylinders := g.cylinders + 1)))
  {
    var heads, sectors := Head(d1) + 1, count % 0x100;
    var c, track := maxAddr / (heads * sectors), heads * sectors;
    Division.MulGrows(heads, sectors);
    assert maxAddr == c * track + maxAddr % track;
    Division.Distribute(c, 1, track);
    Assoc(c + 1, heads, sectors);
  }

  lemma Assoc(x: int, y: int, z: int)
    ensures x * y * z == x * (y * z)
  {
  }

  lemma SectorRead(numSectors: u32, g: Chs, f: Fis, n: nat)
    requires AttrOf(f.code) == Attr(DeviceToHost, Short, false) && !LbaBit(f.d1) && f.d3 % 0x100 == 1
    requires ChsNumber(g, f.d1) == n + 1 && n < numSectors
    ensures Judge(numSectors, g, f) == Transfer(Read(n, 1))
  {
    assert DecodeFis(g, f) == Extent(n, 1);
  }

  /** Every address in the geometry, read as one sector, is decoded to its number
      and accepted. */
  lemma AddressesAccepted(numSectors: u32, maxAddr: nat, d1: u32, count: nat, f: Fis)
    requires count % 0x100 != 0 && maxAddr < numSectors
    requires AttrOf(f.code) == Attr(DeviceToHost, Short, false) && !LbaBit(f.d1) && f.d3 % 0x100 == 1
    requires InGeometry(NewGeometry(maxAddr, d1, count), Address(Cylinder(f.d1), Head(f.d1), Sector(f.d1)))
    ensures var g, a := NewGeometry(maxAddr, d1, count), Address(Cylinder(f.d1), Head(f.d1), Sector(f.d1));
      0 <= Number(g, a) < numSectors && Judge(numSectors, g, f) == Transfer(Read(Number(g, a), 1))
  {
    var g, a := NewGeometry(maxAddr, d1, count), Address(Cylinder(f.d1), Head(f.d1), Sector(f.d1));
    var n := Number(g, a);
    NewGeometryFits(maxAddr, d1, count);
    NumberInCapacity(g, a);
    SectorRead(numSectors, g, f, n);
  }
}
