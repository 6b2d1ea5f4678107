/** The buffers through which the SATA hardware exchanges pages with the host: a
    ring of them for each direction. */
module SataBuffers {
  import opened Common
  import Division
  import opened FlashCommands
  import opened FlashApart

  /** The buffers of one direction: their base, their number and the size of each. */
  datatype Buffers = Buffers(base: nat, num: nat, pageBytes: nat)

  /** Part of a page that is to go to the host, or to come from it. */
  datatype Request = Request(bank: nat, row: nat, sect: nat, cnt: nat)

  predicate Usable(bs: Buffers) {
    0 < bs.pageBytes && 2 <= bs.num && BufAddr(bs, bs.num) <= TWO_TO_32
  }

  /** Where a buffer starts. */
  function BufAddr(bs: Buffers, id: nat): nat { bs.base + id * bs.pageBytes }

  function BufOf(bs: Buffers, k: nat): nat
    requires 0 < bs.num
  {
    BufAddr(bs, k % bs.num)
  }

  ghost function BufBytes(bs: Buffers, k: nat): iset<int>
    requires 0 < bs.num
  {
    Bytes(CopyArea(BufOf(bs, k), bs.pageBytes))
  }

  predicate InRing(bs: Buffers, a: int) { bs.base <= a < BufAddr(bs, bs.num) }

  predicate Fits(bs: Buffers, q: Request) { q.sect * BYTES_PER_SECTOR + q.cnt <= bs.pageBytes }

  // ----- the ring -----

  lemma BufFits(bs: Buffers, k: nat)
    requires Usable(bs)
    ensures bs.base <= BufOf(bs, k) && BufOf(bs, k) + bs.pageBytes <= BufAddr(bs, bs.num) <= TWO_TO_32
    ensures forall a: int :: a in BufBytes(bs, k) ==> InRing(bs, a)
  {
    Division.SlotOrder(k % bs.num, bs.num, bs.pageBytes);
    assert forall a: int :: a in BufBytes(bs, k) ==> Inside(a, CopyArea(BufOf(bs, k), bs.pageBytes));
  }

  /** Less than a full turn apart, requests use different buffers. */
  lemma BufsApart(bs: Buffers, j: nat, k: nat)
    requires Usable(bs) && j < k < j + bs.num
    ensures BufBytes(bs, j) !! BufBytes(bs, k)
  {
    var x, y := j % bs.num, k % bs.num;
    if x == y { Division.SameResidue(j, k, bs.num); }
    if x < y { Division.SlotOrder(x, y, bs.pageBytes); } else { Division.SlotOrder(y, x, bs.pageBytes); }
  }
}
