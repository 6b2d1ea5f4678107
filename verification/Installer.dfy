/** The installer: bad-block lists from the ROM's scan result, and the erase
    commands that spare the listed blocks. */
module Installer {
  import opened Common
  import Division

  const NUM_BANKS_MAX: nat := 32
  const END_MARK: u32 := 0xFFFF_FFFF
  const INVALID32: u32 := 0xFFFF_FFFF
  const ROM_SCAN_ENTRIES: nat := 25598     // words of the device buffer, less two

  // ----- the scan result -----

  // an entry: bit 31 for the high chip, bit 30 for the low chip, bank, block
  predicate HighBit(e: u32) { e / 0x8000_0000 == 1 }
  predicate LowBit(e: u32) { e / 0x4000_0000 % 2 == 1 }
  function BankOf(e: u32): nat { e / 0x100_0000 % 0x40 }
  function BlockOf(e: u32): nat { e % 0x100_0000 }

  /** The word that reports a block of a bank for one or both of its chips. */
  function Entry(high: bool, low: bool, rbank: nat, blk: nat): int {
    (if high then 0x8000_0000 else 0) + (if low then 0x4000_0000 else 0) + rbank * 0x100_0000 + blk
  }

  /** Every field is read back as it was put into the word. */
  lemma EntryFields(high: bool, low: bool, rbank: nat, blk: nat)
    requires rbank < 0x40 && blk < 0x100_0000
    ensures 0 <= Entry(high, low, rbank, blk) < TWO_TO_32
    ensures var e: u32 := Entry(high, low, rbank, blk);
      HighBit(e) == high && LowBit(e) == low && BankOf(e) == rbank && BlockOf(e) == blk
  {
  }

  /** What an entry reports: a chip of a bank, and a block of it. */
  predicate Reports(e: u32, rbank: nat, high: bool, blk: nat) {
    (if high then HighBit(e) else LowBit(e)) && BankOf(e) == rbank && BlockOf(e) == blk
  }

  // ----- the lists: 16-bit items, bit 15 for the high chip -----

  /** `((UINT16) blk) | 0x8000`, or the truncation alone. */
  function Item(high: bool, blk: nat): nat {
    if high then blk % 0x8000 + 0x8000 else blk % 0x1_0000
  }

  /** How the eraser reads an item. */
  predicate Marks(item: nat, high: bool, blk: nat) {
    item % 0x8000 == blk && (item >= 0x8000) == high
  }

  lemma ItemMarks(high: bool, blk: nat, high': bool, blk': nat)
    requires blk < 0x8000
    ensures Marks(Item(high, blk), high', blk') <==> high == high' && blk == blk'
  {
  }

  /** What one entry adds to the list of a bank. */
  function Added(e: u32, rbank: nat): seq<nat> {
    if BankOf(e) != rbank then []
    else (if HighBit(e) then [Item(true, BlockOf(e))] else []) + (if LowBit(e) then [Item(false, BlockOf(e))] else [])
  }

  function AllAdded(es: seq<u32>, rbank: nat): seq<nat> {
    if es == [] then [] else AllAdded(es[..|es| - 1], rbank) + Added(es[|es| - 1], rbank)
  }

  ghost predicate Listed(items: seq<nat>, high: bool, blk: nat) {
    exists i :: 0 <= i < |items| && Marks(items[i], high, blk)
  }

  ghost predicate Reported(es: seq<u32>, rbank: nat, high: bool, blk: nat) {
    exists i :: 0 <= i < |es| && Reports(es[i], rbank, high, blk)
  }

  lemma ListedIn(xs: seq<nat>, ys: seq<nat>, high: bool, blk: nat)
    ensures Listed(xs + ys, high, blk) <==> Listed(xs, high, blk) || Listed(ys, high, blk)
  {
    if Listed(xs, high, blk) {
      var i :| 0 <= i < |xs| && Marks(xs[i], high, blk);
      assert (xs + ys)[i] == xs[i];
    }
    if Listed(ys, high, blk) {
      var i :| 0 <= i < |ys| && Marks(ys[i], high, blk);
      assert (xs + ys)[|xs| + i] == ys[i];
    }
  }

  /** If the entry adds to the list of the bank, its block leaves the chip's bit free. */
  predicate Fits(e: u32, rbank: nat) {
    BankOf(e) == rbank && (HighBit(e) || LowBit(e)) ==> BlockOf(e) < 0x8000
  }

  ghost predicate AllFit(es: seq<u32>, rbank: nat) {
    forall i :: 0 <= i < |es| ==> Fits(es[i], rbank)
  }

  lemma AddedExact(e: u32, rbank: nat, high: bool, blk: nat)
    requires Fits(e, rbank)
    ensures Listed(Added(e, rbank), high, blk) <==> Reports(e, rbank, high, blk)
  {
    if BlockOf(e) < 0x8000 {
      ItemMarks(true, BlockOf(e), high, blk);
      ItemMarks(false, BlockOf(e), high, blk);
    }
    var items := Added(e, rbank);
    if Reports(e, rbank, high, blk) {
      var i := if high || !HighBit(e) then 0 else 1;
      assert Marks(items[i], high, blk);
    }
  }

  lemma ReportedLast(es: seq<u32>, rbank: nat, high: bool, blk: nat)
    requires es != []
    ensures Reported(es, rbank, high, blk) <==>
      Reported(es[..|es| - 1], rbank, high, blk) || Reports(es[|es| - 1], rbank, high, blk)
  {
  }

  lemma {:induction false} ListsAreExact(es: seq<u32>, rbank: nat, high: bool, blk: nat)
    requires AllFit(es, rbank)
    ensures Listed(AllAdded(es, rbank), high, blk) <==> Reported(es, rbank, high, blk)
    decreases |es|
  {
    if es != [] {
      var n := |es| - 1;
      ListsAreExact(es[..n], rbank, high, blk);
      AddedExact(es[n], rbank, high, blk);
      ListedIn(AllAdded(es[..n], rbank), Added(es[n], rbank), high, blk);
      ReportedLast(es, rbank, high, blk);
    }
  }

  /** The list of a bank marks exactly the chips and blocks that the scan reports. */
  ghost predicate ListTellsReport(es: seq<u32>, rbank: nat) {
    forall high: bool, blk: nat :: Listed(AllAdded(es, rbank), high, blk) <==> Reported(es, rbank, high, blk)
  }

  /** It does so exactly when every block that is reported for the bank leaves
      bit 15 free, as those of all supported chips do. */
  lemma ListsExactWhen(es: seq<u32>, rbank: nat)
    ensures ListTellsReport(es, rbank) <==> AllFit(es, rbank)
  {
    if AllFit(es, rbank) {
      forall high: bool, blk: nat
        ensures Listed(AllAdded(es, rbank), high, blk) <==> Reported(es, rbank, high, blk)
      {
        ListsAreExact(es, rbank, high, blk);
      }
    } else {
      var i :| 0 <= i < |es| && !Fits(es[i], rbank);
      assert Reports(es[i], rbank, HighBit(es[i]), BlockOf(es[i]));
      assert Reported(es, rbank, HighBit(es[i]), BlockOf(es[i]));
      assert !Listed(AllAdded(es, rbank), HighBit(es[i]), BlockOf(es[i]));
    }
  }

  /** A scan that reports block 0x8000 of the low chip of bank 0: the list marks
      block 0 of the high chip, which is not reported, and not the block that is. */
  lemma LargeBlockConfused()
    ensures var es: seq<u32> := [0x4000_8000];
      && Reported(es, 0, false, 0x8000) && !Listed(AllAdded(es, 0), false, 0x8000)
      && !Reported(es, 0, true, 0) && Listed(AllAdded(es, 0), true, 0)
  {
    var es: seq<u32> := [0x4000_8000];
    assert Reports(es[0], 0, false, 0x8000);
    assert es[..0] == [] && AllAdded(es, 0) == [0x8000];
    assert Marks(AllAdded(es, 0)[0], true, 0);
  }

  /** Two counts, as many entries as the first one says, and at least one word more. */
  predicate IsBuffer(input: seq<u32>) { 2 <= |input| && 2 + input[0] as int < |input| }

  function EntriesOf(input: seq<u32>): seq<u32>
    requires IsBuffer(input)
  {
    input[2..2 + input[0] as int]
  }

  /** The scan result fits the device's buffer, every entry names a chip, and the
      end mark follows the entries. */
  predicate SoundScan(input: seq<u32>)
    requires IsBuffer(input)
  {
    && input[1] <= ROM_SCAN_ENTRIES && input[2 + input[0] as int] == END_MARK
    && forall i :: 0 <= i < |EntriesOf(input)| ==> HighBit(EntriesOf(input)[i]) || LowBit(EntriesOf(input)[i])
  }

  // ----- the erase commands -----

  /** FC_ERASE for a bank and row, with the chips that are left out. */
  datatype EraseCmd = EraseCmd(rbank: nat, row: u32, skipHigh: bool, skipLow: bool)

  /** First row of a block. */
  function RowOf(blk: nat, pages: nat): u32 { Wrap32(blk * pages) }

  /** The commands that erase one block of the banks below `n`. */
  function BlockPlan(lists: seq<seq<nat>>, present: set<nat>, pages: nat, blk: nat, n: nat): seq<EraseCmd>
    requires n <= |lists|
  {
    if n == 0 then []
    else
      BlockPlan(lists, present, pages, blk, n - 1)
      + if n - 1 !in present || (Bad(lists[n - 1], true, blk) && Bad(lists[n - 1], false, blk)) then []
        else [EraseCmd(n - 1, RowOf(blk, pages), Bad(lists[n - 1], true, blk), Bad(lists[n - 1], false, blk))]
  }

  /** Some item marks the block. */
  function Bad(items: seq<nat>, high: bool, blk: nat): (r: bool)
    ensures r <==> Listed(items, high, blk)
  {
    if items == [] then false
    else
      assert items == items[..|items| - 1] + [items[|items| - 1]];
      ListedIn(items[..|items| - 1], [items[|items| - 1]], high, blk);
      assert Listed([items[|items| - 1]], high, blk) <==> Marks(items[|items| - 1], high, blk) by {
        assert [items[|items| - 1]][0] == items[|items| - 1];
      }
      Bad(items[..|items| - 1], high, blk) || Marks(items[|items| - 1], high, blk)
  }

  /** The commands for the blocks from `first` up to `end` (exclusive). */
  function ErasePlan(lists: seq<seq<nat>>, present: set<nat>, pages: nat, first: nat, end: nat): seq<EraseCmd>
    requires |lists| == NUM_BANKS_MAX
  {
    if end <= first then []
    else ErasePlan(lists, present, pages, first, end - 1) + BlockPlan(lists, present, pages, end - 1, NUM_BANKS_MAX)
  }

  /** The row is the first one of the block. */
  predicate StartsBlock(row: u32, blk: nat, pages: nat)
    requires 0 < pages
  {
    row % pages == 0 && row / pages == blk
  }

  /** How often the commands erase a block on one chip of a bank. */
  function TimesErased(cmds: seq<EraseCmd>, pages: nat, rbank: nat, high: bool, blk: nat): nat
    requires 0 < pages
  {
    if cmds == [] then 0
    else
      var c := cmds[|cmds| - 1];
      TimesErased(cmds[..|cmds| - 1], pages, rbank, high, blk)
      + if c.rbank == rbank && StartsBlock(c.row, blk, pages) && !(if high then c.skipHigh else c.skipLow) then 1 else 0
  }

  lemma {:induction false} TimesAppend(xs: seq<EraseCmd>, ys: seq<EraseCmd>, pages: nat, rbank: nat, high: bool,
                                       blk: nat)
    requires 0 < pages
    ensures TimesErased(xs + ys, pages, rbank, high, blk)
         == TimesErased(xs, pages, rbank, high, blk) + TimesErased(ys, pages, rbank, high, blk)
    decreases |ys|
  {
    if ys == [] {
      assert xs + ys == xs;
    } else {
      assert (xs + ys)[..|xs + ys| - 1] == xs + ys[..|ys| - 1];
      TimesAppend(xs, ys[..|ys| - 1], pages, rbank, high, blk);
    }
  }

  /** One erase, if the bank is there and the block of that chip is not listed. */
  function Wanted(lists: seq<seq<nat>>, present: set<nat>, rbank: nat, high: bool, blk: nat): nat
    requires rbank < |lists|
  {
    if rbank in present && !Bad(lists[rbank], high, blk) then 1 else 0
  }

  lemma {:induction false} BlockErasedOnce(lists: seq<seq<nat>>, present: set<nat>, pages: nat, last: nat, n: nat,
                                           rbank: nat, high: bool, blk: nat)
    requires n <= |lists| && rbank < |lists| && 0 < pages
    requires StartsBlock(RowOf(last, pages), blk, pages) <==> blk == last
    ensures TimesErased(BlockPlan(lists, present, pages, last, n), pages, rbank, high, blk)
         == if rbank < n && blk == last then Wanted(lists, present, rbank, high, blk) else 0
  {
    if n > 0 {
      var before := BlockPlan(lists, present, pages, last, n - 1);
      var now := BlockPlan(lists, present, pages, last, n)[|before|..];
      BlockErasedOnce(lists, present, pages, last, n - 1, rbank, high, blk);
      assert BlockPlan(lists, present, pages, last, n) == before + now;
      TimesAppend(before, now, pages, rbank, high, blk);
      OneCommand(now, pages, rbank, high, blk);
    }
  }

  lemma OneCommand(cmds: seq<EraseCmd>, pages: nat, rbank: nat, high: bool, blk: nat)
    requires |cmds| <= 1 && 0 < pages
    ensures TimesErased(cmds, pages, rbank, high, blk)
         == if cmds != [] && cmds[0].rbank == rbank && StartsBlock(cmds[0].row, blk, pages)
               && !(if high then cmds[0].skipHigh else cmds[0].skipLow) then 1 else 0
  {
  }

  /** The row of an erase command is the first one of its block, and of no other,
      as long as it does not wrap. */
  lemma RowStartsBlock(last: nat, blk: nat, pages: nat, limit: nat)
    requires 0 < pages && last < limit && limit * pages <= TWO_TO_32
    ensures StartsBlock(RowOf(last, pages), blk, pages) <==> blk == last
  {
    Division.SlotOrder(last, limit, pages);
    WrapSmall(last * pages);
    Division.MultipleOf(last, pages);
  }

  /** Over any range of blocks, every chip of a present bank has each block that
      is not listed as bad erased exactly once, and no listed one; blocks outside
      the range and banks that are not present are never erased. */
  lemma {:induction false} ErasedExactly(lists: seq<seq<nat>>, present: set<nat>, pages: nat, first: nat, end: nat,
                                         limit: nat, rbank: nat, high: bool, blk: nat)
    requires |lists| == NUM_BANKS_MAX && rbank < NUM_BANKS_MAX && 0 < pages && limit * pages <= TWO_TO_32
    requires end <= limit
    ensures TimesErased(ErasePlan(lists, present, pages, first, end), pages, rbank, high, blk)
         == if first <= blk < end then Wanted(lists, present, rbank, high, blk) else 0
    decreases end
  {
    if end > first {
      var last := end - 1;
      ErasedExactly(lists, present, pages, first, last, limit, rbank, high, blk);
      TimesAppend(ErasePlan(lists, present, pages, first, last), BlockPlan(lists, present, pages, last, NUM_BANKS_MAX),
                  pages, rbank, high, blk);
      RowStartsBlock(last, blk, pages, limit);
      BlockErasedOnce(lists, present, pages, last, NUM_BANKS_MAX, rbank, high, blk);
    }
  }

  /** From scan to mask: after the lists are made from a scan, a block is erased
      exactly when the scan does not report it. */
  lemma ScanToErase(es: seq<u32>, lists: seq<seq<nat>>, present: set<nat>, pages: nat, first: nat, end: nat, limit: nat,
                    rbank: nat, high: bool, blk: nat)
    requires |lists| == NUM_BANKS_MAX && rbank < NUM_BANKS_MAX && 0 < pages && limit * pages <= TWO_TO_32
    requires first <= blk < end <= limit && rbank in present
    requires AllFit(es, rbank)
    requires lists[rbank] == AllAdded(es, rbank)
    ensures TimesErased(ErasePlan(lists, present, pages, first, end), pages, rbank, high, blk)
         == if Reported(es, rbank, high, blk) then 0 else 1
  {
    ErasedExactly(lists, present, pages, first, end, limit, rbank, high, blk);
    ListsAreExact(es, rbank, high, blk);
  }

  class Host {
    const present: set<nat>             // banks in the bank bitmap
    const pages: nat
    const pblksPerBank: nat
    const capacity: nat                 // items of a list

    var scanList: seq<seq<nat>>         // one list for each real bank
    var scanListLoaded: bool
    var sent: seq<EraseCmd>             // erase commands sent to the device

    /** Convert the scan result `input`: two counts, the entries, an end mark.
        False stands for the error exits. */
    method ScanBadBlks(input: seq<u32>) returns (ok: bool)
      requires |scanList| == NUM_BANKS_MAX && IsBuffer(input)
      requires forall i :: 0 <= i < |EntriesOf(input)| ==> BankOf(EntriesOf(input)[i]) < NUM_BANKS_MAX
      requires forall b :: 0 <= b < NUM_BANKS_MAX ==> |scanList[b] + AllAdded(EntriesOf(input), b)| <= capacity
      modifies this`scanList, this`scanListLoaded
      ensures ok <==> SoundScan(input)
      ensures ok ==> scanListLoaded && |scanList| == NUM_BANKS_MAX
      ensures ok ==> forall b ::
        0 <= b < NUM_BANKS_MAX ==> scanList[b] == old(scanList)[b] + AllAdded(EntriesOf(input), b)
    {
      if input[1] > ROM_SCAN_ENTRIES { return false; }
      var es := EntriesOf(input);
      var i := 0;
      while i < |es|
        invariant i <= |es| && |scanList| == NUM_BANKS_MAX
        invariant forall j :: 0 <= j < i ==> HighBit(es[j]) || LowBit(es[j])
        invariant forall b :: 0 <= b < NUM_BANKS_MAX ==> scanList[b] == old(scanList)[b] + AllAdded(es[..i], b)
      {
        if !HighBit(es[i]) && !LowBit(es[i]) { return false; }
        TakeEntry(es[i]);
        assert es[..i + 1][..i] == es[..i];
        i := i + 1;
      }
      assert es[..i] == es;
      if input[2 + i] != END_MARK { return false; }
      scanListLoaded := true;
      return true;
    }

    method TakeEntry(e: u32)
      requires |scanList| == NUM_BANKS_MAX && BankOf(e) < NUM_BANKS_MAX
      modifies this`scanList
      ensures |scanList| == NUM_BANKS_MAX
      ensures forall b :: 0 <= b < NUM_BANKS_MAX ==> scanList[b] == old(scanList)[b] + Added(e, b)
    {
      var rbank, blk := BankOf(e), BlockOf(e);
      if HighBit(e) { scanList := scanList[rbank := scanList[rbank] + [Item(true, blk)]]; }
      if LowBit(e) { scanList := scanList[rbank := scanList[rbank] + [Item(false, blk)]]; }
    }

    /** The chips of a bank that have the block on their list. */
    method LookUp(rbank: nat, blk: nat) returns (badHigh: bool, badLow: bool)
      requires rbank < |scanList|
      ensures badHigh == Bad(scanList[rbank], true, blk) && badLow == Bad(scanList[rbank], false, blk)
    {
      badHigh, badLow := false, false;
      var i := 0;
      while i < |scanList[rbank]|
        invariant i <= |scanList[rbank]|
        invariant badHigh == Bad(scanList[rbank][..i], true, blk) && badLow == Bad(scanList[rbank][..i], false, blk)
      {
        var item := scanList[rbank][i];
        if blk == item % 0x8000 {
          if item >= 0x8000 { badHigh := true; } else { badLow := true; }
        }
        assert scanList[rbank][..i + 1][..i] == scanList[rbank][..i];
        i := i + 1;
      }
      assert scanList[rbank][..i] == scanList[rbank];
    }

    /** Erase a range of blocks, both ends included. */
    method EraseFlash(first: u32, last: u32)
      requires |scanList| == NUM_BANKS_MAX && pblksPerBank < INVALID32
      modifies this`sent
      ensures var end := if last == INVALID32 then pblksPerBank else last;
        sent == old(sent) + ErasePlan(scanList, present, pages, first, end + 1)
    {
      var end := if last == INVALID32 then pblksPerBank else last;
      var blk: nat := first;
      while blk <= end
        invariant first <= blk && (blk <= end + 1 || blk == first)
        invariant sent == old(sent) + ErasePlan(scanList, present, pages, first, blk)
      {
        EraseBlock(blk);
        blk := blk + 1;
      }
      if blk > end + 1 { NothingToErase(scanList, present, pages, first, end + 1, blk); }
    }

    method EraseBlock(blk: nat)
      requires |scanList| == NUM_BANKS_MAX
      modifies this`sent
      ensures sent == old(sent) + BlockPlan(scanList, present, pages, blk, NUM_BANKS_MAX)
    {
      var rbank := 0;
      while rbank < NUM_BANKS_MAX
        invariant rbank <= NUM_BANKS_MAX && sent == old(sent) + BlockPlan(scanList, present, pages, blk, rbank)
      {
        if rbank in present {
          var badHigh, badLow := LookUp(rbank, blk);
          if !(badHigh && badLow) {
            sent := sent + [EraseCmd(rbank, RowOf(blk, pages), badHigh, badLow)];
          }
        }
        rbank := rbank + 1;
      }
    }
  }

  lemma NothingToErase(lists: seq<seq<nat>>, present: set<nat>, pages: nat, first: nat, end: nat, end': nat)
    requires |lists| == NUM_BANKS_MAX && end <= first && end' <= first
    ensures ErasePlan(lists, present, pages, first, end) == ErasePlan(lists, present, pages, first, end')
  {
  }

  /** With the default end, one more than the number of blocks, the range reaches
      one block beyond the last: it is erased once exactly if the bank is present,
      the list does not name it and the range starts no later; else never. */
  lemma DefaultEndGoesBeyond(lists: seq<seq<nat>>, present: set<nat>, pages: nat, first: nat, pblksPerBank: nat,
                             rbank: nat, high: bool)
    requires |lists| == NUM_BANKS_MAX && rbank < NUM_BANKS_MAX && 0 < pages && (pblksPerBank + 1) * pages <= TWO_TO_32
    ensures var n := TimesErased(ErasePlan(lists, present, pages, first, pblksPerBank + 1), pages, rbank, high,
                                 pblksPerBank);
      && (n == 1 <==> rbank in present && !Bad(lists[rbank], high, pblksPerBank) && first <= pblksPerBank)
      && (n == 0 || n == 1)
  {
    ErasedExactly(lists, present, pages, first, pblksPerBank + 1, pblksPerBank + 1, rbank, high, pblksPerBank);
  }
}
