/** Selection of usable blocks at start-up: `format` erases block after block,
    and the flash interrupt handler tells it which erases failed. */
module BadBlocks {
  import opened Common
  import Division
  import FlashCommands
  import opened WordBits

  const INVALID: u32 := 0xFFFF_FFFF

  // interrupt flags of a bank
  const FIRQ_DATA_CORRUPT: byte := 0x82
  const FIRQ_BADBLK: byte := 0x18          // FIRQ_BADBLK_L | FIRQ_BADBLK_H

  // ----- which blocks are to be selected -----

  /** The blocks from 1 up to `hi` (exclusive) whose erase succeeds. */
  function Good(bad: set<nat>, hi: nat): seq<nat> {
    if hi <= 1 then [] else Good(bad, hi - 1) + if hi - 1 in bad then [] else [hi - 1]
  }

  /** In ascending order, exactly the erasable blocks. */
  lemma {:induction false} GoodIsExact(bad: set<nat>, hi: nat)
    ensures forall v :: v in Good(bad, hi) <==> 1 <= v < hi && v !in bad
    ensures forall i, j :: 0 <= i < j < |Good(bad, hi)| ==> Good(bad, hi)[i] < Good(bad, hi)[j]
  {
    if hi > 1 {
      GoodIsExact(bad, hi - 1);
      var s := Good(bad, hi - 1);
      assert forall i :: 0 <= i < |s| ==> s[i] in s;
    }
  }

  lemma {:induction false} GoodPrefix(bad: set<nat>, lo: nat, hi: nat)
    requires lo <= hi
    ensures |Good(bad, lo)| <= |Good(bad, hi)| && Good(bad, lo) == Good(bad, hi)[..|Good(bad, lo)|]
    decreases hi
  {
    if lo < hi {
      GoodPrefix(bad, lo, hi - 1);
    }
  }

  // ----- the interrupt flag registers: one byte a bank, cleared by writing ones -----

  lemma ClearedByte(x: byte)
    ensures Both(x, Flip(x)) == 0 && Both(x, Flip(0)) == x && Both(0, FIRQ_BADBLK) == 0
  {
  }

  /** A word written to the flag registers clears the bits that are ones in it. */
  function WriteOnesToClear(reg: seq<byte>, w: nat, v: Word): (r: seq<byte>)
    ensures |r| == |reg|
  {
    seq(|reg|, i requires 0 <= i < |reg| => if i / 4 == w then Both(reg[i], Flip(v.At(i % 4))) else reg[i])
  }

  lemma BothFlipBit(x: byte, y: byte, t: nat)
    requires t < 8
    ensures Bit(Both(x, Flip(y)), t) == (Bit(x, t) && !Bit(y, t))
  {
  }

  /** Each flag is cleared by a one in its place of the word, and only by that. */
  lemma OnesClear(reg: seq<byte>, w: nat, v: Word, i: nat, t: nat)
    requires i < |reg| && t < 8
    ensures Bit(WriteOnesToClear(reg, w, v)[i], t) <==> Bit(reg[i], t) && !(i / 4 == w && Bit(v.At(i % 4), t))
  {
    BothFlipBit(reg[i], v.At(i % 4), t);
  }

  /** Clearing the flags of a bank, by a write of the word that holds them, leaves
      the flags of all other banks. */
  lemma ClearOwnFlags(reg: seq<byte>, rbank: nat, flags: byte)
    requires rbank < |reg| && flags == reg[rbank]
    ensures WriteOnesToClear(reg, rbank / 4, OfByte(flags).Up(rbank % 4)) == reg[rbank := 0]
  {
    var v := OfByte(flags).Up(rbank % 4);
    forall i: nat | i < |reg| ensures WriteOnesToClear(reg, rbank / 4, v)[i] == reg[rbank := 0][i] {
      AtUp(OfByte(flags), rbank % 4, i % 4);
      ClearedByte(reg[i]);
    }
  }

  /** The flag that the interrupt handler leaves for `format`. */
  function FlagAfter(flags: byte, cmd: u32, row: u32, pages: nat, before: u32): u32
    requires 0 < pages
  {
    if Both(flags, FIRQ_BADBLK) != 0 && cmd == FlashCommands.FC_ERASE then Quotient(row, pages)
    else if Both(flags, FIRQ_DATA_CORRUPT) != 0 then INVALID
    else before
  }

  lemma FlagBits(flags: byte)
    ensures Both(flags, FIRQ_BADBLK) != 0 <==> Bit(flags, 3) || Bit(flags, 4)
    ensures Both(flags, FIRQ_DATA_CORRUPT) != 0 <==> Bit(flags, 1) || Bit(flags, 7)
  {
  }

  /** It names a block exactly when an erase raised bit 3 or 4, for the low or the
      high chip: the one that the row lies in. A failed program leaves no trace,
      and bits 1 and 7, for corrupt data, withdraw what was noted before. */
  lemma FlagExactly(flags: byte, cmd: u32, row: u32, pages: nat, before: u32)
    requires 0 < pages
    ensures var f, n := FlagAfter(flags, cmd, row, pages, before), Value(flags);
      if cmd == 0x14 && (Digit(n, 3) || Digit(n, 4)) then f * pages <= row < f * pages + pages
      else if Digit(n, 1) || Digit(n, 7) then f == INVALID
      else f == before
  {
    FlagBits(flags);
    BitIsDigit(flags, 1);
    BitIsDigit(flags, 3);
    BitIsDigit(flags, 4);
    BitIsDigit(flags, 7);
    assert row as int == row / pages * pages + row % pages;
  }

  function Quotient(row: u32, pages: nat): u32
    requires 0 < pages
  {
    QuotientBound(row, pages);
    row / pages
  }

  lemma QuotientBound(x: nat, n: nat)
    requires 0 < n
    ensures 0 <= x / n <= x
  {
    assert x == x / n * n + x % n;
    Division.NonzeroMultiple(x / n, n);
    if x / n >= 0 { MulUp(x / n, n); }
  }

  lemma MulUp(q: nat, n: nat)
    requires 0 < n
    ensures q <= q * n
  {
  }

  class Ftl {
    const numBanks: nat
    const vblksPerBank: nat
    const logBlks: nat
    const pages: nat
    const realBank: seq<nat>
    const bad: seq<set<nat>>            // for each bank, the blocks whose erase fails

    // flash controller registers, one for each real bank
    var bspIntr: seq<byte>
    var bspCmd: seq<u32>
    var bspRowH: seq<u32>

    var isrFlag: seq<u32>               // g_bsp_isr_flag, one for each bank
    var used: seq<seq<nat>>             // blocks reported as used, one list for each bank

    ghost predicate Shape()
      reads this
    {
      && 0 < pages && 0 < vblksPerBank && vblksPerBank * pages < TWO_TO_32
      && |realBank| == numBanks == |isrFlag| == |bad|
      && |bspIntr| == |bspCmd| == |bspRowH|
      && (forall b :: 0 <= b < numBanks ==> realBank[b] < |bspIntr|)
      && (forall b, c :: 0 <= b < numBanks && 0 <= c < numBanks && b != c ==> realBank[b] != realBank[c])
    }

    /** No bad-block interrupt is pending, and no failure is noted. */
    ghost predicate Quiet()
      reads this
      requires Shape()
    {
      && (forall b :: 0 <= b < numBanks ==> Both(bspIntr[realBank[b]], FIRQ_BADBLK) == 0)
      && (forall b :: 0 <= b < numBanks ==> isrFlag[b] == INVALID)
    }

    /** The interrupt handler looks at every bank and clears its flags. */
    method FtlIsr()
      requires Shape()
      modifies this`bspIntr, this`isrFlag
      ensures Shape()
      ensures forall b :: 0 <= b < numBanks ==> bspIntr[realBank[b]] == 0
      ensures forall b :: 0 <= b < numBanks ==>
        isrFlag[b] ==
          FlagAfter(old(bspIntr)[realBank[b]], bspCmd[realBank[b]], bspRowH[realBank[b]], pages, old(isrFlag)[b])
    {
      var bank := 0;
      while bank < numBanks
        invariant bank <= numBanks && Shape() && |bspIntr| == |old(bspIntr)|
        invariant forall b :: 0 <= b < bank ==> bspIntr[realBank[b]] == 0
        invariant forall b :: bank <= b < numBanks ==> bspIntr[realBank[b]] == old(bspIntr)[realBank[b]]
        invariant forall b :: 0 <= b < bank ==>
          isrFlag[b] ==
            FlagAfter(old(bspIntr)[realBank[b]], bspCmd[realBank[b]], bspRowH[realBank[b]], pages, old(isrFlag)[b])
        invariant forall b :: bank <= b < numBanks ==> isrFlag[b] == old(isrFlag)[b]
      {
        CheckBank(bank);
        bank := bank + 1;
      }
    }

    /** One bank's part of the interrupt handler. */
    method CheckBank(bank: nat)
      requires Shape() && bank < numBanks
      modifies this`bspIntr, this`isrFlag
      ensures Shape() && bspIntr == old(bspIntr)[realBank[bank] := 0]
      ensures isrFlag == old(isrFlag)[bank := FlagAfter(old(bspIntr)[realBank[bank]], bspCmd[realBank[bank]],
                                                        bspRowH[realBank[bank]], pages, old(isrFlag)[bank])]
    {
      var rbank := realBank[bank];
      var flags := bspIntr[rbank];
      ClearedByte(flags);
      NoFlags();
      if flags == 0 { return; }
      var fc := bspCmd[rbank];
      ClearOwnFlags(bspIntr, rbank, flags);
      bspIntr := WriteOnesToClear(bspIntr, rbank / 4, OfByte(flags).Up(rbank % 4));
      if Both(flags, FIRQ_DATA_CORRUPT) != 0 { isrFlag := isrFlag[bank := INVALID]; }
      if Both(flags, FIRQ_BADBLK) != 0 {
        if fc == FlashCommands.FC_COL_ROW_IN_PROG || fc == FlashCommands.FC_IN_PROG || fc == FlashCommands.FC_PROG {
        } else if fc == FlashCommands.FC_ERASE {
          isrFlag := isrFlag[bank := Quotient(bspRowH[rbank], pages)];
        }
      }
    }

    lemma NoFlags()
      ensures Both(0, FIRQ_BADBLK) == 0 && Both(0, FIRQ_DATA_CORRUPT) == 0
    {
    }

    /** Erase a block and wait; if the erase fails, one or both bad-block flags are
        raised and the interrupt is taken before the call returns. */
    method NandBlockEraseSync(bank: nat, vblock: nat)
      requires Shape() && Quiet() && bank < numBanks && vblock < vblksPerBank
      modifies this`bspIntr, this`bspCmd, this`bspRowH, this`isrFlag
      ensures Shape()
      ensures forall b :: 0 <= b < numBanks ==> Both(bspIntr[realBank[b]], FIRQ_BADBLK) == 0
      ensures isrFlag == old(isrFlag)[bank := if vblock in bad[bank] then vblock else INVALID]
    {
      var rbank := realBank[bank];
      RowFits(vblock);
      bspCmd := bspCmd[rbank := FlashCommands.FC_ERASE];
      bspRowH := bspRowH[rbank := vblock * pages];
      if vblock in bad[bank] {
        var raised: byte := 0x18;
        if * { raised := 0x08; } else if * { raised := 0x10; }
        BadBlockRaised(bspIntr[rbank], raised);
        bspIntr := bspIntr[rbank := Either(bspIntr[rbank], raised)];
        Division.MultipleOf(vblock, pages);
        FtlIsr();
        ClearedByte(0);
        assert isrFlag[bank] == vblock;
      }
    }

    lemma RowFits(vblock: nat)
      requires Shape() && vblock < vblksPerBank
      ensures vblock * pages < TWO_TO_32
    {
    }

    lemma BadBlockRaised(x: byte, raised: byte)
      requires raised == 0x08 || raised == 0x10 || raised == 0x18
      ensures Both(Either(x, raised), FIRQ_BADBLK) != 0
    {
    }

    /** The usable blocks of a bank: block 0 is reserved. */
    function Usable(b: nat): seq<nat>
      requires b < |bad|
    {
      Good(bad[b], vblksPerBank)
    }

    /** Those from 1 on whose erase succeeds, in ascending order. */
    lemma UsableExactly(b: nat)
      requires b < |bad|
      ensures forall v :: v in Usable(b) <==> 1 <= v < vblksPerBank && v !in bad[b]
      ensures forall i, j :: 0 <= i < j < |Usable(b)| ==> Usable(b)[i] < Usable(b)[j]
    {
      GoodIsExact(bad[b], vblksPerBank);
    }

    /** One bank of `format`: its first `logBlks` erasable blocks, whatever happens
        to block 0. */
    method FormatBank(bank: nat) returns (blocks: seq<nat>)
      requires Shape() && Quiet() && bank < numBanks && vblksPerBank <= INVALID
      modifies this`bspIntr, this`bspCmd, this`bspRowH, this`isrFlag
      ensures Shape() && Quiet()
      ensures var all := Usable(bank);
        && (logBlks <= |all| ==> blocks == all[..logBlks])
        && (|all| < logBlks ==> blocks == all)
    {
      var vblock := 0;
      NandBlockEraseSync(bank, vblock);
      isrFlag := isrFlag[bank := INVALID];
      blocks := [];
      var lbn := 0;
      while lbn < logBlks
        invariant Shape() && Quiet() && vblock < vblksPerBank
        invariant lbn == |blocks| <= logBlks && blocks == Good(bad[bank], vblock + 1)
        decreases vblksPerBank - vblock
      {
        vblock := vblock + 1;
        if vblock >= vblksPerBank { break; }
        NandBlockEraseSync(bank, vblock);
        if isrFlag[bank] != INVALID {
          isrFlag := isrFlag[bank := INVALID];
          continue;
        }
        blocks := blocks + [vblock];
        lbn := lbn + 1;
      }
      if vblock < vblksPerBank { GoodPrefix(bad[bank], vblock + 1, vblksPerBank); }
    }

    /** Select the blocks of every bank; false stands for the endless loop after
        the message that there are not enough of them. */
    method Format() returns (ok: bool)
      requires Shape() && Quiet() && vblksPerBank <= INVALID
      modifies this
      ensures Shape() && (ok <==> forall b :: 0 <= b < numBanks ==> logBlks <= |Usable(b)|)
      ensures ok ==> |used| == numBanks && forall b :: 0 <= b < numBanks ==> used[b] == Usable(b)[..logBlks]
      ensures !ok ==> 0 < |used| <= numBanks && used[|used| - 1] == Usable(|used| - 1) && |Usable(|used| - 1)| < logBlks
    {
      used := [];
      var bank := 0;
      while bank < numBanks
        invariant bank == |used| <= numBanks && Shape() && Quiet()
        invariant forall b :: 0 <= b < bank ==> logBlks <= |Usable(b)|
        invariant forall b :: 0 <= b < bank ==> used[b] == Usable(b)[..logBlks]
      {
        var blocks := FormatBank(bank);
        used := used + [blocks];
        if |blocks| < logBlks { return false; }
        bank := bank + 1;
      }
      ok := true;
    }
  }
}
