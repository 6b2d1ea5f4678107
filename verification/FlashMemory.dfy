/** NAND banks and DRAM as the flash controller sees them, and the smallest
    units of work a bank performs on them. A command is a sequence of such
    units; banks may be preempted between any two of them. */
module FlashMemory {
  import opened Common

  /** The bytes of a page that were programmed since the last erase. */
  type Page = map<nat, byte>

  /** An unprogrammed byte of a page reads as 0xFF. */
  function At(p: Page, i: nat): byte { if i in p then p[i] else 0xFF }

  /** One NAND bank: its pages by row number, the page register and the row
      that the last write address latched. */
  datatype Bank = Bank(rows: map<nat, Page>, reg: Page, latch: nat)

  function Row(b: Bank, row: nat): Page { if row in b.rows then b.rows[row] else map[] }

  type Dram = map<int, byte>

  function Peek(d: Dram, a: int): byte { if a in d then d[a] else 0 }

  datatype Mem = Mem(banks: seq<Bank>, dram: Dram)

  datatype Op =
    | Address(row: nat)             // write address: the page register is emptied
    | Load(off: nat, addr: int)     // one byte DRAM -> page register
    | Program                       // page register -> latched row
    | Sense(row: nat)               // row -> page register
    | Unload(off: nat, addr: int)   // one byte page register -> DRAM
    | EraseRow(row: nat)

  function Step(b: nat, op: Op, m: Mem): (r: Mem)
    requires b < |m.banks|
    ensures |r.banks| == |m.banks|
  {
    var k := m.banks[b];
    match op
    case Address(row) => m.(banks := m.banks[b := k.(reg := map[], latch := row)])
    case Load(off, addr) => m.(banks := m.banks[b := k.(reg := k.reg[off := Peek(m.dram, addr)])])
    case Program => m.(banks := m.banks[b := k.(rows := k.rows[k.latch := Row(k, k.latch) + k.reg])])
    case Sense(row) => m.(banks := m.banks[b := k.(reg := Row(k, row))])
    case Unload(off, addr) => m.(dram := m.dram[addr := At(k.reg, off)])
    case EraseRow(row) => m.(banks := m.banks[b := k.(rows := k.rows[row := map[]])])
  }

  function Run(b: nat, ops: seq<Op>, m: Mem): (r: Mem)
    requires b < |m.banks|
    ensures |r.banks| == |m.banks|
  {
    if ops == [] then m else Run(b, ops[1..], Step(b, ops[0], m))
  }

  lemma {:induction false} RunAppend(b: nat, xs: seq<Op>, ys: seq<Op>, m: Mem)
    requires b < |m.banks|
    ensures Run(b, xs + ys, m) == Run(b, ys, Run(b, xs, m))
    decreases |xs|
  {
    if xs == [] {
      assert xs + ys == ys;
    } else {
      assert (xs + ys)[1..] == xs[1..] + ys;
      RunAppend(b, xs[1..], ys, Step(b, xs[0], m));
    }
  }

  /** Two units of work that meet at a DRAM byte at least one of them writes. */
  predicate Conflict(x: Op, y: Op) {
    || (x.Unload? && (y.Unload? || y.Load?) && x.addr == y.addr)
    || (y.Unload? && (x.Unload? || x.Load?) && x.addr == y.addr)
  }

  /** No unit of `xs` meets a unit of `ys` in DRAM. */
  ghost predicate Independent(xs: seq<Op>, ys: seq<Op>) {
    forall i, j :: 0 <= i < |xs| && 0 <= j < |ys| ==> !Conflict(xs[i], ys[j])
  }

  lemma StepsCommute(b: nat, x: Op, c: nat, y: Op, m: Mem)
    requires b < |m.banks| && c < |m.banks| && b != c && !Conflict(x, y)
    ensures Step(b, x, Step(c, y, m)) == Step(c, y, Step(b, x, m))
  {
    if x.Unload? {
      StepsCommuteStore(b, x, c, y, m);
    } else if y.Unload? {
      StepsCommuteStore(c, y, b, x, m);
    } else {
      var l, r := Step(b, x, Step(c, y, m)), Step(c, y, Step(b, x, m));
      assert l.banks[b] == Step(b, x, m).banks[b] == r.banks[b];
      assert l.banks[c] == Step(c, y, m).banks[c] == r.banks[c];
      assert l.banks == r.banks;
    }
  }

  lemma StepsCommuteStore(b: nat, x: Op, c: nat, y: Op, m: Mem)
    requires b < |m.banks| && c < |m.banks| && b != c && !Conflict(x, y) && x.Unload?
    ensures Step(b, x, Step(c, y, m)) == Step(c, y, Step(b, x, m))
  {
    if y.Unload? {
      var l, r := Step(b, x, Step(c, y, m)), Step(c, y, Step(b, x, m));
      assert l.dram == r.dram;
    }
  }

  lemma {:induction false} StepRunCommute(b: nat, x: Op, c: nat, ys: seq<Op>, m: Mem)
    requires b < |m.banks| && c < |m.banks| && b != c && Independent([x], ys)
    ensures Step(b, x, Run(c, ys, m)) == Run(c, ys, Step(b, x, m))
    decreases |ys|
  {
    if ys != [] {
      assert !Conflict([x][0], ys[0]);
      StepsCommute(b, x, c, ys[0], m);
      StepRunCommute(b, x, c, ys[1..], Step(c, ys[0], m));
    }
  }

  lemma {:induction false} RunsCommute(b: nat, xs: seq<Op>, c: nat, ys: seq<Op>, m: Mem)
    requires b < |m.banks| && c < |m.banks| && b != c && Independent(xs, ys)
    ensures Run(b, xs, Run(c, ys, m)) == Run(c, ys, Run(b, xs, m))
    decreases |xs|
  {
    if xs != [] {
      assert Independent([xs[0]], ys) by {
        forall j | 0 <= j < |ys| ensures !Conflict(xs[0], ys[j]) {}
      }
      StepRunCommute(b, xs[0], c, ys, m);
      RunsCommute(b, xs[1..], c, ys, Step(b, xs[0], m));
    }
  }

  /** A DRAM byte written by the firmware itself. */
  function Poke(a: int, v: byte, m: Mem): (r: Mem)
    ensures |r.banks| == |m.banks|
  {
    m.(dram := m.dram[a := v])
  }

  /** No unit of `ops` loads or stores the DRAM byte `a`. */
  ghost predicate NeverTouches(ops: seq<Op>, a: int) {
    forall i :: 0 <= i < |ops| ==> !((ops[i].Load? || ops[i].Unload?) && ops[i].addr == a)
  }

  /** No unit of `ops` stores the DRAM byte `a`. */
  ghost predicate NeverStores(ops: seq<Op>, a: int) {
    forall i :: 0 <= i < |ops| ==> !(ops[i].Unload? && ops[i].addr == a)
  }

  lemma {:induction false} PokeRunCommute(a: int, v: byte, b: nat, ops: seq<Op>, m: Mem)
    requires b < |m.banks| && NeverTouches(ops, a)
    ensures Poke(a, v, Run(b, ops, m)) == Run(b, ops, Poke(a, v, m))
    decreases |ops|
  {
    if ops != [] {
      assert forall i :: 0 <= i < |ops[1..]| ==> ops[1..][i] == ops[i + 1];
      var x := ops[0];
      assert Poke(a, v, Step(b, ops[0], m)) == Step(b, ops[0], Poke(a, v, m)) by {
        var l, r := Poke(a, v, Step(b, ops[0], m)), Step(b, ops[0], Poke(a, v, m));
        assert l.banks == r.banks && l.dram == r.dram;
      }
      PokeRunCommute(a, v, b, ops[1..], Step(b, ops[0], m));
    }
  }

  /** Work that never stores to a DRAM byte leaves it as it is; work on one bank
      leaves every other bank as it is. */
  lemma {:induction false} RunFrame(b: nat, ops: seq<Op>, m: Mem, a: int)
    requires b < |m.banks|
    ensures NeverStores(ops, a) ==> Peek(Run(b, ops, m).dram, a) == Peek(m.dram, a)
    ensures forall c :: 0 <= c < |m.banks| && c != b ==> Run(b, ops, m).banks[c] == m.banks[c]
    decreases |ops|
  {
    if ops != [] {
      RunFrame(b, ops[1..], Step(b, ops[0], m), a);
      assert forall i :: 0 <= i < |ops[1..]| ==> ops[1..][i] == ops[i + 1];
      var x := ops[0];
    }
  }
}
