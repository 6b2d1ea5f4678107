/** Banks that use different parts of DRAM never interfere: whatever the
    interleaving, each bank ends as if it had run its own commands alone. */
module FlashApart {
  import opened Common
  import opened FlashMemory
  import opened FlashCommands
  import opened FlashEngine
  import opened FlashRuns
  import opened DramLayout

  /** The DRAM that a bank's commands may store to (and load from), and what else
      they may load. */
  datatype Footprint = Footprint(own: iset<int>, user: iset<int>)

  predicate Inside(a: int, r: CopyArea) { r.base <= a < r.base + r.bytes }

  ghost function Bytes(r: CopyArea): iset<int> { iset a: int | Inside(a, r) }

  ghost predicate Stays(x: Op, f: Footprint) {
    && (x.Unload? ==> x.addr in f.own)
    && (x.Load? ==> Reaches(f, x.addr))
  }

  ghost predicate Reaches(f: Footprint, a: int) { a in f.own || a in f.user }

  ghost predicate AllStay(ops: seq<Op>, f: Footprint) {
    forall i :: 0 <= i < |ops| ==> Stays(ops[i], f)
  }

  /** Neither bank stores where the other loads or stores. */
  ghost predicate Separate(f: Footprint, h: Footprint) {
    f.own !! h.own && f.own !! h.user && f.user !! h.own
  }

  ghost predicate AllSeparate(fs: seq<Footprint>) {
    forall b, c :: 0 <= b < |fs| && 0 <= c < |fs| && b != c ==> Separate(fs[b], fs[c])
  }

  lemma SeparateIsIndependent(xs: seq<Op>, f: Footprint, ys: seq<Op>, h: Footprint)
    requires AllStay(xs, f) && AllStay(ys, h) && Separate(f, h)
    ensures Independent(xs, ys)
  {
  }

  // ----- runs that say nothing about buffers -----

  ghost predicate OutsideAll(fs: seq<Footprint>, a: int) {
    forall b :: 0 <= b < |fs| ==> !Reaches(fs[b], a)
  }

  /** The firmware may store a DRAM byte that is outside every footprint, or that
      nothing in flight touches. */
  ghost predicate CanHappen(g: Geometry, fs: seq<Footprint>, e: Engine, ev: Event) {
    Possible(e, ev) && (ev.FwPoke? ==> OutsideAll(fs, ev.addr) || Untouched(g, e, ev.addr))
  }

  /** Any interleaving in which commands are issued into an empty Waiting Room. */
  ghost predicate IsFreeRun(g: Geometry, fs: seq<Footprint>, e: Engine, evs: seq<Event>)
    decreases |evs|
  {
    evs == [] || (CanHappen(g, fs, e, evs[0]) && IsFreeRun(g, fs, After(g, e, evs[0]), evs[1..]))
  }

  /** The work issued for bank `b`, in issue order. */
  function BankOps(g: Geometry, b: nat, evs: seq<Event>): seq<Op> {
    if evs == [] then []
    else (if evs[0].FwIssue? && evs[0].cmd.bank == b then Decode(g, evs[0].cmd) else []) + BankOps(g, b, evs[1..])
  }

  lemma StayParts(xs: seq<Op>, ys: seq<Op>, f: Footprint)
    ensures AllStay(xs + ys, f) <==> AllStay(xs, f) && AllStay(ys, f)
  {
    if AllStay(xs + ys, f) {
      assert forall i :: 0 <= i < |xs| ==> xs[i] == (xs + ys)[i];
      assert forall i :: 0 <= i < |ys| ==> ys[i] == (xs + ys)[|xs| + i];
    }
  }

  /** Everything in flight keeps to its bank's footprint. */
  ghost predicate Confined(g: Geometry, fs: seq<Footprint>, e: Engine) {
    && Shape(e) && |fs| == |e.work|
    && (forall b :: 0 <= b < |e.work| && e.work[b].Some? ==> AllStay(e.work[b].value, fs[b]))
    && (e.room.Some? ==> AllStay(Decode(g, e.room.value), fs[e.room.value.bank]))
  }

  lemma OutsideIsUntouched(g: Geometry, fs: seq<Footprint>, e: Engine, a: int)
    requires Confined(g, fs, e) && OutsideAll(fs, a)
    ensures Untouched(g, e, a)
  {
    forall b | 0 <= b < |e.work| && e.work[b].Some? ensures NeverTouches(e.work[b].value, a) {
      assert AllStay(e.work[b].value, fs[b]) && !Reaches(fs[b], a);
    }
  }

  ghost predicate BanksStay(g: Geometry, fs: seq<Footprint>, evs: seq<Event>) {
    forall b :: 0 <= b < |fs| ==> AllStay(BankOps(g, b, evs), fs[b])
  }

  lemma BanksStayTail(g: Geometry, fs: seq<Footprint>, evs: seq<Event>)
    requires BanksStay(g, fs, evs) && evs != []
    ensures BanksStay(g, fs, evs[1..])
    ensures evs[0].FwIssue? && evs[0].cmd.bank < |fs| ==> AllStay(Decode(g, evs[0].cmd), fs[evs[0].cmd.bank])
  {
    forall b | 0 <= b < |fs| ensures AllStay(BankOps(g, b, evs[1..]), fs[b]) {
      var now := if evs[0].FwIssue? && evs[0].cmd.bank == b then Decode(g, evs[0].cmd) else [];
      assert BankOps(g, b, evs) == now + BankOps(g, b, evs[1..]);
      StayParts(now, BankOps(g, b, evs[1..]), fs[b]);
    }
    if evs[0].FwIssue? && evs[0].cmd.bank < |fs| {
      var b := evs[0].cmd.bank;
      assert AllStay(BankOps(g, b, evs), fs[b]);
      StayParts(Decode(g, evs[0].cmd), BankOps(g, b, evs[1..]), fs[b]);
    }
  }

  lemma HappenConfined(g: Geometry, fs: seq<Footprint>, e: Engine, ev: Event)
    requires Confined(g, fs, e) && CanHappen(g, fs, e, ev)
    requires ev.FwIssue? ==> AllStay(Decode(g, ev.cmd), fs[ev.cmd.bank])
    ensures Confined(g, fs, After(g, e, ev))
  {
  }

  /** Separate footprints are enough for the rule that no DRAM buffer in flight
      is reused: such a run is one of those that refine sequential execution. */
  lemma {:induction false} FreeRunIsRun(g: Geometry, fs: seq<Footprint>, e: Engine, evs: seq<Event>)
    requires Valid(g, e) && Confined(g, fs, e) && AllSeparate(fs)
    requires IsFreeRun(g, fs, e, evs) && BanksStay(g, fs, evs)
    ensures IsRun(g, e, evs)
    decreases |evs|
  {
    if evs != [] {
      BanksStayTail(g, fs, evs);
      HappenConfined(g, fs, e, evs[0]);
      match evs[0] {
        case FwIssue(c) =>
          forall k | 0 <= k < |e.work| && k != c.bank && e.work[k].Some?
            ensures Independent(Decode(g, c), e.work[k].value)
          {
            SeparateIsIndependent(Decode(g, c), fs[c.bank], e.work[k].value, fs[k]);
          }
          IssueStep(g, e, c);
        case FwPoke(a, v) =>
          if OutsideAll(fs, a) { OutsideIsUntouched(g, fs, e, a); }
          PokeStep(g, e, a, v);
        case HwAccept => AcceptStep(g, e);
        case HwWork(b) => WorkStep(g, e, b);
        case HwFinish(b) => FinishStep(g, e, b);
      }
      FreeRunIsRun(g, fs, After(g, e, evs[0]), evs[1..]);
    }
  }

  // ----- what a bank sees -----

  /** Of a run, the commands for bank `b` and the firmware's stores to the DRAM
      that these use. */
  ghost function OwnPart(b: nat, f: Footprint, evs: seq<Event>): seq<Event> {
    if evs == [] then []
    else (if IsOwn(b, f, evs[0]) then [evs[0]] else []) + OwnPart(b, f, evs[1..])
  }

  ghost predicate IsOwn(b: nat, f: Footprint, ev: Event) {
    (ev.FwIssue? && ev.cmd.bank == b) || (ev.FwPoke? && Reaches(f, ev.addr))
  }

  /** Bank `b` and the DRAM that its commands use are the same in both. */
  ghost predicate SameView(b: nat, f: Footprint, m: Mem, m': Mem) {
    && b < |m.banks| == |m'.banks| && m.banks[b] == m'.banks[b]
    && forall a: int :: Reaches(f, a) ==> Peek(m.dram, a) == Peek(m'.dram, a)
  }

  lemma OtherBankUnseen(b: nat, f: Footprint, c: nat, h: Footprint, ops: seq<Op>, m: Mem, m': Mem)
    requires SameView(b, f, m, m') && c < |m.banks| && c != b && AllStay(ops, h) && Separate(f, h)
    ensures SameView(b, f, Run(c, ops, m), m')
  {
    forall a: int | Reaches(f, a) ensures Peek(Run(c, ops, m).dram, a) == Peek(m'.dram, a) {
      RunFrame(c, ops, m, a);
    }
    RunFrame(c, ops, m, 0);
  }

  lemma {:induction false} OwnRunSameView(b: nat, f: Footprint, ops: seq<Op>, m: Mem, m': Mem)
    requires SameView(b, f, m, m') && AllStay(ops, f)
    ensures SameView(b, f, Run(b, ops, m), Run(b, ops, m'))
    decreases |ops|
  {
    if ops != [] {
      assert ops == [ops[0]] + ops[1..];
      StayParts([ops[0]], ops[1..], f);
      assert Stays(ops[0], f);
      OwnRunSameView(b, f, ops[1..], Step(b, ops[0], m), Step(b, ops[0], m'));
    }
  }

  /** One-at-a-time execution of all banks looks, to one bank, like its own part. */
  lemma {:induction false} ViewOfSequential(g: Geometry, fs: seq<Footprint>, b: nat, e: Engine, evs: seq<Event>,
                                            m: Mem, m': Mem)
    requires AllSeparate(fs) && BanksStay(g, fs, evs) && b < |fs| == |m.banks| == |e.work| && Shape(e)
    requires IsFreeRun(g, fs, e, evs) && SameView(b, fs[b], m, m')
    ensures SameView(b, fs[b], Sequential(g, evs, m), Sequential(g, OwnPart(b, fs[b], evs), m'))
    decreases |evs|
  {
    if evs != [] {
      BanksStayTail(g, fs, evs);
      var ev, rest, e' := evs[0], OwnPart(b, fs[b], evs[1..]), After(g, e, evs[0]);
      assert IsOwn(b, fs[b], ev) ==> ([ev] + rest)[1..] == rest;
      assert [] + rest == rest;
      if ev.FwPoke? {
        var m1' := if Reaches(fs[b], ev.addr) then Poke(ev.addr, ev.val, m') else m';
        ViewOfSequential(g, fs, b, e', evs[1..], Poke(ev.addr, ev.val, m), m1');
      } else if ev.FwIssue? {
        var c, ops := ev.cmd, Decode(g, ev.cmd);
        if c.bank == b {
          OwnRunSameView(b, fs[b], ops, m, m');
          ViewOfSequential(g, fs, b, e', evs[1..], Run(b, ops, m), Run(b, ops, m'));
        } else {
          OtherBankUnseen(b, fs[b], c.bank, fs[c.bank], ops, m, m');
          ViewOfSequential(g, fs, b, e', evs[1..], Run(c.bank, ops, m), m');
        }
      } else {
        ViewOfSequential(g, fs, b, e', evs[1..], m, m');
      }
    }
  }

  /** Commands of any kind in flight on any number of banks, and stores of the
      firmware, in any interleaving: each bank, and the DRAM it uses, end as if
      its own commands, and the stores to that DRAM, had been executed alone. */
  lemma BanksDoNotInterfere(g: Geometry, fs: seq<Footprint>, e: Engine, evs: seq<Event>, b: nat)
    requires Valid(g, e) && Idle(e) && |fs| == |e.work| && b < |fs| && AllSeparate(fs)
    requires IsFreeRun(g, fs, e, evs) && BanksStay(g, fs, evs)
    ensures IsRun(g, e, evs)
    ensures Idle(EndOf(g, e, evs)) ==>
      SameView(b, fs[b], EndOf(g, e, evs).mem, Sequential(g, OwnPart(b, fs[b], evs), e.mem))
  {
    FreeRunIsRun(g, fs, e, evs);
    AsynchronousRefinesSequential(g, e, evs);
    DrainIdle(e.work, |e.work|, e.mem);
    ViewOfSequential(g, fs, b, e, evs, e.mem, e.mem);
  }

  // ----- transfers -----

  lemma LoadsStay(dmaAddr: int, col: nat, cnt: nat, f: Footprint, r: CopyArea)
    requires Bytes(r) <= f.own || Bytes(r) <= f.user
    requires var start := Wrap32(dmaAddr + col * BYTES_PER_SECTOR);
      r.base <= start && start + cnt <= r.base + r.bytes && start + cnt <= TWO_TO_32
    ensures AllStay(Loads(dmaAddr, col, cnt), f)
  {
    var ls := Loads(dmaAddr, col, cnt);
    forall i | 0 <= i < |ls| ensures Stays(ls[i], f) {
      WrapAdd(dmaAddr + col * BYTES_PER_SECTOR, i);
      assert dmaAddr + col * BYTES_PER_SECTOR + i == dmaAddr + (col * BYTES_PER_SECTOR + i);
      assert ls[i].addr == Wrap32(dmaAddr + col * BYTES_PER_SECTOR) + i;
    }
  }

  // ----- reads for the host -----

  lemma ReadStays(row: nat, buf: nat, bytes: nat, sect: nat, cnt: nat)
    requires buf + bytes <= TWO_TO_32 && sect * BYTES_PER_SECTOR + cnt <= bytes
    ensures AllStay(ReadOut(row, buf, sect, cnt), Footprint(Bytes(CopyArea(buf, bytes)), iset{}))
  {
    var us, f := Unloads(buf, sect, cnt), Footprint(Bytes(CopyArea(buf, bytes)), iset{});
    forall i | 0 <= i < |us| ensures Stays(us[i], f) {
      assert us[i].addr == Wrap32(buf + (sect * BYTES_PER_SECTOR + i));
    }
    StayParts([Sense(row)], us, f);
  }

  /** Reads into different buffers, such as successive ones of the read ring, do
      not meet: they may be in flight together. */
  lemma ReadsIndependent(c: Config, x: Buffer, y: Buffer, row: nat, sect: nat, cnt: nat,
                         row': nat, sect': nat, cnt': nat)
    requires c.Roomy() && c.dramBase + c.dramSize <= TWO_TO_32 && Exists(c, x) && Exists(c, y) && x != y
    requires sect * BYTES_PER_SECTOR + cnt <= c.pageBytes && sect' * BYTES_PER_SECTOR + cnt' <= c.pageBytes
    ensures Independent(ReadOut(row, Ptr(c, x), sect, cnt), ReadOut(row', Ptr(c, y), sect', cnt'))
  {
    BuffersFit(c, x);
    BuffersFit(c, y);
    BuffersAreDisjoint(c, x, y);
    ReadStays(row, Ptr(c, x), c.pageBytes, sect, cnt);
    ReadStays(row', Ptr(c, y), c.pageBytes, sect', cnt');
    SeparateIsIndependent(ReadOut(row, Ptr(c, x), sect, cnt),
                          Footprint(Bytes(CopyArea(Ptr(c, x), c.pageBytes)), iset{}),
                          ReadOut(row', Ptr(c, y), sect', cnt'),
                          Footprint(Bytes(CopyArea(Ptr(c, y), c.pageBytes)), iset{}));
  }
}
