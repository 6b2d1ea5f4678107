/** Modified copybacks on many banks at once: every page of every bank ends as
    its own bank's copybacks, in their order, make it. */
module FlashCopybacks {
  import opened Common
  import opened FlashMemory
  import opened FlashCommands
  import opened FlashCalls
  import opened FlashEngine
  import opened FlashRuns
  import opened FlashApart
  import opened DramLayout

  /** A modified copyback, by FC_MODIFY_COPYBACK or by the four commands. */
  datatype Copyback = Copyback(srcRow: nat, dstRow: nat, sect: nat, addr: int, cnt: nat, inChip: bool) {
    function Off(): nat { sect * BYTES_PER_SECTOR }
    function User(): CopyArea { CopyArea(addr, cnt) }
  }

  /** What the firmware does for a bank: a copyback, or a store into DRAM that one
      of the bank's copybacks takes bytes from. */
  datatype Task = Copying(k: Copyback) | Storing(addr: int, val: byte)

  /** The caller's bytes are inside the page and outside the copy buffer. */
  ghost predicate Proper(ca: CopyArea, k: Copyback) {
    && ca.Fits() && k.User().Fits() && Bytes(ca) !! Bytes(k.User())
    && k.Off() + k.cnt <= ca.bytes && (k.inChip || k.cnt % BYTES_PER_SECTOR == 0)
  }

  ghost predicate ProperTask(ca: CopyArea, t: Task) {
    if t.Copying? then Proper(ca, t.k) else !Inside(t.addr, ca)
  }

  ghost predicate AllProper(ca: CopyArea, ts: seq<Task>) {
    forall j :: 0 <= j < |ts| ==> ProperTask(ca, ts[j])
  }

  function CopybackOps(ca: CopyArea, k: Copyback): seq<Op>
    requires k.Off() + k.cnt <= ca.bytes
  {
    if k.inChip then OneCommandCopyback(ca, k.srcRow, k.dstRow, k.sect, k.addr, k.cnt)
    else FourCommandCopyback(ca, k.srcRow, k.dstRow, k.sect, k.addr, k.cnt)
  }

  // ----- where a copyback loads and stores -----

  lemma ReadOutStays(row: nat, ca: CopyArea, f: Footprint)
    requires Bytes(ca) <= f.own && ca.Fits()
    ensures AllStay(ReadOut(row, ca.base, 0, ca.bytes), f)
  {
    var us := Unloads(ca.base, 0, ca.bytes);
    forall i | 0 <= i < |us| ensures Stays(us[i], f) {
      assert us[i].addr == Wrap32(ca.base + i) == ca.base + i;
      assert Inside(us[i].addr, ca);
    }
    StayParts([Sense(row)], us, f);
  }

  lemma HeadStays(ca: CopyArea, srcRow: nat, dstRow: nat, headCnt: nat, f: Footprint)
    requires Bytes(ca) <= f.own && ca.Fits() && headCnt <= ca.bytes
    ensures AllStay(HeadOps(ca, srcRow, dstRow, headCnt), f)
  {
    ReadOutStays(srcRow, ca, f);
    if headCnt > 0 { LoadsStay(ca.base, 0, headCnt, f, ca); }
    StayParts([Address(dstRow)], Loads(ca.base, 0, headCnt), f);
    StayParts(ReadOut(srcRow, ca.base, 0, ca.bytes), [Address(dstRow)] + Loads(ca.base, 0, headCnt), f);
  }

  lemma UserStays(k: Copyback, f: Footprint)
    requires Bytes(k.User()) <= f.user && k.User().Fits()
    ensures AllStay(Loads(PageAddr(k.addr, k.sect), k.sect, k.cnt), f)
  {
    WrapSum(k.addr - k.Off(), k.Off());
    if k.cnt > 0 { LoadsStay(PageAddr(k.addr, k.sect), k.sect, k.cnt, f, k.User()); }
  }

  lemma TailStays(ca: CopyArea, k: Copyback, f: Footprint)
    requires Bytes(ca) <= f.own && Bytes(k.User()) <= f.user && Proper(ca, k) && !k.inChip
    ensures AllStay(TailOps(ca, k.sect, k.addr, k.cnt), f)
  {
    var tailCol, tailCnt := TailCol(k.sect, k.cnt), TailCnt(ca, k.sect, k.cnt);
    var data, tail := Loads(PageAddr(k.addr, k.sect), k.sect, k.cnt), Loads(ca.base, tailCol, tailCnt);
    UserStays(k, f);
    assert tailCol * BYTES_PER_SECTOR == k.Off() + k.cnt;
    if tailCnt > 0 { LoadsStay(ca.base, tailCol, tailCnt, f, ca); }
    StayParts(tail, [Program], f);
    StayParts(data, tail + [Program], f);
  }

  lemma InChipStays(ca: CopyArea, k: Copyback, f: Footprint)
    requires Bytes(ca) <= f.own && Bytes(k.User()) <= f.user && Proper(ca, k) && k.inChip
    ensures AllStay(CopybackOps(ca, k), f)
  {
    var copy, data := CopyThroughBuffer(ca, k.srcRow, k.dstRow), Loads(PageAddr(k.addr, k.sect), k.sect, k.cnt);
    HeadStays(ca, k.srcRow, k.dstRow, ca.bytes, f);
    assert copy == HeadOps(ca, k.srcRow, k.dstRow, ca.bytes);
    UserStays(k, f);
    StayParts(copy, data, f);
    StayParts(copy + data, [Program], f);
  }

  /** A modified copyback stores only to its copy buffer, and loads only from
      there and from the caller's bytes. */
  lemma CopybackStays(ca: CopyArea, k: Copyback, f: Footprint)
    requires Bytes(ca) <= f.own && Bytes(k.User()) <= f.user && Proper(ca, k)
    ensures AllStay(CopybackOps(ca, k), f)
  {
    if k.inChip {
      InChipStays(ca, k, f);
    } else {
      HeadStays(ca, k.srcRow, k.dstRow, k.Off(), f);
      TailStays(ca, k, f);
      StayParts(HeadOps(ca, k.srcRow, k.dstRow, k.Off()), TailOps(ca, k.sect, k.addr, k.cnt), f);
    }
  }

  // ----- what the tasks of a bank make of its pages, byte by byte -----

  /** A DRAM byte outside the copy buffer: as it was last stored. */
  function ByteAfter(d: Dram, ts: seq<Task>, a: int): byte {
    if ts == [] then Peek(d, a)
    else
      var last := ts[|ts| - 1];
      if last.Storing? && last.addr == a then last.val else ByteAfter(d, ts[..|ts| - 1], a)
  }

  /** A byte of a page: the last copyback onto that row took it from the caller,
      or from the source row, as they were then. */
  function PageByte(m: Mem, b: nat, ts: seq<Task>, row: nat, i: nat): byte
    requires b < |m.banks|
    decreases |ts|
  {
    if ts == [] then At(Row(m.banks[b], row), i)
    else
      var last, before := ts[|ts| - 1], ts[..|ts| - 1];
      if last.Storing? || last.k.dstRow != row then PageByte(m, b, before, row, i)
      else if last.k.Off() <= i < last.k.Off() + last.k.cnt then
        ByteAfter(m.dram, before, last.k.addr + (i - last.k.Off()))
      else PageByte(m, b, before, last.k.srcRow, i)
  }

  // ----- the same as work -----

  function Done(ca: CopyArea, b: nat, t: Task, m: Mem): (r: Mem)
    requires b < |m.banks|
    ensures |r.banks| == |m.banks|
  {
    match t
    case Copying(k) => ModifiedCopy(ca, b, k.srcRow, k.dstRow, k.sect, k.addr, k.cnt, m)
    case Storing(a, v) => Poke(a, v, m)
  }

  function AllDone(ca: CopyArea, b: nat, ts: seq<Task>, m: Mem): (r: Mem)
    requires b < |m.banks|
    ensures |r.banks| == |m.banks|
    decreases |ts|
  {
    if ts == [] then m else Done(ca, b, ts[|ts| - 1], AllDone(ca, b, ts[..|ts| - 1], m))
  }

  lemma CopybackMeans(ca: CopyArea, b: nat, k: Copyback, m: Mem)
    requires b < |m.banks| && Proper(ca, k)
    ensures Run(b, CopybackOps(ca, k), m) == Done(ca, b, Copying(k), m)
  {
    if k.inChip {
      OneCommandMeaning(ca, b, k.srcRow, k.dstRow, k.sect, k.addr, k.cnt, m);
    } else {
      FourCommandMeaning(ca, b, k.srcRow, k.dstRow, k.sect, k.addr, k.cnt, m);
    }
  }

  lemma CopyBufUnseen(ca: CopyArea, src: Page, d: Dram, a: int)
    requires !Inside(a, ca)
    ensures Peek(CopyBufFilled(ca, src, d), a) == Peek(d, a)
  {
  }

  lemma UserOutside(ca: CopyArea, k: Copyback, a: int)
    requires Proper(ca, k) && Inside(a, k.User())
    ensures !Inside(a, ca)
  {
    assert a in Bytes(k.User());
  }

  /** One copyback: byte `i` of its destination row ... */
  lemma CopiedByte(ca: CopyArea, b: nat, k: Copyback, m: Mem, i: nat)
    requires b < |m.banks| && i < ca.bytes && Proper(ca, k)
    ensures At(Row(Done(ca, b, Copying(k), m).banks[b], k.dstRow), i)
         == if k.Off() <= i < k.Off() + k.cnt then Peek(m.dram, k.addr + (i - k.Off()))
            else At(Row(m.banks[b], k.srcRow), i)
  {
    var src := Row(m.banks[b], k.srcRow);
    var d, a := CopyBufFilled(ca, src, m.dram), k.addr + (i - k.Off());
    SpliceAt(ca.bytes, src, k.Off(), k.cnt, d, k.addr, i, a);
    PageWrittenAt(b, k.dstRow, Splice(ca.bytes, src, k.Off(), k.cnt, d, k.addr), m.(dram := d), i);
    if k.Off() <= i < k.Off() + k.cnt {
      UserOutside(ca, k, a);
      CopyBufUnseen(ca, src, m.dram, a);
    }
  }

  /** ... every other row, and the DRAM outside the copy buffer. */
  lemma NotCopied(ca: CopyArea, b: nat, k: Copyback, m: Mem, row: nat, a: int)
    requires b < |m.banks|
    ensures row != k.dstRow ==> Row(Done(ca, b, Copying(k), m).banks[b], row) == Row(m.banks[b], row)
    ensures !Inside(a, ca) ==> Peek(Done(ca, b, Copying(k), m).dram, a) == Peek(m.dram, a)
  {
    if !Inside(a, ca) { CopyBufUnseen(ca, Row(m.banks[b], k.srcRow), m.dram, a); }
  }

  lemma {:induction false} DramByteDone(ca: CopyArea, b: nat, ts: seq<Task>, m: Mem, a: int)
    requires b < |m.banks| && !Inside(a, ca)
    ensures Peek(AllDone(ca, b, ts, m).dram, a) == ByteAfter(m.dram, ts, a)
    decreases |ts|
  {
    if ts != [] {
      var n := |ts| - 1;
      DramByteDone(ca, b, ts[..n], m, a);
      if ts[n].Copying? { NotCopied(ca, b, ts[n].k, AllDone(ca, b, ts[..n], m), 0, a); }
    }
  }

  /** Byte `i` of a row after task `t`, in terms of the memory before. */
  function TaskByte(b: nat, t: Task, m: Mem, row: nat, i: nat): byte
    requires b < |m.banks|
  {
    if t.Storing? || t.k.dstRow != row then At(Row(m.banks[b], row), i)
    else if t.k.Off() <= i < t.k.Off() + t.k.cnt then Peek(m.dram, t.k.addr + (i - t.k.Off()))
    else At(Row(m.banks[b], t.k.srcRow), i)
  }

  lemma TaskByteDone(ca: CopyArea, b: nat, t: Task, m: Mem, row: nat, i: nat)
    requires b < |m.banks| && i < ca.bytes && ProperTask(ca, t)
    ensures At(Row(Done(ca, b, t, m).banks[b], row), i) == TaskByte(b, t, m, row, i)
  {
    if t.Copying? {
      if t.k.dstRow == row { CopiedByte(ca, b, t.k, m, i); } else { NotCopied(ca, b, t.k, m, row, 0); }
    }
  }

  /** If `m'` is as the tasks before the last one say, the last one brings about
      what all of them say. */
  lemma TaskBytePages(ca: CopyArea, b: nat, ts: seq<Task>, m: Mem, m': Mem, row: nat, i: nat)
    requires b < |m.banks| && b < |m'.banks| && ts != [] && i < ca.bytes && ProperTask(ca, ts[|ts| - 1])
    requires forall r: nat :: At(Row(m'.banks[b], r), i) == PageByte(m, b, ts[..|ts| - 1], r, i)
    requires forall a: int :: !Inside(a, ca) ==> Peek(m'.dram, a) == ByteAfter(m.dram, ts[..|ts| - 1], a)
    ensures TaskByte(b, ts[|ts| - 1], m', row, i) == PageByte(m, b, ts, row, i)
  {
    var t := ts[|ts| - 1];
    if t.Copying? && t.k.Off() <= i < t.k.Off() + t.k.cnt { UserOutside(ca, t.k, t.k.addr + (i - t.k.Off())); }
  }

  lemma {:induction false} PageByteDone(ca: CopyArea, b: nat, ts: seq<Task>, m: Mem, row: nat, i: nat)
    requires b < |m.banks| && i < ca.bytes && AllProper(ca, ts)
    ensures At(Row(AllDone(ca, b, ts, m).banks[b], row), i) == PageByte(m, b, ts, row, i)
    decreases |ts|
  {
    if ts != [] {
      var before := ts[..|ts| - 1];
      var m' := AllDone(ca, b, before, m);
      forall r: nat ensures At(Row(m'.banks[b], r), i) == PageByte(m, b, before, r, i) {
        PageByteDone(ca, b, before, m, r, i);
      }
      forall a: int | !Inside(a, ca) ensures Peek(m'.dram, a) == ByteAfter(m.dram, before, a) {
        DramByteDone(ca, b, before, m, a);
      }
      TaskByteDone(ca, b, ts[|ts| - 1], m', row, i);
      TaskBytePages(ca, b, ts, m, m', row, i);
    }
  }

  // ----- the events that carry out the tasks -----

  ghost predicate OnlyIssues(b: nat, evs: seq<Event>) {
    forall j :: 0 <= j < |evs| ==> evs[j].FwIssue? && evs[j].cmd.bank == b
  }

  /** The events of a bank's part of a run are, in order, its stores and the
      commands of its copybacks. */
  ghost predicate CarryOut(g: Geometry, b: nat, ts: seq<Task>, parts: seq<seq<Event>>) {
    |parts| == |ts| && forall j :: 0 <= j < |ts| ==> CarriesOut(g, b, ts[j], parts[j])
  }

  function Joined(parts: seq<seq<Event>>): seq<Event> {
    if parts == [] then [] else Joined(parts[..|parts| - 1]) + parts[|parts| - 1]
  }

  ghost predicate CarriesOut(g: Geometry, b: nat, t: Task, evs: seq<Event>) {
    match t
    case Copying(k) =>
      k.Off() + k.cnt <= g.CopyBuf(b).bytes && OnlyIssues(b, evs) && BankOps(g, b, evs) == CopybackOps(g.CopyBuf(b), k)
    case Storing(a, v) => evs == [FwPoke(a, v)]
  }

  lemma {:induction false} SequentialParts(g: Geometry, xs: seq<Event>, ys: seq<Event>, m: Mem)
    ensures Sequential(g, xs + ys, m) == Sequential(g, ys, Sequential(g, xs, m))
    decreases |xs|
  {
    if xs == [] {
      assert xs + ys == ys;
    } else {
      assert (xs + ys)[1..] == xs[1..] + ys;
      var m' := match xs[0]
        case FwIssue(c) => if c.bank < |m.banks| then Run(c.bank, Decode(g, c), m) else m
        case FwPoke(a, v) => Poke(a, v, m)
        case _ => m;
      SequentialParts(g, xs[1..], ys, m');
    }
  }

  lemma {:induction false} IssuesRun(g: Geometry, b: nat, evs: seq<Event>, m: Mem)
    requires b < |m.banks| && OnlyIssues(b, evs)
    ensures Sequential(g, evs, m) == Run(b, BankOps(g, b, evs), m)
    decreases |evs|
  {
    if evs != [] {
      var ops := Decode(g, evs[0].cmd);
      IssuesRun(g, b, evs[1..], Run(b, ops, m));
      RunAppend(b, ops, BankOps(g, b, evs[1..]), m);
    }
  }

  lemma TaskCarriedOut(g: Geometry, b: nat, t: Task, evs: seq<Event>, m: Mem)
    requires b < |m.banks| && CarriesOut(g, b, t, evs) && ProperTask(g.CopyBuf(b), t)
    ensures Sequential(g, evs, m) == Done(g.CopyBuf(b), b, t, m)
  {
    if t.Copying? {
      IssuesRun(g, b, evs, m);
      CopybackMeans(g.CopyBuf(b), b, t.k, m);
    } else {
      assert evs[1..] == [];
    }
  }

  lemma {:induction false} CarriedOut(g: Geometry, b: nat, ts: seq<Task>, parts: seq<seq<Event>>, m: Mem)
    requires b < |m.banks| && CarryOut(g, b, ts, parts) && AllProper(g.CopyBuf(b), ts)
    ensures Sequential(g, Joined(parts), m) == AllDone(g.CopyBuf(b), b, ts, m)
    decreases |ts|
  {
    if ts != [] {
      var n := |ts| - 1;
      CarriedOut(g, b, ts[..n], parts[..n], m);
      TaskCarriedOut(g, b, ts[n], parts[n], AllDone(g.CopyBuf(b), b, ts[..n], m));
      SequentialParts(g, Joined(parts[..n]), parts[n], m);
    }
  }

  // ----- footprints -----

  /** A bank's copy buffer, and the bytes that its copybacks take. */
  ghost function FootprintOf(ca: CopyArea, ts: seq<Task>): Footprint {
    Footprint(Bytes(ca), iset a: int | TakenBy(ts, a))
  }

  ghost predicate TakenBy(ts: seq<Task>, a: int) {
    exists j :: 0 <= j < |ts| && Takes(ts[j], a)
  }

  predicate Takes(t: Task, a: int) { t.Copying? && Inside(a, t.k.User()) }

  lemma TakenIsUser(ca: CopyArea, ts: seq<Task>, j: nat)
    requires j < |ts| && ts[j].Copying?
    ensures Bytes(ts[j].k.User()) <= FootprintOf(ca, ts).user
  {
    forall a: int | a in Bytes(ts[j].k.User()) ensures a in FootprintOf(ca, ts).user {
      assert Takes(ts[j], a);
    }
  }

  lemma {:induction false} BankOpsParts(g: Geometry, b: nat, xs: seq<Event>, ys: seq<Event>)
    ensures BankOps(g, b, xs + ys) == BankOps(g, b, xs) + BankOps(g, b, ys)
    decreases |xs|
  {
    if xs == [] {
      assert xs + ys == ys;
    } else {
      assert (xs + ys)[1..] == xs[1..] + ys;
      BankOpsParts(g, b, xs[1..], ys);
    }
  }

  lemma {:induction false} OwnPartOps(g: Geometry, b: nat, f: Footprint, evs: seq<Event>)
    ensures BankOps(g, b, OwnPart(b, f, evs)) == BankOps(g, b, evs)
    decreases |evs|
  {
    if evs != [] {
      var rest := OwnPart(b, f, evs[1..]);
      OwnPartOps(g, b, f, evs[1..]);
      assert IsOwn(b, f, evs[0]) ==> ([evs[0]] + rest)[1..] == rest;
      assert [] + rest == rest && [] + BankOps(g, b, rest) == BankOps(g, b, rest);
    }
  }

  lemma TaskStays(g: Geometry, b: nat, t: Task, evs: seq<Event>, f: Footprint)
    requires CarriesOut(g, b, t, evs) && ProperTask(g.CopyBuf(b), t) && Bytes(g.CopyBuf(b)) <= f.own
    requires t.Copying? ==> Bytes(t.k.User()) <= f.user
    ensures AllStay(BankOps(g, b, evs), f)
  {
    if t.Copying? { CopybackStays(g.CopyBuf(b), t.k, f); }
  }

  ghost predicate CoveredBy(ts: seq<Task>, f: Footprint) {
    forall j :: 0 <= j < |ts| && ts[j].Copying? ==> Bytes(ts[j].k.User()) <= f.user
  }

  lemma {:induction false} CarriedOutStay(g: Geometry, b: nat, ts: seq<Task>, parts: seq<seq<Event>>, f: Footprint)
    requires CarryOut(g, b, ts, parts) && AllProper(g.CopyBuf(b), ts)
    requires Bytes(g.CopyBuf(b)) <= f.own && CoveredBy(ts, f)
    ensures AllStay(BankOps(g, b, Joined(parts)), f)
    decreases |ts|
  {
    if ts != [] {
      var n := |ts| - 1;
      CarriedOutStay(g, b, ts[..n], parts[..n], f);
      TaskStays(g, b, ts[n], parts[n], f);
      BankOpsParts(g, b, Joined(parts[..n]), parts[n]);
      StayParts(BankOps(g, b, Joined(parts[..n])), BankOps(g, b, parts[n]), f);
    }
  }

  // ----- many banks at once -----

  ghost function Footprints(g: Geometry, jobs: seq<seq<Task>>): seq<Footprint> {
    seq(|jobs|, b requires 0 <= b < |jobs| => FootprintOf(g.CopyBuf(b), jobs[b]))
  }

  /** The part of the run that concerns a bank carries out the bank's tasks. */
  ghost predicate Serves(g: Geometry, ts: seq<Task>, evs: seq<Event>, b: nat) {
    exists parts :: CarryOut(g, b, ts, parts) && Joined(parts) == OwnPart(b, FootprintOf(g.CopyBuf(b), ts), evs)
  }

  ghost predicate ProperJobs(g: Geometry, jobs: seq<seq<Task>>) {
    forall b :: 0 <= b < |jobs| ==> AllProper(g.CopyBuf(b), jobs[b])
  }

  ghost predicate ServesAll(g: Geometry, jobs: seq<seq<Task>>, evs: seq<Event>) {
    forall b :: 0 <= b < |jobs| ==> Serves(g, jobs[b], evs, b)
  }

  lemma ServedStay(g: Geometry, ts: seq<Task>, evs: seq<Event>, b: nat)
    requires Serves(g, ts, evs, b) && AllProper(g.CopyBuf(b), ts)
    ensures AllStay(BankOps(g, b, evs), FootprintOf(g.CopyBuf(b), ts))
  {
    var f := FootprintOf(g.CopyBuf(b), ts);
    var parts :| CarryOut(g, b, ts, parts) && Joined(parts) == OwnPart(b, f, evs);
    forall j | 0 <= j < |ts| && ts[j].Copying? ensures Bytes(ts[j].k.User()) <= f.user {
      TakenIsUser(g.CopyBuf(b), ts, j);
    }
    CarriedOutStay(g, b, ts, parts, f);
    OwnPartOps(g, b, f, evs);
  }

  /** A bank's part of a run makes of a page byte what the tasks say. */
  lemma ServedByte(g: Geometry, ts: seq<Task>, evs: seq<Event>, b: nat, m: Mem, row: nat, i: nat)
    requires Serves(g, ts, evs, b) && AllProper(g.CopyBuf(b), ts) && b < |m.banks| && i < g.CopyBuf(b).bytes
    ensures var m' := Sequential(g, OwnPart(b, FootprintOf(g.CopyBuf(b), ts), evs), m);
      |m'.banks| == |m.banks| && At(Row(m'.banks[b], row), i) == PageByte(m, b, ts, row, i)
  {
    var parts :| CarryOut(g, b, ts, parts) && Joined(parts) == OwnPart(b, FootprintOf(g.CopyBuf(b), ts), evs);
    CarriedOut(g, b, ts, parts, m);
    PageByteDone(g.CopyBuf(b), b, ts, m, row, i);
  }

  /** Any number of modified copybacks on each of any number of banks, issued in
      any order and interleaved in any way, with stores of the firmware in between:
      every page of every bank ends as the bank's own copybacks make it. */
  lemma CopybacksDoNotInterfere(g: Geometry, jobs: seq<seq<Task>>, e: Engine, evs: seq<Event>, b: nat, row: nat, i: nat)
    requires Valid(g, e) && Idle(e) && |jobs| == |e.work| && b < |jobs| && i < g.CopyBuf(b).bytes
    requires ProperJobs(g, jobs) && ServesAll(g, jobs, evs)
    requires AllSeparate(Footprints(g, jobs)) && IsFreeRun(g, Footprints(g, jobs), e, evs)
    ensures IsRun(g, e, evs)
    ensures Idle(EndOf(g, e, evs)) ==>
      && |EndOf(g, e, evs).mem.banks| == |jobs|
      && At(Row(EndOf(g, e, evs).mem.banks[b], row), i) == PageByte(e.mem, b, jobs[b], row, i)
  {
    var fs := Footprints(g, jobs);
    forall k | 0 <= k < |fs| ensures AllStay(BankOps(g, k, evs), fs[k]) {
      ServedStay(g, jobs[k], evs, k);
    }
    BanksDoNotInterfere(g, fs, e, evs, b);
    ServedByte(g, jobs[b], evs, b, e.mem, row, i);
  }

  // ----- with the DRAM layout of the firmware -----

  /** With the shipped DRAM layout, copy buffers of different real banks and
      bytes of any other buffer are separate. */
  lemma LayoutSeparates(c: Config, r: nat, s: nat, x: Buffer, off: nat)
    requires c.Roomy() && r < c.numBanksMax && s < c.numBanksMax
    requires Exists(c, x) && !x.Copy? && off < c.pageBytes
    ensures !Inside(Ptr(c, x) + off, CopyArea(Ptr(c, Copy(r)), c.pageBytes))
    ensures r != s ==> Bytes(CopyArea(Ptr(c, Copy(r)), c.pageBytes)) !! Bytes(CopyArea(Ptr(c, Copy(s)), c.pageBytes))
  {
    BuffersAreDisjoint(c, Copy(r), x);
    if r != s { BuffersAreDisjoint(c, Copy(r), Copy(s)); }
  }

  /** The controller's copy buffers are those of the DRAM layout. */
  ghost predicate UsesLayout(g: Geometry, c: Config) {
    && c.Roomy() && c.dramBase + c.dramSize < TWO_TO_32 && |g.copyBufs| == c.numBanksMax
    && forall r :: 0 <= r < |g.copyBufs| ==> g.copyBufs[r] == CopyArea(Ptr(c, Copy(r)), c.pageBytes)
  }

  /** The task stays in the page, and in buffer `x`, other than a copy buffer. */
  ghost predicate InBuffer(c: Config, t: Task, x: Buffer)
    requires c.Sane()
  {
    && Exists(c, x) && !x.Copy?
    && match t
       case Copying(k) =>
         && Ptr(c, x) <= k.addr && k.addr + k.cnt <= Ptr(c, x) + c.pageBytes
         && k.Off() + k.cnt <= c.pageBytes && (k.inChip || k.cnt % BYTES_PER_SECTOR == 0)
       case Storing(a, _) => Ptr(c, x) <= a < Ptr(c, x) + c.pageBytes
  }

  ghost predicate FromBuffer(c: Config, t: Task)
    requires c.Sane()
  {
    exists x :: InBuffer(c, t, x)
  }

  ghost predicate FromBuffers(c: Config, ts: seq<Task>)
    requires c.Sane()
  {
    forall j :: 0 <= j < |ts| ==> FromBuffer(c, ts[j])
  }

  /** All tasks of all banks use bytes of buffers other than copy buffers. */
  ghost predicate InBuffers(c: Config, jobs: seq<seq<Task>>)
    requires c.Sane()
  {
    forall b :: 0 <= b < |jobs| ==> FromBuffers(c, jobs[b])
  }

  lemma OutsideCopyBufs(g: Geometry, c: Config, r: nat, x: Buffer, a: int)
    requires UsesLayout(g, c) && r < |g.copyBufs| && Exists(c, x) && !x.Copy?
    requires Ptr(c, x) <= a < Ptr(c, x) + c.pageBytes
    ensures !Inside(a, g.CopyBuf(r))
  {
    LayoutSeparates(c, r, r, x, a - Ptr(c, x));
  }

  lemma LayoutIsProper(g: Geometry, c: Config, r: nat, t: Task, x: Buffer)
    requires UsesLayout(g, c) && r < |g.copyBufs| && InBuffer(c, t, x)
    ensures ProperTask(g.CopyBuf(r), t)
  {
    BuffersFit(c, Copy(r));
    BuffersFit(c, x);
    if t.Copying? {
      forall a: int | a in Bytes(t.k.User()) ensures a !in Bytes(g.CopyBuf(r)) {
        OutsideCopyBufs(g, c, r, x, a);
      }
    } else {
      OutsideCopyBufs(g, c, r, x, t.addr);
    }
  }

  lemma TakenOutside(g: Geometry, c: Config, r: nat, ts: seq<Task>, a: int)
    requires UsesLayout(g, c) && r < |g.copyBufs| && TakenBy(ts, a) && FromBuffers(c, ts)
    ensures !Inside(a, g.CopyBuf(r))
  {
    var j :| 0 <= j < |ts| && Takes(ts[j], a);
    assert FromBuffer(c, ts[j]);
    var x :| InBuffer(c, ts[j], x);
    OutsideCopyBufs(g, c, r, x, a);
  }

  lemma CopyBufsApart(g: Geometry, c: Config, r: nat, s: nat)
    requires UsesLayout(g, c) && r < |g.copyBufs| && s < |g.copyBufs| && r != s
    ensures Bytes(g.CopyBuf(r)) !! Bytes(g.CopyBuf(s))
  {
    LayoutSeparates(c, r, s, Hil, 0);
  }

  lemma FootprintsSeparate(p: CopyArea, ts: seq<Task>, q: CopyArea, us: seq<Task>)
    requires Bytes(p) !! Bytes(q)
    requires forall a: int :: TakenBy(us, a) ==> !Inside(a, p)
    requires forall a: int :: TakenBy(ts, a) ==> !Inside(a, q)
    ensures Separate(FootprintOf(p, ts), FootprintOf(q, us))
  {
  }

  lemma LayoutFootprints(g: Geometry, c: Config, jobs: seq<seq<Task>>, r: nat, s: nat)
    requires UsesLayout(g, c) && |jobs| <= |g.copyBufs| && InBuffers(c, jobs) && r < |jobs| && s < |jobs| && r != s
    ensures Separate(FootprintOf(g.CopyBuf(r), jobs[r]), FootprintOf(g.CopyBuf(s), jobs[s]))
  {
    CopyBufsApart(g, c, r, s);
    forall a: int | TakenBy(jobs[s], a) ensures !Inside(a, g.CopyBuf(r)) { TakenOutside(g, c, r, jobs[s], a); }
    forall a: int | TakenBy(jobs[r], a) ensures !Inside(a, g.CopyBuf(s)) { TakenOutside(g, c, s, jobs[r], a); }
    FootprintsSeparate(g.CopyBuf(r), jobs[r], g.CopyBuf(s), jobs[s]);
  }

  /** With the DRAM layout of the firmware nothing else is needed: modified
      copybacks from any SATA, FTL, HIL or temporary buffer, any number of them on
      any of the banks, with stores to these buffers in between, never interfere. */
  lemma LayoutCopybacks(g: Geometry, c: Config, jobs: seq<seq<Task>>, e: Engine, evs: seq<Event>,
                        b: nat, row: nat, i: nat)
    requires UsesLayout(g, c) && Valid(g, e) && Idle(e) && |jobs| == |e.work| <= |g.copyBufs|
    requires b < |jobs| && i < c.pageBytes && InBuffers(c, jobs)
    requires ServesAll(g, jobs, evs) && IsFreeRun(g, Footprints(g, jobs), e, evs)
    ensures IsRun(g, e, evs)
    ensures Idle(EndOf(g, e, evs)) ==>
      && |EndOf(g, e, evs).mem.banks| == |jobs|
      && At(Row(EndOf(g, e, evs).mem.banks[b], row), i) == PageByte(e.mem, b, jobs[b], row, i)
  {
    forall k, j | 0 <= k < |jobs| && 0 <= j < |jobs[k]| ensures ProperTask(g.CopyBuf(k), jobs[k][j]) {
      assert FromBuffers(c, jobs[k]) && FromBuffer(c, jobs[k][j]);
      var x :| InBuffer(c, jobs[k][j], x);
      LayoutIsProper(g, c, k, jobs[k][j], x);
    }
    forall r, s | 0 <= r < |jobs| && 0 <= s < |jobs| && r != s
      ensures Separate(FootprintOf(g.CopyBuf(r), jobs[r]), FootprintOf(g.CopyBuf(s), jobs[s]))
    {
      LayoutFootprints(g, c, jobs, r, s);
    }
    CopybacksDoNotInterfere(g, jobs, e, evs, b, row, i);
  }
}
