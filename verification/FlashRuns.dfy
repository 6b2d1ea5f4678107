/** Whole runs of the flash controller: every interleaving of firmware and banks
    ends with the memory that one-at-a-time execution gives. */
module FlashRuns {
  import opened Common
  import opened FlashMemory
  import opened FlashCommands
  import opened FlashEngine

  datatype Event =
    | FwIssue(cmd: Cmd)             // the firmware writes FCP_ISSUE
    | FwPoke(addr: int, val: byte)  // the firmware (or the host) stores a DRAM byte
    | HwAccept
    | HwWork(bank: nat)
    | HwFinish(bank: nat)

  /** No work in flight loads or stores the DRAM byte `a`. */
  ghost predicate Untouched(g: Geometry, e: Engine, a: int) {
    && (forall b :: 0 <= b < |e.work| && e.work[b].Some? ==> NeverTouches(e.work[b].value, a))
    && (e.room.Some? ==> NeverTouches(Decode(g, e.room.value), a))
  }

  /** The firmware issues only into an empty Waiting Room; the banks do whatever
      they can in any order. */
  predicate Possible(e: Engine, ev: Event) {
    match ev
    case FwIssue(c) => CanIssue(e, c)
    case FwPoke(_, _) => true
    case HwAccept => CanAccept(e)
    case HwWork(b) => CanWork(e, b)
    case HwFinish(b) => CanFinish(e, b)
  }

  /** Besides, the firmware does not reuse a DRAM buffer that is still in flight. */
  ghost predicate Enabled(g: Geometry, e: Engine, ev: Event) {
    && Possible(e, ev)
    && (ev.FwIssue? ==> ApartFrom(g, e, ev.cmd.bank, Decode(g, ev.cmd)))
    && (ev.FwPoke? ==> Untouched(g, e, ev.addr))
  }

  function After(g: Geometry, e: Engine, ev: Event): Engine
    requires Possible(e, ev)
  {
    match ev
    case FwIssue(c) => Issue(e, c)
    case FwPoke(a, v) => e.(mem := Poke(a, v, e.mem))
    case HwAccept => Accept(g, e)
    case HwWork(b) => DoWork(e, b)
    case HwFinish(b) => Finish(e, b)
  }

  ghost predicate IsRun(g: Geometry, e: Engine, evs: seq<Event>)
    decreases |evs|
  {
    evs == [] || (Enabled(g, e, evs[0]) && IsRun(g, After(g, e, evs[0]), evs[1..]))
  }

  ghost function EndOf(g: Geometry, e: Engine, evs: seq<Event>): Engine
    requires IsRun(g, e, evs)
    decreases |evs|
  {
    if evs == [] then e else EndOf(g, After(g, e, evs[0]), evs[1..])
  }

  /** The synchronous reading of a run: each command takes effect as a whole
      when it is issued. */
  function Sequential(g: Geometry, evs: seq<Event>, m: Mem): Mem {
    if evs == [] then m
    else
      var m' := match evs[0]
        case FwIssue(c) => if c.bank < |m.banks| then Run(c.bank, Decode(g, c), m) else m
        case FwPoke(a, v) => Poke(a, v, m)
        case _ => m;
      Sequential(g, evs[1..], m')
  }

  lemma {:induction false} DrainPoke(work: seq<Option<seq<Op>>>, n: nat, a: int, v: byte, m: Mem)
    requires n <= |work| == |m.banks|
    requires forall b :: 0 <= b < n && work[b].Some? ==> NeverTouches(work[b].value, a)
    ensures Poke(a, v, Drain(work, n, m)) == Drain(work, n, Poke(a, v, m))
  {
    if n > 0 {
      DrainPoke(work, n - 1, a, v, m);
      if work[n - 1].Some? { PokeRunCommute(a, v, n - 1, work[n - 1].value, Drain(work, n - 1, m)); }
    }
  }

  lemma PokeStep(g: Geometry, e: Engine, a: int, v: byte)
    requires Valid(g, e) && Untouched(g, e, a)
    ensures var e' := e.(mem := Poke(a, v, e.mem));
      Valid(g, e') && Settled(g, e') == Poke(a, v, Settled(g, e))
  {
    var e' := e.(mem := Poke(a, v, e.mem));
    DrainPoke(e.work, |e.work|, a, v, e.mem);
    assert e'.(room := None).work == e.(room := None).work;
    if e.room.Some? {
      PokeRunCommute(a, v, e.room.value.bank, Decode(g, e.room.value), Drain(e.work, |e.work|, e.mem));
    }
  }

  /** Asynchronous execution refines one-at-a-time execution, for every run. */
  lemma {:induction false} AsynchronousRefinesSequential(g: Geometry, e: Engine, evs: seq<Event>)
    requires Valid(g, e) && IsRun(g, e, evs)
    ensures Valid(g, EndOf(g, e, evs))
    ensures Settled(g, EndOf(g, e, evs)) == Sequential(g, evs, Settled(g, e))
    ensures Idle(EndOf(g, e, evs)) ==> EndOf(g, e, evs).mem == Sequential(g, evs, Settled(g, e))
    decreases |evs|
  {
    if evs == [] {
      if Idle(e) { DrainIdle(e.work, |e.work|, e.mem); }
    } else {
      match evs[0] {
        case FwIssue(c) => IssueStep(g, e, c);
        case FwPoke(a, v) => PokeStep(g, e, a, v);
        case HwAccept => AcceptStep(g, e);
        case HwWork(b) => WorkStep(g, e, b);
        case HwFinish(b) => FinishStep(g, e, b);
      }
      AsynchronousRefinesSequential(g, After(g, e, evs[0]), evs[1..]);
    }
  }

  /** Two runs in which the firmware does the same things in the same order, and
      which both end idle, end with the same memory whatever the banks did. */
  lemma InterleavingIsInvisible(g: Geometry, e: Engine, evs: seq<Event>, evs': seq<Event>)
    requires Valid(g, e) && IsRun(g, e, evs) && IsRun(g, e, evs')
    requires FirmwarePart(evs) == FirmwarePart(evs')
    requires Idle(EndOf(g, e, evs)) && Idle(EndOf(g, e, evs'))
    ensures EndOf(g, e, evs).mem == EndOf(g, e, evs').mem
  {
    AsynchronousRefinesSequential(g, e, evs);
    AsynchronousRefinesSequential(g, e, evs');
    SequentialFirmware(g, evs, Settled(g, e));
    SequentialFirmware(g, evs', Settled(g, e));
  }

  function FirmwarePart(evs: seq<Event>): seq<Event> {
    if evs == [] then []
    else (if evs[0].FwIssue? || evs[0].FwPoke? then [evs[0]] else []) + FirmwarePart(evs[1..])
  }

  lemma {:induction false} SequentialFirmware(g: Geometry, evs: seq<Event>, m: Mem)
    ensures Sequential(g, evs, m) == Sequential(g, FirmwarePart(evs), m)
    decreases |evs|
  {
    if evs != [] {
      var rest := FirmwarePart(evs[1..]);
      if evs[0].FwIssue? || evs[0].FwPoke? {
        assert ([evs[0]] + rest)[1..] == rest;
        var m' := if evs[0].FwPoke? then Poke(evs[0].addr, evs[0].val, m)
                  else if evs[0].cmd.bank < |m.banks| then Run(evs[0].cmd.bank, Decode(g, evs[0].cmd), m) else m;
        SequentialFirmware(g, evs[1..], m');
      } else {
        assert [] + rest == rest;
        SequentialFirmware(g, evs[1..], m);
      }
    }
  }

  // ----- reading DRAM, progress -----

  /** No work in flight stores the DRAM byte `a`. */
  ghost predicate NotStored(g: Geometry, e: Engine, a: int) {
    && (forall b :: 0 <= b < |e.work| && e.work[b].Some? ==> NeverStores(e.work[b].value, a))
    && (e.room.Some? ==> NeverStores(Decode(g, e.room.value), a))
  }

  lemma {:induction false} DrainFrame(work: seq<Option<seq<Op>>>, n: nat, m: Mem, a: int)
    requires n <= |work| == |m.banks|
    requires forall b :: 0 <= b < n && work[b].Some? ==> NeverStores(work[b].value, a)
    ensures Peek(Drain(work, n, m).dram, a) == Peek(m.dram, a)
  {
    if n > 0 {
      DrainFrame(work, n - 1, m, a);
      if work[n - 1].Some? { RunFrame(n - 1, work[n - 1].value, Drain(work, n - 1, m), a); }
    }
  }

  /** A DRAM byte that nothing in flight stores can already be read. */
  lemma ReadIsSettled(g: Geometry, e: Engine, a: int)
    requires Shape(e) && NotStored(g, e, a)
    ensures Peek(e.mem.dram, a) == Peek(Settled(g, e).dram, a)
  {
    DrainFrame(e.work, |e.work|, e.mem, a);
    if e.room.Some? {
      RunFrame(e.room.value.bank, Decode(g, e.room.value), Drain(e.work, |e.work|, e.mem), a);
    }
  }

  /** Steps the hardware still has to take. */
  function StepsLeft(work: seq<Option<seq<Op>>>): nat {
    if work == [] then 0
    else StepsLeft(work[..|work| - 1])
         + if work[|work| - 1].Some? then |work[|work| - 1].value| + 1 else 0
  }

  function HardwareSteps(g: Geometry, e: Engine): nat {
    StepsLeft(e.work) + if e.room.Some? then |Decode(g, e.room.value)| + 2 else 0
  }

  lemma {:induction false} StepsLeftUpdate(work: seq<Option<seq<Op>>>, b: nat, w: Option<seq<Op>>)
    requires b < |work|
    ensures StepsLeft(work[b := w]) + (if work[b].Some? then |work[b].value| + 1 else 0)
         == StepsLeft(work) + (if w.Some? then |w.value| + 1 else 0)
    decreases |work|
  {
    var n := |work| - 1;
    if b == n {
      assert work[b := w][..n] == work[..n];
    } else {
      assert work[b := w][..n] == work[..n][b := w];
      StepsLeftUpdate(work[..n], b, w);
    }
  }

  /** While anything is in flight the hardware can take a step, and each step
      brings it closer to idle. */
  lemma Progress(g: Geometry, e: Engine)
    requires Valid(g, e) && !Idle(e)
    ensures CanAccept(e) || exists b: nat :: CanWork(e, b) || CanFinish(e, b)
  {
    if e.room.Some? {
      if e.work[e.room.value.bank].Some? { assert CanWork(e, e.room.value.bank) || CanFinish(e, e.room.value.bank); }
    } else {
      var b :| 0 <= b < |e.work| && e.work[b].Some?;
      assert CanWork(e, b) || CanFinish(e, b);
    }
  }

  lemma StepsShrink(g: Geometry, e: Engine)
    requires Valid(g, e)
    ensures CanAccept(e) ==> HardwareSteps(g, Accept(g, e)) < HardwareSteps(g, e)
    ensures forall b: nat | CanWork(e, b) :: HardwareSteps(g, DoWork(e, b)) < HardwareSteps(g, e)
    ensures forall b: nat | CanFinish(e, b) :: HardwareSteps(g, Finish(e, b)) < HardwareSteps(g, e)
  {
    if CanAccept(e) { StepsLeftUpdate(e.work, e.room.value.bank, Some(Decode(g, e.room.value))); }
    forall b: nat | CanWork(e, b) ensures HardwareSteps(g, DoWork(e, b)) < HardwareSteps(g, e) {
      StepsLeftUpdate(e.work, b, Some(e.work[b].value[1..]));
    }
    forall b: nat | CanFinish(e, b) ensures HardwareSteps(g, Finish(e, b)) < HardwareSteps(g, e) {
      StepsLeftUpdate(e.work, b, None);
    }
  }
}
