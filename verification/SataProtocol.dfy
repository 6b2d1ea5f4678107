/** The two-party SATA protocol: an interrupt handler that accepts host commands
    and a main loop that serves them, over whole runs. */
module SataProtocol {
  import opened Common
  import Division
  import opened SataCommand

  /** Action flags written to start a transfer. */
  datatype Start = DmaRead | PioRead | DmaWrite | PioWrite

  function StartOf(code: nat): Start {
    if code == ATA_DATA_SET_MANAGEMENT then DmaWrite
    else if AttrOf(code).kind == HostToDevice then
      (if code == ATA_WRITE_DMA || code == ATA_WRITE_DMA_EXT then DmaWrite else PioWrite)
    else if code == ATA_READ_DMA || code == ATA_READ_DMA_EXT then DmaRead else PioRead
  }

  datatype SlowCmd = Nothing | Pending(code: nat, x: Extent)

  datatype Reply = NotFound | Aborted | Done(code: nat)

  /** A command that was accepted: as decoded, how its transfer is to be started,
      and as the host sent it. */
  datatype Accepted = Accepted(req: Request, start: Start, fis: Fis)

  /** The shared context, the hardware event queue, and records of what was
      received, accepted, started, replied and passed on to the FTL. */
  datatype State = State(queue: seq<Entry>, eqFull: bool, flags: Start, slow: SlowCmd, chs: Chs, fisD1: u32,
                         received: nat, accepted: seq<Accepted>, starts: seq<Start>, replies: seq<Reply>,
                         calls: seq<Call>)

  const RESET := State([], false, DmaRead, Nothing, NO_GEOMETRY, 0, 0, [], [], [], [])

  /** `full` is the queue's full flag after the insertion; the main loop takes one
      step, `linkUp` being the state of the link when it does. */
  datatype Event = Command(f: Fis, full: bool) | Serve(linkUp: bool)

  /** The interrupt: reject, enqueue and start or defer, or leave to the main loop. */
  function OnCommand(numSectors: u32, s: State, f: Fis, full: bool): State {
    var s := s.(received := s.received + 1, fisD1 := f.d1);
    match Judge(numSectors, s.chs, f)
    case Reject => s.(replies := s.replies + [NotFound])
    case Slow(x) => s.(slow := Pending(f.code, x))
    case Transfer(req) =>
      var t := s.(queue := s.queue + [EntryOf(req)], accepted := s.accepted + [Accepted(req, StartOf(f.code), f)]);
      if full && !req.Trim? then t.(eqFull := true, flags := StartOf(f.code))
      else t.(starts := t.starts + [StartOf(f.code)])
  }

  /** INITIALIZE DEVICE PARAMETERS. */
  function NewGeometry(maxAddr: nat, d1: u32, count: nat): Chs
    requires count % 0x100 != 0
  {
    var heads, sectors := Head(d1) + 1, count % 0x100;
    Division.MulGrows(heads, sectors);
    var c := maxAddr / (heads * sectors);
    Chs(if c < 65535 then c else 65535, heads, sectors)
  }

  function OnSlow(maxAddr: nat, s: State): State
    requires s.slow.Pending?
  {
    var t := s.(slow := Nothing);
    if s.slow.code != ATA_INITIALIZE_DEV_PARA then t.(replies := s.replies + [Done(s.slow.code)])
    else if s.slow.x.count % 0x100 == 0 then t.(replies := s.replies + [Aborted])
    else t.(chs := NewGeometry(maxAddr, s.fisD1, s.slow.x.count), replies := s.replies + [Done(s.slow.code)])
  }

  /** One turn of the main loop. */
  function OnServe(maxAddr: nat, s: State, linkUp: bool): State {
    if s.queue != [] then
      s.(queue := s.queue[1..], calls := s.calls + [CallOf(s.queue[0])], eqFull := false,
         starts := if s.eqFull && linkUp then s.starts + [s.flags] else s.starts)
    else if s.slow.Pending? then OnSlow(maxAddr, s)
    else s
  }

  /** The host waits for a command to be started or answered before the next. */
  predicate HostMay(s: State) { !s.eqFull && s.slow.Nothing? }

  function Next(numSectors: u32, maxAddr: nat, s: State, e: Event): State {
    match e
    case Command(f, full) => OnCommand(numSectors, s, f, full)
    case Serve(linkUp) => OnServe(maxAddr, s, linkUp)
  }

  predicate IsRun(numSectors: u32, maxAddr: nat, s: State, es: seq<Event>)
    decreases |es|
  {
    es == [] || (
      && (es[0].Command? ==> HostMay(s))
      && IsRun(numSectors, maxAddr, Next(numSectors, maxAddr, s, es[0]), es[1..]))
  }

  function EndOf(numSectors: u32, maxAddr: nat, s: State, es: seq<Event>): State
    decreases |es|
  {
    if es == [] then s else EndOf(numSectors, maxAddr, Next(numSectors, maxAddr, s, es[0]), es[1..])
  }

  // ----- what holds in every state -----

  function Starts(acc: seq<Accepted>): seq<Start> { seq(|acc|, i requires 0 <= i < |acc| => acc[i].start) }

  function Calls(es: seq<Entry>): seq<Call> { seq(|es|, i requires 0 <= i < |es| => CallOf(es[i])) }

  function Entries(acc: seq<Accepted>): seq<Entry> { seq(|acc|, i requires 0 <= i < |acc| => EntryOf(acc[i].req)) }

  /** Transfers started, then the one that is deferred. */
  function Deferred(s: State): seq<Start> { if s.eqFull then [s.flags] else [] }

  /** A deferred start implies a non-empty queue, whose service will release it;
      the FTL is called once for every accepted command, in order; and every
      command received is accepted, answered, or waiting for its answer. */
  ghost predicate Inv(s: State) {
    && (s.eqFull ==> s.queue != [] && s.slow.Nothing?)
    && s.calls + Calls(s.queue) == Calls(Entries(s.accepted))
    && s.received == |s.accepted| + |s.replies| + (if s.slow.Pending? then 1 else 0)
  }

  /** Every accepted transfer is started once or deferred, in order and with its
      own flags. */
  ghost predicate AllStarted(s: State) { s.starts + Deferred(s) == Starts(s.accepted) }

  /** Starts that become due while the link is down. */
  function Lost(numSectors: u32, maxAddr: nat, s: State, es: seq<Event>): nat
    decreases |es|
  {
    if es == [] then 0
    else (if es[0].Serve? && !es[0].linkUp && s.queue != [] && s.eqFull then 1 else 0)
         + Lost(numSectors, maxAddr, Next(numSectors, maxAddr, s, es[0]), es[1..])
  }

  /** Transfers that were accepted, but neither started nor deferred. */
  function Missing(s: State): int { |s.accepted| - |s.starts| - |Deferred(s)| }

  lemma CommandKeepsInv(numSectors: u32, s: State, f: Fis, full: bool)
    requires Inv(s) && HostMay(s)
    ensures Inv(OnCommand(numSectors, s, f, full))
    ensures AllStarted(s) ==> AllStarted(OnCommand(numSectors, s, f, full))
  {
    var t := OnCommand(numSectors, s, f, full);
    if Judge(numSectors, s.chs, f).Transfer? {
      var a := t.accepted[|s.accepted|];
      assert Starts(t.accepted) == Starts(s.accepted) + [a.start];
      assert Entries(t.accepted) == Entries(s.accepted) + [EntryOf(a.req)];
      assert Calls(Entries(t.accepted)) == Calls(Entries(s.accepted)) + [CallOf(EntryOf(a.req))];
      assert Calls(t.queue) == Calls(s.queue) + [CallOf(EntryOf(a.req))];
    }
  }

  lemma ServeKeepsInv(maxAddr: nat, s: State, linkUp: bool)
    requires Inv(s)
    ensures Inv(OnServe(maxAddr, s, linkUp))
    ensures AllStarted(s) && (s.eqFull ==> linkUp) ==> AllStarted(OnServe(maxAddr, s, linkUp))
  {
    if s.queue != [] {
      assert Calls(s.queue) == [CallOf(s.queue[0])] + Calls(s.queue[1..]);
    }
  }

  /** The accounts hold in every run, whatever the link does. */
  lemma {:induction false} RunKeepsInv(numSectors: u32, maxAddr: nat, s: State, es: seq<Event>)
    requires Inv(s) && IsRun(numSectors, maxAddr, s, es)
    ensures Inv(EndOf(numSectors, maxAddr, s, es))
    ensures AllStarted(s) && Lost(numSectors, maxAddr, s, es) == 0 ==> AllStarted(EndOf(numSectors, maxAddr, s, es))
    decreases |es|
  {
    if es != [] {
      match es[0] {
        case Command(f, full) => CommandKeepsInv(numSectors, s, f, full);
        case Serve(linkUp) => ServeKeepsInv(maxAddr, s, linkUp);
      }
      RunKeepsInv(numSectors, maxAddr, Next(numSectors, maxAddr, s, es[0]), es[1..]);
    }
  }

  /** Over any run, exactly the starts that become due while the link is down go
      missing, and none of them is ever made up for. */
  lemma {:induction false} LinkDownLoses(numSectors: u32, maxAddr: nat, s: State, es: seq<Event>)
    requires IsRun(numSectors, maxAddr, s, es)
    ensures Missing(EndOf(numSectors, maxAddr, s, es)) == Missing(s) + Lost(numSectors, maxAddr, s, es)
    decreases |es|
  {
    if es != [] {
      LinkDownLoses(numSectors, maxAddr, Next(numSectors, maxAddr, s, es[0]), es[1..]);
    }
  }

  /** So every accepted transfer is started or deferred exactly when there are none. */
  lemma AllStartedExactly(numSectors: u32, maxAddr: nat, s: State, es: seq<Event>)
    requires Inv(s) && AllStarted(s) && IsRun(numSectors, maxAddr, s, es)
    ensures AllStarted(EndOf(numSectors, maxAddr, s, es)) <==> Lost(numSectors, maxAddr, s, es) == 0
  {
    RunKeepsInv(numSectors, maxAddr, s, es);
    LinkDownLoses(numSectors, maxAddr, s, es);
    assert |s.starts + Deferred(s)| == |Starts(s.accepted)|;
    var t := EndOf(numSectors, maxAddr, s, es);
    if AllStarted(t) { assert |t.starts + Deferred(t)| == |Starts(t.accepted)|; }
  }

  /** Serving as often as the queue is long empties it and releases any deferred
      start. */
  lemma {:induction false} DrainReleases(numSectors: u32, maxAddr: nat, s: State)
    requires Inv(s)
    ensures var t := EndOf(numSectors, maxAddr, s, seq(|s.queue|, _ => Serve(true)));
      && t.queue == [] && !t.eqFull && t.calls == Calls(Entries(s.accepted))
      && t.starts == s.starts + Deferred(s) && t.accepted == s.accepted && Inv(t)
    decreases |s.queue|
  {
    var es := seq(|s.queue|, _ => Serve(true));
    if s.queue != [] {
      var t := OnServe(maxAddr, s, true);
      ServeKeepsInv(maxAddr, s, true);
      assert es[1..] == seq(|t.queue|, _ => Serve(true));
      DrainReleases(numSectors, maxAddr, t);
    } else {
      assert Calls(s.queue) == [] && Deferred(s) == [];
    }
  }

  // ----- how transfers are started -----

  /** Data goes to the host for reads and from the host for writes and trims; by
      DMA for the commands that are named so and for trims, else by PIO. */
  predicate StartsRight(a: Accepted) {
    && (a.start.DmaRead? || a.start.PioRead? <==> a.req.Read?)
    && (a.start.DmaRead? || a.start.DmaWrite? <==>
          a.fis.code == 0xC8 || a.fis.code == 0x25 || a.fis.code == 0xCA || a.fis.code == 0x35 || a.fis.code == 0x06)
    && (a.req.Read? <==> ReadCode(a.fis.code) || a.fis.code == 0x60)
    && (a.req.Write? <==> WriteCode(a.fis.code) || a.fis.code == 0x61)
  }

  ghost predicate AllStartRight(acc: seq<Accepted>) { forall i :: 0 <= i < |acc| ==> StartsRight(acc[i]) }

  lemma TransferStartsRight(numSectors: u32, g: Chs, f: Fis)
    requires Judge(numSectors, g, f).Transfer?
    ensures StartsRight(Accepted(Judge(numSectors, g, f).req, StartOf(f.code), f))
  {
    TableOfCodes(f.code);
  }

  /** In every run, each accepted command has the flags of its direction and of its
      way of transfer. */
  lemma {:induction false} FlagsAreRight(numSectors: u32, maxAddr: nat, s: State, es: seq<Event>)
    requires AllStartRight(s.accepted)
    ensures AllStartRight(EndOf(numSectors, maxAddr, s, es).accepted)
    decreases |es|
  {
    if es != [] {
      if es[0].Command? && Judge(numSectors, s.chs, es[0].f).Transfer? {
        TransferStartsRight(numSectors, s.chs, es[0].f);
      }
      FlagsAreRight(numSectors, maxAddr, Next(numSectors, maxAddr, s, es[0]), es[1..]);
    }
  }

  // ----- CHS geometry -----

  /** The class table gives INITIALIZE DEVICE PARAMETERS no address fields, so
      that its handler always sees a count of zero and aborts. */
  ghost predicate NoGeometry(s: State) {
    && s.chs == NO_GEOMETRY
    && (s.slow.Pending? && s.slow.code == ATA_INITIALIZE_DEV_PARA ==> s.slow.x.count == 0)
  }

  /** No run of any commands ever sets a CHS geometry ... */
  lemma {:induction false} GeometryNeverSet(numSectors: u32, maxAddr: nat, s: State, es: seq<Event>)
    requires NoGeometry(s)
    ensures NoGeometry(EndOf(numSectors, maxAddr, s, es))
    decreases |es|
  {
    if es != [] {
      assert AttrOf(ATA_INITIALIZE_DEV_PARA) == Attr(Other, NoAddress, false);
      GeometryNeverSet(numSectors, maxAddr, Next(numSectors, maxAddr, s, es[0]), es[1..]);
    }
  }

  /** ... so that a CHS address means its sector number alone. */
  lemma ChsIgnoresCylinder(numSectors: u32, maxAddr: nat, es: seq<Event>, f: Fis)
    requires AttrOf(f.code).layout == Short && !LbaBit(f.d1)
    ensures DecodeFis(EndOf(numSectors, maxAddr, RESET, es).chs, f).lba == Wrap32(Sector(f.d1) - 1)
  {
    GeometryNeverSet(numSectors, maxAddr, RESET, es);
  }

  // ----- answers -----

  /** The answer to a command, if it is not a transfer: it is rejected, or the main
      loop reports it done, except that it can only abort INITIALIZE DEVICE PARAMETERS. */
  function AnswerTo(numSectors: u32, f: Fis): seq<Reply> {
    match Judge(numSectors, NO_GEOMETRY, f)
    case Reject => [NotFound]
    case Transfer(_) => []
    case Slow(_) => [SlowAnswer(f.code)]
  }

  function SlowAnswer(code: nat): Reply { if code == 0x91 then Aborted else Done(code) }

  function Answers(numSectors: u32, es: seq<Event>): seq<Reply>
    decreases |es|
  {
    if es == [] then []
    else (if es[0].Command? then AnswerTo(numSectors, es[0].f) else []) + Answers(numSectors, es[1..])
  }

  /** Answers given, then the one that the main loop still owes. */
  function Answered(s: State): seq<Reply> {
    s.replies + if s.slow.Pending? then [SlowAnswer(s.slow.code)] else []
  }

  lemma StepAnswers(numSectors: u32, maxAddr: nat, s: State, e: Event)
    requires NoGeometry(s) && (e.Command? ==> HostMay(s))
    ensures NoGeometry(Next(numSectors, maxAddr, s, e))
    ensures Answered(Next(numSectors, maxAddr, s, e))
         == Answered(s) + if e.Command? then AnswerTo(numSectors, e.f) else []
  {
    assert AttrOf(ATA_INITIALIZE_DEV_PARA) == Attr(Other, NoAddress, false);
  }

  /** In every run, the answers are those to the commands received, in their
      order, up to the one that the main loop still owes. */
  lemma {:induction false} AnsweredInOrder(numSectors: u32, maxAddr: nat, s: State, es: seq<Event>)
    requires NoGeometry(s) && IsRun(numSectors, maxAddr, s, es)
    ensures Answered(EndOf(numSectors, maxAddr, s, es)) == Answered(s) + Answers(numSectors, es)
    decreases |es|
  {
    if es != [] {
      var t := Next(numSectors, maxAddr, s, es[0]);
      StepAnswers(numSectors, maxAddr, s, es[0]);
      AnsweredInOrder(numSectors, maxAddr, t, es[1..]);
    }
  }

  // ----- end to end -----

  /** The accepted commands are those that the interrupt judged to be transfers. */
  ghost predicate AllJudged(numSectors: u32, acc: seq<Accepted>) {
    forall i :: 0 <= i < |acc| ==> Judge(numSectors, NO_GEOMETRY, acc[i].fis) == Transfer(acc[i].req)
  }

  lemma {:induction false} RunIsJudged(numSectors: u32, maxAddr: nat, s: State, es: seq<Event>)
    requires AllJudged(numSectors, s.accepted) && NoGeometry(s)
    ensures AllJudged(numSectors, EndOf(numSectors, maxAddr, s, es).accepted)
    decreases |es|
  {
    if es != [] {
      GeometryNeverSet(numSectors, maxAddr, s, [es[0]]);
      assert EndOf(numSectors, maxAddr, s, [es[0]]) == Next(numSectors, maxAddr, s, es[0]) by {
        assert [es[0]][1..] == [];
      }
      RunIsJudged(numSectors, maxAddr, Next(numSectors, maxAddr, s, es[0]), es[1..]);
    }
  }

  /** In every run from reset, whatever the host sends and however it counts
      sectors: each accepted command has its call of the FTL, made or still queued,
      in order; and the call does what the host sent exactly if that is plain. */
  lemma ServedExactly(numSectors: u32, maxAddr: nat, h: Chs, es: seq<Event>, i: nat)
    requires numSectors <= TRIM_MARKER && IsGeometry(h) && IsRun(numSectors, maxAddr, RESET, es)
    requires i < |EndOf(numSectors, maxAddr, RESET, es).accepted|
    requires !Queued(EndOf(numSectors, maxAddr, RESET, es).accepted[i].fis)
    ensures var t := EndOf(numSectors, maxAddr, RESET, es);
      && |t.calls| + |t.queue| == |t.accepted|
      && (Obeys(h, t.accepted[i].fis, (t.calls + Calls(t.queue))[i]) <==> Plain(t.accepted[i].fis))
  {
    var t := EndOf(numSectors, maxAddr, RESET, es);
    assert RESET.calls + Calls([]) == Calls(Entries([]));
    RunKeepsInv(numSectors, maxAddr, RESET, es);
    RunIsJudged(numSectors, maxAddr, RESET, es);
    assert |t.calls + Calls(t.queue)| == |Calls(Entries(t.accepted))|;
    assert Calls(Entries(t.accepted))[i] == CallOf(EntryOf(t.accepted[i].req));
    ObeyedExactly(numSectors, h, t.accepted[i].fis);
  }

  /** The host sends only plain commands, and none of the queued ones. */
  ghost predicate AllPlain(es: seq<Event>) {
    forall j :: 0 <= j < |es| && es[j].Command? ==> Plain(es[j].f) && !Queued(es[j].f)
  }

  ghost predicate AcceptedPlain(acc: seq<Accepted>) {
    forall i :: 0 <= i < |acc| ==> Plain(acc[i].fis) && !Queued(acc[i].fis)
  }

  lemma {:induction false} RunIsPlain(numSectors: u32, maxAddr: nat, s: State, es: seq<Event>)
    requires AcceptedPlain(s.accepted) && AllPlain(es)
    ensures AcceptedPlain(EndOf(numSectors, maxAddr, s, es).accepted)
    decreases |es|
  {
    if es != [] {
      RunIsPlain(numSectors, maxAddr, Next(numSectors, maxAddr, s, es[0]), es[1..]);
    }
  }

  /** The calls do what the host sent, command by command. */
  ghost predicate AllObeyed(h: Chs, acc: seq<Accepted>, calls: seq<Call>) {
    |calls| <= |acc| && forall i :: 0 <= i < |calls| ==> Obeys(h, acc[i].fis, calls[i])
  }

  ghost predicate AllOnDisk(numSectors: u32, h: Chs, acc: seq<Accepted>) {
    forall i :: 0 <= i < |acc| && !IsTrim(acc[i].fis) ==> OnHostDisk(numSectors, h, acc[i].fis)
  }

  lemma AcceptedOnDisk(numSectors: u32, h: Chs, a: Accepted)
    requires numSectors <= TRIM_MARKER && IsGeometry(h) && !Queued(a.fis) && Plain(a.fis) && !IsTrim(a.fis)
    requires Judge(numSectors, NO_GEOMETRY, a.fis) == Transfer(a.req)
    ensures OnHostDisk(numSectors, h, a.fis)
  {
    PlainIsJudged(numSectors, h, a.fis);
  }

  /** In every run from reset in which the host sends plain commands, all accepted
      transfers lie on the disk, and the FTL is called in their order with exactly
      what the host sent; when the queue is empty, for all of them, and then all of
      them have been started if and only if no start became due while the link was
      down. */
  lemma EndToEnd(numSectors: u32, maxAddr: nat, h: Chs, es: seq<Event>)
    requires numSectors <= TRIM_MARKER && IsGeometry(h)
    requires IsRun(numSectors, maxAddr, RESET, es) && AllPlain(es)
    ensures var t := EndOf(numSectors, maxAddr, RESET, es);
      && AllOnDisk(numSectors, h, t.accepted)
      && AllObeyed(h, t.accepted, t.calls + Calls(t.queue)) && |t.calls| + |t.queue| == |t.accepted|
      && (t.queue == [] ==> AllObeyed(h, t.accepted, t.calls))
      && (t.queue == [] ==> (t.starts == Starts(t.accepted) <==> Lost(numSectors, maxAddr, RESET, es) == 0))
  {
    var t := EndOf(numSectors, maxAddr, RESET, es);
    assert RESET.starts + Deferred(RESET) == Starts([]) && RESET.calls + Calls([]) == Calls(Entries([]));
    RunKeepsInv(numSectors, maxAddr, RESET, es);
    AllStartedExactly(numSectors, maxAddr, RESET, es);
    assert !t.eqFull ==> t.starts + Deferred(t) == t.starts;
    RunIsJudged(numSectors, maxAddr, RESET, es);
    RunIsPlain(numSectors, maxAddr, RESET, es);
    assert |t.calls + Calls(t.queue)| == |Calls(Entries(t.accepted))|;
    forall i | 0 <= i < |t.accepted| ensures Obeys(h, t.accepted[i].fis, (t.calls + Calls(t.queue))[i]) {
      ServedExactly(numSectors, maxAddr, h, es, i);
    }
    forall i | 0 <= i < |t.accepted| && !IsTrim(t.accepted[i].fis)
      ensures OnHostDisk(numSectors, h, t.accepted[i].fis)
    {
      AcceptedOnDisk(numSectors, h, t.accepted[i]);
    }
    assert t.queue == [] ==> t.calls + Calls(t.queue) == t.calls;
  }

  // ----- commands that are not plain -----

  /** A write to the 48-bit address 2^32 overwrites sector 0 ... */
  lemma HighAddressLost(numSectors: u32, maxAddr: nat, h: Chs)
    requires 0 < numSectors
    ensures var f := Fis(ATA_WRITE_DMA_EXT, 0, 0x100, 1);
      var es := [Command(f, false), Serve(true)];
      && HostLba(h, f) == TWO_TO_32 && IsRun(numSectors, maxAddr, RESET, es)
      && EndOf(numSectors, maxAddr, RESET, es).calls == [FtlWrite(0, 1)]
  {
    var f := Fis(ATA_WRITE_DMA_EXT, 0, 0x100, 1);
    TwoEvents(numSectors, maxAddr, f);
    assert CallOf(EntryOf(Write(0, 1))) == FtlWrite(0, 1);
  }

  /** ... and so does one to cylinder 5, head 3, sector 1, for a host that counts
      16 heads and 63 sectors: sector 5229 of the disk. */
  lemma CylinderLost(numSectors: u32, maxAddr: nat, cylinders: nat)
    requires 0 < numSectors
    ensures var f := Fis(ATA_WRITE_DMA, 0x0300_0501, 0, 1);
      var es := [Command(f, false), Serve(true)];
      && HostLba(Chs(cylinders, 16, 63), f) == 5229 && IsRun(numSectors, maxAddr, RESET, es)
      && EndOf(numSectors, maxAddr, RESET, es).calls == [FtlWrite(0, 1)]
  {
    var f := Fis(ATA_WRITE_DMA, 0x0300_0501, 0, 1);
    TwoEvents(numSectors, maxAddr, f);
    assert CallOf(EntryOf(Write(0, 1))) == FtlWrite(0, 1);
  }

  lemma TwoEvents(numSectors: u32, maxAddr: nat, f: Fis)
    requires Judge(numSectors, NO_GEOMETRY, f) == Transfer(Write(0, 1))
    ensures var es := [Command(f, false), Serve(true)];
      && IsRun(numSectors, maxAddr, RESET, es)
      && EndOf(numSectors, maxAddr, RESET, es).calls == [CallOf(EntryOf(Write(0, 1)))]
  {
    var es := [Command(f, false), Serve(true)];
    var s := Next(numSectors, maxAddr, RESET, es[0]);
    assert es[1..] == [Serve(true)] && es[1..][1..] == [];
    assert s.queue == [EntryOf(Write(0, 1))] && s.calls == [];
    var t := Next(numSectors, maxAddr, s, Serve(true));
    assert t.calls == [CallOf(EntryOf(Write(0, 1)))];
    assert EndOf(numSectors, maxAddr, s, es[1..]) == EndOf(numSectors, maxAddr, t, es[1..][1..]) == t;
  }
}
