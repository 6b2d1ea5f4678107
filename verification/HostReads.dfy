/** Reads for the host: pages go from flash into the ring of SATA read buffers,
    on many banks at once, and the SATA hardware sends each buffer to the host
    once the read into it has completed. */
module HostReads {
  import opened Common
  import Division
  import opened FlashMemory
  import opened FlashCommands
  import opened FlashCalls
  import opened FlashEngine
  import opened FlashRuns
  import opened FlashApart
  import opened DramLayout
  import opened SataBuffers

  /** What was asked for and what the host got, in order. The `k`-th request uses
      read buffer `k` modulo their number. `room` and `busy` say which request the
      command in the Waiting Room, or at a bank, belongs to, if to any; `complete`
      are the requests whose reads have completed. */
  datatype Host = Host(e: Engine, asked: seq<Request>, got: seq<seq<byte>>,
                       room: Option<nat>, busy: seq<Option<nat>>, complete: set<nat>)

  datatype Step =
    | Ask(q: Request, cmd: Cmd)  // the firmware issues the read for a request
    | Send                       // the oldest buffer goes to the host
    | Other(ev: Event)           // any other command or store, and all that the banks do

  /** What a command may store to: the buffer of its request, or else anything
      but the ring. */
  ghost function FootOf(rb: Buffers, tag: Option<nat>): Footprint
    requires 0 < rb.num
  {
    match tag
    case Some(k) => Footprint(BufBytes(rb, k), iset{})
    case None => Footprint(iset a: int | !InRing(rb, a), iset{})
  }

  // ----- steps -----

  /** The firmware asks when the next buffer id differs from that of the hardware;
      other commands and stores of the firmware keep off the ring. */
  ghost predicate CanStep(g: Geometry, rb: Buffers, h: Host, s: Step)
    requires Usable(rb)
  {
    match s
    case Ask(q, cmd) =>
      && (|h.asked| + 1) % rb.num != |h.got| % rb.num
      && CanIssue(h.e, cmd) && cmd.bank == q.bank && Fits(rb, q)
      && Decode(g, cmd) == ReadOut(q.row, BufOf(rb, |h.asked|), q.sect, q.cnt)
    case Send => |h.got| < |h.asked| && |h.got| in h.complete
    case Other(ev) =>
      && Enabled(g, h.e, ev) && |h.busy| == |h.e.work|
      && (ev.FwIssue? ==> AllStay(Decode(g, ev.cmd), FootOf(rb, None)))
      && (ev.FwPoke? ==> !InRing(rb, ev.addr))
  }

  /** The bytes of a buffer, where `q` put them. */
  function DataAt(d: Dram, buf: nat, q: Request): seq<byte> {
    seq(q.cnt, i requires 0 <= i < q.cnt => Peek(d, ByteAddr(buf, q, i)))
  }

  function ByteAddr(buf: nat, q: Request, i: nat): nat { buf + q.sect * BYTES_PER_SECTOR + i }

  function BufferData(rb: Buffers, d: Dram, k: nat, q: Request): seq<byte>
    requires 0 < rb.num
  {
    DataAt(d, BufOf(rb, k), q)
  }

  ghost function Next(g: Geometry, rb: Buffers, h: Host, s: Step): Host
    requires Usable(rb) && CanStep(g, rb, h, s)
  {
    match s
    case Ask(q, cmd) => h.(e := Issue(h.e, cmd), asked := h.asked + [q], room := Some(|h.asked|))
    case Send => h.(got := h.got + [BufferData(rb, h.e.mem.dram, |h.got|, h.asked[|h.got|])])
    case Other(ev) => Tagged(h.(e := After(g, h.e, ev)), h.e.room, ev)
  }

  /** The request moves along with its command. */
  function Tagged(h: Host, was: Option<Cmd>, ev: Event): Host {
    match ev
    case FwIssue(_) => h.(room := None)
    case HwAccept =>
      if was.Some? && was.value.bank < |h.busy| then h.(room := None, busy := h.busy[was.value.bank := h.room]) else h
    case HwFinish(b) =>
      if b < |h.busy| then
        h.(busy := h.busy[b := None], complete := h.complete + if h.busy[b].Some? then {h.busy[b].value} else {})
      else h
    case _ => h
  }

  ghost predicate IsRunOf(g: Geometry, rb: Buffers, h: Host, ss: seq<Step>)
    requires Usable(rb)
    decreases |ss|
  {
    ss == [] || (CanStep(g, rb, h, ss[0]) && IsRunOf(g, rb, Next(g, rb, h, ss[0]), ss[1..]))
  }

  ghost function Last(g: Geometry, rb: Buffers, h: Host, ss: seq<Step>): Host
    requires Usable(rb) && IsRunOf(g, rb, h, ss)
    decreases |ss|
  {
    if ss == [] then h else Last(g, rb, Next(g, rb, h, ss[0]), ss[1..])
  }

  // ----- what the host is to get -----

  /** The requested bytes, as the page holds them. */
  function PageData(m: Mem, q: Request): seq<byte>
    requires q.bank < |m.banks|
  {
    seq(q.cnt, i requires 0 <= i < q.cnt => PageByte(m, q, i))
  }

  function PageByte(m: Mem, q: Request, i: nat): byte
    requires q.bank < |m.banks|
  {
    At(Row(m.banks[q.bank], q.row), PageOff(q, i))
  }

  function PageOff(q: Request, i: nat): nat { q.sect * BYTES_PER_SECTOR + i }

  /** The answer to a step that asks ... */
  function Answer(s: Step, m: Mem): seq<seq<byte>> {
    if s.Ask? && s.q.bank < |m.banks| then [PageData(m, s.q)] else []
  }

  /** ... and the memory after a step, if its command takes effect as a whole. */
  function Effect(g: Geometry, s: Step, m: Mem): Mem {
    match s
    case Ask(q, cmd) => if q.bank < |m.banks| then Run(q.bank, Decode(g, cmd), m) else m
    case Send => m
    case Other(ev) => Sequential(g, [ev], m)
  }

  /** The answers to all requests of a run in which every command takes effect as
      a whole when it is issued. */
  function Answers(g: Geometry, ss: seq<Step>, m: Mem): seq<seq<byte>> {
    if ss == [] then [] else Answer(ss[0], m) + Answers(g, ss[1..], Effect(g, ss[0], m))
  }

  // ----- what holds in every state -----

  /** A request that was asked for, not yet sent, and whose read is still going on. */
  predicate Going(h: Host, tag: Option<nat>) {
    tag.Some? ==> |h.got| <= tag.value < |h.asked| && tag.value !in h.complete
  }

  /** Commands in flight keep to the buffers of their requests, which differ. */
  ghost predicate TagsHold(g: Geometry, rb: Buffers, h: Host)
    requires Usable(rb)
  {
    && Shape(h.e) && |h.busy| == |h.e.work|
    && (h.e.room.Some? ==> AllStay(Decode(g, h.e.room.value), FootOf(rb, h.room)))
    && (h.e.room.None? ==> h.room.None?)
    && Going(h, h.room)
    && (forall b :: 0 <= b < |h.busy| ==> BankTag(rb, h, b))
    && (forall b, d :: 0 <= b < |h.busy| && 0 <= d < |h.busy| && b != d && h.busy[b].Some? ==> h.busy[b] != h.busy[d])
  }

  ghost predicate BankTag(rb: Buffers, h: Host, b: nat)
    requires Usable(rb) && b < |h.busy| == |h.e.work|
  {
    && (h.e.work[b].Some? ==> AllStay(h.e.work[b].value, FootOf(rb, h.busy[b])))
    && (h.e.work[b].None? ==> h.busy[b].None?)
    && Going(h, h.busy[b]) && (h.busy[b].Some? ==> h.busy[b] != h.room)
  }

  /** Every request that was asked for is complete, or its read is in flight. */
  ghost predicate NoneForgotten(h: Host) {
    forall k :: 0 <= k < |h.asked| && k !in h.complete ==> h.room == Some(k) || Some(k) in h.busy
  }

  /** What the buffers of unsent requests settle to. */
  ghost predicate BuffersHold(g: Geometry, rb: Buffers, h: Host, answers: seq<seq<byte>>)
    requires Usable(rb) && Shape(h.e)
  {
    && |answers| == |h.asked|
    && forall k :: |h.got| <= k < |h.asked| ==> BufferData(rb, Settled(g, h.e).dram, k, h.asked[k]) == answers[k]
  }

  ghost predicate Inv(g: Geometry, rb: Buffers, h: Host, answers: seq<seq<byte>>)
    requires Usable(rb)
  {
    && FlashEngine.Valid(g, h.e) && TagsHold(g, rb, h) && NoneForgotten(h)
    && (forall k :: k in h.complete ==> k < |h.asked|)
    && (forall k :: 0 <= k < |h.asked| ==> Fits(rb, h.asked[k]))
    && |h.got| <= |h.asked| <= |h.got| + rb.num - 1
    && BuffersHold(g, rb, h, answers) && h.got == answers[..|h.got|]
  }

  // ----- the ring -----

  /** The firmware's comparison leaves a buffer unused. */
  lemma AskLeavesOne(rb: Buffers, asked: nat, got: nat)
    requires Usable(rb) && got <= asked <= got + rb.num - 1 && (asked + 1) % rb.num != got % rb.num
    ensures asked + 1 <= got + rb.num - 1
  {
    if asked == got + rb.num - 1 {
      Division.DivUnique(asked + 1, got / rb.num + 1, got % rb.num, rb.num);
    }
  }

  // ----- every step keeps it -----

  lemma FootsApart(rb: Buffers, tag: Option<nat>, k: nat, lo: nat)
    requires Usable(rb) && lo <= k < lo + rb.num
    requires tag.Some? ==> lo <= tag.value < lo + rb.num && tag.value != k
    ensures Separate(FootOf(rb, tag), FootOf(rb, Some(k)))
  {
    BufFits(rb, k);
    if tag.Some? {
      if tag.value < k { BufsApart(rb, tag.value, k); } else { BufsApart(rb, k, tag.value); }
    }
  }

  lemma StayNeverStores(ops: seq<Op>, f: Footprint, a: int)
    requires AllStay(ops, f) && a !in f.own
    ensures NeverStores(ops, a)
  {
  }

  /** Nothing in flight stores to a buffer whose read is complete. */
  lemma CompleteIsQuiet(g: Geometry, rb: Buffers, h: Host, k: nat, a: int)
    requires Usable(rb) && TagsHold(g, rb, h) && |h.got| <= k < |h.asked| <= |h.got| + rb.num - 1
    requires k in h.complete && a in BufBytes(rb, k)
    ensures NotStored(g, h.e, a)
  {
    forall b | 0 <= b < |h.e.work| && h.e.work[b].Some? ensures NeverStores(h.e.work[b].value, a) {
      assert BankTag(rb, h, b);
      FootsApart(rb, h.busy[b], k, |h.got|);
      StayNeverStores(h.e.work[b].value, FootOf(rb, h.busy[b]), a);
    }
    if h.e.room.Some? {
      FootsApart(rb, h.room, k, |h.got|);
      StayNeverStores(Decode(g, h.e.room.value), FootOf(rb, h.room), a);
    }
  }

  ghost predicate SameBytes(d: Dram, d': Dram, s: iset<int>) {
    forall a: int :: a in s ==> Peek(d, a) == Peek(d', a)
  }

  lemma SameData(rb: Buffers, d: Dram, d': Dram, k: nat, q: Request)
    requires 0 < rb.num && Fits(rb, q) && SameBytes(d, d', BufBytes(rb, k))
    ensures BufferData(rb, d, k, q) == BufferData(rb, d', k, q)
  {
    SameDataAt(d, d', BufOf(rb, k), rb.pageBytes, q);
  }

  lemma SameDataAt(d: Dram, d': Dram, buf: nat, bytes: nat, q: Request)
    requires q.sect * BYTES_PER_SECTOR + q.cnt <= bytes && SameBytes(d, d', Bytes(CopyArea(buf, bytes)))
    ensures DataAt(d, buf, q) == DataAt(d', buf, q)
  {
    forall i | 0 <= i < q.cnt ensures Peek(d, ByteAddr(buf, q, i)) == Peek(d', ByteAddr(buf, q, i)) {
      assert ByteAddr(buf, q, i) in Bytes(CopyArea(buf, bytes));
    }
  }

  /** Such a buffer already holds what it settles to. */
  lemma CompleteIsSettled(g: Geometry, rb: Buffers, h: Host, k: nat, q: Request)
    requires Usable(rb) && TagsHold(g, rb, h) && |h.got| <= k < |h.asked| <= |h.got| + rb.num - 1
    requires k in h.complete && Fits(rb, q)
    ensures BufferData(rb, h.e.mem.dram, k, q) == BufferData(rb, Settled(g, h.e).dram, k, q)
  {
    forall a: int | a in BufBytes(rb, k) ensures Peek(h.e.mem.dram, a) == Peek(Settled(g, h.e).dram, a) {
      CompleteIsQuiet(g, rb, h, k, a);
      ReadIsSettled(g, h.e, a);
    }
    SameData(rb, h.e.mem.dram, Settled(g, h.e).dram, k, q);
  }

  lemma SendTags(g: Geometry, rb: Buffers, h: Host)
    requires Usable(rb) && TagsHold(g, rb, h) && CanStep(g, rb, h, Send)
    ensures TagsHold(g, rb, Next(g, rb, h, Send))
  {
    var h' := Next(g, rb, h, Send);
    forall b | 0 <= b < |h.busy| ensures BankTag(rb, h', b) { assert BankTag(rb, h, b); }
  }

  lemma SendStep(g: Geometry, rb: Buffers, h: Host, answers: seq<seq<byte>>)
    requires Usable(rb) && Inv(g, rb, h, answers) && CanStep(g, rb, h, Send)
    ensures Inv(g, rb, Next(g, rb, h, Send), answers)
  {
    var k := |h.got|;
    CompleteIsSettled(g, rb, h, k, h.asked[k]);
    SendTags(g, rb, h);
    assert answers[..k + 1] == answers[..k] + [answers[k]];
  }

  /** A read of a request stays in the request's buffer. */
  lemma AskStays(rb: Buffers, q: Request, k: nat)
    requires Usable(rb) && Fits(rb, q)
    ensures AllStay(ReadOut(q.row, BufOf(rb, k), q.sect, q.cnt), FootOf(rb, Some(k)))
  {
    BufFits(rb, k);
    ReadStays(q.row, BufOf(rb, k), rb.pageBytes, q.sect, q.cnt);
  }

  lemma ReadByte(d: Dram, p: Page, off: nat, start: int, cnt: nat, i: nat, a: int, j: nat)
    requires i < cnt && a == start + i && j == off + i
    ensures Peek(d + ToDram(p, off, start, cnt), a) == At(p, j)
  {
    assert off + (a - start) == j;
  }

  lemma AskReadsByte(b: nat, row: nat, sect: nat, cnt: nat, buf: nat, off: nat, start: u32, m: Mem,
                     i: nat, a: int, j: nat)
    requires b < |m.banks| && i < cnt && off == sect * BYTES_PER_SECTOR
    requires start == Wrap32(buf + sect * BYTES_PER_SECTOR)
    requires start + cnt <= TWO_TO_32 && a == start + i && j == off + i
    ensures Peek(Run(b, ReadOut(row, buf, sect, cnt), m).dram, a) == At(Row(m.banks[b], row), j)
  {
    ReadOutMeaning(b, row, sect, cnt, buf, m);
    ReadByte(m.dram, Row(m.banks[b], row), off, start, cnt, i, a, j);
  }

  lemma AskReadsOne(q: Request, buf: nat, m: Mem, i: nat)
    requires q.bank < |m.banks| && i < q.cnt && buf + q.sect * BYTES_PER_SECTOR + q.cnt <= TWO_TO_32
    ensures Peek(Run(q.bank, ReadOut(q.row, buf, q.sect, q.cnt), m).dram, ByteAddr(buf, q, i)) == PageByte(m, q, i)
  {
    WrapSmall(buf + q.sect * BYTES_PER_SECTOR);
    AskReadsByte(q.bank, q.row, q.sect, q.cnt, buf, q.sect * BYTES_PER_SECTOR, Wrap32(buf + q.sect * BYTES_PER_SECTOR),
                 m, i, ByteAddr(buf, q, i), PageOff(q, i));
  }

  /** It puts the page's bytes there. */
  lemma AskReads(q: Request, buf: nat, m: Mem)
    requires q.bank < |m.banks| && buf + q.sect * BYTES_PER_SECTOR + q.cnt <= TWO_TO_32
    ensures DataAt(Run(q.bank, ReadOut(q.row, buf, q.sect, q.cnt), m).dram, buf, q) == PageData(m, q)
  {
    var m' := Run(q.bank, ReadOut(q.row, buf, q.sect, q.cnt), m);
    forall i | 0 <= i < q.cnt ensures Peek(m'.dram, ByteAddr(buf, q, i)) == PageByte(m, q, i) {
      AskReadsOne(q, buf, m, i);
    }
    SameSeqs(m'.dram, buf, m, q);
  }

  lemma SameSeqs(d: Dram, buf: nat, m: Mem, q: Request)
    requires q.bank < |m.banks|
    requires forall i :: 0 <= i < q.cnt ==> Peek(d, ByteAddr(buf, q, i)) == PageByte(m, q, i)
    ensures DataAt(d, buf, q) == PageData(m, q)
  {
  }

  lemma AskApart(g: Geometry, rb: Buffers, h: Host, q: Request, cmd: Cmd)
    requires Usable(rb) && TagsHold(g, rb, h) && |h.got| <= |h.asked| < |h.got| + rb.num
    requires CanStep(g, rb, h, Ask(q, cmd))
    ensures ApartFrom(g, h.e, cmd.bank, Decode(g, cmd))
  {
    AskStays(rb, q, |h.asked|);
    forall b | 0 <= b < |h.e.work| && h.e.work[b].Some? ensures Independent(Decode(g, cmd), h.e.work[b].value) {
      assert BankTag(rb, h, b);
      FootsApart(rb, h.busy[b], |h.asked|, |h.got|);
      SeparateIsIndependent(Decode(g, cmd), FootOf(rb, Some(|h.asked|)), h.e.work[b].value, FootOf(rb, h.busy[b]));
    }
  }

  lemma AskTags(g: Geometry, rb: Buffers, h: Host, q: Request, cmd: Cmd)
    requires Usable(rb) && TagsHold(g, rb, h) && NoneForgotten(h) && CanStep(g, rb, h, Ask(q, cmd))
    requires |h.got| <= |h.asked| && forall k :: k in h.complete ==> k < |h.asked|
    ensures TagsHold(g, rb, Next(g, rb, h, Ask(q, cmd))) && NoneForgotten(Next(g, rb, h, Ask(q, cmd)))
  {
    var h' := Next(g, rb, h, Ask(q, cmd));
    AskStays(rb, q, |h.asked|);
    forall b | 0 <= b < |h.busy| ensures BankTag(rb, h', b) { assert BankTag(rb, h, b); }
    forall k | 0 <= k < |h'.asked| && k !in h'.complete ensures h'.room == Some(k) || Some(k) in h'.busy {
      if k < |h.asked| { assert h.room != Some(k); }
    }
  }

  /** Work that keeps off a buffer leaves what it settles to. */
  lemma OtherBufferKept(rb: Buffers, b: nat, ops: seq<Op>, tag: Option<nat>, m: Mem, k: nat, lo: nat, q: Request)
    requires Usable(rb) && lo <= k < lo + rb.num && b < |m.banks| && AllStay(ops, FootOf(rb, tag)) && Fits(rb, q)
    requires tag.Some? ==> lo <= tag.value < lo + rb.num && tag.value != k
    ensures BufferData(rb, Run(b, ops, m).dram, k, q) == BufferData(rb, m.dram, k, q)
  {
    FootsApart(rb, tag, k, lo);
    forall a: int | a in BufBytes(rb, k) ensures Peek(Run(b, ops, m).dram, a) == Peek(m.dram, a) {
      StayNeverStores(ops, FootOf(rb, tag), a);
      RunFrame(b, ops, m, a);
    }
    SameData(rb, Run(b, ops, m).dram, m.dram, k, q);
  }

  lemma AskStep(g: Geometry, rb: Buffers, h: Host, q: Request, cmd: Cmd, answers: seq<seq<byte>>)
    requires Usable(rb) && Inv(g, rb, h, answers) && CanStep(g, rb, h, Ask(q, cmd))
    ensures Inv(g, rb, Next(g, rb, h, Ask(q, cmd)), answers + [PageData(Settled(g, h.e), q)])
    ensures Settled(g, Next(g, rb, h, Ask(q, cmd)).e) == Run(q.bank, Decode(g, cmd), Settled(g, h.e))
  {
    var n, m, h' := |h.asked|, Settled(g, h.e), Next(g, rb, h, Ask(q, cmd));
    var answers' := answers + [PageData(m, q)];
    AskLeavesOne(rb, n, |h.got|);
    AskApart(g, rb, h, q, cmd);
    IssueStep(g, h.e, cmd);
    AskTags(g, rb, h, q, cmd);
    AskStays(rb, q, n);
    forall k | |h.got| <= k <= n ensures BufferData(rb, Settled(g, h'.e).dram, k, h'.asked[k]) == answers'[k] {
      if k < n {
        OtherBufferKept(rb, q.bank, Decode(g, cmd), Some(n), m, k, |h.got|, h.asked[k]);
      } else {
        BufFits(rb, n);
        AskReads(q, BufOf(rb, n), m);
      }
    }
    assert answers'[..|h.got|] == answers[..|h.got|];
  }

  // ----- other events -----

  lemma AcceptTags(g: Geometry, rb: Buffers, h: Host)
    requires Usable(rb) && TagsHold(g, rb, h) && NoneForgotten(h) && CanAccept(h.e)
    ensures var h' := Tagged(h.(e := Accept(g, h.e)), h.e.room, HwAccept); TagsHold(g, rb, h') && NoneForgotten(h')
  {
    var t, h' := h.e.room.value.bank, Tagged(h.(e := Accept(g, h.e)), h.e.room, HwAccept);
    forall b | 0 <= b < |h.busy| ensures BankTag(rb, h', b) { assert BankTag(rb, h, b); }
    forall b, d | 0 <= b < |h.busy| && 0 <= d < |h.busy| && b != d && h'.busy[b].Some?
      ensures h'.busy[b] != h'.busy[d]
    {
      assert BankTag(rb, h, b) && BankTag(rb, h, d);
    }
    forall k | 0 <= k < |h.asked| && k !in h.complete ensures h'.room == Some(k) || Some(k) in h'.busy {
      if h.room == Some(k) {
        assert h'.busy[t] == Some(k);
      } else {
        var b :| 0 <= b < |h.busy| && h.busy[b] == Some(k);
        assert BankTag(rb, h, b) && h'.busy[b] == Some(k);
      }
    }
  }

  lemma WorkTags(g: Geometry, rb: Buffers, h: Host, t: nat)
    requires Usable(rb) && TagsHold(g, rb, h) && NoneForgotten(h) && CanWork(h.e, t)
    ensures TagsHold(g, rb, h.(e := DoWork(h.e, t))) && NoneForgotten(h.(e := DoWork(h.e, t)))
  {
    var h' := h.(e := DoWork(h.e, t));
    forall b | 0 <= b < |h.busy| ensures BankTag(rb, h', b) { assert BankTag(rb, h, b); }
  }

  lemma FinishTags(g: Geometry, rb: Buffers, h: Host, t: nat)
    requires Usable(rb) && TagsHold(g, rb, h) && NoneForgotten(h) && CanFinish(h.e, t)
    ensures var h' := Tagged(h.(e := Finish(h.e, t)), h.e.room, HwFinish(t)); TagsHold(g, rb, h') && NoneForgotten(h')
  {
    var h' := Tagged(h.(e := Finish(h.e, t)), h.e.room, HwFinish(t));
    assert BankTag(rb, h, t);
    forall b | 0 <= b < |h.busy| ensures BankTag(rb, h', b) { assert BankTag(rb, h, b); }
    forall k | 0 <= k < |h.asked| && k !in h'.complete ensures h'.room == Some(k) || Some(k) in h'.busy {
      if h.room != Some(k) {
        var b :| 0 <= b < |h.busy| && h.busy[b] == Some(k);
        assert h'.busy[b] == Some(k);
      }
    }
  }

  lemma OtherTags(g: Geometry, rb: Buffers, h: Host, ev: Event)
    requires Usable(rb) && TagsHold(g, rb, h) && NoneForgotten(h) && CanStep(g, rb, h, Other(ev))
    ensures TagsHold(g, rb, Next(g, rb, h, Other(ev))) && NoneForgotten(Next(g, rb, h, Other(ev)))
  {
    match ev {
      case FwIssue(_) | FwPoke(_, _) =>
        var h' := Next(g, rb, h, Other(ev));
        forall b | 0 <= b < |h.busy| ensures BankTag(rb, h', b) { assert BankTag(rb, h, b); }
      case HwAccept => AcceptTags(g, rb, h);
      case HwWork(b) => WorkTags(g, rb, h, b);
      case HwFinish(b) => FinishTags(g, rb, h, b);
    }
  }

  /** What other events settle to, and that it is the same in the ring. */
  lemma OtherSettles(g: Geometry, rb: Buffers, h: Host, ev: Event, k: nat, q: Request)
    requires Usable(rb) && FlashEngine.Valid(g, h.e) && CanStep(g, rb, h, Other(ev)) && Fits(rb, q)
    ensures FlashEngine.Valid(g, After(g, h.e, ev))
    ensures Settled(g, After(g, h.e, ev)) == Sequential(g, [ev], Settled(g, h.e))
    ensures BufferData(rb, Settled(g, After(g, h.e, ev)).dram, k, q) == BufferData(rb, Settled(g, h.e).dram, k, q)
  {
    var m := Settled(g, h.e);
    assert [ev][1..] == [];
    match ev {
      case FwIssue(cmd) =>
        IssueStep(g, h.e, cmd);
        OtherBufferKept(rb, cmd.bank, Decode(g, cmd), None, m, k, k, q);
      case FwPoke(a, v) =>
        PokeStep(g, h.e, a, v);
        BufFits(rb, k);
        SameData(rb, Poke(a, v, m).dram, m.dram, k, q);
      case HwAccept => AcceptStep(g, h.e);
      case HwWork(b) => WorkStep(g, h.e, b);
      case HwFinish(b) => FinishStep(g, h.e, b);
    }
  }

  lemma OtherStep(g: Geometry, rb: Buffers, h: Host, ev: Event, answers: seq<seq<byte>>)
    requires Usable(rb) && Inv(g, rb, h, answers) && CanStep(g, rb, h, Other(ev))
    ensures Inv(g, rb, Next(g, rb, h, Other(ev)), answers)
    ensures Settled(g, Next(g, rb, h, Other(ev)).e) == Sequential(g, [ev], Settled(g, h.e))
  {
    var h' := Next(g, rb, h, Other(ev));
    OtherTags(g, rb, h, ev);
    OtherSettles(g, rb, h, ev, 0, Request(0, 0, 0, 0));
    forall k | |h.got| <= k < |h.asked| ensures BufferData(rb, Settled(g, h'.e).dram, k, h'.asked[k]) == answers[k] {
      OtherSettles(g, rb, h, ev, k, h.asked[k]);
    }
    if ev.HwFinish? { assert BankTag(rb, h, ev.bank); }
  }

  // ----- whole runs -----

  lemma StepKeepsInv(g: Geometry, rb: Buffers, h: Host, s: Step, answers: seq<seq<byte>>)
    requires Usable(rb) && Inv(g, rb, h, answers) && CanStep(g, rb, h, s)
    ensures Inv(g, rb, Next(g, rb, h, s), answers + Answer(s, Settled(g, h.e)))
    ensures Settled(g, Next(g, rb, h, s).e) == Effect(g, s, Settled(g, h.e))
  {
    assert answers + [] == answers;
    match s {
      case Ask(q, cmd) => AskStep(g, rb, h, q, cmd, answers);
      case Send => SendStep(g, rb, h, answers);
      case Other(ev) => OtherStep(g, rb, h, ev, answers);
    }
  }

  /** The first step of a run, and what remains of it. */
  lemma FirstStep(g: Geometry, rb: Buffers, h: Host, ss: seq<Step>, m: Mem, answers: seq<seq<byte>>)
    returns (h': Host, m': Mem, now: seq<seq<byte>>)
    requires Usable(rb) && Inv(g, rb, h, answers) && IsRunOf(g, rb, h, ss) && ss != [] && m == Settled(g, h.e)
    ensures Inv(g, rb, h', answers + now) && m' == Settled(g, h'.e)
    ensures Answers(g, ss, m) == now + Answers(g, ss[1..], m')
    ensures IsRunOf(g, rb, h', ss[1..]) && Last(g, rb, h, ss) == Last(g, rb, h', ss[1..])
  {
    h', m', now := Next(g, rb, h, ss[0]), Effect(g, ss[0], m), Answer(ss[0], m);
    StepKeepsInv(g, rb, h, ss[0], answers);
  }

  /** The host got the answers up to some point, in order; and once nothing is in
      flight, all of them, or the next one can be sent. */
  ghost predicate Delivers(g: Geometry, rb: Buffers, h: Host, answers: seq<seq<byte>>)
    requires Usable(rb)
  {
    && |h.got| <= |h.asked| == |answers| && h.got == answers[..|h.got|]
    && (Idle(h.e) ==> h.got == answers || CanStep(g, rb, h, Send))
  }

  /** When nothing is in flight the next buffer is complete. */
  lemma IdleCanSend(g: Geometry, rb: Buffers, h: Host)
    requires Usable(rb) && TagsHold(g, rb, h) && NoneForgotten(h) && Idle(h.e) && |h.got| < |h.asked|
    ensures CanStep(g, rb, h, Send)
  {
    forall b | 0 <= b < |h.busy| ensures h.busy[b].None? { assert BankTag(rb, h, b); }
  }

  lemma InvDelivers(g: Geometry, rb: Buffers, h: Host, answers: seq<seq<byte>>)
    requires Usable(rb) && Inv(g, rb, h, answers)
    ensures Delivers(g, rb, h, answers)
  {
    if Idle(h.e) && |h.got| < |h.asked| { IdleCanSend(g, rb, h); }
  }

  lemma Regroup(all: seq<seq<byte>>, first: seq<seq<byte>>, rest: seq<seq<byte>>, now: seq<seq<byte>>,
                later: seq<seq<byte>>)
    requires all == first + rest && rest == now + later
    ensures all == first + now + later
  {
  }

  lemma {:induction false} RunDelivers(g: Geometry, rb: Buffers, h: Host, ss: seq<Step>, m: Mem,
                                       answers: seq<seq<byte>>, all: seq<seq<byte>>)
    requires Usable(rb) && Inv(g, rb, h, answers) && IsRunOf(g, rb, h, ss)
    requires m == Settled(g, h.e) && all == answers + Answers(g, ss, m)
    ensures Delivers(g, rb, Last(g, rb, h, ss), all)
    decreases |ss|
  {
    if ss == [] {
      assert all == answers;
      InvDelivers(g, rb, h, answers);
    } else {
      var h', m', now := FirstStep(g, rb, h, ss, m, answers);
      Regroup(all, answers, Answers(g, ss, m), now, Answers(g, ss[1..], m'));
      RunDelivers(g, rb, h', ss[1..], m', answers + now, all);
    }
  }

  /** Nothing asked for, and nothing in flight. */
  ghost predicate Start(g: Geometry, h: Host) {
    && FlashEngine.Valid(g, h.e) && Idle(h.e) && h.asked == [] && h.got == [] && h.complete == {}
    && h.room.None? && |h.busy| == |h.e.work| && forall b :: 0 <= b < |h.busy| ==> h.busy[b].None?
  }

  lemma StartHolds(g: Geometry, rb: Buffers, h: Host)
    requires Usable(rb) && Start(g, h)
    ensures Inv(g, rb, h, []) && Settled(g, h.e) == h.e.mem
  {
    DrainIdle(h.e.work, |h.e.work|, h.e.mem);
    forall b | 0 <= b < |h.busy| ensures BankTag(rb, h, b) {}
  }

  /** In every run, with reads in flight on many banks, finished in any order, and
      with any other commands and stores off the ring, the host gets the pages in
      the order of the requests, each as one-at-a-time execution has it when it is
      asked for; and once nothing is in flight, what it did not get yet can be sent. */
  lemma HostGetsPages(g: Geometry, rb: Buffers, h: Host, ss: seq<Step>)
    requires Usable(rb) && Start(g, h) && IsRunOf(g, rb, h, ss)
    ensures Delivers(g, rb, Last(g, rb, h, ss), Answers(g, ss, h.e.mem))
  {
    StartHolds(g, rb, h);
    assert [] + Answers(g, ss, h.e.mem) == Answers(g, ss, h.e.mem);
    RunDelivers(g, rb, h, ss, h.e.mem, [], Answers(g, ss, h.e.mem));
  }

  /** The read buffers of the DRAM layout. */
  function RingOf(c: Config): Buffers
    requires c.Sane() && 0 <= c.NumRd()
  {
    Buffers(c.RdBufAddr(), c.NumRd(), c.pageBytes)
  }

  /** They are such a ring. */
  lemma LayoutHasRing(c: Config, k: nat)
    requires c.Roomy() && c.dramBase + c.dramSize <= TWO_TO_32 && 2 <= c.NumRd()
    ensures Usable(RingOf(c)) && BufOf(RingOf(c), k) == Ptr(c, Rd(k % c.NumRd()))
  {
    BuffersFit(c, Rd(c.NumRd() - 1));
    Division.Distribute(c.NumRd() - 1, 1, c.pageBytes);
  }
}
