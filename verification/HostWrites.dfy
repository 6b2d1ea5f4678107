/** Programs of data from the host: the SATA hardware fills the ring of write
    buffers, and a bank whose program waits for a buffer goes on when it is filled. */
module HostWrites {
  import opened Common
  import Division
  import opened FlashMemory
  import opened FlashCommands
  import opened FlashEngine
  import opened FlashRuns
  import opened DramLayout
  import opened SataBuffers

  /** A command that a bank has done: for which request, if for any, and the bank's
      pages after it. */
  datatype Made = Made(tag: Option<nat>, rows: map<nat, Page>)

  /** The `k`-th request and the `k`-th page of data from the host use write buffer
      `k` modulo their number. `room` and `busy` say which request the command in
      the Waiting Room, or at a bank, belongs to, if to any; `base` is a bank as it
      took its command. `first` are the pages of the banks at the start, and `made`
      what the banks have done since. */
  datatype Host = Host(e: Engine, asked: seq<Request>, data: seq<seq<byte>>,
                       room: Option<nat>, busy: seq<Option<nat>>, complete: set<nat>,
                       base: seq<Bank>, first: seq<map<nat, Page>>, made: seq<seq<Made>>)

  datatype Step =
    | Ask(q: Request, cmd: Cmd)  // the firmware issues the program for a request
    | Fill(page: seq<byte>)      // the hardware fills the next buffer with data from the host
    | Other(ev: Event)           // any other command or store, and all that the banks do

  /** The work of the `k`-th request. */
  function OpsOf(bs: Buffers, k: nat, q: Request): seq<Op>
    requires 0 < bs.num
  {
    InProg(q.row, BufOf(bs, k), q.sect, q.cnt)
  }

  /** Work that never stores to the ring. */
  ghost predicate SparesRing(bs: Buffers, ops: seq<Op>) {
    forall i :: 0 <= i < |ops| ==> !(ops[i].Unload? && InRing(bs, ops[i].addr))
  }

  // ----- steps -----

  /** A buffer is filled again when the program that used it is complete; a program
      for a request goes beyond its address when its buffer is filled. The firmware
      does not wait for either. Other commands and stores spare the ring. */
  ghost predicate CanStep(g: Geometry, bs: Buffers, h: Host, s: Step)
    requires Usable(bs)
  {
    match s
    case Ask(q, cmd) =>
      && CanIssue(h.e, cmd) && cmd.bank == q.bank && Fits(bs, q)
      && Decode(g, cmd) == OpsOf(bs, |h.asked|, q)
    case Fill(page) => |page| == bs.pageBytes && NextIsFree(bs, h)
    case Other(ev) =>
      && Possible(h.e, ev)
      && (ev.FwIssue? ==> SparesRing(bs, Decode(g, ev.cmd)))
      && (ev.FwPoke? ==> !InRing(bs, ev.addr))
      && (ev.HwWork? ==> MayWork(h, ev.bank))
  }

  predicate NextIsFree(bs: Buffers, h: Host) { bs.num <= |h.data| ==> |h.data| - bs.num in h.complete }

  predicate MayWork(h: Host, b: nat)
    requires CanWork(h.e, b)
  {
    b < |h.busy| && (h.busy[b].Some? ==> h.e.work[b].value[0].Address? || h.busy[b].value < |h.data|)
  }

  function Filled(d: Dram, buf: nat, page: seq<byte>): Dram {
    d + map a: int | buf <= a < buf + |page| && Within(a, buf, |page|) :: page[a - buf]
  }

  ghost function Next(g: Geometry, bs: Buffers, h: Host, s: Step): Host
    requires Usable(bs) && CanStep(g, bs, h, s)
  {
    match s
    case Ask(q, cmd) => h.(e := Issue(h.e, cmd), asked := h.asked + [q], room := Some(|h.asked|))
    case Fill(page) =>
      h.(e := h.e.(mem := h.e.mem.(dram := Filled(h.e.mem.dram, BufOf(bs, |h.data|), page))), data := h.data + [page])
    case Other(ev) => Tagged(h.(e := After(g, h.e, ev)), h.e, ev)
  }

  /** Request and history move along with the command. */
  function Tagged(h: Host, was: Engine, ev: Event): Host {
    match ev
    case FwIssue(_) => h.(room := None)
    case HwAccept =>
      if was.room.Some? && was.room.value.bank < |h.busy| == |h.base| == |was.mem.banks| then
        var b := was.room.value.bank;
        h.(room := None, busy := h.busy[b := h.room], base := h.base[b := was.mem.banks[b]])
      else h
    case HwFinish(b) =>
      if b < |h.busy| == |h.made| == |was.mem.banks| then
        h.(busy := h.busy[b := None],
           complete := h.complete + if h.busy[b].Some? then {h.busy[b].value} else {},
           made := h.made[b := h.made[b] + [Made(h.busy[b], was.mem.banks[b].rows)]])
      else h
    case _ => h
  }

  ghost predicate IsRunOf(g: Geometry, bs: Buffers, h: Host, ss: seq<Step>)
    requires Usable(bs)
    decreases |ss|
  {
    ss == [] || (CanStep(g, bs, h, ss[0]) && IsRunOf(g, bs, Next(g, bs, h, ss[0]), ss[1..]))
  }

  ghost function Last(g: Geometry, bs: Buffers, h: Host, ss: seq<Step>): Host
    requires Usable(bs) && IsRunOf(g, bs, h, ss)
    decreases |ss|
  {
    if ss == [] then h else Last(g, bs, Next(g, bs, h, ss[0]), ss[1..])
  }

  // ----- what is to be written -----

  /** The first `n` requested bytes of a page of data from the host. */
  function DataBytes(q: Request, page: seq<byte>, n: nat): Page {
    map i: nat | q.sect * BYTES_PER_SECTOR <= i < q.sect * BYTES_PER_SECTOR + n && i < |page| :: page[i]
  }

  function RowOf(rows: map<nat, Page>, row: nat): Page { if row in rows then rows[row] else map[] }

  /** The pages of a bank with the data of a request programmed. */
  function Written(rows: map<nat, Page>, q: Request, page: seq<byte>): map<nat, Page> {
    rows[q.row := RowOf(rows, q.row) + DataBytes(q, page, q.cnt)]
  }

  /** The pages of bank `b` before the `n`-th command that it has done. */
  function RowsBefore(h: Host, b: nat, n: nat): map<nat, Page>
    requires b < |h.made| == |h.first| && n <= |h.made[b]|
  {
    if n == 0 then h.first[b] else h.made[b][n - 1].rows
  }

  function RowsNow(h: Host, b: nat): map<nat, Page>
    requires b < |h.made| == |h.first|
  {
    RowsBefore(h, b, |h.made[b]|)
  }

  /** A bank when it has done `n` units of the program of a request. */
  function BankAfter(base: Bank, q: Request, page: seq<byte>, n: nat): Bank {
    if n == 0 then base
    else if n <= q.cnt + 1 then Bank(base.rows, DataBytes(q, page, n - 1), q.row)
    else Bank(Written(base.rows, q, page), DataBytes(q, page, q.cnt), q.row)
  }

  function PageOf(h: Host, k: nat): seq<byte> { if k < |h.data| then h.data[k] else [] }

  // ----- what holds in every state -----

  predicate Shaped(h: Host) {
    |h.busy| == |h.base| == |h.first| == |h.made| == |h.e.work| == |h.e.mem.banks| == |h.e.accepted| == |h.e.finished|
  }

  /** The `n`-th command that bank `b` has done: if for a request, then the host's
      data for that request was programmed, and nothing else. */
  ghost predicate GoodEntry(h: Host, b: nat, n: nat)
    requires b < |h.made| == |h.first| && n < |h.made[b]|
  {
    var m := h.made[b][n];
    m.tag.Some? ==>
      && m.tag.value < |h.asked| && m.tag.value < |h.data| && h.asked[m.tag.value].bank == b
      && m.tag.value in h.complete
      && m.rows == Written(RowsBefore(h, b, n), h.asked[m.tag.value], h.data[m.tag.value])
  }

  ghost predicate GoodHistory(h: Host, b: nat)
    requires b < |h.made| == |h.first|
  {
    (forall n :: 0 <= n < |h.made[b]| ==> GoodEntry(h, b, n)) && InOrder(h.made[b])
  }

  /** The requests in a history are in the order in which they were asked. */
  ghost predicate InOrder(ms: seq<Made>) {
    forall n :: 0 <= n < |ms| && ms[n].tag.Some? ==> Follows(ms[..n], ms[n].tag.value)
  }

  ghost predicate Follows(ms: seq<Made>, k: nat) {
    forall n :: 0 <= n < |ms| && ms[n].tag.Some? ==> ms[n].tag.value < k
  }

  predicate Pending(h: Host, k: nat) { k < |h.asked| && k !in h.complete }

  /** Of the work `ops` of a request, `todo` is left to be done by `bank`; the data
      is needed beyond the first unit. */
  predicate InMidst(ops: seq<Op>, todo: seq<Op>, bank: Bank, base: Bank, q: Request, page: seq<byte>, filled: bool) {
    && |todo| <= |ops| && todo == ops[|ops| - |todo|..]
    && bank == BankAfter(base, q, page, |ops| - |todo|)
    && (1 < |ops| - |todo| ==> filled)
  }

  /** Bank `b` is in the midst of the program for request `k`. */
  ghost predicate Doing(bs: Buffers, h: Host, b: nat, k: nat)
    requires Usable(bs) && Shaped(h) && b < |h.busy|
  {
    && Pending(h, k) && h.asked[k].bank == b && h.e.work[b].Some? && Follows(h.made[b], k)
    && h.base[b].rows == RowsNow(h, b)
    && InMidst(OpsOf(bs, k, h.asked[k]), h.e.work[b].value, h.e.mem.banks[b], h.base[b], h.asked[k], PageOf(h, k),
               k < |h.data|)
  }

  ghost predicate BankTag(bs: Buffers, h: Host, b: nat)
    requires Usable(bs) && Shaped(h) && b < |h.busy|
  {
    if h.busy[b].Some? then Doing(bs, h, b, h.busy[b].value)
    else if h.e.work[b].Some? then SparesRing(bs, h.e.work[b].value)
    else h.e.mem.banks[b].rows == RowsNow(h, b)
  }

  ghost predicate RoomTag(g: Geometry, bs: Buffers, h: Host)
    requires Usable(bs)
  {
    match h.e.room
    case None => h.room.None?
    case Some(cmd) =>
      && cmd.bank < |h.e.work|
      && if h.room.None? then SparesRing(bs, Decode(g, cmd))
         else
           && Pending(h, h.room.value) && h.asked[h.room.value].bank == cmd.bank && h.room.value == |h.asked| - 1
           && Decode(g, cmd) == OpsOf(bs, h.room.value, h.asked[h.room.value])
  }

  ghost predicate TagsDiffer(h: Host) {
    && (forall b, d :: 0 <= b < |h.busy| && 0 <= d < |h.busy| && b != d && h.busy[b].Some? ==> h.busy[b] != h.busy[d])
    && (forall b :: 0 <= b < |h.busy| && h.busy[b].Some? ==> h.busy[b] != h.room)
  }

  ghost predicate NoneForgotten(h: Host) {
    forall k :: 0 <= k < |h.asked| && k !in h.complete ==> h.room == Some(k) || Some(k) in h.busy
  }

  /** Some bank has done the program for request `k`. */
  ghost predicate WasMade(h: Host, k: nat) {
    exists b, n :: 0 <= b < |h.made| && 0 <= n < |h.made[b]| && h.made[b][n].tag == Some(k)
  }

  function ByteAddr(bs: Buffers, k: nat, i: nat): nat
    requires 0 < bs.num
  {
    BufOf(bs, k) + i
  }

  ghost predicate BufferHas(bs: Buffers, d: Dram, k: nat, page: seq<byte>)
    requires 0 < bs.num
  {
    |page| == bs.pageBytes && forall i :: 0 <= i < |page| ==> Peek(d, ByteAddr(bs, k, i)) == page[i]
  }

  /** Data from the host stays in its buffer until it is programmed. */
  ghost predicate DataHeld(bs: Buffers, h: Host)
    requires 0 < bs.num
  {
    && (forall k :: 0 <= k < |h.data| && k !in h.complete ==> BufferHas(bs, h.e.mem.dram, k, h.data[k]))
    && (forall k :: 0 <= k < |h.data| - bs.num ==> k in h.complete)
  }

  ghost predicate Inv(g: Geometry, bs: Buffers, h: Host)
    requires Usable(bs)
  {
    && Shaped(h) && RoomTag(g, bs, h) && TagsDiffer(h) && NoneForgotten(h) && DataHeld(bs, h)
    && (forall b :: 0 <= b < |h.busy| ==> BankTag(bs, h, b) && GoodHistory(h, b))
    && (forall k :: k in h.complete ==> k < |h.asked| && WasMade(h, k))
    && (forall k :: 0 <= k < |h.asked| ==> Fits(bs, h.asked[k]))
  }

  // ----- a unit of work -----

  lemma FirstAndLastUnit(bs: Buffers, k: nat, q: Request)
    requires 0 < bs.num
    ensures var ops := OpsOf(bs, k, q);
      |ops| == q.cnt + 2 && ops[0] == Address(q.row) && ops[q.cnt + 1] == Program
  {
  }

  lemma LoadUnit(bs: Buffers, k: nat, q: Request, i: nat, off: nat, a: int)
    requires Usable(bs) && Fits(bs, q) && i < q.cnt && off == q.sect * BYTES_PER_SECTOR + i && a == ByteAddr(bs, k, off)
    ensures i + 1 < |OpsOf(bs, k, q)| && OpsOf(bs, k, q)[i + 1] == Load(off, a)
  {
    var ls := Loads(BufOf(bs, k), q.sect, q.cnt);
    BufFits(bs, k);
    WrapSmall(a);
    assert OpsOf(bs, k, q)[i + 1] == ls[i];
  }

  lemma OneByteMore(q: Request, page: seq<byte>, n: nat, off: nat)
    requires off == q.sect * BYTES_PER_SECTOR + n < |page|
    ensures DataBytes(q, page, n)[off := page[off]] == DataBytes(q, page, n + 1)
  {
  }

  lemma LoadDone(q: Request, b: nat, rows: map<nat, Page>, page: seq<byte>, i: nat, off: nat, a: int, m: Mem)
    requires b < |m.banks| && off == q.sect * BYTES_PER_SECTOR + i < |page| && Peek(m.dram, a) == page[off]
    requires m.banks[b] == Bank(rows, DataBytes(q, page, i), q.row)
    ensures FlashMemory.Step(b, Load(off, a), m)
         == m.(banks := m.banks[b := Bank(rows, DataBytes(q, page, i + 1), q.row)])
  {
    OneByteMore(q, page, i, off);
  }

  lemma ProgramDone(q: Request, b: nat, rows: map<nat, Page>, page: seq<byte>, m: Mem)
    requires b < |m.banks| && m.banks[b] == Bank(rows, DataBytes(q, page, q.cnt), q.row)
    ensures FlashMemory.Step(b, Program, m)
         == m.(banks := m.banks[b := Bank(Written(rows, q, page), DataBytes(q, page, q.cnt), q.row)])
  {
  }

  lemma AddressDone(q: Request, b: nat, page: seq<byte>, m: Mem)
    requires b < |m.banks|
    ensures FlashMemory.Step(b, Address(q.row), m)
         == m.(banks := m.banks[b := Bank(m.banks[b].rows, DataBytes(q, page, 0), q.row)])
  {
    assert DataBytes(q, page, 0) == map[];
  }

  lemma LoadUnitDone(bs: Buffers, k: nat, q: Request, b: nat, rows: map<nat, Page>, page: seq<byte>, i: nat, m: Mem)
    requires Usable(bs) && Fits(bs, q) && b < |m.banks| && i < q.cnt && BufferHas(bs, m.dram, k, page)
    requires m.banks[b] == Bank(rows, DataBytes(q, page, i), q.row) && i + 1 < |OpsOf(bs, k, q)|
    ensures FlashMemory.Step(b, OpsOf(bs, k, q)[i + 1], m)
         == m.(banks := m.banks[b := Bank(rows, DataBytes(q, page, i + 1), q.row)])
  {
    var off := q.sect * BYTES_PER_SECTOR + i;
    LoadUnit(bs, k, q, i, off, ByteAddr(bs, k, off));
    LoadDone(q, b, rows, page, i, off, ByteAddr(bs, k, off), m);
  }

  /** A bank does the next unit of the program of a request. */
  lemma UnitDone(bs: Buffers, k: nat, q: Request, b: nat, base: Bank, page: seq<byte>, n: nat, m: Mem)
    requires Usable(bs) && Fits(bs, q) && b < |m.banks| && n < |OpsOf(bs, k, q)|
    requires m.banks[b] == BankAfter(base, q, page, n) && (1 <= n ==> BufferHas(bs, m.dram, k, page))
    ensures FlashMemory.Step(b, OpsOf(bs, k, q)[n], m) == m.(banks := m.banks[b := BankAfter(base, q, page, n + 1)])
  {
    FirstAndLastUnit(bs, k, q);
    if n == 0 {
      AddressDone(q, b, page, m);
    } else if n <= q.cnt {
      LoadUnitDone(bs, k, q, b, base.rows, page, n - 1, m);
    } else {
      ProgramDone(q, b, base.rows, page, m);
    }
  }

  // ----- every step keeps it -----

  lemma SparedRing(b: nat, x: Op, m: Mem, bs: Buffers)
    requires b < |m.banks| && !(x.Unload? && InRing(bs, x.addr))
    ensures SameInRing(bs, m.dram, FlashMemory.Step(b, x, m).dram)
  {
  }

  ghost predicate SameInRing(bs: Buffers, d: Dram, d': Dram) {
    forall a: int :: InRing(bs, a) ==> Peek(d, a) == Peek(d', a)
  }

  lemma BufferKept(bs: Buffers, d: Dram, d': Dram, k: nat, page: seq<byte>)
    requires Usable(bs) && BufferHas(bs, d, k, page) && SameInRing(bs, d, d')
    ensures BufferHas(bs, d', k, page)
  {
    BufFits(bs, k);
  }

  lemma DataKept(bs: Buffers, h: Host, h': Host)
    requires Usable(bs) && DataHeld(bs, h) && h'.data == h.data && h.complete <= h'.complete
    requires SameInRing(bs, h.e.mem.dram, h'.e.mem.dram)
    ensures DataHeld(bs, h')
  {
    forall k | 0 <= k < |h.data| && k !in h'.complete ensures BufferHas(bs, h'.e.mem.dram, k, h.data[k]) {
      BufferKept(bs, h.e.mem.dram, h'.e.mem.dram, k, h.data[k]);
    }
  }

  /** What a bank is doing concerns only the bank, its history and its request. */
  lemma TagKept(bs: Buffers, h: Host, h': Host, b: nat)
    requires Usable(bs) && Shaped(h) && Shaped(h') && b < |h.busy| == |h'.busy| && BankTag(bs, h, b)
    requires h'.e.work[b] == h.e.work[b] && h'.e.mem.banks[b] == h.e.mem.banks[b] && h'.busy[b] == h.busy[b]
    requires h'.base[b] == h.base[b] && h'.first == h.first && h'.made[b] == h.made[b]
    requires |h.asked| <= |h'.asked| && h'.asked[..|h.asked|] == h.asked && h'.data == h.data
    requires h.busy[b].Some? && h.busy[b].value !in h.complete ==> h.busy[b].value !in h'.complete
    ensures BankTag(bs, h', b)
  {
    if h.busy[b].Some? { assert h'.asked[h.busy[b].value] == h.asked[h.busy[b].value]; }
  }

  lemma HistoryKept(h: Host, h': Host, b: nat)
    requires b < |h.made| == |h.first| == |h'.made| == |h'.first| && GoodHistory(h, b)
    requires h'.first == h.first && h'.made[b] == h.made[b] && h.complete <= h'.complete
    requires |h.asked| <= |h'.asked| && h'.asked[..|h.asked|] == h.asked
    requires |h.data| <= |h'.data| && h'.data[..|h.data|] == h.data
    ensures GoodHistory(h', b)
  {
    forall n | 0 <= n < |h.made[b]| ensures GoodEntry(h', b, n) {
      assert GoodEntry(h, b, n);
      if h.made[b][n].tag.Some? {
        var k := h.made[b][n].tag.value;
        assert h'.asked[k] == h.asked[k] && h'.data[k] == h.data[k];
      }
    }
  }

  lemma AskStep(g: Geometry, bs: Buffers, h: Host, q: Request, cmd: Cmd)
    requires Usable(bs) && Inv(g, bs, h) && CanStep(g, bs, h, Ask(q, cmd))
    ensures Inv(g, bs, Next(g, bs, h, Ask(q, cmd)))
  {
    var h' := Next(g, bs, h, Ask(q, cmd));
    DataKept(bs, h, h');
    forall b | 0 <= b < |h.busy| ensures BankTag(bs, h', b) && GoodHistory(h', b) {
      assert BankTag(bs, h, b) && GoodHistory(h, b);
      TagKept(bs, h, h', b);
      HistoryKept(h, h', b);
    }
    forall k | 0 <= k < |h'.asked| && k !in h'.complete ensures h'.room == Some(k) || Some(k) in h'.busy {
      if k < |h.asked| { assert h.room != Some(k); }
    }
    forall k | k in h'.complete ensures WasMade(h', k) { assert WasMade(h, k); }
    forall b | 0 <= b < |h'.busy| && h'.busy[b].Some? ensures h'.busy[b] != h'.room { assert BankTag(bs, h, b); }
  }

  lemma FilledBuffer(bs: Buffers, d: Dram, k: nat, page: seq<byte>)
    requires Usable(bs) && |page| == bs.pageBytes
    ensures BufferHas(bs, Filled(d, BufOf(bs, k), page), k, page)
  {
    forall i | 0 <= i < |page| ensures Peek(Filled(d, BufOf(bs, k), page), ByteAddr(bs, k, i)) == page[i] {
      FilledByte(d, BufOf(bs, k), page, i, ByteAddr(bs, k, i));
    }
  }

  lemma FilledByte(d: Dram, buf: nat, page: seq<byte>, i: nat, a: int)
    requires i < |page| && a == buf + i
    ensures Peek(Filled(d, buf, page), a) == page[i]
  {
    assert a - buf == i;
  }

  lemma FilledOther(bs: Buffers, d: Dram, j: nat, k: nat, old': seq<byte>, page: seq<byte>)
    requires Usable(bs) && j < k < j + bs.num && BufferHas(bs, d, j, old') && |page| == bs.pageBytes
    ensures BufferHas(bs, Filled(d, BufOf(bs, k), page), j, old')
  {
    BufsApart(bs, j, k);
    forall i | 0 <= i < |old'| ensures Peek(Filled(d, BufOf(bs, k), page), ByteAddr(bs, j, i)) == old'[i] {
      assert ByteAddr(bs, j, i) in BufBytes(bs, j);
      assert ByteAddr(bs, j, i) !in BufBytes(bs, k);
    }
  }

  lemma FillHolds(g: Geometry, bs: Buffers, h: Host, page: seq<byte>)
    requires Usable(bs) && DataHeld(bs, h) && CanStep(g, bs, h, Fill(page))
    ensures DataHeld(bs, Next(g, bs, h, Fill(page)))
  {
    var n, h' := |h.data|, Next(g, bs, h, Fill(page));
    forall k | 0 <= k < |h'.data| && k !in h'.complete ensures BufferHas(bs, h'.e.mem.dram, k, h'.data[k]) {
      if k == n {
        FilledBuffer(bs, h.e.mem.dram, n, page);
      } else {
        FilledOther(bs, h.e.mem.dram, k, n, h.data[k], page);
      }
    }
  }

  /** Data that arrives does not matter to a bank that is not beyond the address. */
  lemma FillTag(g: Geometry, bs: Buffers, h: Host, page: seq<byte>, b: nat)
    requires Usable(bs) && Shaped(h) && b < |h.busy| && BankTag(bs, h, b) && CanStep(g, bs, h, Fill(page))
    ensures BankTag(bs, Next(g, bs, h, Fill(page)), b)
  {
    if h.busy[b].Some? {
      var k := h.busy[b].value;
      var q := h.asked[k];
      assert DataBytes(q, [], 0) == DataBytes(q, page, 0) == map[];
    }
  }

  lemma FillStep(g: Geometry, bs: Buffers, h: Host, page: seq<byte>)
    requires Usable(bs) && Inv(g, bs, h) && CanStep(g, bs, h, Fill(page))
    ensures Inv(g, bs, Next(g, bs, h, Fill(page)))
  {
    var h' := Next(g, bs, h, Fill(page));
    FillHolds(g, bs, h, page);
    forall b | 0 <= b < |h.busy| ensures BankTag(bs, h', b) && GoodHistory(h', b) {
      FillTag(g, bs, h, page, b);
      HistoryKept(h, h', b);
    }
    forall k | k in h'.complete ensures WasMade(h', k) { assert WasMade(h, k); }
  }

  // ----- other events -----

  lemma OthersKept(bs: Buffers, h: Host, h': Host, b: nat)
    requires Usable(bs) && Shaped(h) && Shaped(h') && |h'.busy| == |h.busy| && h'.asked == h.asked && h'.data == h.data
    requires h'.first == h.first && h.complete <= h'.complete
    requires forall d :: 0 <= d < |h.busy| ==> BankTag(bs, h, d) && GoodHistory(h, d)
    requires forall d :: 0 <= d < |h.busy| && d != b ==>
      && h'.e.work[d] == h.e.work[d] && h'.e.mem.banks[d] == h.e.mem.banks[d] && h'.busy[d] == h.busy[d]
      && h'.base[d] == h.base[d] && h'.made[d] == h.made[d]
    requires forall d :: 0 <= d < |h.busy| && d != b && h.busy[d].Some? && h.busy[d].value !in h.complete ==>
      h.busy[d].value !in h'.complete
    ensures forall d :: 0 <= d < |h.busy| && d != b ==> BankTag(bs, h', d) && GoodHistory(h', d)
  {
    forall d | 0 <= d < |h.busy| && d != b ensures BankTag(bs, h', d) && GoodHistory(h', d) {
      TagKept(bs, h, h', d);
      HistoryKept(h, h', d);
    }
  }

  lemma NextUnit(ops: seq<Op>, todo: seq<Op>, n: nat)
    requires todo != [] && n + |todo| == |ops| && todo == ops[n..]
    ensures todo[0] == ops[n] && todo[1..] == ops[n + 1..]
  {
  }

  lemma BeyondAddress(bs: Buffers, k: nat, q: Request, n: nat)
    requires Usable(bs) && Fits(bs, q) && 1 <= n < |OpsOf(bs, k, q)|
    ensures !OpsOf(bs, k, q)[n].Address?
  {
    FirstAndLastUnit(bs, k, q);
    if n <= q.cnt {
      var off := q.sect * BYTES_PER_SECTOR + (n - 1);
      LoadUnit(bs, k, q, n - 1, off, ByteAddr(bs, k, off));
    }
  }

  /** A bank does the next unit of the program of a request, if it may. */
  lemma MidstGoesOn(bs: Buffers, k: nat, q: Request, b: nat, base: Bank, page: seq<byte>, ops: seq<Op>, todo: seq<Op>,
                    m: Mem, filled: bool)
    requires Usable(bs) && Fits(bs, q) && b < |m.banks| && ops == OpsOf(bs, k, q) && todo != []
    requires InMidst(ops, todo, m.banks[b], base, q, page, filled) && (filled ==> BufferHas(bs, m.dram, k, page))
    requires todo[0].Address? || filled
    ensures var m' := FlashMemory.Step(b, todo[0], m);
      && m'.banks == m.banks[b := m'.banks[b]] && m'.dram == m.dram
      && InMidst(ops, todo[1..], m'.banks[b], base, q, page, filled)
  {
    var n := |ops| - |todo|;
    NextUnit(ops, todo, n);
    if 1 <= n { BeyondAddress(bs, k, q, n); }
    UnitDone(bs, k, q, b, base, page, n, m);
  }

  lemma DoingGoesOn(bs: Buffers, h: Host, b: nat, k: nat)
    requires Usable(bs) && Shaped(h) && b < |h.busy| && Doing(bs, h, b, k) && DataHeld(bs, h) && Fits(bs, h.asked[k])
    requires h.busy[b] == Some(k) && CanWork(h.e, b) && MayWork(h, b)
    ensures var h' := h.(e := DoWork(h.e, b));
      Doing(bs, h', b, k) && h'.e.mem.dram == h.e.mem.dram && h'.e.mem.banks == h.e.mem.banks[b := h'.e.mem.banks[b]]
  {
    MidstGoesOn(bs, k, h.asked[k], b, h.base[b], PageOf(h, k), OpsOf(bs, k, h.asked[k]), h.e.work[b].value, h.e.mem,
                k < |h.data|);
  }

  lemma StepElsewhere(b: nat, x: Op, m: Mem)
    requires b < |m.banks|
    ensures var m' := FlashMemory.Step(b, x, m);
      forall d :: 0 <= d < |m.banks| && d != b ==> m'.banks[d] == m.banks[d]
  {
  }

  lemma WorkStep(g: Geometry, bs: Buffers, h: Host, b: nat)
    requires Usable(bs) && Inv(g, bs, h) && CanStep(g, bs, h, Other(HwWork(b)))
    ensures Inv(g, bs, Next(g, bs, h, Other(HwWork(b))))
  {
    var h' := h.(e := DoWork(h.e, b));
    assert BankTag(bs, h, b) && GoodHistory(h, b);
    StepElsewhere(b, h.e.work[b].value[0], h.e.mem);
    if h.busy[b].Some? {
      DoingGoesOn(bs, h, b, h.busy[b].value);
    } else {
      SparedRing(b, h.e.work[b].value[0], h.e.mem, bs);
    }
    OthersKept(bs, h, h', b);
    HistoryKept(h, h', b);
    DataKept(bs, h, h');
    forall k | k in h'.complete ensures WasMade(h', k) { assert WasMade(h, k); }
  }

  lemma AcceptTag(g: Geometry, bs: Buffers, h: Host, t: nat)
    requires Usable(bs) && Inv(g, bs, h) && CanAccept(h.e) && t == h.e.room.value.bank
    ensures BankTag(bs, Tagged(h.(e := Accept(g, h.e)), h.e, HwAccept), t)
  {
    assert BankTag(bs, h, t) && GoodHistory(h, t);
    if h.room.Some? {
      forall n | 0 <= n < |h.made[t]| && h.made[t][n].tag.Some? ensures h.made[t][n].tag.value < h.room.value {
        assert GoodEntry(h, t, n);
      }
    }
  }

  lemma AcceptForgetsNone(g: Geometry, bs: Buffers, h: Host)
    requires Usable(bs) && Inv(g, bs, h) && CanAccept(h.e)
    ensures NoneForgotten(Tagged(h.(e := Accept(g, h.e)), h.e, HwAccept))
  {
    var t, h' := h.e.room.value.bank, Tagged(h.(e := Accept(g, h.e)), h.e, HwAccept);
    forall k | 0 <= k < |h.asked| && k !in h.complete ensures h'.room == Some(k) || Some(k) in h'.busy {
      if h.room == Some(k) {
        assert h'.busy[t] == Some(k);
      } else {
        var b :| 0 <= b < |h.busy| && h.busy[b] == Some(k);
        assert BankTag(bs, h, b) && h'.busy[b] == Some(k);
      }
    }
  }

  lemma AcceptStep(g: Geometry, bs: Buffers, h: Host)
    requires Usable(bs) && Inv(g, bs, h) && CanStep(g, bs, h, Other(HwAccept))
    ensures Inv(g, bs, Next(g, bs, h, Other(HwAccept)))
  {
    var t, h' := h.e.room.value.bank, Tagged(h.(e := Accept(g, h.e)), h.e, HwAccept);
    AcceptTag(g, bs, h, t);
    assert BankTag(bs, h, t) && GoodHistory(h, t);
    OthersKept(bs, h, h', t);
    HistoryKept(h, h', t);
    DataKept(bs, h, h');
    AcceptForgetsNone(g, bs, h);
    forall k | k in h'.complete ensures WasMade(h', k) { assert WasMade(h, k); }
  }

  /** The history of a bank that becomes idle, and what it is then. */
  lemma FinishTag(g: Geometry, bs: Buffers, h: Host, b: nat)
    requires Usable(bs) && Inv(g, bs, h) && CanFinish(h.e, b)
    ensures var h' := Tagged(h.(e := Finish(h.e, b)), h.e, HwFinish(b)); BankTag(bs, h', b) && GoodHistory(h', b)
  {
    var h' := Tagged(h.(e := Finish(h.e, b)), h.e, HwFinish(b));
    assert BankTag(bs, h, b) && GoodHistory(h, b);
    var n, ms := |h.made[b]|, h'.made[b];
    if h.busy[b].Some? { FirstAndLastUnit(bs, h.busy[b].value, h.asked[h.busy[b].value]); }
    assert GoodEntry(h', b, n);
    forall i | 0 <= i < n ensures GoodEntry(h', b, i) && ms[..i] == h.made[b][..i] { assert GoodEntry(h, b, i); }
    assert ms[..n] == h.made[b];
  }

  lemma FinishStep(g: Geometry, bs: Buffers, h: Host, b: nat)
    requires Usable(bs) && Inv(g, bs, h) && CanStep(g, bs, h, Other(HwFinish(b)))
    ensures Inv(g, bs, Next(g, bs, h, Other(HwFinish(b))))
  {
    var h' := Tagged(h.(e := Finish(h.e, b)), h.e, HwFinish(b));
    FinishTag(g, bs, h, b);
    assert BankTag(bs, h, b);
    OthersKept(bs, h, h', b);
    DataKept(bs, h, h');
    forall k | 0 <= k < |h.asked| && k !in h'.complete ensures h'.room == Some(k) || Some(k) in h'.busy {
      if h.room != Some(k) {
        var d :| 0 <= d < |h.busy| && h.busy[d] == Some(k);
        assert h'.busy[d] == Some(k);
      }
    }
    FinishMade(g, bs, h, b);
  }

  lemma FinishMade(g: Geometry, bs: Buffers, h: Host, b: nat)
    requires Usable(bs) && Inv(g, bs, h) && CanFinish(h.e, b)
    ensures var h' := Tagged(h.(e := Finish(h.e, b)), h.e, HwFinish(b));
      forall k :: k in h'.complete ==> k < |h'.asked| && WasMade(h', k)
  {
    var h' := Tagged(h.(e := Finish(h.e, b)), h.e, HwFinish(b));
    assert BankTag(bs, h, b);
    forall k | k in h'.complete ensures k < |h'.asked| && WasMade(h', k) {
      if k in h.complete {
        var d, n :| 0 <= d < |h.made| && 0 <= n < |h.made[d]| && h.made[d][n].tag == Some(k);
        assert h'.made[d][n] == h.made[d][n];
      } else {
        assert h'.made[b][|h.made[b]|].tag == Some(k);
      }
    }
  }

  lemma FirmwareStep(g: Geometry, bs: Buffers, h: Host, ev: Event)
    requires Usable(bs) && Inv(g, bs, h) && CanStep(g, bs, h, Other(ev)) && (ev.FwIssue? || ev.FwPoke?)
    ensures Inv(g, bs, Next(g, bs, h, Other(ev)))
  {
    var h' := Next(g, bs, h, Other(ev));
    DataKept(bs, h, h');
    forall b | 0 <= b < |h.busy| ensures BankTag(bs, h', b) && GoodHistory(h', b) {
      assert BankTag(bs, h, b) && GoodHistory(h, b);
      TagKept(bs, h, h', b);
      HistoryKept(h, h', b);
    }
    forall k | k in h'.complete ensures WasMade(h', k) { assert WasMade(h, k); }
  }

  // ----- nothing gets stuck -----

  /** The hardware can take a step. */
  ghost predicate CanMove(g: Geometry, bs: Buffers, h: Host)
    requires Usable(bs)
  {
    || CanStep(g, bs, h, Other(HwAccept))
    || exists b: nat :: CanStep(g, bs, h, Other(HwWork(b))) || CanStep(g, bs, h, Other(HwFinish(b)))
  }

  lemma BusyCanMove(g: Geometry, bs: Buffers, h: Host, b: nat)
    requires Usable(bs) && Shaped(h) && b < |h.busy| && h.e.work[b].Some?
    requires h.busy[b].Some? ==> h.busy[b].value < |h.data|
    ensures CanMove(g, bs, h)
  {
    assert CanStep(g, bs, h, Other(HwWork(b))) || CanStep(g, bs, h, Other(HwFinish(b)));
  }

  /** A request whose data has arrived does not wait for ever. */
  lemma FilledCanMove(g: Geometry, bs: Buffers, h: Host, j: nat)
    requires Usable(bs) && Inv(g, bs, h) && j < |h.asked| && j < |h.data| && j !in h.complete
    ensures CanMove(g, bs, h)
  {
    if h.room == Some(j) {
      var t := h.e.room.value.bank;
      assert BankTag(bs, h, t);
      if h.e.work[t].Some? { BusyCanMove(g, bs, h, t); } else { assert CanStep(g, bs, h, Other(HwAccept)); }
    } else {
      var b :| 0 <= b < |h.busy| && h.busy[b] == Some(j);
      assert BankTag(bs, h, b);
      BusyCanMove(g, bs, h, b);
    }
  }

  /** Although the firmware waits for no buffer, while anything is in flight the
      hardware can take a step or the next buffer can be filled. */
  lemma CanGoOn(g: Geometry, bs: Buffers, h: Host)
    requires Usable(bs) && Inv(g, bs, h) && !Idle(h.e)
    ensures CanMove(g, bs, h) || NextIsFree(bs, h)
  {
    if !NextIsFree(bs, h) {
      var j := |h.data| - bs.num;
      if j < |h.asked| {
        FilledCanMove(g, bs, h, j);
      } else if h.e.room.Some? && h.e.work[h.e.room.value.bank].None? {
        assert CanStep(g, bs, h, Other(HwAccept));
      } else {
        var b :| 0 <= b < |h.busy| && h.e.work[b].Some?;
        assert BankTag(bs, h, b);
        BusyCanMove(g, bs, h, b);
      }
    }
  }

  // ----- whole runs -----

  lemma StepKeepsInv(g: Geometry, bs: Buffers, h: Host, s: Step)
    requires Usable(bs) && Inv(g, bs, h) && CanStep(g, bs, h, s)
    ensures Inv(g, bs, Next(g, bs, h, s))
  {
    match s {
      case Ask(q, cmd) => AskStep(g, bs, h, q, cmd);
      case Fill(page) => FillStep(g, bs, h, page);
      case Other(ev) =>
        match ev {
          case FwIssue(_) | FwPoke(_, _) => FirmwareStep(g, bs, h, ev);
          case HwAccept => AcceptStep(g, bs, h);
          case HwWork(b) => WorkStep(g, bs, h, b);
          case HwFinish(b) => FinishStep(g, bs, h, b);
        }
    }
  }

  /** Each bank has programmed, for each of its requests in turn, the data that the
      host sent for it, and an idle bank is as its history says; when nothing is in
      flight that was done for all requests, and else something can happen. */
  ghost predicate Programmed(g: Geometry, bs: Buffers, h: Host)
    requires Usable(bs)
  {
    && Shaped(h)
    && (forall b :: 0 <= b < |h.made| ==> GoodHistory(h, b))
    && (forall b :: 0 <= b < |h.made| && h.e.work[b].None? ==> h.e.mem.banks[b].rows == RowsNow(h, b))
    && (Idle(h.e) ==> forall k :: 0 <= k < |h.asked| ==> WasMade(h, k))
    && (!Idle(h.e) ==> CanMove(g, bs, h) || NextIsFree(bs, h))
  }

  lemma InvProgrammed(g: Geometry, bs: Buffers, h: Host)
    requires Usable(bs) && Inv(g, bs, h)
    ensures Programmed(g, bs, h)
  {
    forall b | 0 <= b < |h.made| && h.e.work[b].None? ensures h.e.mem.banks[b].rows == RowsNow(h, b) {
      assert BankTag(bs, h, b);
    }
    if Idle(h.e) {
      forall b | 0 <= b < |h.busy| ensures h.busy[b].None? { assert BankTag(bs, h, b); }
    } else {
      CanGoOn(g, bs, h);
    }
  }

  lemma {:induction false} RunProgrammed(g: Geometry, bs: Buffers, h: Host, ss: seq<Step>)
    requires Usable(bs) && Inv(g, bs, h) && IsRunOf(g, bs, h, ss)
    ensures Programmed(g, bs, Last(g, bs, h, ss))
    decreases |ss|
  {
    if ss == [] {
      InvProgrammed(g, bs, h);
    } else {
      StepKeepsInv(g, bs, h, ss[0]);
      RunProgrammed(g, bs, Next(g, bs, h, ss[0]), ss[1..]);
    }
  }

  /** Nothing asked for, nothing received, and nothing in flight. */
  ghost predicate Start(h: Host) {
    && Shaped(h) && Idle(h.e) && h.asked == [] && h.data == [] && h.complete == {} && h.room.None?
    && forall b :: 0 <= b < |h.busy| ==> h.busy[b].None? && h.made[b] == [] && h.first[b] == h.e.mem.banks[b].rows
  }

  /** In every run, with any number of programs in flight, buffers filled before or
      after they are asked for, and any other commands and stores that spare the
      ring: the `k`-th request programs the `k`-th page of data from the host. */
  lemma HostDataIsProgrammed(g: Geometry, bs: Buffers, h: Host, ss: seq<Step>)
    requires Usable(bs) && Start(h) && IsRunOf(g, bs, h, ss)
    ensures Programmed(g, bs, Last(g, bs, h, ss))
  {
    RunProgrammed(g, bs, h, ss);
  }

  /** The write buffers of the DRAM layout are such a ring. */
  lemma LayoutHasRing(c: Config, bs: Buffers, k: nat)
    requires c.Roomy() && c.dramBase + c.dramSize <= TWO_TO_32 && 2 <= c.NumWr()
    requires bs.base == c.WrBufAddr() && bs.num == c.NumWr() && bs.pageBytes == c.pageBytes
    ensures Usable(bs) && BufOf(bs, k) == Ptr(c, Wr(k % c.NumWr()))
  {
    BuffersFit(c, Wr(c.NumWr() - 1));
    Division.Distribute(c.NumWr() - 1, 1, c.pageBytes);
  }
}
