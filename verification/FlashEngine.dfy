/** The flash controller as a step system: a one-command Waiting Room in front
    of banks that each work through one command at a time, in any interleaving. */
module FlashEngine {
  import opened Common
  import opened FlashMemory
  import opened FlashCommands

  /** `room` is the Waiting Room; `work[b]` is what bank `b` still has to do for
      the command it accepted (None when idle). The logs record the commands
      issued by the firmware, and those each bank accepted and finished. */
  datatype Engine = Engine(
    room: Option<Cmd>,
    work: seq<Option<seq<Op>>>,
    mem: Mem,
    issued: seq<Cmd>,
    accepted: seq<seq<Cmd>>,
    finished: seq<nat>)

  function OfBank(cmds: seq<Cmd>, b: nat): seq<Cmd> {
    if cmds == [] then []
    else OfBank(cmds[..|cmds| - 1], b) + if cmds[|cmds| - 1].bank == b then [cmds[|cmds| - 1]] else []
  }

  /** Waiting Room empty and every bank idle. */
  predicate Idle(e: Engine) {
    e.room.None? && forall b :: 0 <= b < |e.work| ==> e.work[b].None?
  }

  // ----- steps -----

  predicate CanIssue(e: Engine, c: Cmd) { e.room.None? && c.bank < |e.work| }

  function Issue(e: Engine, c: Cmd): Engine
    requires CanIssue(e, c)
  {
    e.(room := Some(c), issued := e.issued + [c])
  }

  predicate CanAccept(e: Engine) {
    && e.room.Some?
    && e.room.value.bank < |e.work| == |e.accepted|
    && e.work[e.room.value.bank].None?
  }

  /** The addressed bank takes the command out of the Waiting Room. */
  function Accept(g: Geometry, e: Engine): Engine
    requires CanAccept(e)
  {
    var c := e.room.value;
    e.(room := None,
       work := e.work[c.bank := Some(Decode(g, c))],
       accepted := e.accepted[c.bank := e.accepted[c.bank] + [c]])
  }

  predicate CanWork(e: Engine, b: nat) {
    b < |e.work| == |e.mem.banks| && e.work[b].Some? && e.work[b].value != []
  }

  /** A bank does the next unit of its command. */
  function DoWork(e: Engine, b: nat): Engine
    requires CanWork(e, b)
  {
    var ops := e.work[b].value;
    e.(work := e.work[b := Some(ops[1..])], mem := Step(b, ops[0], e.mem))
  }

  predicate CanFinish(e: Engine, b: nat) {
    b < |e.work| == |e.finished| && e.work[b] == Some([])
  }

  /** A bank with nothing left to do becomes idle. */
  function Finish(e: Engine, b: nat): Engine
    requires CanFinish(e, b)
  {
    e.(work := e.work[b := None], finished := e.finished[b := e.finished[b] + 1])
  }

  // ----- what holds in every state -----

  ghost predicate Shape(e: Engine) {
    && |e.work| == |e.mem.banks| == |e.accepted| == |e.finished|
    && (e.room.Some? ==> e.room.value.bank < |e.work|)
  }

  /** Work in flight on different banks never meets in DRAM. */
  ghost predicate Apart(g: Geometry, e: Engine) {
    && (forall b, c :: 0 <= b < |e.work| && 0 <= c < |e.work| && b != c && e.work[b].Some? && e.work[c].Some?
         ==> Independent(e.work[b].value, e.work[c].value))
    && (e.room.Some? ==> ApartFrom(g, e.(room := None), e.room.value.bank, Decode(g, e.room.value)))
  }

  /** `ops`, destined for bank `b`, meet nothing that another bank has in flight. */
  ghost predicate ApartFrom(g: Geometry, e: Engine, b: nat, ops: seq<Op>) {
    && (forall c :: 0 <= c < |e.work| && c != b && e.work[c].Some? ==> Independent(ops, e.work[c].value))
    && (e.room.Some? && e.room.value.bank != b ==> Independent(ops, Decode(g, e.room.value)))
  }

  /** Every issued command was accepted by its bank once, in issue order, or is
      the one in the Waiting Room; every accepted one is finished, in that order,
      or is the one being worked on. */
  ghost predicate Conserved(e: Engine)
    requires Shape(e)
  {
    forall b :: 0 <= b < |e.work| ==>
      && OfBank(e.issued, b) == e.accepted[b] + (if e.room.Some? && e.room.value.bank == b then [e.room.value] else [])
      && e.finished[b] + (if e.work[b].Some? then 1 else 0) == |e.accepted[b]|
  }

  ghost predicate Valid(g: Geometry, e: Engine) {
    Shape(e) && Apart(g, e) && Conserved(e)
  }

  // ----- the memory once everything in flight is done -----

  function Drain(work: seq<Option<seq<Op>>>, n: nat, m: Mem): (r: Mem)
    requires n <= |work| == |m.banks|
    ensures |r.banks| == |m.banks|
  {
    if n == 0 then m
    else
      var m' := Drain(work, n - 1, m);
      if work[n - 1].Some? then Run(n - 1, work[n - 1].value, m') else m'
  }

  function Settled(g: Geometry, e: Engine): (r: Mem)
    requires Shape(e)
    ensures |r.banks| == |e.work|
  {
    var m := Drain(e.work, |e.work|, e.mem);
    if e.room.Some? then Run(e.room.value.bank, Decode(g, e.room.value), m) else m
  }

  lemma {:induction false} DrainIdle(work: seq<Option<seq<Op>>>, n: nat, m: Mem)
    requires n <= |work| == |m.banks| && forall b :: 0 <= b < n ==> work[b].None?
    ensures Drain(work, n, m) == m
  {
    if n > 0 { DrainIdle(work, n - 1, m); }
  }

  lemma {:induction false} DrainSame(work: seq<Option<seq<Op>>>, work': seq<Option<seq<Op>>>, n: nat, m: Mem)
    requires n <= |work| == |work'| == |m.banks| && forall b :: 0 <= b < n ==> work[b] == work'[b]
    ensures Drain(work, n, m) == Drain(work', n, m)
  {
    if n > 0 { DrainSame(work, work', n - 1, m); }
  }

  /** Independent work of another bank can be done before or after draining. */
  lemma {:induction false} DrainCommute(work: seq<Option<seq<Op>>>, n: nat, b: nat, ops: seq<Op>, m: Mem)
    requires n <= |work| == |m.banks| && n <= b < |work|
    requires forall c :: 0 <= c < n && work[c].Some? ==> Independent(ops, work[c].value)
    ensures Run(b, ops, Drain(work, n, m)) == Drain(work, n, Run(b, ops, m))
  {
    if n > 0 {
      DrainCommute(work, n - 1, b, ops, m);
      if work[n - 1].Some? {
        RunsCommute(b, ops, n - 1, work[n - 1].value, Drain(work, n - 1, m));
      }
    }
  }

  /** The unit of work that bank `b` does first may as well be done first of all. */
  lemma {:induction false} DrainStep(work: seq<Option<seq<Op>>>, n: nat, b: nat, m: Mem)
    requires b < n <= |work| == |m.banks| && work[b].Some? && work[b].value != []
    requires forall c :: 0 <= c < n && c != b && work[c].Some? ==> Independent(work[b].value, work[c].value)
    ensures Drain(work, n, m) == Drain(work[b := Some(work[b].value[1..])], n, Step(b, work[b].value[0], m))
  {
    var ops := work[b].value;
    var work' := work[b := Some(ops[1..])];
    if b == n - 1 {
      forall c | 0 <= c < b && work[c].Some? ensures Independent([ops[0]], work[c].value) {
        assert Independent(ops, work[c].value);
      }
      DrainCommute(work, b, b, [ops[0]], m);
      assert Run(b, [ops[0]], m) == Step(b, ops[0], m);
      assert Run(b, [ops[0]], Drain(work, b, m)) == Step(b, ops[0], Drain(work, b, m));
      DrainSame(work, work', b, Step(b, ops[0], m));
    } else {
      DrainStep(work, n - 1, b, m);
    }
  }

  /** Work newly taken by the idle bank `b` may as well be done last of all. */
  lemma {:induction false} DrainTaken(work: seq<Option<seq<Op>>>, n: nat, b: nat, ops: seq<Op>, m: Mem)
    requires b < n <= |work| == |m.banks| && work[b].None?
    requires forall c :: 0 <= c < n && c != b && work[c].Some? ==> Independent(ops, work[c].value)
    ensures Drain(work[b := Some(ops)], n, m) == Run(b, ops, Drain(work, n, m))
  {
    var work' := work[b := Some(ops)];
    if b == n - 1 {
      DrainSame(work, work', b, m);
    } else {
      DrainTaken(work, n - 1, b, ops, m);
      if work[n - 1].Some? {
        RunsCommute(b, ops, n - 1, work[n - 1].value, Drain(work, n - 1, m));
      }
    }
  }

  // ----- every step keeps the invariant; no hardware step changes what things settle to -----

  lemma IndependentSym(xs: seq<Op>, ys: seq<Op>)
    ensures Independent(xs, ys) <==> Independent(ys, xs)
  {
  }

  lemma IndependentTail(xs: seq<Op>, ys: seq<Op>)
    requires Independent(xs, ys) && xs != []
    ensures Independent(xs[1..], ys)
  {
  }

  lemma IssueStep(g: Geometry, e: Engine, c: Cmd)
    requires Valid(g, e) && CanIssue(e, c) && ApartFrom(g, e, c.bank, Decode(g, c))
    ensures Valid(g, Issue(e, c))
    ensures Settled(g, Issue(e, c)) == Run(c.bank, Decode(g, c), Settled(g, e))
  {
  }

  lemma AcceptStep(g: Geometry, e: Engine)
    requires Valid(g, e) && CanAccept(e)
    ensures Valid(g, Accept(g, e)) && Settled(g, Accept(g, e)) == Settled(g, e)
  {
    var c := e.room.value;
    var e' := Accept(g, e);
    forall b | 0 <= b < |e.work| && b != c.bank && e.work[b].Some?
      ensures Independent(Decode(g, c), e.work[b].value) && Independent(e.work[b].value, Decode(g, c))
    {
      IndependentSym(Decode(g, c), e.work[b].value);
    }
    DrainTaken(e.work, |e.work|, c.bank, Decode(g, c), e.mem);
  }

  lemma WorkStep(g: Geometry, e: Engine, b: nat)
    requires Valid(g, e) && CanWork(e, b)
    ensures Valid(g, DoWork(e, b)) && Settled(g, DoWork(e, b)) == Settled(g, e)
  {
    var e' := DoWork(e, b);
    var ops := e.work[b].value;
    forall c | 0 <= c < |e.work| && c != b && e.work[c].Some?
      ensures Independent(ops[1..], e.work[c].value) && Independent(e.work[c].value, ops[1..])
    {
      IndependentTail(ops, e.work[c].value);
      IndependentSym(ops[1..], e.work[c].value);
    }
    if e.room.Some? && e.room.value.bank != b {
      var ds := Decode(g, e.room.value);
      IndependentSym(ds, ops);
      IndependentTail(ops, ds);
      IndependentSym(ops[1..], ds);
    }
    DrainStep(e.work, |e.work|, b, e.mem);
  }

  lemma FinishStep(g: Geometry, e: Engine, b: nat)
    requires Valid(g, e) && CanFinish(e, b)
    ensures Valid(g, Finish(e, b)) && Settled(g, Finish(e, b)) == Settled(g, e)
  {
    DrainFinish(e.work, |e.work|, b, e.mem);
  }

  lemma {:induction false} DrainFinish(work: seq<Option<seq<Op>>>, n: nat, b: nat, m: Mem)
    requires n <= |work| == |m.banks| && b < |work| && work[b] == Some([])
    ensures Drain(work, n, m) == Drain(work[b := None], n, m)
  {
    if n > 0 { DrainFinish(work, n - 1, b, m); }
  }
}
