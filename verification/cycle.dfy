/**
 * The master's main routine, `send_cycle`: one settle edge, the argument
 * checks, opening the cycle, driving every operation in order, closing the
 * cycle and merging the two buffers into the returned results.
 */
module Cycle {
  import opened Records
  import opened Decoding
  import opened Master
  import opened Merging

  /** One element of the argument list: an operation, or anything else. */
  datatype Elem = Item(op: Op) | Foreign

  /** The argument: a sequence of elements, or a value that is not a sequence. */
  datatype Arg = NotSequence | Sequence(elems: seq<Elem>)

  datatype Error =
    | NotASequence               // the argument is not a sequence
    | NoOperations               // the sequence is empty
    | NotAnOp(index: nat)        // element `index` is not an operation
    | IdleNotFormattable(index: nat)  // operation `index` has idle None, which its debug line cannot format
    | CycleTimeout               // the close wait exceeded the cycle timeout

  datatype DriveOutcome = AllDriven(st: Driver) | Aborted(error: Error, st: Driver)

  /** What a call returns: the results, a failure, or no return at all. */
  datatype Outcome = Returned(results: seq<Res>, st: Driver) | Failed(error: Error, st: Driver) | Stuck

  /** An element the driving loop gets past: an operation whose idle is a number. */
  predicate Good(e: Elem) { e.Item? && e.op.idle.Some? }

  /** Every element of the list is good. */
  predicate AllGood(es: seq<Elem>) {
    forall j :: 0 <= j < |es| ==> es[j].Item? && es[j].op.idle.Some?
  }

  /** Edges one element's drive takes. */
  function Cost(e: Elem): nat {
    match e
    case Item(op) => IdleEdges(op.idle) + 2
    case Foreign => 0
  }

  /** Edges the drives of a list of elements take in total. */
  function Edges(es: seq<Elem>): nat {
    if |es| == 0 then 0 else Cost(es[0]) + Edges(es[1..])
  }

  /** The auxiliary record the drive of `op` appends at clock-cycle count `stamp`. */
  function Echo(op: Op, stamp: int): Aux {
    Aux(op.sel, op.adr, Decode(op).dat, op.idle, stamp, 0)
  }

  /** Drive the elements in order, `done` of them already driven. An element
      that is not an operation fails before anything of it is driven; an
      operation with idle None is driven and then fails. */
  function DriveOps(s: Driver, elems: seq<Elem>, done: nat, bus: Bus): (r: DriveOutcome)
    ensures r.st.busy == s.busy && r.st.busyEvent == s.busyEvent
    ensures r.st.opCnt == s.opCnt && r.st.timeout == s.timeout
    ensures Counted(s) ==> Counted(r.st)
    ensures r.AllDriven? ==> AllGood(elems)
    ensures r.AllDriven? && s.busy ==> |r.st.auxBuf| == |s.auxBuf| + |elems|
    ensures r.Aborted? ==>
      && (r.error.NotAnOp? || r.error.IdleNotFormattable?)
      && done <= r.error.index < done + |elems|
    decreases |elems|
  {
    if |elems| == 0 then AllDriven(s)
    else
      match elems[0]
      case Foreign => Aborted(NotAnOp(done), s)
      case Item(op) =>
        var s1 := DriveHead(s, op, bus);
        if op.idle.None? then Aborted(IdleNotFormattable(done), s1)
        else DriveOps(s1, elems[1..], done + 1, bus)
  }

  /** One pass of the driving loop over an operation: remember its
      acktimeout, decode it, drive it. */
  function DriveHead(s: Driver, op: Op, bus: Bus): (r: Driver)
    ensures r.busy == s.busy && r.busyEvent == s.busyEvent
    ensures r.opCnt == s.opCnt && r.timeout == s.timeout
    ensures Counted(s) ==> Counted(r)
    ensures s.busy ==> |r.auxBuf| == |s.auxBuf| + 1
  {
    Drive(s.(ackTimeout := Some(op.ackTimeout)), Decode(op), bus)
  }

  lemma DriveOpsCons(s: Driver, elems: seq<Elem>, done: nat, bus: Bus)
    requires |elems| > 0 && Good(elems[0])
    ensures DriveOps(s, elems, done, bus) == DriveOps(DriveHead(s, elems[0].op, bus), elems[1..], done + 1, bus)
  {
  }

  lemma EdgesPrefix(es: seq<Elem>, j: nat)
    requires 1 <= j <= |es|
    ensures Edges(es[..j]) == Cost(es[0]) + Edges(es[1..][..j - 1])
  {
    assert es[..j][1..] == es[1..][..j - 1];
  }

  /** The auxiliary records the drives of good elements append, starting at
      clock-cycle count `clk`: each stamped with the count at the end of its
      own drive. */
  function Echoes(elems: seq<Elem>, clk: int): (r: seq<Aux>)
    requires AllGood(elems)
    ensures |r| == |elems|
  {
    if |elems| == 0 then []
    else
      [Echo(elems[0].op, clk + Cost(elems[0]))] + Echoes(elems[1..], clk + Cost(elems[0]))
  }

  /** Record j of `Echoes` echoes element j, stamped with the edges of the
      drives of elements 0..j. */
  lemma {:induction false} EchoesAt(elems: seq<Elem>, clk: int, j: nat)
    requires AllGood(elems)
    requires j < |elems|
    ensures Echoes(elems, clk)[j] == Echo(elems[j].op, clk + Edges(elems[..j + 1]))
    decreases j
  {
    EdgesPrefix(elems, j + 1);
    if j == 0 {
      assert elems[1..][..0] == [];
    } else {
      EchoesAt(elems[1..], clk + Cost(elems[0]), j - 1);
    }
  }

  /** The first drive of a list, inside an open cycle. */
  lemma DriveFirst(s: Driver, op: Op, bus: Bus) returns (s1: Driver)
    requires CycleInv(s, bus) && op.idle.Some?
    ensures s1 == DriveHead(s, op, bus)
    ensures CycleInv(s1, bus) && Origin(s1) == Origin(s)
    ensures s1.readerCount == s.readerCount + Cost(Item(op))
    ensures s1.clkCount == s.clkCount + Cost(Item(op))
    ensures s1.auxBuf == s.auxBuf + [Echo(op, s.clkCount + Cost(Item(op)))]
    ensures s1.opCnt == s.opCnt && s1.timeout == s.timeout
  {
    var s0 := s.(ackTimeout := Some(op.ackTimeout));
    SameTaskFields(s, s0, bus);
    DriveKeepsCycleInv(s0, Decode(op), bus);
    s1 := DriveHead(s, op, bus);
  }

  /** A good list's tail is good. */
  lemma AllGoodTail(elems: seq<Elem>)
    requires |elems| > 0 && AllGood(elems)
    ensures AllGood(elems[1..]) && Good(elems[0])
  {
    forall j | 0 <= j < |elems| - 1
      ensures elems[1..][j].Item? && elems[1..][j].op.idle.Some?
    {
      assert elems[1..][j] == elems[j + 1];
    }
  }

  /** The records of a good list's drives: the first element's, then the tail's. */
  lemma EchoesCons(elems: seq<Elem>, clk: int)
    requires |elems| > 0 && AllGood(elems)
    ensures AllGood(elems[1..])
    ensures Echoes(elems, clk) == [Echo(elems[0].op, clk + Cost(elems[0]))] + Echoes(elems[1..], clk + Cost(elems[0]))
    ensures Edges(elems) == Cost(elems[0]) + Edges(elems[1..])
  {
    AllGoodTail(elems);
  }

  /** Composing the first drive of a list with the drives of its tail. */
  lemma GoodStep(s: Driver, s1: Driver, t: Driver, elems: seq<Elem>)
    requires |elems| > 0 && AllGood(elems)
    requires s1.readerCount == s.readerCount + Cost(elems[0]) && s1.clkCount == s.clkCount + Cost(elems[0])
    requires s1.auxBuf == s.auxBuf + [Echo(elems[0].op, s.clkCount + Cost(elems[0]))]
    requires t.readerCount == s1.readerCount + Edges(elems[1..])
    requires AllGood(elems[1..]) && t.auxBuf == s1.auxBuf + Echoes(elems[1..], s1.clkCount)
    ensures t.readerCount == s.readerCount + Edges(elems)
    ensures t.auxBuf == s.auxBuf + Echoes(elems, s.clkCount)
  {
    EchoesCons(elems, s.clkCount);
    ConcatAssoc(s.auxBuf, [Echo(elems[0].op, s.clkCount + Cost(elems[0]))], Echoes(elems[1..], s1.clkCount));
  }

  lemma ConcatAssoc<T>(a: seq<T>, b: seq<T>, c: seq<T>)
    ensures (a + b) + c == a + (b + c)
  {
  }

  /** Inside an open cycle a list of good elements is driven completely: one
      auxiliary record per element, in order, each stamped with the count at
      the end of its drive, and the cycle invariant kept. */
  lemma {:induction false} DriveOpsGood(s: Driver, elems: seq<Elem>, done: nat, bus: Bus)
    requires CycleInv(s, bus)
    requires AllGood(elems)
    ensures var r := DriveOps(s, elems, done, bus);
      && r.AllDriven?
      && CycleInv(r.st, bus) && Origin(r.st) == Origin(s)
      && r.st.readerCount == s.readerCount + Edges(elems)
      && r.st.auxBuf == s.auxBuf + Echoes(elems, s.clkCount)
    decreases |elems|, 1
  {
    if |elems| > 0 {
      DriveOpsGoodCons(s, elems, done, bus);
    }
  }

  lemma {:induction false} DriveOpsGoodCons(s: Driver, elems: seq<Elem>, done: nat, bus: Bus)
    requires CycleInv(s, bus)
    requires |elems| > 0 && AllGood(elems)
    ensures var r := DriveOps(s, elems, done, bus);
      && r.AllDriven?
      && CycleInv(r.st, bus) && Origin(r.st) == Origin(s)
      && r.st.readerCount == s.readerCount + Edges(elems)
      && r.st.auxBuf == s.auxBuf + Echoes(elems, s.clkCount)
    decreases |elems|, 0
  {
    var op := elems[0].op;
    AllGoodTail(elems);
    var s1 := DriveFirst(s, op, bus);
    DriveOpsGood(s1, elems[1..], done + 1, bus);
    var rest := DriveOps(s1, elems[1..], done + 1, bus);
    GoodStep(s, s1, rest.st, elems);
    DriveOpsCons(s, elems, done, bus);
    assert DriveOps(s, elems, done, bus) == rest;
  }

  /** Inside an open cycle the driving loop stops at the first element that is
      not good: everything before it has been driven, a non-operation fails
      before any drive of its own, an operation with idle None after its drive,
      and the cycle stays busy. */
  lemma {:induction false} DriveOpsStopsAtFirstBad(s: Driver, elems: seq<Elem>, done: nat, k: nat, bus: Bus)
    requires CycleInv(s, bus)
    requires k < |elems|
    requires AllGood(elems[..k])
    requires !Good(elems[k])
    ensures var r := DriveOps(s, elems, done, bus);
      && r.Aborted?
      && r.error == (if elems[k].Foreign? then NotAnOp(done + k) else IdleNotFormattable(done + k))
      && |r.st.auxBuf| == |s.auxBuf| + k + (if elems[k].Foreign? then 0 else 1)
      && r.st.busy
    decreases k
  {
    if k > 0 {
      assert elems[..k][0] == elems[0];
      assert elems[1..][..k - 1] == elems[..k][1..];
      assert elems[1..][k - 1] == elems[k];
      var op := elems[0].op;
      var s1 := DriveFirst(s, op, bus);
      DriveOpsCons(s, elems, done, bus);
      DriveOpsStopsAtFirstBad(s1, elems[1..], done + 1, k - 1, bus);
    }
  }

  /** The main routine. One edge passes first. A non-sequence fails; an empty
      sequence fails without opening a cycle (the source ends this path at an
      unbound name); otherwise the cycle is opened, every element driven,
      the cycle closed and the buffers merged. */
  function SendCycle(s: Driver, arg: Arg, bus: Bus): (r: Outcome)
    ensures arg.NotSequence? ==> r == Failed(NotASequence, Tick(s, bus))
    ensures arg.Sequence? && |arg.elems| == 0 ==>
      && r.Failed? && r.error == NoOperations
      && r.st.busy == s.busy && r.st.auxBuf == s.auxBuf
      && r.st.now == s.now + 1 && r.st.opCnt == 0
      && (Idle(s) ==> r.st == s.(now := s.now + 1, opCnt := 0))
    ensures arg.Sequence? && |arg.elems| > 0 && s.busy && !s.busyEvent ==> r.Stuck?
    ensures r.Returned? ==>
      && |r.results| == |arg.elems|
      && Idle(r.st) && r.st.busyEvent && r.st.pins.cs == 1
    ensures Counted(s) && !r.Stuck? ==> Counted(r.st)
    ensures Coherent(s) && !r.Stuck? ==> Coherent(r.st)
  {
    var s0 := Tick(s, bus);
    match arg
    case NotSequence => Failed(NotASequence, s0)
    case Sequence(elems) =>
      var s1 := s0.(opCnt := |elems|);
      if |elems| < 1 then Failed(NoOperations, s1)
      else
        match OpenCycle(s1)
        case None => Stuck
        case Some(s2) =>
          match DriveOps(s2, elems, 0, bus)
          case Aborted(e, s3) => Failed(e, s3)
          case AllDriven(s3) => Conclude(CloseCycle(s3, bus))
  }

  /** How the close ends the call: a hang never returns, a timeout fails, a
      successful close returns the merged buffers. */
  function Conclude(c: CloseOutcome): Outcome {
    match c
    case Hangs => Stuck
    case TimedOut(st, _) => Failed(CycleTimeout, st)
    case Closed(st, _) => Returned(Merge(st.resBuf, st.auxBuf), st)
  }

  /** The results of a cycle of good elements opened at time `start`: one per
      element, in order. Result j echoes element j's address, select and write
      data (0 for a read), carries its idle count as waitStall and the count at
      the end of its drive as waitIdle, and holds the data sampled j + 4 edges
      after the open with waitAck j + 3 and ack 0. */
  predicate Echoed(results: seq<Res>, elems: seq<Elem>, start: nat, bus: Bus)
    requires AllGood(elems)
  {
    && |results| == |elems|
    && forall j :: 0 <= j < |elems| ==>
         && results[j].adr == Some(elems[j].op.adr)
         && results[j].sel == elems[j].op.sel
         && results[j].datwr == Some(Decode(elems[j].op).dat)
         && results[j].waitStall == elems[j].op.idle
         && results[j].waitIdle == Some(Edges(elems[..j + 1]))
         && results[j].datrd == Some(bus(start + j + 4))
         && results[j].waitAck == j + 3
         && results[j].ack == 0
  }

  /** Edges the close still waits after good elements were driven in a
      freshly opened cycle. */
  function CloseNeed(elems: seq<Elem>): nat {
    var driven := Edges(elems);
    var acked := if driven >= 4 then driven - 3 else 0;
    if acked >= |elems| || |elems| + 3 <= driven then 0 else |elems| + 3 - driven
  }

  /** A cycle of good operations from an idle master returns exactly one
      result per operation, in order, each echoing its operation, unless the
      cycle timeout is too short for the close wait; then it fails with the
      timeout. */
  lemma SendCycleResults(s: Driver, elems: seq<Elem>, bus: Bus)
    requires Idle(s)
    requires |elems| > 0
    requires AllGood(elems)
    ensures var r := SendCycle(s, Sequence(elems), bus);
      && (r.Returned? <==> Fits(CloseNeed(elems), 0, s.timeout))
      && (!r.Returned? ==> r.Failed? && r.error == CycleTimeout)
      && (r.Returned? ==> Echoed(r.results, elems, s.now + 1, bus))
  {
    var s3 := DrivenFromIdle(s, elems, bus);
    CloseResults(s3, elems, bus);
  }

  /** The close and merge after good elements were driven in a cycle opened
      at `Origin(s3)`. */
  lemma CloseResults(s3: Driver, elems: seq<Elem>, bus: Bus)
    requires CycleInv(s3, bus)
    requires |elems| > 0 && AllGood(elems)
    requires s3.opCnt == |elems| && s3.auxBuf == Echoes(elems, 0)
    ensures var r := Conclude(CloseCycle(s3, bus));
      && (r.Returned? <==> Fits(NeededEdges(s3), 0, s3.timeout))
      && (!r.Returned? ==> r.Failed? && r.error == CycleTimeout)
      && (r.Returned? ==> Echoed(r.results, elems, Origin(s3), bus))
  {
    CloseLoopExact(s3, 0, bus);
    var c := CloseCycle(s3, bus);
    if c.Closed? {
      var res := c.st.resBuf;
      var aux := c.st.auxBuf;
      forall j | 0 <= j < |elems|
        ensures aux[j] == Echo(elems[j].op, Edges(elems[..j + 1]))
        ensures res[j] == Reply(bus(Origin(s3) + j + 4), j + 3)
      {
        EchoesAt(elems, 0, j);
      }
    }
  }

  /** From an idle master, the state after the settle edge, the open and the
      drives of good elements, and the call's outcome in terms of it. */
  lemma DrivenFromIdle(s: Driver, elems: seq<Elem>, bus: Bus) returns (s3: Driver)
    requires Idle(s)
    requires |elems| > 0
    requires AllGood(elems)
    ensures CycleInv(s3, bus) && Origin(s3) == s.now + 1
    ensures s3.readerCount == Edges(elems) && s3.opCnt == |elems| && s3.timeout == s.timeout
    ensures s3.auxBuf == Echoes(elems, 0)
    ensures NeededEdges(s3) == CloseNeed(elems)
    ensures SendCycle(s, Sequence(elems), bus) == Conclude(CloseCycle(s3, bus))
  {
    var s1 := Tick(s, bus).(opCnt := |elems|);
    var s2 := OpenCycle(s1).value;
    assert CycleInv(s2, bus);
    DriveOpsGood(s2, elems, 0, bus);
    s3 := DriveOps(s2, elems, 0, bus).st;
  }

  /** From an idle master, a list whose first bad element is k fails with that
      element's index after the k good operations before it were driven, and
      leaves the cycle open: busy, with the busy event clear. */
  lemma SendCycleStopsAtFirstBad(s: Driver, elems: seq<Elem>, k: nat, bus: Bus)
    requires Idle(s)
    requires k < |elems|
    requires AllGood(elems[..k])
    requires !Good(elems[k])
    ensures var r := SendCycle(s, Sequence(elems), bus);
      && r.Failed?
      && r.error == (if elems[k].Foreign? then NotAnOp(k) else IdleNotFormattable(k))
      && |r.st.auxBuf| == k + (if elems[k].Foreign? then 0 else 1)
      && r.st.busy && !r.st.busyEvent
  {
    var s1 := Tick(s, bus).(opCnt := |elems|);
    var s2 := OpenCycle(s1).value;
    assert CycleInv(s2, bus);
    DriveOpsStopsAtFirstBad(s2, elems, 0, k, bus);
  }

  /** A cycle that fails after it was opened leaves the master busy with the
      busy event clear, so every later call with a non-empty list waits
      forever in the open. */
  lemma FailedCycleBlocksNext(s: Driver, arg: Arg, elems: seq<Elem>, bus: Bus)
    requires Coherent(s)
    requires SendCycle(s, arg, bus).Failed?
    requires SendCycle(s, arg, bus).error !in {NotASequence, NoOperations}
    requires |elems| > 0
    ensures SendCycle(SendCycle(s, arg, bus).st, Sequence(elems), bus).Stuck?
  {
    var r := SendCycle(s, arg, bus);
    var s1 := Tick(s, bus).(opCnt := |arg.elems|);
    var s2 := OpenCycle(s1).value;
    var d := DriveOps(s2, arg.elems, 0, bus);
    if d.AllDriven? {
      assert r.st == CloseCycle(d.st, bus).st;
    }
    assert r.st.busy && !r.st.busyEvent;
    var t := Tick(r.st, bus).(opCnt := |elems|);
    assert OpenCycle(t).None?;
  }

  /** With three operations or more the reader has acknowledged all of them
      by the time the last drive ends, so the close waits no edge and the
      cycle timeout can never fire. */
  lemma ManyOpsNeverTimeOut(s: Driver, elems: seq<Elem>, bus: Bus)
    requires Idle(s)
    requires |elems| >= 3
    requires AllGood(elems)
    ensures CloseNeed(elems) == 0
    ensures SendCycle(s, Sequence(elems), bus).Returned?
  {
    EdgesAtLeastTwice(elems);
    SendCycleResults(s, elems, bus);
  }

  lemma {:induction false} EdgesAtLeastTwice(elems: seq<Elem>)
    requires forall j :: 0 <= j < |elems| ==> elems[j].Item?
    ensures Edges(elems) >= 2 * |elems|
  {
    if |elems| > 0 {
      EdgesAtLeastTwice(elems[1..]);
    }
  }

  /** The two-operation example: a write of 0xAAAA to 0x10 followed by a read
      of 0x14, both with default arguments and no cycle timeout. The
      results carry the raw reply stamps 3 and 4 as waitAck (the auxiliary
      timestamp is 0), and waitIdle 2 and 4, the counts at the ends of the
      two drives. */
  lemma WriteThenRead(bus: Bus)
    ensures var r := SendCycle(Init(None), Sequence([Item(DefaultOp(0x10, Some(0xAAAA))), Item(DefaultOp(0x14, None))]), bus);
      && r.Returned? && |r.results| == 2
      && r.results[0] == Res(0, None, Some(0x10), Some(bus(5)), Some(0xAAAA), Some(2), Some(0), 3)
      && r.results[1] == Res(0, None, Some(0x14), Some(bus(6)), Some(0), Some(4), Some(0), 4)
  {
    var elems := [Item(DefaultOp(0x10, Some(0xAAAA))), Item(DefaultOp(0x14, None))];
    assert Edges(elems[..1]) == 2 by {
      assert elems[..1][1..] == [];
    }
    assert elems[..2] == elems;
    assert Edges(elems) == 4 by {
      assert elems[1..][1..] == [];
    }
    SendCycleResults(Init(None), elems, bus);
  }
}
