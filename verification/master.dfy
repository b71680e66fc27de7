/**
 * Discrete-time model of the EIM bus master's shared state and of the steps
 * that change it: the two background tasks (the reply reader and the
 * clock-cycle counter), opening a cycle, driving one operation and closing the
 * cycle.
 *
 * Every coroutine of the master suspends only at "next rising edge", so time
 * advances in whole edges. Within one edge the model fixes the order in which
 * the simulator's scheduler resumes the tasks once a cycle is open: the reader
 * first, then the counter, then the calling task. `Tick` is one rising edge as
 * seen by the two background tasks; the calling task's work between edges is
 * written out in `OpenCycle`, `Drive` and `CloseLoop`.
 */
module Master {
  import opened Records
  import opened Decoding

  /** Value on the slave's data-out lines at each simulation time. The reader
      samples it and otherwise ignores the bus replies. */
  type Bus = nat -> int

  /** The output lines the master assigns. */
  datatype Pins = Pins(lba: int, cs: int, rw: int, dain: int)

  datatype Driver = Driver(
    now: nat,                 // rising edges since simulation start (the simulator's time)
    busy: bool,
    busyEvent: bool,          // the busy event is set
    timeout: Option<int>,     // cycle timeout in clock cycles, None for none
    opCnt: int,
    ackedOps: int,
    resBuf: seq<Res>,
    auxBuf: seq<Aux>,
    clkCount: nat,            // the clock-cycle counter
    readerCount: nat,         // the reply reader's own sample counter
    tasks: bool,              // the reader and counter tasks are running
    ackTimeout: Option<int>,  // last operation's acktimeout: stored, never read
    pins: Pins)

  /** The fields only the calling task writes; the background tasks leave them alone. */
  predicate SameMain(s: Driver, r: Driver) {
    && r.busy == s.busy && r.busyEvent == s.busyEvent && r.timeout == s.timeout
    && r.opCnt == s.opCnt && r.auxBuf == s.auxBuf && r.ackTimeout == s.ackTimeout
    && r.pins == s.pins
  }

  /** Between cycles: not busy and no background task left. */
  predicate Idle(s: Driver) { !s.busy && !s.tasks }

  /** A cycle is open and its background tasks run. */
  predicate Live(s: Driver) { s.busy && s.tasks }

  /** The acknowledged count is the number of reply records. */
  predicate Counted(s: Driver) { s.ackedOps == |s.resBuf| }

  /** The busy event is never set while the master is busy. */
  predicate Coherent(s: Driver) { s.busy ==> !s.busyEvent }

  /** A freshly constructed master: idle, buffers empty, lines at their defaults. */
  function Init(timeout: Option<int>): (r: Driver)
    ensures Idle(r) && Counted(r) && Coherent(r)
    ensures r.timeout == timeout && r.resBuf == [] && r.auxBuf == [] && r.opCnt == 0
    ensures r.pins.cs == 1 && r.pins.lba == 1 && r.pins.rw == 0
  {
    Driver(0, false, false, timeout, 0, 0, [], [], 0, 0, false, None, Pins(1, 1, 0, 0))
  }

  /** One rising edge for the background tasks. The reader counts the edge and,
      while the cycle is busy and from its fourth edge on, appends one reply
      record stamped with the counter's value and acknowledges it; then the
      counter counts the edge. Both tasks end on the first edge they see with
      the cycle no longer busy. */
  function Tick(s: Driver, bus: Bus): (r: Driver)
    ensures r.now == s.now + 1
    ensures SameMain(s, r)
    ensures !s.tasks ==> r == s.(now := s.now + 1)
    ensures s.tasks ==> r.readerCount == s.readerCount + 1 && r.clkCount == s.clkCount + 1 && r.tasks == s.busy
    ensures Live(s) && s.readerCount >= 3 ==>
      r.resBuf == s.resBuf + [Reply(bus(r.now), s.clkCount)] && r.ackedOps == s.ackedOps + 1
    ensures !(Live(s) && s.readerCount >= 3) ==> r.resBuf == s.resBuf && r.ackedOps == s.ackedOps
    ensures Counted(s) ==> Counted(r)
  {
    if !s.tasks then s.(now := s.now + 1)
    else
      var t := s.now + 1;
      var sample := s.readerCount + 1;
      var s1 := if s.busy && sample >= 4
                then s.(resBuf := s.resBuf + [Reply(bus(t), s.clkCount)], ackedOps := s.ackedOps + 1)
                else s;
      s1.(now := t, readerCount := sample, clkCount := s.clkCount + 1, tasks := s.busy)
  }

  /** `k` rising edges. */
  function Wait(s: Driver, k: nat, bus: Bus): (r: Driver)
    ensures r.now == s.now + k
    ensures SameMain(s, r)
    ensures Counted(s) ==> Counted(r)
    decreases k
  {
    if k == 0 then s else Wait(Tick(s, bus), k - 1, bus)
  }

  /** The time at which the current cycle was opened. */
  function Origin(s: Driver): nat
    requires s.clkCount <= s.now
  {
    s.now - s.clkCount
  }

  /** What holds at every edge of an open cycle: the counter and the reader
      have seen the same number of edges since the cycle opened, the reader has
      appended one record for each edge from the fourth on, and record i was
      sampled four edges after the open plus i and stamped with count i + 3. */
  predicate CycleInv(s: Driver, bus: Bus) {
    && Live(s)
    && s.clkCount == s.readerCount <= s.now
    && s.ackedOps == |s.resBuf|
    && |s.resBuf| == (if s.readerCount >= 4 then s.readerCount - 3 else 0)
    && forall i :: 0 <= i < |s.resBuf| ==> s.resBuf[i] == Reply(bus(Origin(s) + i + 4), i + 3)
  }

  lemma TickKeepsCycleInv(s: Driver, bus: Bus)
    requires CycleInv(s, bus)
    ensures var r := Tick(s, bus);
      && CycleInv(r, bus) && Origin(r) == Origin(s)
      && r.readerCount == s.readerCount + 1 && s.resBuf <= r.resBuf
  {
    var r := Tick(s, bus);
    if s.readerCount >= 3 {
      assert r.resBuf == s.resBuf + [Reply(bus(r.now), s.clkCount)];
      forall i | 0 <= i < |r.resBuf|
        ensures r.resBuf[i] == Reply(bus(Origin(r) + i + 4), i + 3)
      {
        if i < |s.resBuf| {
          assert r.resBuf[i] == s.resBuf[i];
        }
      }
    }
  }

  /** Waiting inside an open cycle keeps the cycle invariant and only extends
      the reply buffer. */
  lemma {:induction false} WaitKeepsCycleInv(s: Driver, k: nat, bus: Bus)
    requires CycleInv(s, bus)
    ensures var r := Wait(s, k, bus);
      && CycleInv(r, bus) && Origin(r) == Origin(s)
      && r.readerCount == s.readerCount + k && s.resBuf <= r.resBuf
    decreases k
  {
    if k > 0 {
      TickKeepsCycleInv(s, bus);
      WaitKeepsCycleInv(Tick(s, bus), k - 1, bus);
    }
  }

  /** The reader's four-edge gate: counting from the open, after `k` edges the
      reply buffer holds max(k - 3, 0) records, each with address, select and
      write data None, waitAck equal to its index plus 3, and one
      acknowledgement per record. */
  lemma {:induction false} ReaderGate(s: Driver, k: nat, bus: Bus)
    requires CycleInv(s, bus) && s.readerCount == 0
    ensures var r := Wait(s, k, bus);
      && |r.resBuf| == (if k >= 4 then k - 3 else 0)
      && r.ackedOps == |r.resBuf|
      && forall i :: 0 <= i < |r.resBuf| ==>
           && r.resBuf[i].adr.None? && r.resBuf[i].sel.None? && r.resBuf[i].datwr.None?
           && r.resBuf[i].waitAck == i + 3
           && r.resBuf[i].datrd == Some(bus(s.now + i + 4))
  {
    WaitKeepsCycleInv(s, k, bus);
  }

  /** Open a cycle. While a cycle is busy and its event is not set, the caller
      waits for an event nobody will set: `None`. Otherwise the cycle becomes
      busy, the event is cleared, both background tasks start afresh, lba is
      driven low and the counters and buffers are reset. */
  function OpenCycle(s: Driver): (r: Option<Driver>)
    ensures r.None? <==> s.busy && !s.busyEvent
    ensures r.Some? ==>
      && r.value.busy && !r.value.busyEvent && r.value.tasks
      && r.value.ackedOps == 0 && r.value.resBuf == [] && r.value.auxBuf == []
      && r.value.clkCount == 0 && r.value.readerCount == 0
      && r.value.now == s.now && r.value.opCnt == s.opCnt && r.value.timeout == s.timeout
      && r.value.pins == s.pins.(lba := 0)
    ensures r.Some? ==> forall bus :: CycleInv(r.value, bus)
  {
    if s.busy && !s.busyEvent then None
    else Some(s.(busyEvent := false, busy := true, tasks := true, readerCount := 0, clkCount := 0,
                 pins := s.pins.(lba := 0), ackedOps := 0, resBuf := [], auxBuf := []))
  }

  /** Idle edges an operation asks for: none when idle is None or not positive. */
  function IdleEdges(idle: Option<int>): nat {
    match idle
    case None => 0
    case Some(n) => if n > 0 then n else 0
  }

  /** Drive one operation. Outside a cycle nothing happens and no edge passes.
      Inside, the master waits the idle edges, drives the address for one edge,
      then data, write enable and chip select for one more edge, appends one
      auxiliary record stamped with the clock-cycle count and releases write
      enable. */
  function Drive(s: Driver, req: DriveReq, bus: Bus): (r: Driver)
    ensures !s.busy ==> r == s
    ensures s.busy ==> r.now == s.now + IdleEdges(req.idle) + 2
    ensures s.busy ==> r.auxBuf == s.auxBuf + [Aux(req.sel, req.adr, req.dat, req.idle, r.clkCount, 0)]
    ensures s.busy ==> r.pins == Pins(1, 0, 0, req.dat)
    ensures r.busy == s.busy && r.busyEvent == s.busyEvent && r.timeout == s.timeout
    ensures r.opCnt == s.opCnt && r.ackTimeout == s.ackTimeout
    ensures Counted(s) ==> Counted(r)
  {
    if !s.busy then s
    else
      var s1 := Wait(s, IdleEdges(req.idle), bus);
      var s2 := Tick(s1.(pins := s1.pins.(lba := 0, dain := req.adr)), bus);
      var s3 := Tick(s2.(pins := s2.pins.(lba := 1, cs := 0, dain := req.dat, rw := req.we)), bus);
      s3.(auxBuf := s3.auxBuf + [Aux(req.sel, req.adr, req.dat, req.idle, s3.clkCount, 0)],
          pins := s3.pins.(rw := 0))
  }

  /** A drive inside an open cycle keeps the cycle invariant and takes the
      idle edges plus two. */
  /** The cycle invariant only reads the background tasks' fields and the time. */
  lemma SameTaskFields(a: Driver, b: Driver, bus: Bus)
    requires CycleInv(a, bus)
    requires b.busy == a.busy && b.tasks == a.tasks && b.now == a.now && b.clkCount == a.clkCount
    requires b.readerCount == a.readerCount && b.ackedOps == a.ackedOps && b.resBuf == a.resBuf
    ensures CycleInv(b, bus) && Origin(b) == Origin(a)
  {
  }

  lemma DriveKeepsCycleInv(s: Driver, req: DriveReq, bus: Bus)
    requires CycleInv(s, bus)
    ensures var r := Drive(s, req, bus);
      && CycleInv(r, bus) && Origin(r) == Origin(s)
      && r.readerCount == s.readerCount + IdleEdges(req.idle) + 2 && s.resBuf <= r.resBuf
  {
    var s1 := Wait(s, IdleEdges(req.idle), bus);
    WaitKeepsCycleInv(s, IdleEdges(req.idle), bus);
    var s1' := s1.(pins := s1.pins.(lba := 0, dain := req.adr));
    SameTaskFields(s1, s1', bus);
    TickKeepsCycleInv(s1', bus);
    var s2 := Tick(s1', bus);
    var s2' := s2.(pins := s2.pins.(lba := 1, cs := 0, dain := req.dat, rw := req.we));
    SameTaskFields(s2, s2', bus);
    TickKeepsCycleInv(s2', bus);
    var s3 := Tick(s2', bus);
    var r := s3.(auxBuf := s3.auxBuf + [Aux(req.sel, req.adr, req.dat, req.idle, s3.clkCount, 0)],
                 pins := s3.pins.(rw := 0));
    assert Drive(s, req, bus) == r;
    SameTaskFields(s3, r, bus);
  }

  /** How a cycle close ends: closed after `waited` edges of waiting, failed
      by the cycle timeout after `waited` edges, or waiting forever. */
  datatype CloseOutcome = Closed(st: Driver, waited: nat) | TimedOut(st: Driver, waited: nat) | Hangs

  /** The end of a close: the cycle is no longer busy, the busy event is set,
      chip select goes high, and one more edge passes. */
  function Release(s: Driver, bus: Bus): (r: Driver)
    ensures !r.busy && r.busyEvent && !r.tasks && r.pins.cs == 1
    ensures r.now == s.now + 1
    ensures r.resBuf == s.resBuf && r.ackedOps == s.ackedOps && r.auxBuf == s.auxBuf && r.opCnt == s.opCnt
  {
    Tick(s.(busy := false, busyEvent := true, pins := s.pins.(cs := 1)), bus)
  }

  function CloseMeasure(s: Driver, count: nat): nat {
    match s.timeout
    case Some(t) => if count < t then t - count else 0
    case None =>
      if s.ackedOps < s.opCnt then
        (s.opCnt - s.ackedOps) * 4 + (if s.readerCount < 3 then 3 - s.readerCount else 0)
      else 0
  }

  /** The close loop, entered with `count` checks already passed. While fewer
      operations are acknowledged than were submitted, it counts one more
      check, fails once that count exceeds the cycle timeout, and otherwise
      waits one edge. With no timeout and no reader running the wait never
      ends. */
  function CloseLoop(s: Driver, count: nat, bus: Bus): (r: CloseOutcome)
    ensures r.Closed? ==>
      && !r.st.busy && r.st.busyEvent && r.st.pins.cs == 1 && !r.st.tasks
      && r.st.ackedOps >= r.st.opCnt && r.waited >= count
      && r.st.now == s.now + (r.waited - count) + 1
      && r.st.auxBuf == s.auxBuf && r.st.opCnt == s.opCnt
    ensures r.TimedOut? ==>
      && s.timeout.Some? && r.waited == Max(s.timeout.value, count)
      && r.st.ackedOps < r.st.opCnt
      && r.st.now == s.now + (r.waited - count)
      && r.st.busy == s.busy && r.st.busyEvent == s.busyEvent
    ensures r.Hangs? ==> s.timeout.None? && !Live(s) && s.ackedOps < s.opCnt
    ensures s.timeout.None? ==> !r.TimedOut?
    ensures s.ackedOps >= s.opCnt ==> r == Closed(Release(s, bus), count)
    ensures Counted(s) && !r.Hangs? ==> Counted(r.st)
    decreases CloseMeasure(s, count)
  {
    if s.ackedOps >= s.opCnt then Closed(Release(s, bus), count)
    else if s.timeout.Some? && count + 1 > s.timeout.value then TimedOut(s, count)
    else if s.timeout.None? && !Live(s) then Hangs
    else CloseLoop(Tick(s, bus), count + 1, bus)
  }

  /** Close the current cycle. If every operation is already acknowledged it
      waits no edge before closing; with no cycle timeout it never fails; with
      timeout T it fails after max(T, 0) edges of waiting, still short of
      acknowledgements; on success the cycle is released. */
  function CloseCycle(s: Driver, bus: Bus): (r: CloseOutcome)
    ensures s.ackedOps >= s.opCnt ==> r.Closed? && r.waited == 0 && r.st.now == s.now + 1
    ensures s.timeout.None? ==> !r.TimedOut?
    ensures r.TimedOut? ==> s.timeout.Some? && r.waited == Max(s.timeout.value, 0) && r.st.ackedOps < r.st.opCnt
    ensures r.Closed? ==> !r.st.busy && r.st.busyEvent && r.st.pins.cs == 1 && !r.st.tasks
    ensures r.Closed? ==> r.st.ackedOps >= r.st.opCnt && r.st.now == s.now + r.waited + 1
  {
    CloseLoop(s, 0, bus)
  }

  /** Edges the close loop still has to wait in an open cycle before every
      operation is acknowledged. */
  function NeededEdges(s: Driver): nat {
    if s.ackedOps >= s.opCnt || s.opCnt + 3 <= s.readerCount then 0
    else s.opCnt + 3 - s.readerCount
  }

  /** The close loop, `count` checks in, can wait `needed` more edges
      without exceeding the timeout. */
  predicate Fits(needed: nat, count: nat, timeout: Option<int>) {
    timeout.None? || needed == 0 || count + needed <= timeout.value
  }

  /** Inside an open cycle the close loop closes after exactly `NeededEdges`
      edges when the timeout allows them, and times out otherwise. On success
      the reply buffer holds at least one record per operation, each as the
      reader sampled it. */
  lemma {:induction false} CloseLoopExact(s: Driver, count: nat, bus: Bus)
    requires CycleInv(s, bus)
    ensures var r := CloseLoop(s, count, bus);
      if Fits(NeededEdges(s), count, s.timeout) then
        && r.Closed? && r.waited == count + NeededEdges(s)
        && r.st.ackedOps == |r.st.resBuf| >= s.opCnt
        && forall i :: 0 <= i < |r.st.resBuf| ==> r.st.resBuf[i] == Reply(bus(Origin(s) + i + 4), i + 3)
      else
        r.TimedOut?
    decreases NeededEdges(s)
  {
    if s.ackedOps < s.opCnt {
      if !(s.timeout.Some? && count + 1 > s.timeout.value) {
        var t := Tick(s, bus);
        TickKeepsCycleInv(s, bus);
        assert NeededEdges(t) == NeededEdges(s) - 1;
        CloseLoopExact(t, count + 1, bus);
      }
    }
  }
}
