# EIM bus master — a discrete-time Dafny model

This project models the cycle bookkeeping of the `EIMMaster` bus driver of
cocotbext-imxeim (`cocotbext/imxeim/driver.py`): how `send_cycle` decodes a
list of `EIMOp` operations, opens a bus cycle, drives every operation, waits in
`_close_cycle` until the reply reader has acknowledged as many replies as there
were operations, and zips the reader's reply records with the driver's
auxiliary records into the returned `EIMRes` list.

The master's coroutines suspend only at "next rising edge", so the model is a
pure state machine over one `Driver` record, advanced one edge at a time:

- `records.dfy` (`Records`): `Op` (EIMOp), `Aux` (EIMAux), `Res` (EIMRes).
- `decoding.dfy` (`Decoding`): one operation to the drive arguments.
- `master.dfy` (`Master`): the driver state, `Tick` (one rising edge for the
  reply reader and the clock-cycle counter), `OpenCycle`, `Drive`,
  `CloseLoop`/`CloseCycle`, and the cycle invariant `CycleInv`.
- `merging.dfy` (`Merging`): the positional zip-merge.
- `cycle.dfy` (`Cycle`): `SendCycle`, the argument checks, the driving loop,
  and the end-to-end properties.

**Edge order.** Within one rising edge the model resumes the tasks in a fixed
order: the reply reader first, then the clock-cycle counter, then the calling
task (open, drive, close). This is the order in which the three tasks first
wait on the shared edge trigger after `_open_cycle` forks the two background
tasks. Every timestamp below is exact relative to that order; with another
order the stamps would shift by one.

**Behaviour as written.** The model follows the code, including where it
differs from the design the repository describes:

- `EIMAux` is built positionally against a signature whose fourth and fifth
  parameters are `waitStall` and `waitIdle`. So `waitStall` receives the
  operation's idle count, `waitIdle` receives the clock-cycle count, and the
  timestamp `ts` stays 0.
- A result's `waitAck` is therefore the raw reply stamp, not a latency.
- `ack` is never assigned and stays 0.
- The reply reader does not look at any acknowledge line. From its fourth
  sample on it appends one record per edge while the cycle is busy.
  Reply record i is stamped i + 3 and holds the data-out value sampled i + 4
  edges after the open.
- The result for operation j is therefore paired with reply j whatever the
  slave did.
- The per-operation `acktimeout` is stored and never read. The ack wait in
  `_drive` is commented out.
- An empty list logs an error and then reaches `raise ReturnValue(result)` with
  `result` never bound. The model ends that path as the failure `NoOperations`.
  No cycle is opened on it.
- An operation whose `idle` is None is driven (`_drive` treats None as no idle
  edges). The debug line that follows formats `idle` with `%3u`, which fails
  for None. The model ends the call there with `IdleNotFormattable`.
- A call that fails after the open leaves `busy` set and the busy event clear.
  So the next call with a non-empty list waits in `_open_cycle` for an event
  nobody sets.
- With three or more operations, the reader has acknowledged them all before
  the last drive ends, so the cycle timeout can never fire.

The slave is not modelled: `Bus` is an arbitrary function from simulation time
to the data-out value. The model's `now` field is the simulator's time in edges
and is not a field of the source.

## Model

| member | source | states |
|---|---|---|
| `Decoding.Decode` | cocotbext/imxeim/driver.py:256-261 | an operation drives write enable 1 exactly when it carries data; that data is driven as is. A read drives write enable 0 and data 0. Address, select and idle pass through unchanged |
| `Master.Init` | cocotbext/imxeim/driver.py:98-121 | a new master is not busy, has no background task, has empty buffers and keeps the configured cycle timeout; chip select and lba start high and rw low |
| `Master.Tick` | cocotbext/imxeim/driver.py:182-196 | on one edge, the reader appends exactly one record when the cycle is busy and this is its fourth sample or later. That record has address, select and write data None and is stamped with the counter's value. The acknowledged count rises by one in that case only, so acknowledged count and reply-buffer length move together. The counter counts the edge. Both tasks end once the cycle is not busy. Nothing the calling task owns changes |
| `Master.Wait` | cocotbext/imxeim/driver.py:209-211 | waiting k edges advances time by k, leaves the calling task's fields alone and keeps acknowledged count equal to reply count |
| `Master.WaitKeepsCycleInv` | cocotbext/imxeim/driver.py:125-133 | in an open cycle, the counter and the reader count the same edges since the open. The acknowledged count equals the number of replies. Replies are only appended, never changed |
| `Master.ReaderGate` | cocotbext/imxeim/driver.py:186-196 | k edges after the open the reader has appended max(k − 3, 0) records. Record i has address, select and write data None, waitAck i + 3, and the data-out value at the open time + i + 4. There is one acknowledgement per record |
| `Master.OpenCycle` | cocotbext/imxeim/driver.py:137-151 | the open blocks exactly when the master is busy and the busy event is clear. Otherwise it leaves busy set, the event clear, both tasks fresh, acknowledged count 0, both buffers empty and lba low. The cycle invariant then holds |
| `Master.Drive` | cocotbext/imxeim/driver.py:199-227 | outside a cycle the state is unchanged and no edge passes. Inside a cycle, max(idle, 0) idle edges pass (none for None), then exactly 2 more. Exactly one auxiliary record is appended, with waitStall = idle, waitIdle = the clock-cycle count and ts = 0. The lines end at lba 1, cs 0, rw 0, dain = data |
| `Master.DriveKeepsCycleInv` | cocotbext/imxeim/driver.py:205-223 | a drive inside an open cycle keeps the cycle invariant, advances the reader by the idle edges plus 2, and only extends the reply buffer |
| `Master.CloseLoop` | cocotbext/imxeim/driver.py:155-178 | the close waits until acknowledged ≥ submitted. If that holds on entry, it closes with no wait. With a timeout it fails on the first check whose count exceeds it, still short of acknowledgements. With no timeout it never fails and hangs only when no reader runs. Success leaves busy clear, the event set, cs high and no task alive |
| `Master.CloseCycle` | cocotbext/imxeim/driver.py:155-178 | from count 0: no wait when already acknowledged; no failure without a timeout; a timeout T fails after max(T, 0) edges; success releases the cycle one edge after the wait |
| `Master.CloseLoopExact` | cocotbext/imxeim/driver.py:163-172 | in an open cycle the close waits exactly `NeededEdges` edges when the timeout allows them, and times out otherwise. On success the reply buffer holds at least one reply per operation, each as the reader sampled it |
| `Merging.Merge` | cocotbext/imxeim/driver.py:272-279 | the merge returns min(replies, aux records) results in buffer order. Result i takes ack and read data from reply i; address, select, write data, waitIdle and waitStall from aux record i; and waitAck = reply stamp − aux ts |
| `Merging.MergeDropsSurplusReplies` | cocotbext/imxeim/driver.py:272 | replies beyond the last auxiliary record never reach the results |
| `Merging.MergeDropsSurplusAux` | cocotbext/imxeim/driver.py:272 | auxiliary records beyond the last reply never reach the results |
| `Cycle.DriveOps` | cocotbext/imxeim/driver.py:250-267 | the driving loop keeps busy, the event, the operation count and the acknowledged/reply agreement. It completes only if every element is an operation with a numeric idle, and then adds one aux record per element. It aborts only at an element it has reached, as not-an-operation or unformattable idle |
| `Cycle.DriveOpsGood` | cocotbext/imxeim/driver.py:250-262 | in an open cycle, good elements are all driven in order. Aux record j echoes operation j and is stamped with the count at the end of its own drive; the cycle invariant is kept |
| `Cycle.DriveOpsStopsAtFirstBad` | cocotbext/imxeim/driver.py:250-266 | the loop stops at the first bad element with its index, after the earlier operations were driven. A non-operation stops before any drive of its own; idle None stops after its drive. The cycle stays busy |
| `Cycle.SendCycle` | cocotbext/imxeim/driver.py:232-284 | a non-sequence fails after one edge. An empty list fails without opening a cycle. A non-empty list blocks while the master is busy with the event clear. A returned list has exactly one result per element, and leaves the master idle with the event set and cs high. Acknowledged = replies and busy ⇒ event clear hold across the call |
| `Cycle.SendCycleResults` | cocotbext/imxeim/driver.py:239-281 | from an idle master, good operations return iff the close wait fits the timeout, and fail with the timeout otherwise. Result j echoes operation j's address, select and write data (0 for reads). Its waitStall is the idle count and its waitIdle the edges of drives 0..j. Its read data was sampled j + 4 edges after the open; waitAck is j + 3 and ack is 0 |
| `Cycle.SendCycleStopsAtFirstBad` | cocotbext/imxeim/driver.py:248-266 | from an idle master, the first bad element k fails the call with index k, after k operations (k + 1 for idle None) were driven. The master is left busy with the event clear |
| `Cycle.FailedCycleBlocksNext` | cocotbext/imxeim/driver.py:139-142 | after a call that failed once its cycle was open, the next call with a non-empty list never returns |
| `Cycle.ManyOpsNeverTimeOut` | cocotbext/imxeim/driver.py:163-171 | with three or more good operations the close waits no edge, so the call returns whatever the cycle timeout |
| `Cycle.WriteThenRead` | cocotbext/imxeim/driver.py:239-281 | a write of 0xAAAA to 0x10 and then a read of 0x14, from a new master, return two results: waitAck 3 and 4, waitIdle 2 and 4, write data 0xAAAA and 0, and read data sampled 4 and 5 edges after the open |

## Left out

- Signal plumbing: `BusDriver` construction, the signal-name remapping and `setimmediatevalue` (driver.py:83-101) are not modelled. The driven lines lba, cs, rw and dain are plain fields with the values last assigned. The lines daen, eb and oe are never driven by the master and are absent.
- Simulator scheduling: `RisingEdge`, `Event` and `cocotb.fork` are flattened into `Tick` with the fixed reader–counter–caller order described above. Delta cycles and the deferred effect of `<=` assignments are not represented.
- Concurrent callers: only one calling task is modelled. A blocked `_open_cycle` is therefore a wait forever, since nobody else can set the busy event.
- The case busy with the event set would fork a second reader and counter next to the old ones. It is not represented, because `Coherent` (busy ⇒ event clear) holds from `Init` and across `SendCycle`.
- Logging: it does not change state. The one exception is the debug line that cannot format an idle of None; it is modelled as a failure.
- Python reflection: `is_sequence` becomes the `Arg` input (sequence or not). Elements are either an operation or foreign. Operation fields are integers or None. Other Python values are not modelled, nor are sequences without a length.
- The unbound `result` on the empty-list path (driver.py:281) is modelled as the failure `NoOperations`, not as a Python runtime error.
- Object aliasing: the merge mutates the reply objects held in `_res_buf`. The model returns merged copies and leaves the state's reply buffer unmerged.
- Slave behaviour: the data-out value is an arbitrary function of time. Stall, error and retry classification, default byte selects and the per-operation ack-timeout wait do not exist in this code and are not modelled.
- setup.py: packaging only.
