/**
 * The value records the EIM bus master exchanges with its callers: operations
 * (EIMOp), the per-drive auxiliary records (EIMAux) and the results (EIMRes).
 * Python's `None` is `None` of `Option`; every number is an unbounded integer,
 * as Python's `int` is.
 */
module Records {

  datatype Option<+T> = None | Some(value: T)

  function Max(a: int, b: int): int { if a >= b then a else b }

  function Min(a: int, b: int): int { if a <= b then a else b }

  /** One bus operation. `dat == None` asks for a read; `idle` is the number of
      clock edges to wait before the operation; `ackTimeout` is stored by the
      driver but never consulted. */
  datatype Op = Op(adr: int, dat: Option<int>, idle: Option<int>, sel: Option<int>, ackTimeout: int)

  /** An operation built with the constructor's defaults for idle, sel and acktimeout. */
  function DefaultOp(adr: int, dat: Option<int>): Op {
    Op(adr, dat, Some(0), None, 4)
  }

  /** Auxiliary record appended once per driven operation. The fields hold what
      the driver's positional construction actually puts there: `waitStall`
      receives the operation's idle count, `waitIdle` the clock-cycle count at
      the moment of the append, and `ts` keeps its default 0. */
  datatype Aux = Aux(sel: Option<int>, adr: int, datwr: int, waitStall: Option<int>, waitIdle: int, ts: int)

  /** Result record: first built by the reply reader, later completed from an
      auxiliary record. `ack` is never assigned and stays 0. */
  datatype Res = Res(
    ack: int,
    sel: Option<int>,
    adr: Option<int>,
    datrd: Option<int>,
    datwr: Option<int>,
    waitIdle: Option<int>,
    waitStall: Option<int>,
    waitAck: int)

  /** The record the reply reader appends: the sampled data-out value and the
      clock-cycle count, every other field left None. */
  function Reply(datrd: int, stamp: int): Res {
    Res(0, None, None, Some(datrd), None, None, None, stamp)
  }
}
