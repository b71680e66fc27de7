/**
 * The final pick-and-mix of `send_cycle`: reply records and auxiliary
 * records are paired by position (Python's `zip`, which stops at the shorter
 * list) and each pair becomes one result.
 */
module Merging {
  import opened Records

  /** One pair of the zip: the reply keeps its read data and ack, takes the
      request side from the auxiliary record, and its waitAck is reduced by the
      auxiliary timestamp. */
  function Complete(res: Res, aux: Aux): Res {
    res.(datwr := Some(aux.datwr), sel := aux.sel, adr := Some(aux.adr),
         waitIdle := Some(aux.waitIdle), waitStall := aux.waitStall,
         waitAck := res.waitAck - aux.ts)
  }

  /** Result i combines reply i with auxiliary record i; surplus entries of the
      longer buffer are dropped. */
  function Merge(resBuf: seq<Res>, auxBuf: seq<Aux>): (r: seq<Res>)
    ensures |r| == Min(|resBuf|, |auxBuf|)
    ensures forall i :: 0 <= i < |r| ==>
      && r[i].ack == resBuf[i].ack
      && r[i].datrd == resBuf[i].datrd
      && r[i].adr == Some(auxBuf[i].adr)
      && r[i].sel == auxBuf[i].sel
      && r[i].datwr == Some(auxBuf[i].datwr)
      && r[i].waitIdle == Some(auxBuf[i].waitIdle)
      && r[i].waitStall == auxBuf[i].waitStall
      && r[i].waitAck == resBuf[i].waitAck - auxBuf[i].ts
  {
    if |resBuf| == 0 || |auxBuf| == 0 then []
    else [Complete(resBuf[0], auxBuf[0])] + Merge(resBuf[1..], auxBuf[1..])
  }

  /** Replies beyond the last auxiliary record never reach the results. */
  lemma {:induction false} MergeDropsSurplusReplies(resBuf: seq<Res>, auxBuf: seq<Aux>, more: seq<Res>)
    requires |resBuf| == |auxBuf|
    ensures Merge(resBuf + more, auxBuf) == Merge(resBuf, auxBuf)
  {
    if |resBuf| > 0 {
      assert (resBuf + more)[1..] == resBuf[1..] + more;
      MergeDropsSurplusReplies(resBuf[1..], auxBuf[1..], more);
    }
  }

  /** Auxiliary records beyond the last reply never reach the results. */
  lemma {:induction false} MergeDropsSurplusAux(resBuf: seq<Res>, auxBuf: seq<Aux>, more: seq<Aux>)
    requires |resBuf| == |auxBuf|
    ensures Merge(resBuf, auxBuf + more) == Merge(resBuf, auxBuf)
  {
    if |resBuf| > 0 {
      assert (auxBuf + more)[1..] == auxBuf[1..] + more;
      MergeDropsSurplusAux(resBuf[1..], auxBuf[1..], more);
    }
  }
}
