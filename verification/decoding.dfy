/**
 * How `send_cycle` turns one operation into the arguments of a drive:
 * write enable, address, data, byte select and idle count.
 */
module Decoding {
  import opened Records

  /** The arguments `_drive` receives for one operation. */
  datatype DriveReq = DriveReq(we: int, adr: int, dat: int, sel: Option<int>, idle: Option<int>)

  /** An operation is a write exactly when it carries data; a read drives
      write enable 0 and data 0. Address, select and idle pass through. */
  function Decode(op: Op): (r: DriveReq)
    ensures r.we == 1 <==> op.dat.Some?
    ensures r.we == 0 <==> op.dat.None?
    ensures op.dat.Some? ==> r.dat == op.dat.value
    ensures op.dat.None? ==> r.dat == 0
    ensures r.adr == op.adr && r.sel == op.sel && r.idle == op.idle
  {
    match op.dat
    case Some(d) => DriveReq(1, op.adr, d, op.sel, op.idle)
    case None => DriveReq(0, op.adr, 0, op.sel, op.idle)
  }
}
