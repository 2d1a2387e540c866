/**
 * Selection of the single read or write that completes a control request
 * (usbf_setup_ack, usbf_setup_response, usbf_setup_stall) or that performs
 * a data transfer (usbf_transfer). The I/O itself is the operating
 * system's; these functions say which call is made, on which file and for
 * how many bytes.
 */
module Dispatch {
  import opened Bytes
  import opened Consts

  /**
   * A decoded SETUP request. The library's request also points back at its
   * function; only that function's control file is ever used through it,
   * so the model keeps the control file's descriptor instead.
   */
  datatype SetupRequest = SetupRequest(
    bRequestType: byte,
    bRequest: byte,
    wValue: uint16,
    wIndex: uint16,
    wLength: uint16,
    ep0File: int)

  /** One read or write system call on a file descriptor. */
  datatype IoOp = ReadOp(fd: int, len: nat) | WriteOp(fd: int, len: nat)

  /** The same call with the other direction. */
  function Flip(op: IoOp): (r: IoOp)
    ensures r.fd == op.fd && r.len == op.len && r.ReadOp? != op.ReadOp?
  {
    match op
    case ReadOp(fd, len) => WriteOp(fd, len)
    case WriteOp(fd, len) => ReadOp(fd, len)
  }

  /** The request's data stage goes device-to-host (bmRequestType & USB_DIR_IN). */
  predicate IsIn(req: SetupRequest)
  {
    (req.bRequestType as bv8) & USB_DIR_IN != 0
  }

  /** The direction test is bit 7 of bmRequestType. */
  lemma IsInIsBit7(req: SetupRequest)
    ensures IsIn(req) <==> req.bRequestType >= 0x80
  {
  }

  /** usbf_setup_ack: a zero-length status stage in the direction opposite the data. */
  function Ack(req: SetupRequest): (op: IoOp)
    ensures op.fd == req.ep0File && op.len == 0
    ensures op.WriteOp? <==> IsIn(req)
  {
    if IsIn(req) then WriteOp(req.ep0File, 0) else ReadOp(req.ep0File, 0)
  }

  /** usbf_setup_response: the data stage, `length` bytes in the request's direction. */
  function Response(req: SetupRequest, length: nat): (op: IoOp)
    ensures op.fd == req.ep0File && op.len == length
    ensures op.WriteOp? <==> IsIn(req)
  {
    if IsIn(req) then WriteOp(req.ep0File, length) else ReadOp(req.ep0File, length)
  }

  /** usbf_setup_stall: a zero-length call in the data stage's direction, which FunctionFS turns into a halt. */
  function Stall(req: SetupRequest): (op: IoOp)
    ensures op.fd == req.ep0File && op.len == 0
    ensures op.ReadOp? <==> IsIn(req)
  {
    if IsIn(req) then ReadOp(req.ep0File, 0) else WriteOp(req.ep0File, 0)
  }

  /** Stall is always the opposite operation to ack, and ack is never a stall. */
  lemma StallIsFlippedAck(req: SetupRequest)
    ensures Stall(req) == Flip(Ack(req))
    ensures Stall(req) != Ack(req)
  {
  }

  /** A zero-length response is the same call as an ack. */
  lemma EmptyResponseIsAck(req: SetupRequest)
    ensures Response(req, 0) == Ack(req)
  {
  }

  /** What usbf_transfer does: one system call, or an immediate error return. */
  datatype TransferCall = Call(op: IoOp) | Refused(ret: int)

  /**
   * usbf_transfer: an OUT endpoint reads, an IN endpoint writes, and any
   * other direction value returns -EINVAL without I/O.
   */
  function Transfer(direction: bv32, epFile: int, length: nat): (r: TransferCall)
    ensures r.Call? <==> direction == USBF_OUT || direction == USBF_IN
    ensures r.Call? ==> r.op.fd == epFile && r.op.len == length
    ensures r.Call? ==> (r.op.WriteOp? <==> direction == USBF_IN)
    ensures r.Refused? ==> r.ret == -EINVAL
  {
    if direction == USBF_OUT then Call(ReadOp(epFile, length))
    else if direction == USBF_IN then Call(WriteOp(epFile, length))
    else Refused(-EINVAL)
  }
}
