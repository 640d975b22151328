/**
 * The master's application layer in its CAN build
 * (`Modbus_Project_Master/Master/Modbus_app.c`): the user functions that
 * check a request's parameters and send or queue it, the formatting of the
 * request PDU, the guess of the answer's size for the timeout, the queue
 * of failures, and `Modbus_App_Manage_CallBack`, which checks an answer,
 * hands read values to the user and decides between success, retry and a
 * recorded exception.
 *
 * A request's parameters are kept in a typed `Op` instead of the C union
 * array `Data[6]`, so the function code always matches the parameters.
 */
module MasterApp {
  import opened Bytes
  import Fifo
  import MasterCan
  import CanFrames

  /** Highest slave address a request may name. */
  const MaxSlave: nat := 247

  /** Most coils or discrete inputs one read may ask for. */
  const MaxReadBits: nat := 2000

  /** Most registers one read may ask for. */
  const MaxReadRegisters: nat := 125

  /** Most coils one write-multiple-coils request may carry. */
  const MaxWriteBits: nat := 1968

  /** Most registers one write-multiple-registers request may carry. */
  const MaxWriteRegisters: nat := 123

  /** Most registers the write part of a read/write request may carry. */
  const MaxReadWriteWrites: nat := 121

  /** The value a write-single-coil request sends to switch the coil on. */
  const CoilOn: u16 := 0xFF00

  /**
   * The parameters of one request, one variant per user function. The
   * values of a multiple write are the `Coils`/`Registers` values the user's
   * array holds, so their count is the quantity.
   */
  datatype Op =
    | ReadCoils(address: u16, quantity: u16)
    | ReadInputs(address: u16, quantity: u16)
    | ReadHolding(address: u16, quantity: u16)
    | ReadInputRegisters(address: u16, quantity: u16)
    | WriteCoil(address: u16, on: bool)
    | WriteRegister(address: u16, value: u16)
    | WriteCoils(address: u16, coils: seq<byte>)
    | WriteRegisters(address: u16, registers: seq<u16>)
    | MaskWrite(address: u16, andMask: u16, orMask: u16)
    | ReadWrite(readAddress: u16, readQuantity: u16, writeAddress: u16, registers: seq<u16>)

  /** `struct Modbus_FIFO_Item`: the slave and the request. */
  datatype Request = Request(slave: byte, op: Op)

  /** The Modbus function code of each request. */
  function FunctionCode(op: Op): byte
  {
    match op
    case ReadCoils(_, _) => 1
    case ReadInputs(_, _) => 2
    case ReadHolding(_, _) => 3
    case ReadInputRegisters(_, _) => 4
    case WriteCoil(_, _) => 5
    case WriteRegister(_, _) => 6
    case WriteCoils(_, _) => 15
    case WriteRegisters(_, _) => 16
    case MaskWrite(_, _, _) => 22
    case ReadWrite(_, _, _, _) => 23
  }

  /** The address-range test `(long)address + (long)quantity > 65535` passes. */
  predicate InRange(address: u16, quantity: nat)
  {
    address + quantity <= 65535
  }

  /**
   * The parameter checks of the user functions (`Modbus_Read_Coils` to
   * `Modbus_Read_Write_M_Registers`). Reads need a unicast slave 1..247;
   * writes also allow the broadcast address 0.
   */
  predicate Accepted(r: Request)
    ensures Accepted(r) ==> r.slave <= MaxSlave
    ensures Accepted(r) && r.slave == 0 ==> !IsRead(r.op)
  {
    match r.op
    case ReadCoils(a, q) => 1 <= r.slave <= MaxSlave && 1 <= q <= MaxReadBits && InRange(a, q)
    case ReadInputs(a, q) => 1 <= r.slave <= MaxSlave && 1 <= q <= MaxReadBits && InRange(a, q)
    case ReadHolding(a, q) => 1 <= r.slave <= MaxSlave && 1 <= q <= MaxReadRegisters && InRange(a, q)
    case ReadInputRegisters(a, q) => 1 <= r.slave <= MaxSlave && 1 <= q <= MaxReadRegisters && InRange(a, q)
    case WriteCoil(_, _) => r.slave <= MaxSlave
    case WriteRegister(_, _) => r.slave <= MaxSlave
    case WriteCoils(a, vs) => r.slave <= MaxSlave && 1 <= |vs| <= MaxWriteBits && InRange(a, |vs|)
    case WriteRegisters(a, vs) => r.slave <= MaxSlave && 1 <= |vs| <= MaxWriteRegisters && InRange(a, |vs|)
    case MaskWrite(_, _, _) => r.slave <= MaxSlave
    case ReadWrite(ra, rq, wa, vs) =>
      && 1 <= r.slave <= MaxSlave
      && 1 <= rq <= MaxReadRegisters && InRange(ra, rq)
      && 1 <= |vs| <= MaxReadWriteWrites && InRange(wa, |vs|)
  }

  /** The operations that return values, and so need a single addressed slave. */
  predicate IsRead(op: Op)
  {
    op.ReadCoils? || op.ReadInputs? || op.ReadHolding? || op.ReadInputRegisters? || op.ReadWrite?
  }

  /** A request that passed its user function's checks: the only kind the queue and the sender ever see. */
  type Issued = r: Request | Accepted(r) witness Request(1, ReadCoils(0, 1))

  /** The value a write-single-coil request carries: 0 or 0xFF00. */
  function CoilValue(on: bool): u16
  {
    if on then CoilOn else 0
  }

  /** The big-endian 16-bit field at bytes `i`, `i+1`. */
  function Field(s: seq<byte>, i: nat): u16
    requires i + 1 < |s|
  {
    Word(s[i], s[i + 1])
  }

  /** A function code followed by two big-endian fields. */
  function Standard(fc: byte, first: u16, second: u16): seq<byte>
  {
    [fc, Hi(first), Lo(first), Hi(second), Lo(second)]
  }

  /** A five-byte request read back: function code and two big-endian fields. */
  predicate StandardPdu(pdu: seq<byte>, fc: byte, first: u16, second: u16)
  {
    |pdu| == 5 && pdu[0] == fc && Field(pdu, 1) == first && Field(pdu, 3) == second
  }

  /** A write-multiple-coils request read back: address, quantity, byte count and the coils unpacked from the data. */
  predicate CoilsPdu(pdu: seq<byte>, a: u16, vs: seq<byte>)
  {
    && |pdu| >= 6 && pdu[0] == 15 && Field(pdu, 1) == a && Field(pdu, 3) == |vs|
    && pdu[5] == ByteCount(|vs|) && |pdu| == 6 + pdu[5] as int
    && (AllBits(vs) ==> |vs| <= 8 * (|pdu| - 6) && Unpack(pdu[6..], |vs|) == vs)
  }

  /** A write-multiple-registers request read back: address, quantity, byte count and the registers after it. */
  predicate RegistersPdu(pdu: seq<byte>, a: u16, vs: seq<u16>)
  {
    && |pdu| >= 6 && pdu[0] == 16 && Field(pdu, 1) == a && Field(pdu, 3) == |vs|
    && pdu[5] == 2 * |vs| && |pdu| == 6 + pdu[5] as int
    && Unwords(pdu[6..]) == vs
  }

  /** A mask-write request read back: address and the two masks. */
  predicate MaskPdu(pdu: seq<byte>, a: u16, am: u16, om: u16)
  {
    |pdu| == 7 && pdu[0] == 22 && Field(pdu, 1) == a && Field(pdu, 3) == am && Field(pdu, 5) == om
  }

  /** A read/write-multiple-registers request read back: the read half, the write half and the registers written. */
  predicate ReadWritePdu(pdu: seq<byte>, ra: u16, rq: u16, wa: u16, vs: seq<u16>)
  {
    && |pdu| >= 10 && pdu[0] == 23 && Field(pdu, 1) == ra && Field(pdu, 3) == rq
    && Field(pdu, 5) == wa && Field(pdu, 7) == |vs|
    && pdu[9] == 2 * |vs| && |pdu| == 10 + pdu[9] as int
    && Unwords(pdu[10..]) == vs
  }

  /**
   * What a request PDU says, read back field by field: the function code,
   * the big-endian address and quantity or value fields at their offsets,
   * the byte count, and the packed coils or the register values after it.
   */
  predicate Describes(pdu: seq<byte>, op: Op)
  {
    match op
    case ReadCoils(a, q) => StandardPdu(pdu, 1, a, q)
    case ReadInputs(a, q) => StandardPdu(pdu, 2, a, q)
    case ReadHolding(a, q) => StandardPdu(pdu, 3, a, q)
    case ReadInputRegisters(a, q) => StandardPdu(pdu, 4, a, q)
    case WriteCoil(a, on) => StandardPdu(pdu, 5, a, CoilValue(on))
    case WriteRegister(a, v) => StandardPdu(pdu, 6, a, v)
    case WriteCoils(a, vs) => CoilsPdu(pdu, a, vs)
    case WriteRegisters(a, vs) => RegistersPdu(pdu, a, vs)
    case MaskWrite(a, am, om) => MaskPdu(pdu, a, am, om)
    case ReadWrite(ra, rq, wa, vs) => ReadWritePdu(pdu, ra, rq, wa, vs)
  }

  /** Largest request PDU the user functions' limits allow. */
  const MaxRequest: nat := 252

  /**
   * `Modbus_App_Standard_Request`, `_Write_M_Coils`, `_Write_M_Registers`,
   * `_Mask_Write_Register` and `_Read_Write_M_Registers`: the request PDU
   * (`Modbus_App_Req_pdu`, with `Modbus_App_L_Req_pdu` as its length). The
   * coils are packed eight to a byte, least significant bit first.
   */
  function Encode(r: Issued): (pdu: seq<byte>)
    ensures 5 <= |pdu| <= MaxRequest && pdu[0] == FunctionCode(r.op)
    ensures r.op.WriteCoils? || r.op.WriteRegisters? ==> |pdu| >= 7
    ensures r.op.ReadWrite? ==> |pdu| >= 12
  {
    match r.op
    case ReadCoils(a, q) => Standard(1, a, q)
    case ReadInputs(a, q) => Standard(2, a, q)
    case ReadHolding(a, q) => Standard(3, a, q)
    case ReadInputRegisters(a, q) => Standard(4, a, q)
    case WriteCoil(a, on) => Standard(5, a, CoilValue(on))
    case WriteRegister(a, v) => Standard(6, a, v)
    case WriteCoils(a, vs) => Standard(15, a, |vs|) + [ByteCount(|vs|)] + Pack(vs)
    case WriteRegisters(a, vs) => Standard(16, a, |vs|) + [2 * |vs|] + Words(vs)
    case MaskWrite(a, am, om) => Standard(22, a, am) + [Hi(om), Lo(om)]
    case ReadWrite(ra, rq, wa, vs) => Standard(23, ra, rq) + [Hi(wa), Lo(wa), Hi(|vs|), Lo(|vs|), 2 * |vs|] + Words(vs)
  }

  /** The two fields of a standard request read back as they were written. */
  lemma StandardFields(fc: byte, first: u16, second: u16, tail: seq<byte>)
    ensures |Standard(fc, first, second) + tail| >= 5
    ensures Field(Standard(fc, first, second) + tail, 1) == first
    ensures Field(Standard(fc, first, second) + tail, 3) == second
  {
    WordOfHalves(first);
    WordOfHalves(second);
  }

  /** The fields of a write-multiple request after the standard part: the byte count and the data behind it. */
  lemma MultipleFields(head: seq<byte>, count: byte, data: seq<byte>)
    ensures (head + [count] + data)[|head|] == count
    ensures (head + [count] + data)[|head| + 1..] == data
  {
    assert (head + [count] + data)[|head| + 1..] == data;
  }

  /** The two fields of a five-byte standard request read back as they were written. */
  lemma StandardReadBack(fc: byte, first: u16, second: u16)
    ensures Field(Standard(fc, first, second), 1) == first
    ensures Field(Standard(fc, first, second), 3) == second
  {
    WordOfHalves(first);
    WordOfHalves(second);
  }

  /** A five-byte request reads back as its request. */
  lemma StandardDescribes(r: Issued)
    requires !(r.op.WriteCoils? || r.op.WriteRegisters? || r.op.ReadWrite? || r.op.MaskWrite?)
    ensures Describes(Encode(r), r.op)
  {
    var fc, a := FunctionCode(r.op), r.op.address;
    var second :=
      if r.op.WriteCoil? then CoilValue(r.op.on)
      else if r.op.WriteRegister? then r.op.value
      else r.op.quantity;
    assert Encode(r) == Standard(fc, a, second);
    StandardReadBack(fc, a, second);
  }

  /** A mask-write request reads back as its request. */
  lemma MaskWriteDescribes(r: Issued)
    requires r.op.MaskWrite?
    ensures Describes(Encode(r), r.op)
  {
    var a, am, om := r.op.address, r.op.andMask, r.op.orMask;
    StandardFields(22, a, am, [Hi(om), Lo(om)]);
    WordOfHalves(om);
  }

  /** A write-multiple-coils request reads back as its request. */
  lemma WriteCoilsDescribes(r: Issued)
    requires r.op.WriteCoils?
    ensures Describes(Encode(r), r.op)
  {
    var a, vs := r.op.address, r.op.coils;
    var pdu := Encode(r);
    StandardFields(15, a, |vs|, [ByteCount(|vs|)] + Pack(vs));
    assert pdu == Standard(15, a, |vs|) + ([ByteCount(|vs|)] + Pack(vs));
    MultipleFields(Standard(15, a, |vs|), ByteCount(|vs|), Pack(vs));
    if AllBits(vs) {
      UnpackPack(vs);
    }
  }

  /** A write-multiple-registers request reads back as its request. */
  lemma WriteRegistersDescribes(r: Issued)
    requires r.op.WriteRegisters?
    ensures Describes(Encode(r), r.op)
  {
    var a, vs := r.op.address, r.op.registers;
    var pdu := Encode(r);
    StandardFields(16, a, |vs|, [2 * |vs|] + Words(vs));
    assert pdu == Standard(16, a, |vs|) + ([2 * |vs|] + Words(vs));
    MultipleFields(Standard(16, a, |vs|), 2 * |vs|, Words(vs));
    UnwordsWords(vs);
  }

  /** A read/write-multiple-registers request reads back as its request. */
  lemma ReadWriteDescribes(r: Issued)
    requires r.op.ReadWrite?
    ensures Describes(Encode(r), r.op)
  {
    var ra, rq, wa, vs := r.op.readAddress, r.op.readQuantity, r.op.writeAddress, r.op.registers;
    var head := [23, Hi(ra), Lo(ra), Hi(rq), Lo(rq), Hi(wa), Lo(wa), Hi(|vs|), Lo(|vs|), 2 * |vs|];
    assert Encode(r) == head + Words(vs);
    ReadWriteFields(ra, rq, wa, |vs|, 2 * |vs|, Words(vs));
    UnwordsWords(vs);
  }

  /** The fields of a read/write-multiple-registers request read back from their offsets. */
  lemma ReadWriteFields(ra: u16, rq: u16, wa: u16, n: u16, count: byte, data: seq<byte>)
    ensures var pdu := [23, Hi(ra), Lo(ra), Hi(rq), Lo(rq), Hi(wa), Lo(wa), Hi(n), Lo(n), count] + data;
      && |pdu| == 10 + |data| && pdu[0] == 23 && pdu[9] == count && pdu[10..] == data
      && Field(pdu, 1) == ra && Field(pdu, 3) == rq && Field(pdu, 5) == wa && Field(pdu, 7) == n
  {
    WordOfHalves(ra);
    WordOfHalves(rq);
    WordOfHalves(wa);
    WordOfHalves(n);
  }

  /** Every request PDU the sender builds reads back as the request it came from. */
  lemma EncodeDescribes(r: Issued)
    ensures Describes(Encode(r), r.op)
  {
    if r.op.WriteCoils? {
      WriteCoilsDescribes(r);
    } else if r.op.WriteRegisters? {
      WriteRegistersDescribes(r);
    } else if r.op.ReadWrite? {
      ReadWriteDescribes(r);
    } else if r.op.MaskWrite? {
      MaskWriteDescribes(r);
    } else {
      StandardDescribes(r);
    }
  }

  /**
   * `data_amount_to_wait` in `Modbus_App_Send`: the guess of the answer's
   * size that scales the unicast timeout. For functions 1 to 6 the guess
   * starts from `pdu[4] | pdu[3]`, the two bytes of the quantity ORed
   * together; for function 23 it adds twice `pdu[10]`, the high byte of the
   * first register written.
   */
  function Guess(r: Issued): (g: u16)
    ensures 8 <= g <= 1033
  {
    var pdu := Encode(r);
    match r.op
    case ReadHolding(_, _) => 2 * Or(pdu[4], pdu[3]) as int + 8
    case ReadInputRegisters(_, _) => 2 * Or(pdu[4], pdu[3]) as int + 8
    case WriteCoils(_, _) => pdu[5] as int + 12
    case WriteRegisters(_, _) => pdu[5] as int * 2 + 12
    case MaskWrite(_, _, _) => 15
    case ReadWrite(_, _, _, _) => Or(pdu[4], pdu[3]) as int * 2 + pdu[10] as int * 2 + 13
    case _ => Or(pdu[4], pdu[3]) as int + 8
  }

  /** `struct Modbus_FIFO_E_Item`: the failed request and the two bytes of its exception answer, `[0, 0]` when none came. */
  datatype Failure = Failure(request: Issued, response: seq<byte>)

  /**
   * The layer's state: the CAN controller, the request queue
   * (`Modbus_FIFO_Tx`), the failure queue (`Modbus_FIFO_Error`, with its
   * corrected 25-slot bound), the request in flight
   * (`Modbus_App_Actual_Req`) and the received answer (`Modbus_App_Msg`,
   * `Modbus_App_L_Msg`).
   */
  datatype Master = Master(
    link: MasterCan.Link,
    requests: Fifo.Ring<Issued>,
    failures: Fifo.Ring<Failure>,
    active: Issued,
    msg: Buffer,
    lMsg: byte)

  /** The invariant every operation keeps: both queues well formed, the attempt counter within `1 .. maximum`. */
  predicate Wf(m: Master)
  {
    && Fifo.Valid(Fifo.RequestShape, m.requests)
    && Fifo.Valid(Fifo.ErrorShape, m.failures)
    && 1 <= m.link.attempts <= m.link.maxAttempts
  }

  /** The items waiting in the request queue, oldest first. */
  function Pending(m: Master): seq<Issued>
    requires Wf(m)
  {
    Fifo.Contents(Fifo.RequestShape, m.requests)
  }

  /** The failures not yet read by the user, oldest first. */
  function Failures(m: Master): seq<Failure>
    requires Wf(m)
  {
    Fifo.Contents(Fifo.ErrorShape, m.failures)
  }

  /** A master layer and the C function's return code. */
  datatype Started = Started(code: byte, master: Master)

  /**
   * `Modbus_Master_Init` (CAN build): with at least one attempt allowed
   * both queues are emptied and the controller initialised (return 1);
   * otherwise nothing happens (return 0).
   */
  function Init(m: Master, rate: MasterCan.BitRate, attempts: byte): (r: Started)
    ensures r.code == 1 <==> attempts >= 1
    ensures r.code == 1 ==> Wf(r.master) && Pending(r.master) == [] && Failures(r.master) == []
    ensures r.code == 1 ==> r.master.link.main == MasterCan.Idle && r.master.link.maxAttempts == attempts
    ensures r.code == 0 ==> r.master == m
  {
    if attempts >= 1 then
      Started(1, m.(requests := Fifo.Init(Fifo.RequestShape, m.active),
                    failures := Fifo.Init(Fifo.ErrorShape, Failure(m.active, [0, 0])),
                    link := MasterCan.Init(m.link, rate, attempts)))
    else Started(0, m)
  }

  /** A master layer and the frames handed to the CAN peripheral. */
  datatype Sending = Sending(master: Master, frames: seq<CanFrames.CanFrame>)

  /**
   * `Modbus_App_Send`: the request in flight is formatted and handed to
   * `Modbus_CAN_FixOutput` with the guessed answer size.
   */
  function Send(m: Master): (r: Sending)
    ensures r.frames == CanFrames.Frames(Encode(m.active), m.active.slave, true)
    ensures r.master.link == MasterCan.FixOutput(m.link, Encode(m.active), m.active.slave, Guess(m.active)).link
    ensures r.master == m.(link := r.master.link)
    ensures m.active.slave != 0 ==> r.master.link.main == MasterCan.WaitReply
    ensures m.active.slave == 0 ==> r.master.link.main == MasterCan.Turnaround
  {
    var pdu := Encode(m.active);
    var sent := MasterCan.FixOutput(m.link, pdu, m.active.slave, Guess(m.active));
    Sending(m.(link := sent.link), sent.frames)
  }

  /** The outcome of a user function: its return code, the layer, and the frames sent. */
  datatype Submitted = Submitted(code: byte, master: Master, frames: seq<CanFrames.CanFrame>)

  /**
   * `Modbus_App_Enqueue_Or_Send`: with the controller IDLE and no request
   * queued the request is sent at once; otherwise it joins the queue, and a
   * full queue returns 1.
   */
  function EnqueueOrSend(m: Master, r: Issued): (s: Submitted)
    requires Wf(m)
    ensures Wf(s.master)
    ensures m.link.main == MasterCan.Idle && Pending(m) == [] ==>
      s.code == 0 && s.master.active == r && s.frames == CanFrames.Frames(Encode(r), r.slave, true)
      && Pending(s.master) == []
    ensures !(m.link.main == MasterCan.Idle && Pending(m) == []) ==>
      && s.frames == []
      && (s.code == 1 <==> |Pending(m)| == Fifo.MaxItems)
      && (s.code == 1 ==> s.master == m)
      && (s.code == 0 ==> s.master == m.(requests := s.master.requests) && Pending(s.master) == Pending(m) + [r])
  {
    if m.link.main == MasterCan.Idle && Fifo.Empty(m.requests) then
      var sent := Send(m.(active := r));
      Submitted(0, sent.master, sent.frames)
    else
      match Fifo.Put(Fifo.RequestShape, m.requests, r)
      case None => Submitted(1, m, [])
      case Some(q) => Submitted(0, m.(requests := q), [])
  }

  /**
   * The user functions `Modbus_Read_Coils` to `Modbus_Read_Write_M_Registers`:
   * a request whose parameters fail the checks returns 1 and changes
   * nothing; any other goes to `Modbus_App_Enqueue_Or_Send`.
   */
  function Submit(m: Master, r: Request): (s: Submitted)
    requires Wf(m)
    ensures Wf(s.master)
    ensures !Accepted(r) ==> s == Submitted(1, m, [])
    ensures Accepted(r) ==> s == EnqueueOrSend(m, r)
  {
    if Accepted(r) then EnqueueOrSend(m, r) else Submitted(1, m, [])
  }

  /** The user functions as C calls them: `Modbus_Write_Coil` sends any nonzero `Coil` as on. */
  function WriteCoilRequest(slave: byte, address: u16, coil: byte): (r: Request)
    ensures r.op.WriteCoil? && (r.op.on <==> coil != 0)
  {
    Request(slave, WriteCoil(address, coil != 0))
  }

  /** The result of `Modbus_App_FIFOSend`: 0 when a queued request was sent, 1 when the queue was empty. */
  function FifoSend(m: Master): (r: Submitted)
    requires Wf(m)
    ensures Wf(r.master)
    ensures r.code == 1 <==> Pending(m) == []
    ensures r.code == 1 ==> r == Submitted(1, m, [])
    ensures r.code == 0 ==>
      && r.master.active == Pending(m)[0]
      && Pending(r.master) == Pending(m)[1..]
      && r.frames == CanFrames.Frames(Encode(Pending(m)[0]), Pending(m)[0].slave, true)
  {
    match Fifo.Take(Fifo.RequestShape, m.requests)
    case None => Submitted(1, m, [])
    case Some((r, q)) =>
      var sent := Send(m.(active := r, requests := q));
      Submitted(0, sent.master, sent.frames)
  }

  /** `Modbus_App_No_Response`: the request in flight is recorded with the answer `[0, 0]`; a full failure queue drops it. */
  function NoResponse(m: Master): (r: Master)
    requires Wf(m)
    ensures Wf(r) && r == m.(failures := r.failures)
    ensures |Failures(m)| < Fifo.MaxErrorItems ==> Failures(r) == Failures(m) + [Failure(m.active, [0, 0])]
    ensures |Failures(m)| == Fifo.MaxErrorItems ==> r == m
  {
    RecordFailure(m, [0, 0])
  }

  /** `Modbus_FIFO_E_Enqueue` of the request in flight with `response`: appended while the failure queue has room, dropped when it is full. */
  function RecordFailure(m: Master, response: seq<byte>): (r: Master)
    requires Wf(m)
    ensures Wf(r) && r == m.(failures := r.failures)
    ensures |Failures(m)| < Fifo.MaxErrorItems ==> Failures(r) == Failures(m) + [Failure(m.active, response)]
    ensures |Failures(m)| == Fifo.MaxErrorItems ==> r == m
  {
    match Fifo.Put(Fifo.ErrorShape, m.failures, Failure(m.active, response))
    case None => m
    case Some(q) => m.(failures := q)
  }

  /** The result of `Modbus_Get_Error`: the oldest failure, if any. */
  datatype Fetched = Fetched(failure: Option<Failure>, master: Master)

  /** `Modbus_Get_Error`: take the oldest failure off the queue (return 1), or report it empty (return 0). */
  function GetError(m: Master): (r: Fetched)
    requires Wf(m)
    ensures Wf(r.master)
    ensures r.failure.None? <==> Failures(m) == []
    ensures r.failure.None? ==> r.master == m
    ensures r.failure.Some? ==>
      r.failure.value == Failures(m)[0] && Failures(r.master) == Failures(m)[1..]
      && r.master == m.(failures := r.master.failures)
  {
    match Fifo.Take(Fifo.ErrorShape, m.failures)
    case None => Fetched(None, m)
    case Some((f, q)) => Fetched(Some(f), m.(failures := q))
  }

  /** What an accepted answer hands to the user's destination array. */
  datatype Readout = NoReadout | BitsRead(bits: seq<byte>) | WordsRead(words: seq<u16>)

  /** An answer of `n` bytes of data after a function code and a byte count `n`. */
  predicate Counted(msg: Buffer, len: byte, n: nat)
  {
    msg[1] == n && len == n + 2
  }

  /**
   * The answer checks: `Modbus_App_Read_Single_Bits_CallBack`,
   * `_Read_Registers_CallBack`, `_Write_CallBack`, `_Mask_Write_CallBack`
   * and `_Read_Write_M_Registers_CallBack`. A read answer must carry exactly
   * the bytes the quantity needs; a write answer must echo the address and
   * the second field (value or quantity), and for function 22 both masks.
   */
  predicate AnswerOk(op: Op, msg: Buffer, len: byte)
    ensures IsWrite(op) && EchoOf(op) != [] ==>
      (AnswerOk(op, msg, len) <==> len as int == 1 + |EchoOf(op)| && msg[1 .. 1 + |EchoOf(op)|] == EchoOf(op))
    ensures AnswerOk(op, msg, len) && IsRead(op) ==> len as int == msg[1] as int + 2
  {
    match op
    case ReadCoils(_, q) => Counted(msg, len, ByteCount(q))
    case ReadInputs(_, q) => Counted(msg, len, ByteCount(q))
    case ReadHolding(_, q) => Counted(msg, len, 2 * q)
    case ReadInputRegisters(_, q) => Counted(msg, len, 2 * q)
    case WriteCoil(a, on) => EchoAnswer(msg, len, a, CoilValue(on))
    case WriteRegister(a, v) => EchoAnswer(msg, len, a, v)
    case WriteCoils(a, vs) => |vs| < 0x1_0000 && EchoAnswer(msg, len, a, |vs|)
    case WriteRegisters(a, vs) => |vs| < 0x1_0000 && EchoAnswer(msg, len, a, |vs|)
    case MaskWrite(a, am, om) => MaskAnswer(msg, len, a, am, om)
    case ReadWrite(_, rq, _, _) => Counted(msg, len, 2 * rq)
  }

  /** A write answer of five bytes whose two fields are `first` and `second`: it carries exactly their bytes. */
  predicate EchoAnswer(msg: Buffer, len: byte, first: u16, second: u16)
    ensures EchoAnswer(msg, len, first, second) <==> len == 5 && msg[1..5] == EchoBytes(first, second)
  {
    EchoIs(msg, first, second);
    Field(msg, 1) == first && Field(msg, 3) == second && len == 5
  }

  /** A mask-write answer of seven bytes echoing address and both masks: it carries exactly their bytes. */
  predicate MaskAnswer(msg: Buffer, len: byte, a: u16, am: u16, om: u16)
    ensures MaskAnswer(msg, len, a, am, om) <==> len == 7 && msg[1..7] == EchoBytes(a, am) + [Hi(om), Lo(om)]
  {
    MaskIs(msg, a, am, om);
    Field(msg, 1) == a && Field(msg, 3) == am && Field(msg, 5) == om && len == 7
  }

  /** The operations whose answer echoes the request. */
  predicate IsWrite(op: Op)
  {
    op.WriteCoil? || op.WriteRegister? || op.WriteCoils? || op.WriteRegisters? || op.MaskWrite?
  }

  /**
   * The bytes a write's answer must carry after the function code: the
   * address and the value or quantity, and for a mask write both masks;
   * empty for a quantity no 16-bit field holds.
   */
  function EchoOf(op: Op): seq<byte>
    requires IsWrite(op)
  {
    match op
    case WriteCoil(a, on) => EchoBytes(a, CoilValue(on))
    case WriteRegister(a, v) => EchoBytes(a, v)
    case WriteCoils(a, vs) => if |vs| < 0x1_0000 then EchoBytes(a, |vs|) else []
    case WriteRegisters(a, vs) => if |vs| < 0x1_0000 then EchoBytes(a, |vs|) else []
    case MaskWrite(a, am, om) => EchoBytes(a, am) + [Hi(om), Lo(om)]
  }

  /** Two 16-bit fields as the PDU carries them: four bytes, each high byte first. */
  function EchoBytes(first: u16, second: u16): seq<byte>
  {
    [Hi(first), Lo(first), Hi(second), Lo(second)]
  }

  /** The two fields read back are `first` and `second` exactly when bytes 1 to 4 are their bytes. */
  lemma EchoIs(msg: Buffer, first: u16, second: u16)
    ensures Field(msg, 1) == first && Field(msg, 3) == second <==> msg[1..5] == EchoBytes(first, second)
  {
    FieldIs(msg, 1, first);
    FieldIs(msg, 3, second);
    assert msg[1..5] == [msg[1], msg[2], msg[3], msg[4]];
  }

  /** The three fields of a mask write read back are its address and masks exactly when bytes 1 to 6 are their bytes. */
  lemma MaskIs(msg: Buffer, a: u16, am: u16, om: u16)
    ensures Field(msg, 1) == a && Field(msg, 3) == am && Field(msg, 5) == om <==>
      msg[1..7] == EchoBytes(a, am) + [Hi(om), Lo(om)]
  {
    EchoIs(msg, a, am);
    FieldIs(msg, 5, om);
    assert msg[1..7] == msg[1..5] + [msg[5], msg[6]];
    if msg[1..7] == EchoBytes(a, am) + [Hi(om), Lo(om)] {
      assert msg[1..5] == msg[1..7][..4];
    }
  }

  /** A big-endian field read from the buffer is `w` exactly when its two bytes are those of `w`. */
  lemma FieldIs(msg: Buffer, i: nat, w: u16)
    requires i + 1 < |msg|
    ensures Field(msg, i) == w <==> msg[i] == Hi(w) && msg[i + 1] == Lo(w)
  {
    HalvesOfWord(msg[i], msg[i + 1]);
    WordOfHalves(w);
  }

  /** `bits` are the values packed in the data bytes after the function code and byte count, least significant first. */
  predicate CarriesBits(msg: Buffer, bits: seq<byte>)
  {
    && |bits| <= MaxReadBits
    && forall k :: 0 <= k < |bits| ==> bits[k] == Bit(msg[2 + k / 8], k % 8)
  }

  /** `words` are the big-endian fields after the function code and byte count. */
  predicate CarriesWords(msg: Buffer, words: seq<u16>)
  {
    && |words| <= MaxReadRegisters
    && forall i :: 0 <= i < |words| ==> words[i] == Field(msg, 2 + 2 * i)
  }

  /** The first `q` values unpacked from the data bytes are the bits they carry. */
  lemma BitsFrom(msg: Buffer, q: nat)
    requires q <= MaxReadBits
    ensures 2 + ByteCount(q) <= |msg| && CarriesBits(msg, Unpack(msg[2 .. 2 + ByteCount(q)], q))
  {
    var d := msg[2 .. 2 + ByteCount(q)];
    forall k | 0 <= k < q ensures Unpack(d, q)[k] == Bit(msg[2 + k / 8], k % 8) {
      ChunkOf(q, k);
    }
  }

  /** The first `n` registers read from the data bytes are the fields they carry. */
  lemma WordsFrom(msg: Buffer, n: nat)
    requires n <= MaxReadRegisters
    ensures 2 + 2 * n <= |msg| && CarriesWords(msg, Unwords(msg[2 .. 2 + 2 * n]))
  {
  }

  /**
   * The values an accepted read answer stores through the request's
   * pointer: bits unpacked least significant first, or big-endian registers.
   */
  function ReadValues(r: Issued, msg: Buffer): (v: Readout)
    ensures r.op.ReadCoils? || r.op.ReadInputs? ==> v.BitsRead? && |v.bits| == r.op.quantity && AllBits(v.bits)
    ensures r.op.ReadHolding? || r.op.ReadInputRegisters? ==> v.WordsRead? && |v.words| == r.op.quantity
    ensures r.op.ReadWrite? ==> v.WordsRead? && |v.words| == r.op.readQuantity
    ensures v.BitsRead? ==> CarriesBits(msg, v.bits)
    ensures v.WordsRead? ==> CarriesWords(msg, v.words)
    ensures !IsRead(r.op) <==> v == NoReadout
  {
    match r.op
    case ReadCoils(_, q) => BitsFrom(msg, q); BitsRead(Unpack(msg[2 .. 2 + ByteCount(q)], q))
    case ReadInputs(_, q) => BitsFrom(msg, q); BitsRead(Unpack(msg[2 .. 2 + ByteCount(q)], q))
    case ReadHolding(_, q) => WordsFrom(msg, q); WordsRead(Unwords(msg[2 .. 2 + 2 * q]))
    case ReadInputRegisters(_, q) => WordsFrom(msg, q); WordsRead(Unwords(msg[2 .. 2 + 2 * q]))
    case ReadWrite(_, rq, _, _) => WordsFrom(msg, rq); WordsRead(Unwords(msg[2 .. 2 + 2 * rq]))
    case _ => NoReadout
  }

  /**
   * The exception test as `Modbus_App_Manage_CallBack` writes it:
   * `Msg[0] == Function | 128` groups as `(Msg[0] == Function) | 128`, which
   * is never zero, and `Msg[1] <= 8 || Msg[1] == 10 || Msg[1] != 11` holds
   * for every code but 11.
   */
  predicate ExceptionAsWritten(fc: byte, msg: Buffer, len: byte)
  {
    && Or(if msg[0] == fc then 1 else 0, 128) != 0
    && len == 2 && (msg[1] <= 8 || msg[1] == 10 || msg[1] != 11)
  }

  /**
   * The exception test as intended: the answer is the exception answer to
   * this function (its code with the top bit set), two bytes long, with
   * exception code 1 to 8, 10 or 11.
   */
  predicate ExceptionAnswer(fc: byte, msg: Buffer, len: byte)
  {
    && msg[0] == Or(fc, 128)
    && len == 2 && (1 <= msg[1] <= 8 || msg[1] == 10 || msg[1] == 11)
  }

  /**
   * The exception test as written passes every two-byte answer whose second
   * byte is not 11, whatever its first byte.
   */
  lemma ExceptionAsWrittenIgnoresCode(fc: byte, msg: Buffer, len: byte)
    ensures ExceptionAsWritten(fc, msg, len) <==> len == 2 && msg[1] != 11
  {
    OrTopBit(if msg[0] == fc then 1 else 0);
  }

  /**
   * Counterexample to the test as written: to a read of holding registers
   * (function 3), the two-byte answer `[5, 2]` of another function is
   * recorded as an exception, though it is not the exception answer `0x83`.
   */
  lemma ForeignAnswerRecordedAsWritten(msg: Buffer)
    requires msg[0] == 5 && msg[1] == 2
    ensures ExceptionAsWritten(3, msg, 2)
    ensures !ExceptionAnswer(3, msg, 2)
  {
    ExceptionAsWrittenIgnoresCode(3, msg, 2);
    OrTopBit(3);
  }

  /**
   * Counterexample to the test as written: the exception answer `[0x83, 11]`
   * (gateway target failed to respond) is not recorded, so the request is
   * retried instead.
   */
  lemma GatewayExceptionRetriedAsWritten(msg: Buffer)
    requires msg[0] == 0x83 && msg[1] == 11
    ensures !ExceptionAsWritten(3, msg, 2)
    ensures ExceptionAnswer(3, msg, 2)
  {
    ExceptionAsWrittenIgnoresCode(3, msg, 2);
    OrTopBit(3);
  }

  /**
   * The corrected test passes exactly the exception answers to the
   * request's function, `fc + 128` followed by code 1 to 8, 10 or 11, so an
   * answer carrying the function code itself never passes.
   */
  lemma ExceptionAnswerExact(fc: byte, msg: Buffer, len: byte)
    requires fc < 128
    ensures ExceptionAnswer(fc, msg, len) <==>
      msg[0] == fc + 128 && len == 2 && (1 <= msg[1] <= 8 || msg[1] == 10 || msg[1] == 11)
    ensures ExceptionAnswer(fc, msg, len) ==> msg[0] != fc
  {
    OrTopBit(fc);
  }

  /**
   * For reads of fewer than 256 items the guessed answer size is the
   * quantity (twice it for registers) plus 8, which covers the answer PDU.
   */
  lemma ReadGuess(r: Issued)
    requires r.op.ReadCoils? || r.op.ReadInputs? || r.op.ReadHolding? || r.op.ReadInputRegisters?
    requires r.op.quantity < 256
    ensures r.op.ReadHolding? || r.op.ReadInputRegisters? ==> Guess(r) == 2 * r.op.quantity + 8 >= 2 + 2 * r.op.quantity
    ensures r.op.ReadCoils? || r.op.ReadInputs? ==> Guess(r) == r.op.quantity + 8 >= 2 + ByteCount(r.op.quantity)
  {
    OrZero(r.op.quantity);
  }

  /**
   * The guess ORs the quantity's two bytes instead of combining them: for a
   * read of 256 coils it is 9, while the answer PDU has 34 bytes.
   */
  lemma ManyCoilsGuess()
    ensures Guess(Request(1, ReadCoils(0, 256))) == 9
    ensures |Encode(Request(1, ReadCoils(0, 256)))| == 5 && 2 + ByteCount(256) == 34
  {
    OrZero(1);
  }

  /**
   * A broadcast write of one coil on guesses 263 bytes, past the broadcast
   * limit at 100 kbit/s, so its 32-bit timer load wraps.
   */
  lemma BroadcastCoilWraps(a: u16)
    ensures Guess(Request(0, WriteCoil(a, true))) == 263
    ensures MasterCan.BroadcastLoad(MasterCan.Kbps100, 263) < MasterCan.BroadcastTicks(MasterCan.Kbps100, 263)
  {
    OrZero(0xFF);
    MasterCan.BroadcastLoadWraps(MasterCan.Kbps100, 263);
  }

  /**
   * A write of 81 registers guesses 336 bytes, past the unicast limit at
   * 100 kbit/s, so its 32-bit timer load wraps on every attempt.
   */
  lemma ManyRegistersWrap(r: Issued)
    requires r.op.WriteRegisters? && |r.op.registers| == 81
    ensures Guess(r) == 336
    ensures forall n: byte :: MasterCan.UnicastLoad(MasterCan.Kbps100, 336, n) < MasterCan.UnicastTicks(MasterCan.Kbps100, 336, n)
  {
    WriteRegistersDescribes(r);
    forall n: byte ensures MasterCan.UnicastLoad(MasterCan.Kbps100, 336, n) < MasterCan.UnicastTicks(MasterCan.Kbps100, 336, n) {
      MasterCan.UnicastLoadWraps(MasterCan.Kbps100, 336, n);
    }
  }

  /** The result of handling an answer: the layer, and what was stored for the user. */
  datatype Handled = Handled(master: Master, readout: Readout)

  /**
   * `Modbus_App_Manage_CallBack`. An answer with the request's function code
   * is checked: if it passes, read values go to the user, the attempt
   * counter is reset and the controller returns to IDLE; if not, the state
   * is ERROR and the request will be repeated. Any other answer means
   * ERROR, unless it passes the exception test as written (two bytes, the
   * second not 11, whatever the first), in which case it is recorded with
   * the request in the failure queue before returning to IDLE.
   */
  function ManageCallBack(m: Master): (r: Handled)
    requires Wf(m)
    ensures Wf(r.master)
    ensures r.master.active == m.active && r.master.requests == m.requests
    ensures r.master.msg == m.msg && r.master.lMsg == m.lMsg
    ensures var fc := FunctionCode(m.active.op);
      && (m.msg[0] == fc && AnswerOk(m.active.op, m.msg, m.lMsg) && m.link.main != MasterCan.Error ==>
            r.readout == ReadValues(m.active, m.msg)
            && r.master.link == m.link.(main := MasterCan.Idle, attempts := 1)
            && r.master.failures == m.failures)
      && (m.msg[0] == fc && !AnswerOk(m.active.op, m.msg, m.lMsg) ==>
            r == Handled(m.(link := m.link.(main := MasterCan.Error)), NoReadout))
      && (m.msg[0] != fc && m.lMsg == 2 && m.msg[1] != 11 ==>
            r.readout == NoReadout
            && r.master.link == m.link.(main := MasterCan.Idle, attempts := 1)
            && (|Failures(m)| < Fifo.MaxErrorItems ==>
                  Failures(r.master) == Failures(m) + [Failure(m.active, m.msg[..2])]))
      && (m.msg[0] != fc && !(m.lMsg == 2 && m.msg[1] != 11) ==>
            r == Handled(m.(link := m.link.(main := MasterCan.Error)), NoReadout))
  {
    var fc := FunctionCode(m.active.op);
    ExceptionAsWrittenIgnoresCode(fc, m.msg, m.lMsg);
    if m.msg[0] == fc then
      if AnswerOk(m.active.op, m.msg, m.lMsg) then
        if m.link.main != MasterCan.Error then
          Handled(m.(link := MasterCan.ResetAttempt(m.link).(main := MasterCan.Idle)), ReadValues(m.active, m.msg))
        else Handled(m, ReadValues(m.active, m.msg))
      else Handled(m.(link := m.link.(main := MasterCan.Error)), NoReadout)
    else if ExceptionAsWritten(fc, m.msg, m.lMsg) then
      var recorded := RecordFailure(m, m.msg[..2]);
      Handled(recorded.(link := MasterCan.ResetAttempt(m.link).(main := MasterCan.Idle)), NoReadout)
    else Handled(m.(link := m.link.(main := MasterCan.Error)), NoReadout)
  }

  /** The result of `Modbus_Master_Communication`: its return code, the layer, the frames sent and the values read. */
  datatype Turn = Turn(code: byte, master: Master, frames: seq<CanFrames.CanFrame>, readout: Readout)

  /**
   * `Modbus_Master_Communication`, which runs `Modbus_CAN_Controller` and
   * carries out what it asks: resend the request in flight, send the next
   * queued one, hand a complete answer to `Modbus_App_Manage_CallBack`, or
   * record a request given up. It returns 0 only when the controller was
   * IDLE with nothing to resend and nothing queued.
   */
  function Communication(m: Master): (t: Turn)
    requires Wf(m)
    ensures Wf(t.master)
    ensures t.code == 0 <==> m.link.main == MasterCan.Idle && !m.link.forward && Pending(m) == []
  {
    var step := MasterCan.Controller(m.link);
    var m1 := m.(link := step.link);
    match step.action
    case Nothing => Turn(1, m1, [], NoReadout)
    case Resend =>
      var sent := Send(m1);
      Turn(1, sent.master, sent.frames, NoReadout)
    case SendNext =>
      var next := FifoSend(m1);
      Turn(if next.code == 1 then 0 else 1, next.master, next.frames, NoReadout)
    case Answer =>
      var answer := MasterCan.ToApp(step.link);
      var m2 := m1.(msg := Splice(m1.msg, 0, answer), lMsg := step.link.rx.length);
      assert m2.msg[..|answer|] == answer;
      var h := ManageCallBack(m2);
      Turn(1, h.master, [], h.readout)
    case GiveUp => Turn(1, NoResponse(m1), [], NoReadout)
  }


  /** From IDLE with the forward flag set, the request in flight is sent again and the queue is left alone. */
  lemma CommunicationResends(m: Master)
    requires Wf(m) && m.link.main == MasterCan.Idle && m.link.forward
    ensures var t := Communication(m);
      t.master.active == m.active && t.frames == CanFrames.Frames(Encode(m.active), m.active.slave, true)
      && Pending(t.master) == Pending(m)
  {
  }

  /** From IDLE with nothing to resend, the oldest queued request is taken and sent. */
  lemma CommunicationSendsNext(m: Master)
    requires Wf(m) && m.link.main == MasterCan.Idle && !m.link.forward && Pending(m) != []
    ensures var t := Communication(m);
      t.master.active == Pending(m)[0] && Pending(t.master) == Pending(m)[1..]
      && t.frames == CanFrames.Frames(Encode(Pending(m)[0]), Pending(m)[0].slave, true)
  {
  }

  /** A complete answer in WAIT_REPLY is copied into the application buffer and handled; nothing is sent. */
  lemma CommunicationAnswers(m: Master)
    requires Wf(m) && m.link.main == MasterCan.WaitReply && m.link.rx.complete
    ensures var t := Communication(m);
      t.master.msg[..m.link.rx.length] == MasterCan.ToApp(m.link) && t.master.lMsg == m.link.rx.length
      && t.frames == []
  {
  }

  /**
   * From ERROR the controller returns to IDLE: below the attempt limit the
   * request is marked for resending; at the limit it is recorded as a
   * failure with no answer bytes and the counter starts again.
   */
  lemma CommunicationRecovers(m: Master)
    requires Wf(m) && m.link.main == MasterCan.Error
    ensures var t := Communication(m);
      t.master.link.main == MasterCan.Idle && t.frames == [] && Pending(t.master) == Pending(m)
      && (m.link.attempts < m.link.maxAttempts ==> t.master.link.forward && t.master.link.attempts == m.link.attempts + 1 && Failures(t.master) == Failures(m))
      && (m.link.attempts >= m.link.maxAttempts && |Failures(m)| < Fifo.MaxErrorItems ==>
            t.master.link.attempts == 1 && Failures(t.master) == Failures(m) + [Failure(m.active, [0, 0])])
  {
  }

  /** A master layer that runs, or the stop of `Modbus_CAN_Error_Management`. */
  datatype Node = Halted | Running(master: Master)

  /** The CAN interrupt, as `Modbus_CAN_IntHandler` handles it underneath the application: only the controller changes. */
  function Interrupt(n: Node, e: MasterCan.CanEvent): (r: Node)
    ensures n.Halted? || e.BusFault? ==> r.Halted?
    ensures n.Running? && r.Running? ==> r.master == n.master.(link := r.master.link)
    ensures n.Running? && r.Running? && Wf(n.master) ==> Wf(r.master)
  {
    match n
    case Halted => Halted
    case Running(m) =>
      match MasterCan.IntHandler(MasterCan.Running(m.link), e)
      case Halted => Halted
      case Running(l) => Running(m.(link := l))
  }

  /** A timer interrupt underneath the application: only the controller changes. */
  function Expire(n: Node, e: MasterCan.TimerEvent): (r: Node)
    ensures n.Halted? ==> r.Halted?
    ensures n.Running? && r.Running? ==> r.master == n.master.(link := r.master.link)
    ensures n.Running? && r.Running? && Wf(n.master) ==> Wf(r.master)
  {
    match n
    case Halted => Halted
    case Running(m) =>
      match MasterCan.Expire(MasterCan.Running(m.link), e)
      case Halted => Halted
      case Running(l) => Running(m.(link := l))
  }
}
