/**
 * The two application layers against each other: a request PDU the master
 * formats (`Modbus_App_Standard_Request` and its siblings in
 * `Modbus_Project_Master/Master/Modbus_app.c`) is judged by the slave's data
 * checks (`Modbus_App_Check_Request_Data` in
 * `Modbus_Project_Slave/Slave/Modbus_app.c`), and the slave's response is
 * judged by the master's answer callbacks. Both layers are read as a
 * MODBUS client and server of the MODBUS Application Protocol
 * Specification V1.1b3 should be: every request the master's user
 * functions let through is either run by the slave or refused only for an
 * address its image lacks, and every answer the slave builds passes the
 * master's checks and hands the user the values of the image.
 */
module Exchange {
  import opened Bytes
  import MasterApp
  import SlaveApp
  import MasterCan
  import Fifo

  /** The operation the slave should decode from the request `r`. */
  function SlaveOp(r: MasterApp.Issued): SlaveApp.Op
  {
    match r.op
    case ReadCoils(a, q) => SlaveApp.Read(SlaveApp.Coils, a, q)
    case ReadInputs(a, q) => SlaveApp.Read(SlaveApp.Inputs, a, q)
    case ReadHolding(a, q) => SlaveApp.Read(SlaveApp.Holding, a, q)
    case ReadInputRegisters(a, q) => SlaveApp.Read(SlaveApp.InputRegisters, a, q)
    case WriteCoil(a, on) => SlaveApp.WriteCoil(a, MasterApp.CoilValue(on))
    case WriteRegister(a, v) => SlaveApp.WriteRegister(a, v)
    case WriteCoils(a, vs) => SlaveApp.WriteCoils(a, |vs|, Pack(vs))
    case WriteRegisters(a, vs) => SlaveApp.WriteRegisters(a, |vs|, Words(vs))
    case MaskWrite(a, am, om) => SlaveApp.MaskWrite(a, am, om)
    case ReadWrite(ra, rq, wa, vs) => SlaveApp.ReadWrite(ra, rq, wa, |vs|, Words(vs))
  }

  /** What the slave should decide about `op`: run it when the image holds every value it addresses, else exception 2. */
  function Verdict(op: SlaveApp.Op, img: SlaveApp.Image): SlaveApp.Verdict
  {
    if SlaveApp.Fits(op, img) then SlaveApp.Accept(op) else SlaveApp.Reject(SlaveApp.IllegalAddress)
  }

  /** What the slave should decide about the request `r`. */
  function Expected(r: MasterApp.Issued, img: SlaveApp.Image): SlaveApp.Verdict
  {
    Verdict(SlaveOp(r), img)
  }

  /** The request's PDU sits at the start of the slave's buffer. */
  predicate Holds(msg: Buffer, pdu: seq<byte>)
  {
    |pdu| <= BufferSize && msg[..|pdu|] == pdu
  }

  /** A 16-bit field inside the PDU reads the same from the buffer that holds it. */
  lemma SameField(msg: Buffer, pdu: seq<byte>, i: nat)
    requires Holds(msg, pdu) && i + 1 < |pdu|
    ensures SlaveApp.Field(msg, i) == MasterApp.Field(pdu, i)
  {
    assert msg[i] == pdu[i] && msg[i + 1] == pdu[i + 1];
  }

  /** A five-byte standard request in the buffer: its code and two fields. */
  lemma StandardHeld(msg: Buffer, pdu: seq<byte>, fc: byte, first: u16, second: u16)
    requires Holds(msg, pdu) && MasterApp.StandardPdu(pdu, fc, first, second)
    ensures msg[0] == fc && SlaveApp.Field(msg, 1) == first && SlaveApp.Field(msg, 3) == second
  {
    assert msg[0] == pdu[0];
    SameField(msg, pdu, 1);
    SameField(msg, pdu, 3);
  }

  /** The slave's side of a read: a valid quantity leaves only the address range to decide. */
  lemma ReadDecoded(t: SlaveApp.Table, msg: Buffer, img: SlaveApp.Image, a: u16, q: u16)
    requires msg[0] == SlaveApp.ReadCode(t) && SlaveApp.Field(msg, 1) == a && SlaveApp.Field(msg, 3) == q
    requires 1 <= q <= SlaveApp.ReadLimit(t)
    ensures SlaveApp.Check(msg, 5, false, img) == Verdict(SlaveApp.Read(t, a, q), img)
  {
  }

  /** The slave's side of a write-single-coil request carrying 0xFF00 or 0. */
  lemma WriteCoilDecoded(msg: Buffer, img: SlaveApp.Image, a: u16, v: u16, broadcast: bool)
    requires msg[0] == 5 && SlaveApp.Field(msg, 1) == a && SlaveApp.Field(msg, 3) == v
    requires v == SlaveApp.CoilOn || v == 0
    ensures SlaveApp.Check(msg, 5, broadcast, img) == Verdict(SlaveApp.WriteCoil(a, v), img)
  {
    assert SlaveApp.Check(msg, 5, broadcast, img) == SlaveApp.WriteCoilCheck(msg, 5, img);
  }

  /** The slave's side of a write-single-register request. */
  lemma WriteRegisterDecoded(msg: Buffer, img: SlaveApp.Image, a: u16, v: u16, broadcast: bool)
    requires msg[0] == 6 && SlaveApp.Field(msg, 1) == a && SlaveApp.Field(msg, 3) == v
    ensures SlaveApp.Check(msg, 5, broadcast, img) == Verdict(SlaveApp.WriteRegister(a, v), img)
  {
    assert SlaveApp.Check(msg, 5, broadcast, img) == SlaveApp.WriteRegisterCheck(msg, 5, img);
  }

  /** A read request is decoded as the read of the same table, address and quantity. */
  lemma ReadChecked(r: MasterApp.Issued, msg: Buffer, img: SlaveApp.Image)
    requires r.op.ReadCoils? || r.op.ReadInputs? || r.op.ReadHolding? || r.op.ReadInputRegisters?
    requires Holds(msg, MasterApp.Encode(r))
    ensures SlaveApp.Check(msg, |MasterApp.Encode(r)|, r.slave == 0, img) == Expected(r, img)
  {
    var pdu := MasterApp.Encode(r);
    var op := SlaveOp(r);
    MasterApp.StandardDescribes(r);
    StandardHeld(msg, pdu, MasterApp.FunctionCode(r.op), r.op.address, r.op.quantity);
    ReadDecoded(op.table, msg, img, r.op.address, r.op.quantity);
  }

  /** A write-single-coil request in the buffer: code 5, its address, and 0xFF00 or 0. */
  lemma WriteCoilHeld(r: MasterApp.Issued, msg: Buffer)
    requires r.op.WriteCoil?
    requires Holds(msg, MasterApp.Encode(r))
    ensures |MasterApp.Encode(r)| == 5 && msg[0] == 5
    ensures SlaveApp.Field(msg, 1) == r.op.address && SlaveApp.Field(msg, 3) == MasterApp.CoilValue(r.op.on)
  {
    MasterApp.StandardDescribes(r);
    StandardHeld(msg, MasterApp.Encode(r), 5, r.op.address, MasterApp.CoilValue(r.op.on));
  }

  /** A write-single-coil request is decoded with its address and the value 0xFF00 or 0. */
  lemma WriteCoilChecked(r: MasterApp.Issued, msg: Buffer, img: SlaveApp.Image)
    requires r.op.WriteCoil?
    requires Holds(msg, MasterApp.Encode(r))
    ensures SlaveApp.Check(msg, |MasterApp.Encode(r)|, r.slave == 0, img) == Expected(r, img)
  {
    var a, v := r.op.address, MasterApp.CoilValue(r.op.on);
    WriteCoilHeld(r, msg);
    WriteCoilDecoded(msg, img, a, v, r.slave == 0);
  }

  /** A write-single-register request is decoded with its address and value. */
  lemma WriteRegisterChecked(r: MasterApp.Issued, msg: Buffer, img: SlaveApp.Image)
    requires r.op.WriteRegister?
    requires Holds(msg, MasterApp.Encode(r))
    ensures SlaveApp.Check(msg, |MasterApp.Encode(r)|, r.slave == 0, img) == Expected(r, img)
  {
    var a, v := r.op.address, r.op.value;
    MasterApp.StandardDescribes(r);
    StandardHeld(msg, MasterApp.Encode(r), 6, a, v);
    WriteRegisterDecoded(msg, img, a, v, r.slave == 0);
  }

  /** A mask-write request is decoded with its address and both masks. */
  lemma MaskWriteChecked(r: MasterApp.Issued, msg: Buffer, img: SlaveApp.Image)
    requires r.op.MaskWrite?
    requires Holds(msg, MasterApp.Encode(r))
    ensures SlaveApp.Check(msg, |MasterApp.Encode(r)|, r.slave == 0, img) == Expected(r, img)
  {
    var pdu := MasterApp.Encode(r);
    MasterApp.MaskWriteDescribes(r);
    assert msg[0] == pdu[0] == 22;
    SameField(msg, pdu, 1);
    SameField(msg, pdu, 3);
    SameField(msg, pdu, 5);
    assert SlaveApp.Check(msg, 7, r.slave == 0, img) == SlaveApp.MaskWriteCheck(msg, 7, img);
  }

  /** A write-multiple-coils request is decoded with its quantity and the packed coils as data. */
  lemma WriteCoilsChecked(r: MasterApp.Issued, msg: Buffer, img: SlaveApp.Image)
    requires r.op.WriteCoils?
    requires Holds(msg, MasterApp.Encode(r))
    ensures SlaveApp.Check(msg, |MasterApp.Encode(r)|, r.slave == 0, img) == Expected(r, img)
  {
    var pdu := MasterApp.Encode(r);
    var a, vs := r.op.address, r.op.coils;
    var n := |pdu|;
    assert pdu == MasterApp.Standard(15, a, |vs|) + [ByteCount(|vs|)] + Pack(vs);
    MasterApp.WriteCoilsDescribes(r);
    assert msg[0] == pdu[0] == 15 && msg[5] == pdu[5];
    SameField(msg, pdu, 1);
    SameField(msg, pdu, 3);
    assert msg[6 .. 6 + msg[5]] == pdu[6..] == Pack(vs);
    WriteCoilsDecoded(msg, n, img, a, |vs|, r.slave == 0);
  }

  /** The slave's side of a write-multiple-coils request whose quantity, byte count and length agree. */
  lemma WriteCoilsDecoded(msg: Buffer, len: byte, img: SlaveApp.Image, a: u16, q: u16, broadcast: bool)
    requires msg[0] == 15 && SlaveApp.Field(msg, 1) == a && SlaveApp.Field(msg, 3) == q
    requires 1 <= q <= SlaveApp.MaxWriteBits && msg[5] == ByteCount(q) && len as int == 6 + msg[5] as int
    ensures SlaveApp.Check(msg, len, broadcast, img) == Verdict(SlaveApp.WriteCoils(a, q, msg[6 .. 6 + msg[5]]), img)
  {
    assert SlaveApp.Check(msg, len, broadcast, img) == SlaveApp.WriteCoilsCheck(msg, len, img);
  }

  /** The slave's side of a write-multiple-registers request whose quantity, byte count and length agree. */
  lemma WriteRegistersDecoded(msg: Buffer, len: byte, img: SlaveApp.Image, a: u16, q: u16, broadcast: bool)
    requires msg[0] == 16 && SlaveApp.Field(msg, 1) == a && SlaveApp.Field(msg, 3) == q
    requires 1 <= q <= SlaveApp.MaxWriteRegisters && msg[5] == 2 * q && len as int == 6 + msg[5] as int
    ensures SlaveApp.Check(msg, len, broadcast, img) == Verdict(SlaveApp.WriteRegisters(a, q, msg[6 .. 6 + msg[5]]), img)
  {
    assert SlaveApp.Check(msg, len, broadcast, img) == SlaveApp.WriteRegistersCheck(msg, len, img);
  }

  /** A write-multiple-registers request is decoded with its quantity and the registers' bytes as data. */
  lemma WriteRegistersChecked(r: MasterApp.Issued, msg: Buffer, img: SlaveApp.Image)
    requires r.op.WriteRegisters?
    requires Holds(msg, MasterApp.Encode(r))
    ensures SlaveApp.Check(msg, |MasterApp.Encode(r)|, r.slave == 0, img) == Expected(r, img)
  {
    var pdu := MasterApp.Encode(r);
    var a, vs := r.op.address, r.op.registers;
    var n := |pdu|;
    assert pdu == MasterApp.Standard(16, a, |vs|) + [2 * |vs|] + Words(vs);
    MasterApp.WriteRegistersDescribes(r);
    assert msg[0] == pdu[0] == 16 && msg[5] == pdu[5];
    SameField(msg, pdu, 1);
    SameField(msg, pdu, 3);
    assert msg[6 .. 6 + msg[5]] == pdu[6..] == Words(vs);
    WriteRegistersDecoded(msg, n, img, a, |vs|, r.slave == 0);
  }

  /** The slave's side of a read/write request whose quantities, byte count and length agree. */
  lemma ReadWriteDecoded(msg: Buffer, len: byte, img: SlaveApp.Image, ra: u16, rq: u16, wa: u16, wq: u16)
    requires msg[0] == 23 && SlaveApp.Field(msg, 1) == ra && SlaveApp.Field(msg, 3) == rq
    requires SlaveApp.Field(msg, 5) == wa && SlaveApp.Field(msg, 7) == wq
    requires 1 <= rq <= SlaveApp.MaxReadRegisters && 1 <= wq <= SlaveApp.MaxWriteRegisters
    requires msg[9] == 2 * wq && len as int == 10 + msg[9] as int
    ensures SlaveApp.Check(msg, len, false, img) == Verdict(SlaveApp.ReadWrite(ra, rq, wa, wq, msg[10 .. 10 + msg[9]]), img)
  {
    assert SlaveApp.Check(msg, len, false, img) == SlaveApp.ReadWriteCheck(msg, len, img);
  }

  /** A read/write-multiple-registers request is decoded with both halves and the registers' bytes as data. */
  lemma ReadWriteChecked(r: MasterApp.Issued, msg: Buffer, img: SlaveApp.Image)
    requires r.op.ReadWrite?
    requires Holds(msg, MasterApp.Encode(r))
    ensures SlaveApp.Check(msg, |MasterApp.Encode(r)|, r.slave == 0, img) == Expected(r, img)
  {
    var pdu := MasterApp.Encode(r);
    var ra, rq, wa, vs := r.op.readAddress, r.op.readQuantity, r.op.writeAddress, r.op.registers;
    var n := |pdu|;
    assert pdu == [23, Hi(ra), Lo(ra), Hi(rq), Lo(rq), Hi(wa), Lo(wa), Hi(|vs|), Lo(|vs|), 2 * |vs|] + Words(vs);
    MasterApp.ReadWriteDescribes(r);
    assert msg[0] == pdu[0] == 23 && msg[9] == pdu[9];
    SameField(msg, pdu, 1);
    SameField(msg, pdu, 3);
    SameField(msg, pdu, 5);
    SameField(msg, pdu, 7);
    assert msg[10 .. 10 + msg[9]] == pdu[10..] == Words(vs);
    ReadWriteDecoded(msg, n, img, ra, rq, wa, |vs|);
  }

  /**
   * Round trip of a request: the PDU the master builds for any request its
   * user functions accept, read by the slave's data checks (as broadcast
   * when the slave address is 0), is decoded as the same operation, and is
   * refused only with exception 2 when the image lacks an addressed value;
   * never with exception 1 or 3.
   */
  lemma RequestChecked(r: MasterApp.Issued, msg: Buffer, img: SlaveApp.Image)
    requires Holds(msg, MasterApp.Encode(r))
    ensures SlaveApp.Check(msg, |MasterApp.Encode(r)|, r.slave == 0, img) == Expected(r, img)
  {
    match r.op
    case ReadCoils(_, _) => ReadChecked(r, msg, img);
    case ReadInputs(_, _) => ReadChecked(r, msg, img);
    case ReadHolding(_, _) => ReadChecked(r, msg, img);
    case ReadInputRegisters(_, _) => ReadChecked(r, msg, img);
    case WriteCoil(_, _) => WriteCoilChecked(r, msg, img);
    case WriteRegister(_, _) => WriteRegisterChecked(r, msg, img);
    case WriteCoils(_, _) => WriteCoilsChecked(r, msg, img);
    case WriteRegisters(_, _) => WriteRegistersChecked(r, msg, img);
    case MaskWrite(_, _, _) => MaskWriteChecked(r, msg, img);
    case ReadWrite(_, _, _, _) => ReadWriteChecked(r, msg, img);
  }

  /** The answer PDU sits at the start of the master's buffer, and its length is recorded. */
  predicate Carries(msg: Buffer, len: byte, resp: seq<byte>)
  {
    Holds(msg, resp) && len as int == |resp|
  }

  /** The bit tables hold only 0 and 1, as every write of the slave leaves them. */
  predicate BitTables(img: SlaveApp.Image)
  {
    AllBits(img.coils) && AllBits(img.inputs)
  }

  /** The table of bits a read of coils or discrete inputs addresses. */
  function BitsOf(r: MasterApp.Issued, img: SlaveApp.Image): seq<byte>
    requires r.op.ReadCoils? || r.op.ReadInputs?
  {
    if r.op.ReadCoils? then img.coils else img.inputs
  }

  /** The table of registers a read of holding or input registers addresses. */
  function WordsOf(r: MasterApp.Issued, img: SlaveApp.Image): seq<u16>
    requires r.op.ReadHolding? || r.op.ReadInputRegisters?
  {
    if r.op.ReadHolding? then img.holding else img.registers
  }

  /** The master's side of a bit-read answer: code, byte count and length pass, and the data unpacks to `vals`. */
  lemma BitsAnswerRead(r: MasterApp.Issued, msg: Buffer, len: byte, resp: seq<byte>, vals: seq<byte>)
    requires r.op.ReadCoils? || r.op.ReadInputs?
    requires Carries(msg, len, resp)
    requires |resp| == 2 + ByteCount(r.op.quantity) && resp[0] == MasterApp.FunctionCode(r.op)
    requires resp[1] == ByteCount(r.op.quantity)
    requires r.op.quantity <= 8 * (|resp| - 2) && Unpack(resp[2..], r.op.quantity) == vals
    ensures msg[0] == MasterApp.FunctionCode(r.op) && MasterApp.AnswerOk(r.op, msg, len)
    ensures MasterApp.ReadValues(r, msg) == MasterApp.BitsRead(vals)
  {
    assert msg[0] == resp[0] && msg[1] == resp[1];
    assert msg[2 .. 2 + ByteCount(r.op.quantity)] == resp[2..];
  }

  /** The master's side of a register-read answer: code, byte count and length pass, and the data decodes to `vals`. */
  lemma WordsAnswerRead(r: MasterApp.Issued, msg: Buffer, len: byte, resp: seq<byte>, q: nat, vals: seq<u16>)
    requires r.op.ReadHolding? || r.op.ReadInputRegisters? || r.op.ReadWrite?
    requires q == if r.op.ReadWrite? then r.op.readQuantity else r.op.quantity
    requires Carries(msg, len, resp)
    requires |resp| == 2 + 2 * q && resp[0] == MasterApp.FunctionCode(r.op) && resp[1] == 2 * q
    requires Unwords(resp[2..]) == vals
    ensures msg[0] == MasterApp.FunctionCode(r.op) && MasterApp.AnswerOk(r.op, msg, len)
    ensures MasterApp.ReadValues(r, msg) == MasterApp.WordsRead(vals)
  {
    assert msg[0] == resp[0] && msg[1] == resp[1];
    assert msg[2 .. 2 + 2 * q] == resp[2..];
  }

  /**
   * Round trip of a bit read: the slave's answer to a read of coils or
   * discrete inputs passes the master's checks, and the master hands its
   * user exactly the addressed bits of the image.
   */
  lemma ReadBitsAnswered(r: MasterApp.Issued, img: SlaveApp.Image, msg: Buffer, len: byte)
    requires r.op.ReadCoils? || r.op.ReadInputs?
    requires SlaveApp.Fits(SlaveOp(r), img) && BitTables(img)
    requires Carries(msg, len, SlaveApp.Execute(SlaveOp(r), img).response)
    ensures msg[0] == MasterApp.FunctionCode(r.op) && MasterApp.AnswerOk(r.op, msg, len)
    ensures MasterApp.ReadValues(r, msg) ==
      MasterApp.BitsRead(BitsOf(r, img)[r.op.address .. r.op.address + r.op.quantity])
  {
    var a, q, fc, bits := r.op.address, r.op.quantity, MasterApp.FunctionCode(r.op), BitsOf(r, img);
    var resp := SlaveApp.Execute(SlaveOp(r), img).response;
    assert resp == SlaveApp.ReadBits(fc, bits, a, q);
    SlaveApp.ReadBitsAnswer(fc, bits, a, q);
    BitsAnswerRead(r, msg, len, resp, bits[a .. a + q]);
  }

  /**
   * Whatever bytes the coil and input tables hold, the slave's answer to a
   * bit read passes the master's answer check: its code, byte count and
   * length depend only on the quantity.
   */
  lemma ReadBitsPasses(r: MasterApp.Issued, img: SlaveApp.Image, msg: Buffer, len: byte)
    requires r.op.ReadCoils? || r.op.ReadInputs?
    requires SlaveApp.Fits(SlaveOp(r), img)
    requires Carries(msg, len, SlaveApp.Execute(SlaveOp(r), img).response)
    ensures msg[0] == MasterApp.FunctionCode(r.op) && MasterApp.AnswerOk(r.op, msg, len)
    ensures |MasterApp.ReadValues(r, msg).bits| == r.op.quantity
  {
    var a, q, fc, bits := r.op.address, r.op.quantity, MasterApp.FunctionCode(r.op), BitsOf(r, img);
    var resp := SlaveApp.Execute(SlaveOp(r), img).response;
    assert resp == SlaveApp.ReadBits(fc, bits, a, q);
    assert msg[0] == resp[0] && msg[1] == resp[1];
  }

  /**
   * Round trip of a register read: the slave's answer to a read of holding
   * or input registers passes the master's checks, and the master hands its
   * user exactly the addressed registers of the image.
   */
  lemma ReadWordsAnswered(r: MasterApp.Issued, img: SlaveApp.Image, msg: Buffer, len: byte)
    requires r.op.ReadHolding? || r.op.ReadInputRegisters?
    requires SlaveApp.Fits(SlaveOp(r), img)
    requires Carries(msg, len, SlaveApp.Execute(SlaveOp(r), img).response)
    ensures msg[0] == MasterApp.FunctionCode(r.op) && MasterApp.AnswerOk(r.op, msg, len)
    ensures MasterApp.ReadValues(r, msg) ==
      MasterApp.WordsRead(WordsOf(r, img)[r.op.address .. r.op.address + r.op.quantity])
  {
    var a, q, fc, regs := r.op.address, r.op.quantity, MasterApp.FunctionCode(r.op), WordsOf(r, img);
    var resp := SlaveApp.Execute(SlaveOp(r), img).response;
    assert resp == SlaveApp.ReadWords(fc, regs, a, q);
    SlaveApp.ReadWordsAnswer(fc, regs, a, q);
    WordsAnswerRead(r, msg, len, resp, q, regs[a .. a + q]);
  }

  /**
   * The slave's side of a read/write request: register `wa + i` takes the
   * OR of the two bytes of `vs[i]` (`SlaveApp.StoreWordsAsWrittenKeeps`
   * says when that is `vs[i]`), then the answer is the range read.
   */
  lemma ReadWriteRuns(img: SlaveApp.Image, ra: u16, rq: u16, wa: u16, vs: seq<u16>)
    requires |vs| <= MasterApp.MaxReadWriteWrites
    requires SlaveApp.Fits(SlaveApp.ReadWrite(ra, rq, wa, |vs|, Words(vs)), img)
    ensures var d := SlaveApp.Execute(SlaveApp.ReadWrite(ra, rq, wa, |vs|, Words(vs)), img);
      && |d.image.holding| == |img.holding|
      && (forall i :: 0 <= i < |vs| ==> d.image.holding[wa + i] == Or(Hi(vs[i]), Lo(vs[i])))
      && d.response == SlaveApp.ReadWords(23, d.image.holding, ra, rq)
  {
    SlaveApp.StoreWordsAsWrittenKeeps(img.holding, wa, vs);
  }

  /**
   * The slave's side of a write-multiple-registers request: register
   * `a + i` takes the OR of the two bytes of `vs[i]`, every other register
   * keeps its value, and the answer echoes address and quantity.
   */
  lemma WriteRegistersRuns(img: SlaveApp.Image, a: u16, vs: seq<u16>)
    requires |vs| <= SlaveApp.MaxWriteRegisters
    requires SlaveApp.Fits(SlaveApp.WriteRegisters(a, |vs|, Words(vs)), img)
    ensures var d := SlaveApp.Execute(SlaveApp.WriteRegisters(a, |vs|, Words(vs)), img);
      && |d.image.holding| == |img.holding| && d.image.coils == img.coils
      && (forall i :: 0 <= i < |vs| ==> d.image.holding[a + i] == Or(Hi(vs[i]), Lo(vs[i])))
      && (forall i :: 0 <= i < |img.holding| && !(a <= i < a + |vs|) ==> d.image.holding[i] == img.holding[i])
      && d.response == SlaveApp.Echo(16, a, |vs|)
  {
    SlaveApp.StoreWordsAsWrittenKeeps(img.holding, a, vs);
  }

  /**
   * Round trip of a read/write request: the slave's answer passes the
   * master's checks; the user receives the registers read after the write,
   * and the written range holds, for each value the master sent, the OR of
   * its two bytes.
   */
  lemma ReadWriteAnswered(r: MasterApp.Issued, img: SlaveApp.Image, msg: Buffer, len: byte)
    requires r.op.ReadWrite?
    requires SlaveApp.Fits(SlaveOp(r), img)
    requires Carries(msg, len, SlaveApp.Execute(SlaveOp(r), img).response)
    ensures msg[0] == MasterApp.FunctionCode(r.op) && MasterApp.AnswerOk(r.op, msg, len)
    ensures var after := SlaveApp.Execute(SlaveOp(r), img).image.holding;
      && r.op.readAddress + r.op.readQuantity <= |after|
      && MasterApp.ReadValues(r, msg) == MasterApp.WordsRead(after[r.op.readAddress .. r.op.readAddress + r.op.readQuantity])
      && r.op.writeAddress + |r.op.registers| <= |after|
      && forall i :: 0 <= i < |r.op.registers| ==>
           after[r.op.writeAddress + i] == Or(Hi(r.op.registers[i]), Lo(r.op.registers[i]))
  {
    var ra, rq, wa, vs := r.op.readAddress, r.op.readQuantity, r.op.writeAddress, r.op.registers;
    var d := SlaveApp.Execute(SlaveOp(r), img);
    ReadWriteStored(r, img);
    SlaveApp.ReadWordsAnswer(23, d.image.holding, ra, rq);
    WordsAnswerRead(r, msg, len, d.response, rq, d.image.holding[ra .. ra + rq]);
  }

  /** `ReadWriteRuns` for the request the master issued. */
  lemma ReadWriteStored(r: MasterApp.Issued, img: SlaveApp.Image)
    requires r.op.ReadWrite?
    requires SlaveApp.Fits(SlaveOp(r), img)
    ensures var d := SlaveApp.Execute(SlaveOp(r), img);
      && |d.image.holding| == |img.holding|
      && (forall i :: 0 <= i < |r.op.registers| ==>
            d.image.holding[r.op.writeAddress + i] == Or(Hi(r.op.registers[i]), Lo(r.op.registers[i])))
      && d.response == SlaveApp.ReadWords(23, d.image.holding, r.op.readAddress, r.op.readQuantity)
  {
    var ra, rq, wa, vs := r.op.readAddress, r.op.readQuantity, r.op.writeAddress, r.op.registers;
    assert SlaveOp(r) == SlaveApp.ReadWrite(ra, rq, wa, |vs|, Words(vs));
    ReadWriteRuns(img, ra, rq, wa, vs);
  }

  /** The master reads back the address and field a write response echoes. */
  lemma EchoRead(msg: Buffer, fc: byte, a: u16, f: u16)
    requires Holds(msg, SlaveApp.Echo(fc, a, f))
    ensures msg[0] == fc && MasterApp.Field(msg, 1) == a && MasterApp.Field(msg, 3) == f
  {
    assert msg[..5] == [fc, Hi(a), Lo(a), Hi(f), Lo(f)];
    assert msg[0] == fc && msg[1] == Hi(a) && msg[2] == Lo(a) && msg[3] == Hi(f) && msg[4] == Lo(f);
    WordOfHalves(a);
    WordOfHalves(f);
  }

  /**
   * Round trip of a write: the slave's echo of a write-single or
   * write-multiple request passes the master's answer check.
   */
  lemma WriteAnswered(r: MasterApp.Issued, img: SlaveApp.Image, msg: Buffer, len: byte)
    requires r.op.WriteCoil? || r.op.WriteRegister? || r.op.WriteCoils? || r.op.WriteRegisters?
    requires SlaveApp.Fits(SlaveOp(r), img)
    requires Carries(msg, len, SlaveApp.Execute(SlaveOp(r), img).response)
    ensures msg[0] == MasterApp.FunctionCode(r.op) && MasterApp.AnswerOk(r.op, msg, len)
  {
    var resp := SlaveApp.Execute(SlaveOp(r), img).response;
    match r.op
    case WriteCoil(a, on) =>
      assert resp == SlaveApp.Echo(5, a, MasterApp.CoilValue(on));
      EchoRead(msg, 5, a, MasterApp.CoilValue(on));
    case WriteRegister(a, v) =>
      assert resp == SlaveApp.Echo(6, a, v);
      EchoRead(msg, 6, a, v);
    case WriteCoils(a, vs) =>
      assert resp == SlaveApp.Echo(15, a, |vs|);
      EchoRead(msg, 15, a, |vs|);
    case WriteRegisters(a, vs) =>
      assert resp == SlaveApp.Echo(16, a, |vs|);
      EchoRead(msg, 16, a, |vs|);
  }

  /** Round trip of a mask write: the slave's echo of address and both masks passes the master's check. */
  lemma MaskWriteAnswered(r: MasterApp.Issued, img: SlaveApp.Image, msg: Buffer, len: byte)
    requires r.op.MaskWrite?
    requires SlaveApp.Fits(SlaveOp(r), img)
    requires Carries(msg, len, SlaveApp.Execute(SlaveOp(r), img).response)
    ensures msg[0] == MasterApp.FunctionCode(r.op) && MasterApp.AnswerOk(r.op, msg, len)
  {
    var a, am, om := r.op.address, r.op.andMask, r.op.orMask;
    var resp := SlaveApp.Execute(SlaveOp(r), img).response;
    assert resp == SlaveApp.Echo(22, a, am) + [Hi(om), Lo(om)];
    assert msg[..5] == SlaveApp.Echo(22, a, am) by {
      assert msg[..5] == resp[..5];
    }
    EchoRead(msg, 22, a, am);
    assert msg[5] == Hi(om) && msg[6] == Lo(om);
    WordOfHalves(om);
  }

  /**
   * Round trip of an accepted request: whatever the operation, the slave's
   * answer passes the master's answer check for the request it came from.
   */
  lemma Answered(r: MasterApp.Issued, img: SlaveApp.Image, msg: Buffer, len: byte)
    requires SlaveApp.Fits(SlaveOp(r), img)
    requires Carries(msg, len, SlaveApp.Execute(SlaveOp(r), img).response)
    ensures msg[0] == MasterApp.FunctionCode(r.op) && MasterApp.AnswerOk(r.op, msg, len)
  {
    match r.op
    case ReadCoils(_, _) => ReadBitsPasses(r, img, msg, len);
    case ReadInputs(_, _) => ReadBitsPasses(r, img, msg, len);
    case ReadHolding(_, _) => ReadWordsAnswered(r, img, msg, len);
    case ReadInputRegisters(_, _) => ReadWordsAnswered(r, img, msg, len);
    case WriteCoil(_, _) => WriteAnswered(r, img, msg, len);
    case WriteRegister(_, _) => WriteAnswered(r, img, msg, len);
    case WriteCoils(_, _) => WriteAnswered(r, img, msg, len);
    case WriteRegisters(_, _) => WriteAnswered(r, img, msg, len);
    case MaskWrite(_, _, _) => MaskWriteAnswered(r, img, msg, len);
    case ReadWrite(_, _, _, _) => ReadWriteAnswered(r, img, msg, len);
  }

  /**
   * The slave's exception response to any request passes both the
   * master's exception test as written and the corrected one, and is never
   * mistaken for a normal answer with the request's function code.
   */
  lemma ExceptionAnswered(r: MasterApp.Issued, e: SlaveApp.Exception, msg: Buffer, len: byte)
    requires Carries(msg, len, SlaveApp.ExceptionPdu(MasterApp.FunctionCode(r.op), e))
    ensures MasterApp.ExceptionAsWritten(MasterApp.FunctionCode(r.op), msg, len)
    ensures MasterApp.ExceptionAnswer(MasterApp.FunctionCode(r.op), msg, len)
    ensures msg[0] != MasterApp.FunctionCode(r.op) && msg[1] == SlaveApp.ExceptionCode(e)
  {
    var fc := MasterApp.FunctionCode(r.op);
    var resp := SlaveApp.ExceptionPdu(fc, e);
    assert msg[0] == resp[0] && msg[1] == resp[1];
    MasterApp.ExceptionAnswerExact(fc, msg, len);
    MasterApp.ExceptionAsWrittenIgnoresCode(fc, msg, len);
  }

  /**
   * `Modbus_App_Manage_CallBack` on the slave's exception response: the
   * master stores no values, resets the attempt counter, returns to IDLE
   * and, while the failure queue has room, appends the request with the
   * two response bytes.
   */
  lemma ExceptionRecorded(m: MasterApp.Master, e: SlaveApp.Exception)
    requires MasterApp.Wf(m)
    requires Carries(m.msg, m.lMsg, SlaveApp.ExceptionPdu(MasterApp.FunctionCode(m.active.op), e))
    ensures var h := MasterApp.ManageCallBack(m);
      && h.readout == MasterApp.NoReadout
      && h.master.link == m.link.(main := MasterCan.Idle, attempts := 1)
      && (|MasterApp.Failures(m)| < Fifo.MaxErrorItems ==>
            MasterApp.Failures(h.master) ==
            MasterApp.Failures(m) + [MasterApp.Failure(m.active, SlaveApp.ExceptionPdu(MasterApp.FunctionCode(m.active.op), e))])
  {
    var fc := MasterApp.FunctionCode(m.active.op);
    ExceptionAnswered(m.active, e, m.msg, m.lMsg);
    assert m.msg[..2] == SlaveApp.ExceptionPdu(fc, e);
  }

  /**
   * A request the master issues, received by the slave and handled by
   * `Modbus_App_Manage_Request`: it is executed exactly when the image holds
   * what it addresses; otherwise a unicast request gets the exception
   * response and a broadcast one changes nothing.
   */
  lemma Served(r: MasterApp.Issued, app: SlaveApp.App)
    requires Holds(app.msg, MasterApp.Encode(r)) && app.len as int == |MasterApp.Encode(r)|
    ensures var h := SlaveApp.ManageRequest(app, r.slave == 0);
      && (SlaveApp.Fits(SlaveOp(r), app.image) ==>
            h.change == SlaveApp.ToProcessing && h.app.image == SlaveApp.Execute(SlaveOp(r), app.image).image
            && h.app.response == SlaveApp.Execute(SlaveOp(r), app.image).response)
      && (!SlaveApp.Fits(SlaveOp(r), app.image) && r.slave != 0 ==>
            h.change == SlaveApp.ToError && h.app.image == app.image
            && h.app.response == SlaveApp.ExceptionPdu(MasterApp.FunctionCode(r.op), SlaveApp.IllegalAddress))
      && (!SlaveApp.Fits(SlaveOp(r), app.image) && r.slave == 0 ==> h.app == app)
  {
    RequestChecked(r, app.msg, app.image);
    assert app.msg[0] == MasterApp.Encode(r)[0];
  }

  /**
   * The whole unicast exchange: the master's answer check passes the
   * slave's response exactly when the slave's image holds what the request
   * addresses; otherwise the response is the exception answer with code 2,
   * which the exception test records, as written and corrected.
   */
  lemma Exchanged(r: MasterApp.Issued, app: SlaveApp.App, msg: Buffer, len: byte)
    requires r.slave != 0
    requires Holds(app.msg, MasterApp.Encode(r)) && app.len as int == |MasterApp.Encode(r)|
    requires Carries(msg, len, SlaveApp.ManageRequest(app, false).app.response)
    ensures msg[0] == MasterApp.FunctionCode(r.op) && MasterApp.AnswerOk(r.op, msg, len) <==>
      SlaveApp.Fits(SlaveOp(r), app.image)
    ensures !SlaveApp.Fits(SlaveOp(r), app.image) ==>
      && MasterApp.ExceptionAsWritten(MasterApp.FunctionCode(r.op), msg, len)
      && MasterApp.ExceptionAnswer(MasterApp.FunctionCode(r.op), msg, len) && msg[1] == 2
  {
    Served(r, app);
    if SlaveApp.Fits(SlaveOp(r), app.image) {
      Answered(r, app.image, msg, len);
    } else {
      ExceptionAnswered(r, SlaveApp.IllegalAddress, msg, len);
    }
  }
}
