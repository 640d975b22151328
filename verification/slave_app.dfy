/**
 * The slave's application layer (`Modbus_Project_Slave/Slave/Modbus_app.c`):
 * the data checks that turn a request PDU into either an operation on the
 * I/O image or one of the exception codes of section 7 of the MODBUS
 * Application Protocol Specification V1.1b3, the executors that run the
 * operation and build the response PDU, and `Modbus_App_Manage_Request`,
 * which ties both together for whichever transport (serial or CAN) is built.
 *
 * The C code passes the request's fields from a check to its executor
 * through the globals `Modbus_App_Adress`, `_Quantity` and `_Value`; here a
 * check returns the decoded operation instead.
 */
module SlaveApp {
  import opened Bytes

  /**
   * The I/O image the application serves: `Coils`, `D_Inputs`,
   * `H_Registers` and `I_Registers`. The length of each table is its
   * configured count (`N_Coils`, ...).
   */
  datatype Image = Image(coils: seq<byte>, inputs: seq<byte>, holding: seq<u16>, registers: seq<u16>)

  /** The four tables a read may address, with function codes 1, 2, 3 and 4. */
  datatype Table = Coils | Inputs | Holding | InputRegisters

  /** The exception codes the checks return (section 7 of the application protocol). */
  datatype Exception = IllegalFunction | IllegalAddress | IllegalValue

  /** Exception code 1, 2 or 3. */
  function ExceptionCode(e: Exception): (c: byte)
    ensures 1 <= c <= 3
  {
    match e
    case IllegalFunction => 1
    case IllegalAddress => 2
    case IllegalValue => 3
  }

  /** A request that passed its data check, with its fields decoded. */
  datatype Op =
    | Read(table: Table, addr: u16, quantity: u16)
    | WriteCoil(addr: u16, value: u16)
    | WriteRegister(addr: u16, value: u16)
    | WriteCoils(addr: u16, quantity: u16, data: seq<byte>)
    | WriteRegisters(addr: u16, quantity: u16, data: seq<byte>)
    | MaskWrite(addr: u16, andMask: u16, orMask: u16)
    | ReadWrite(readAddr: u16, readQuantity: u16, writeAddr: u16, writeQuantity: u16, data: seq<byte>)

  /** What a data check decides: run the operation, or answer with an exception code. */
  datatype Verdict = Accept(op: Op) | Reject(exception: Exception)

  /** The 0..3 value the C check functions return. */
  function VerdictCode(v: Verdict): (c: byte)
    ensures c == 0 <==> v.Accept?
  {
    if v.Accept? then 0 else ExceptionCode(v.exception)
  }

  /** Most bits one read may ask for. */
  const MaxReadBits: nat := 2000

  /** Most registers one read may ask for. */
  const MaxReadRegisters: nat := 125

  /** Most coils one write-multiple-coils request may carry. */
  const MaxWriteBits: nat := 1968

  /** Most registers one write-multiple-registers request may carry. */
  const MaxWriteRegisters: nat := 123

  /** The value that switches a coil on in a write-single-coil request. */
  const CoilOn: u16 := 0xFF00

  /** The function code of each table's read. */
  function ReadCode(t: Table): byte
  {
    match t
    case Coils => 1
    case Inputs => 2
    case Holding => 3
    case InputRegisters => 4
  }

  /** Whether a table holds bits (coils, discrete inputs) rather than registers. */
  predicate IsBitTable(t: Table) { t == Coils || t == Inputs }

  /** The most values one read of table `t` may ask for. */
  function ReadLimit(t: Table): nat
  {
    if IsBitTable(t) then MaxReadBits else MaxReadRegisters
  }

  /** The configured count of table `t`. */
  function TableSize(img: Image, t: Table): nat
  {
    match t
    case Coils => |img.coils|
    case Inputs => |img.inputs|
    case Holding => |img.holding|
    case InputRegisters => |img.registers|
  }

  /** The big-endian 16-bit field at bytes `i`, `i+1` of the request (`Msg[i]<<8|Msg[i+1]`). */
  function Field(msg: Buffer, i: nat): u16
    requires i + 1 < BufferSize
  {
    Word(msg[i], msg[i + 1])
  }

  /**
   * An operation the image can run: every value it addresses exists, its
   * quantity is within the limits the checks enforce, and its data bytes
   * match its quantity.
   */
  predicate Fits(op: Op, img: Image)
  {
    match op
    case Read(t, a, q) => 1 <= q <= ReadLimit(t) && a + q <= TableSize(img, t)
    case WriteCoil(a, v) => a < |img.coils| && (v == CoilOn || v == 0)
    case WriteRegister(a, _) => a < |img.holding|
    case WriteCoils(a, q, data) => 1 <= q <= MaxWriteBits && a + q <= |img.coils| && |data| == ByteCount(q)
    case WriteRegisters(a, q, data) => 1 <= q <= MaxWriteRegisters && a + q <= |img.holding| && |data| == 2 * q
    case MaskWrite(a, _, _) => a < |img.holding|
    case ReadWrite(ra, rq, wa, wq, data) =>
      && 1 <= rq <= MaxReadRegisters && ra + rq <= |img.holding|
      && 1 <= wq <= MaxWriteRegisters && wa + wq <= |img.holding| && |data| == 2 * wq
  }

  /** The function code of the request an operation came from. */
  function OpCode(op: Op): byte
  {
    match op
    case Read(t, _, _) => ReadCode(t)
    case WriteCoil(_, _) => 5
    case WriteRegister(_, _) => 6
    case WriteCoils(_, _, _) => 15
    case WriteRegisters(_, _, _) => 16
    case MaskWrite(_, _, _) => 22
    case ReadWrite(_, _, _, _, _) => 23
  }

  /** Whether an operation returns data, which a broadcast request may not ask for. */
  predicate IsRead(op: Op) { op.Read? || op.ReadWrite? }

  /**
   * `Modbus_App_Read_Coils_Check`, `_Read_D_Inputs_Check`,
   * `_Read_H_Registers_Check`, `_Read_I_Registers_Check`: quantity and
   * length are checked before the address range.
   */
  function ReadCheck(t: Table, msg: Buffer, len: byte, img: Image): (v: Verdict)
    ensures v.Accept? <==>
      len == 5 && 1 <= Field(msg, 3) <= ReadLimit(t) && Field(msg, 1) + Field(msg, 3) <= TableSize(img, t)
    ensures v == Reject(IllegalValue) <==> !(len == 5 && 1 <= Field(msg, 3) <= ReadLimit(t))
    ensures v.Accept? ==> v.op == Read(t, Field(msg, 1), Field(msg, 3)) && Fits(v.op, img)
  {
    var a, q := Field(msg, 1), Field(msg, 3);
    if q > ReadLimit(t) || q == 0 || len != 5 then Reject(IllegalValue)
    else if a + q > TableSize(img, t) then Reject(IllegalAddress)
    else Accept(Read(t, a, q))
  }

  /** `Modbus_App_Write_Coil_Check`: the value must be 0xFF00 or 0 and the length 5, then the coil must exist. */
  function WriteCoilCheck(msg: Buffer, len: byte, img: Image): (v: Verdict)
    ensures v.Accept? <==> len == 5 && (Field(msg, 3) == CoilOn || Field(msg, 3) == 0) && Field(msg, 1) < |img.coils|
    ensures v == Reject(IllegalValue) <==> !(len == 5 && (Field(msg, 3) == CoilOn || Field(msg, 3) == 0))
    ensures v.Accept? ==> v.op == WriteCoil(Field(msg, 1), Field(msg, 3)) && Fits(v.op, img)
  {
    var a, value := Field(msg, 1), Field(msg, 3);
    if (value != CoilOn && value != 0) || len != 5 then Reject(IllegalValue)
    else if a >= |img.coils| then Reject(IllegalAddress)
    else Accept(WriteCoil(a, value))
  }

  /** `Modbus_App_Write_Register_Check`: length 5, then the register must exist; any value is accepted. */
  function WriteRegisterCheck(msg: Buffer, len: byte, img: Image): (v: Verdict)
    ensures v.Accept? <==> len == 5 && Field(msg, 1) < |img.holding|
    ensures v == Reject(IllegalValue) <==> len != 5
    ensures v.Accept? ==> v.op == WriteRegister(Field(msg, 1), Field(msg, 3)) && Fits(v.op, img)
  {
    var a, value := Field(msg, 1), Field(msg, 3);
    if len != 5 then Reject(IllegalValue)
    else if a >= |img.holding| then Reject(IllegalAddress)
    else Accept(WriteRegister(a, value))
  }

  /**
   * `Modbus_App_Write_M_Coils_Check`: 1..1968 coils, a byte count equal to
   * the ceiling of the quantity over 8 (computed in an `unsigned char`,
   * which 1968 coils cannot overflow), and a length of 6 plus that count.
   */
  function WriteCoilsCheck(msg: Buffer, len: byte, img: Image): (v: Verdict)
    ensures v.Accept? <==>
      && 1 <= Field(msg, 3) <= MaxWriteBits && msg[5] == ByteCount(Field(msg, 3)) && len as int == 6 + msg[5] as int
      && Field(msg, 1) + Field(msg, 3) <= |img.coils|
    ensures v == Reject(IllegalValue) <==>
      !(1 <= Field(msg, 3) <= MaxWriteBits && msg[5] == ByteCount(Field(msg, 3)) && len as int == 6 + msg[5] as int)
    ensures v.Accept? ==> v.op == WriteCoils(Field(msg, 1), Field(msg, 3), msg[6 .. 6 + msg[5]]) && Fits(v.op, img)
  {
    var a, q, count := Field(msg, 1), Field(msg, 3), msg[5];
    var n := Trunc8(ByteCount(q));
    if q > MaxWriteBits || q == 0 || n != count || len as int != 6 + n as int then Reject(IllegalValue)
    else if a + q > |img.coils| then Reject(IllegalAddress)
    else Accept(WriteCoils(a, q, msg[6 .. 6 + count]))
  }

  /** `Modbus_App_Write_M_Registers_Check`: 1..123 registers, byte count twice that, length 6 plus the byte count. */
  function WriteRegistersCheck(msg: Buffer, len: byte, img: Image): (v: Verdict)
    ensures v.Accept? <==>
      && 1 <= Field(msg, 3) <= MaxWriteRegisters && msg[5] == 2 * Field(msg, 3) && len as int == 6 + msg[5] as int
      && Field(msg, 1) + Field(msg, 3) <= |img.holding|
    ensures v == Reject(IllegalValue) <==>
      !(1 <= Field(msg, 3) <= MaxWriteRegisters && msg[5] == 2 * Field(msg, 3) && len as int == 6 + msg[5] as int)
    ensures v.Accept? ==> v.op == WriteRegisters(Field(msg, 1), Field(msg, 3), msg[6 .. 6 + msg[5]]) && Fits(v.op, img)
  {
    var a, q, count := Field(msg, 1), Field(msg, 3), msg[5];
    if q > MaxWriteRegisters || q == 0 || 2 * q != count || len as int != 6 + count as int then Reject(IllegalValue)
    else if a + q > |img.holding| then Reject(IllegalAddress)
    else Accept(WriteRegisters(a, q, msg[6 .. 6 + count]))
  }

  /** `Modbus_App_Mask_Write_Register_Check`: length 7, then the register must exist; the masks are not checked. */
  function MaskWriteCheck(msg: Buffer, len: byte, img: Image): (v: Verdict)
    ensures v.Accept? <==> len == 7 && Field(msg, 1) < |img.holding|
    ensures v == Reject(IllegalValue) <==> len != 7
    ensures v.Accept? ==> v.op == MaskWrite(Field(msg, 1), Field(msg, 3), Field(msg, 5)) && Fits(v.op, img)
  {
    var a := Field(msg, 1);
    if len != 7 then Reject(IllegalValue)
    else if a >= |img.holding| then Reject(IllegalAddress)
    else Accept(MaskWrite(a, Field(msg, 3), Field(msg, 5)))
  }

  /**
   * `Modbus_App_Read_Write_M_Registers_Check`: the read half is checked
   * first, with the length tested against the write byte count at byte 9;
   * then the write half, whose byte count must be twice its quantity.
   */
  function ReadWriteCheck(msg: Buffer, len: byte, img: Image): (v: Verdict)
    ensures v.Accept? <==>
      && 1 <= Field(msg, 3) <= MaxReadRegisters && len as int == 10 + msg[9] as int && Field(msg, 1) + Field(msg, 3) <= |img.holding|
      && 1 <= Field(msg, 7) <= MaxWriteRegisters && msg[9] == 2 * Field(msg, 7) && Field(msg, 5) + Field(msg, 7) <= |img.holding|
    ensures !(1 <= Field(msg, 3) <= MaxReadRegisters && len as int == 10 + msg[9] as int) ==> v == Reject(IllegalValue)
    ensures v.Accept? ==>
      v.op == ReadWrite(Field(msg, 1), Field(msg, 3), Field(msg, 5), Field(msg, 7), msg[10 .. 10 + msg[9]]) && Fits(v.op, img)
  {
    var ra, rq := Field(msg, 1), Field(msg, 3);
    var wa, wq, count := Field(msg, 5), Field(msg, 7), msg[9];
    if rq > MaxReadRegisters || rq == 0 || len as int != 10 + count as int then Reject(IllegalValue)
    else if ra + rq > |img.holding| then Reject(IllegalAddress)
    else if wq > MaxWriteRegisters || wq == 0 || 2 * wq != count then Reject(IllegalValue)
    else if wa + wq > |img.holding| then Reject(IllegalAddress)
    else Accept(ReadWrite(ra, rq, wa, wq, msg[10 .. 10 + count]))
  }

  /**
   * `Modbus_App_Check_Request_Data`: dispatch on the function code. A read
   * (codes 1-4 and 23) sent as broadcast, and any code outside the ten
   * supported ones, is refused with exception code 1.
   */
  function Check(msg: Buffer, len: byte, broadcast: bool, img: Image): (v: Verdict)
    ensures v.Accept? ==> Fits(v.op, img) && OpCode(v.op) == msg[0]
    ensures broadcast && v.Accept? ==> !IsRead(v.op)
    ensures msg[0] !in {1, 2, 3, 4, 5, 6, 15, 16, 22, 23} ==> v == Reject(IllegalFunction)
    ensures broadcast && msg[0] in {1, 2, 3, 4, 23} ==> v == Reject(IllegalFunction)
  {
    match msg[0]
    case 1 => if broadcast then Reject(IllegalFunction) else ReadCheck(Coils, msg, len, img)
    case 2 => if broadcast then Reject(IllegalFunction) else ReadCheck(Inputs, msg, len, img)
    case 3 => if broadcast then Reject(IllegalFunction) else ReadCheck(Holding, msg, len, img)
    case 4 => if broadcast then Reject(IllegalFunction) else ReadCheck(InputRegisters, msg, len, img)
    case 5 => WriteCoilCheck(msg, len, img)
    case 6 => WriteRegisterCheck(msg, len, img)
    case 15 => WriteCoilsCheck(msg, len, img)
    case 16 => WriteRegistersCheck(msg, len, img)
    case 22 => MaskWriteCheck(msg, len, img)
    case 23 => if broadcast then Reject(IllegalFunction) else ReadWriteCheck(msg, len, img)
    case _ => Reject(IllegalFunction)
  }

  /** The exception response: the function code with its top bit set, then the exception code. */
  function ExceptionPdu(fc: byte, e: Exception): (r: seq<byte>)
    ensures |r| == 2 && r[1] == ExceptionCode(e)
    ensures r[0] == fc % 128 + 128
  {
    var b := Or(fc, 128);
    OrTopBit(fc);
    [b, ExceptionCode(e)]
  }

  /**
   * `Modbus_App_Read_Coils` / `Modbus_App_Read_D_Inputs`: function code,
   * byte count, then the values packed eight per byte, least significant
   * bit first.
   */
  function ReadBits(fc: byte, bits: seq<byte>, addr: nat, quantity: nat): (r: seq<byte>)
    requires addr + quantity <= |bits| && quantity <= MaxReadBits
    ensures |r| == 2 + ByteCount(quantity) && r[0] == fc && r[1] == ByteCount(quantity)
  {
    [fc, ByteCount(quantity)] + Pack(bits[addr .. addr + quantity])
  }

  /** `Modbus_App_Read_H_Registers` / `Modbus_App_Read_I_Registers`: function code, byte count `2q`, registers high byte first. */
  function ReadWords(fc: byte, regs: seq<u16>, addr: nat, quantity: nat): (r: seq<byte>)
    requires addr + quantity <= |regs| && quantity <= MaxReadRegisters
    ensures |r| == 2 + 2 * quantity && r[0] == fc && r[1] == 2 * quantity
  {
    [fc, 2 * quantity] + Words(regs[addr .. addr + quantity])
  }

  /** The values a read answers with: its packed bits, or its registers high byte first. */
  lemma ReadBitsAnswer(fc: byte, bits: seq<byte>, addr: nat, quantity: nat)
    requires addr + quantity <= |bits| && quantity <= MaxReadBits
    requires AllBits(bits)
    ensures quantity <= 8 * (|ReadBits(fc, bits, addr, quantity)| - 2)
    ensures Unpack(ReadBits(fc, bits, addr, quantity)[2..], quantity) == bits[addr .. addr + quantity]
  {
    var vals := bits[addr .. addr + quantity];
    AllBitsSlice(bits, addr, addr + quantity);
    UnpackPack(vals);
    assert ReadBits(fc, bits, addr, quantity)[2..] == Pack(vals);
  }

  /** A register read's data bytes decode to the registers read. */
  lemma ReadWordsAnswer(fc: byte, regs: seq<u16>, addr: nat, quantity: nat)
    requires addr + quantity <= |regs| && quantity <= MaxReadRegisters
    ensures Unwords(ReadWords(fc, regs, addr, quantity)[2..]) == regs[addr .. addr + quantity]
  {
    var vals := regs[addr .. addr + quantity];
    assert ReadWords(fc, regs, addr, quantity)[2..] == Words(vals);
    UnwordsWords(vals);
  }

  /** The first five bytes of a write response: function code, address and quantity (or value), each high byte first. */
  function Echo(fc: byte, addr: u16, field: u16): (r: seq<byte>)
    ensures |r| == 5 && r[0] == fc
  {
    [fc, Hi(addr), Lo(addr), Hi(field), Lo(field)]
  }

  /**
   * The coils a write-multiple-coils request sets: coil `addr + k` takes bit
   * `k % 8` of data byte `k / 8`, for `k` below the quantity.
   */
  function StoreBits(coils: seq<byte>, addr: nat, quantity: nat, data: seq<byte>): (r: seq<byte>)
    requires addr + quantity <= |coils| && quantity <= 8 * |data|
    ensures |r| == |coils|
    ensures forall i :: addr <= i < addr + quantity ==> r[i] == Bit(data[(i - addr) / 8], (i - addr) % 8)
    ensures forall i :: 0 <= i < |coils| && !(addr <= i < addr + quantity) ==> r[i] == coils[i]
  {
    Splice(coils, addr, Unpack(data, quantity))
  }

  /**
   * The registers a write-multiple-registers request sets as
   * `Modbus_App_Write_M_Registers` and `Modbus_App_Read_Write_M_Registers`
   * compute them: register `addr + i` becomes `Msg[2i] | Msg[2i+1]`, the two
   * data bytes OR-ed together without shifting the first.
   */
  function StoreWordsAsWritten(regs: seq<u16>, addr: nat, data: seq<byte>): (r: seq<u16>)
    requires |data| % 2 == 0 && addr + |data| / 2 <= |regs|
    ensures |r| == |regs|
    ensures forall i :: addr <= i < addr + |data| / 2 ==> r[i] == Or(data[2 * (i - addr)], data[2 * (i - addr) + 1]) < 0x100
    ensures forall i :: 0 <= i < |regs| && !(addr <= i < addr + |data| / 2) ==> r[i] == regs[i]
  {
    Splice(regs, addr, seq(|data| / 2, i requires 0 <= i < |data| / 2 => Or(data[2 * i], data[2 * i + 1])))
  }

  /**
   * The registers a write-multiple-registers request sets, corrected:
   * register `addr + i` becomes the big-endian word `Msg[2i] << 8 | Msg[2i+1]`.
   */
  function StoreWords(regs: seq<u16>, addr: nat, data: seq<byte>): (r: seq<u16>)
    requires |data| % 2 == 0 && addr + |data| / 2 <= |regs|
    ensures |r| == |regs|
    ensures forall i :: addr <= i < addr + |data| / 2 ==> r[i] as int == 0x100 * data[2 * (i - addr)] as int + data[2 * (i - addr) + 1] as int
    ensures forall i :: 0 <= i < |regs| && !(addr <= i < addr + |data| / 2) ==> r[i] == regs[i]
  {
    Splice(regs, addr, Unwords(data))
  }

  /** Round trip of the corrected merge: registers sent high byte first are stored as sent. */
  lemma StoreWordsRoundTrip(regs: seq<u16>, addr: nat, vals: seq<u16>)
    requires addr + |vals| <= |regs|
    ensures StoreWords(regs, addr, Words(vals))[addr .. addr + |vals|] == vals
  {
    UnwordsWords(vals);
  }

  /**
   * Registers sent high byte first survive the merge as written exactly
   * when they are below 256: a larger one is stored as the OR of its bytes.
   */
  lemma {:induction false} StoreWordsAsWrittenKeeps(regs: seq<u16>, addr: nat, vals: seq<u16>)
    requires addr + |vals| <= |regs|
    ensures forall i :: 0 <= i < |vals| ==>
      StoreWordsAsWritten(regs, addr, Words(vals))[addr + i] == Or(Hi(vals[i]), Lo(vals[i]))
    ensures StoreWordsAsWritten(regs, addr, Words(vals))[addr .. addr + |vals|] == vals <==>
      forall i :: 0 <= i < |vals| ==> vals[i] < 0x100
  {
    var r := StoreWordsAsWritten(regs, addr, Words(vals));
    var stored := r[addr .. addr + |vals|];
    forall i | 0 <= i < |vals|
      ensures r[addr + i] == Or(Hi(vals[i]), Lo(vals[i]))
    {
      StoredAsWritten(regs, addr, vals, i);
    }
    forall i | 0 <= i < |vals|
      ensures stored[i] == vals[i] <==> vals[i] < 0x100
    {
      OrOfHalves(vals[i]);
    }
    assert |stored| == |vals|;
  }

  /** Register `addr + i` after the merge as written holds the OR of the two bytes of `vals[i]`. */
  lemma StoredAsWritten(regs: seq<u16>, addr: nat, vals: seq<u16>, i: nat)
    requires addr + |vals| <= |regs| && i < |vals|
    ensures StoreWordsAsWritten(regs, addr, Words(vals))[addr + i] == Or(Hi(vals[i]), Lo(vals[i]))
  {
    WordsAt(vals, i);
    assert 2 * (addr + i - addr) == 2 * i;
  }

  /** The OR of a register's two bytes is the register exactly when its high byte is 0. */
  lemma OrOfHalves(v: u16)
    ensures Or(Hi(v), Lo(v)) == v <==> v < 0x100
  {
    if v < 0x100 {
      assert Hi(v) == 0 && Lo(v) == v;
      assert ((0 as bv8) | (v as bv8)) == v as bv8;
    }
  }

  /**
   * The merge as written loses the high byte: the register 0x0100, sent as
   * the bytes 0x01, 0x00, is stored as 0x0001.
   */
  lemma StoreWordsAsWrittenLosesHighByte(regs: seq<u16>)
    requires |regs| >= 1
    ensures Words([0x0100]) == [1, 0]
    ensures StoreWordsAsWritten(regs, 0, Words([0x0100]))[0] == 1
    ensures StoreWords(regs, 0, Words([0x0100]))[0] == 0x0100
  {
    assert Words([0x0100]) == [1, 0];
    assert Or(1, 0) == 1 by {
      assert (1 as bv8 | 0 as bv8) == 1;
    }
  }

  /** `(old & AND) | (OR & ~AND)` on bit vectors: the mask-write rule of the application protocol (section 6.16). */
  function MaskV(current: bv16, andMask: bv16, orMask: bv16): bv16
  {
    (current & andMask) | (orMask & !andMask)
  }

  /** The mask-write rule on the `uint16_t` register. */
  function Mask(current: u16, andMask: u16, orMask: u16): u16
  {
    MaskV(current as bv16, andMask as bv16, orMask as bv16) as int
  }

  /** Mask write keeps the register bits the AND mask selects and takes every other bit from the OR mask. */
  lemma MaskSelects(c: bv16, a: bv16, o: bv16)
    ensures MaskV(c, a, o) & a == c & a
    ensures MaskV(c, a, o) & !a == o & !a
  {
  }

  /** No other word keeps the AND-selected bits of the register and the other bits of the OR mask. */
  lemma MaskUnique(w: bv16, c: bv16, a: bv16, o: bv16)
    requires w & a == c & a && w & !a == o & !a
    ensures w == MaskV(c, a, o)
  {
    MaskSelects(c, a, o);
    AgreeByMask(w, MaskV(c, a, o), a);
  }

  /** Two words that agree inside a mask and outside it are equal. */
  lemma AgreeByMask(w: bv16, m: bv16, a: bv16)
    requires w & a == m & a && w & !a == m & !a
    ensures w == m
  {
  }

  /** The response and the image after an operation. */
  datatype Done = Done(response: seq<byte>, image: Image)

  /** Longest response an executor builds: a read of 125 registers or 2000 bits. */
  const MaxResponse: nat := 252

  /**
   * `Modbus_App_Process_Action` with the executor functions: run an
   * accepted operation, writing into the image and building the response.
   * Writes answer with the echo of their request header; mask write echoes
   * both masks; read/write writes before it reads.
   */
  function Execute(op: Op, img: Image): (d: Done)
    requires Fits(op, img)
    ensures 2 <= |d.response| <= MaxResponse && d.response[0] == OpCode(op)
    ensures op.Read? ==> d.image == img
    ensures TableSize(d.image, Coils) == |img.coils| && TableSize(d.image, Holding) == |img.holding|
    ensures d.image.inputs == img.inputs && d.image.registers == img.registers
  {
    match op
    case Read(t, a, q) =>
      var r := match t
        case Coils => ReadBits(1, img.coils, a, q)
        case Inputs => ReadBits(2, img.inputs, a, q)
        case Holding => ReadWords(3, img.holding, a, q)
        case InputRegisters => ReadWords(4, img.registers, a, q);
      Done(r, img)
    case WriteCoil(a, v) =>
      Done(Echo(5, a, v), img.(coils := img.coils[a := if v == CoilOn then 1 else 0]))
    case WriteRegister(a, v) =>
      Done(Echo(6, a, v), img.(holding := img.holding[a := v]))
    case WriteCoils(a, q, data) =>
      Done(Echo(15, a, q), img.(coils := StoreBits(img.coils, a, q, data)))
    case WriteRegisters(a, q, data) =>
      Done(Echo(16, a, q), img.(holding := StoreWordsAsWritten(img.holding, a, data)))
    case MaskWrite(a, andMask, orMask) =>
      Done(Echo(22, a, andMask) + [Hi(orMask), Lo(orMask)],
           img.(holding := img.holding[a := Mask(img.holding[a], andMask, orMask)]))
    case ReadWrite(ra, rq, wa, wq, data) =>
      var holding := StoreWordsAsWritten(img.holding, wa, data);
      Done(ReadWords(23, holding, ra, rq), img.(holding := holding))
  }

  /** The application's buffers: the request PDU and its length, the last response PDU, and the I/O image. */
  datatype App = App(msg: Buffer, len: byte, response: seq<byte>, image: Image)

  /** The main-state change `Modbus_App_Manage_Request` makes in its transport. */
  datatype MainChange = ToProcessing | ToError | Unchanged

  /** The application after handling a request, and the main-state change. */
  datatype Handled = Handled(app: App, change: MainChange)

  /**
   * `Modbus_App_Manage_Request`: an accepted request is executed (main state
   * PROCESSING); a refused unicast request is answered with the exception
   * response (main state ERROR); a refused broadcast request changes nothing.
   */
  function ManageRequest(app: App, broadcast: bool): (h: Handled)
    ensures h.app.msg == app.msg && h.app.len == app.len
    ensures h.change == ToProcessing <==> Check(app.msg, app.len, broadcast, app.image).Accept?
    ensures h.change == ToError <==> !broadcast && Check(app.msg, app.len, broadcast, app.image).Reject?
    ensures h.change == ToError ==>
      h.app.image == app.image
      && h.app.response == ExceptionPdu(app.msg[0], Check(app.msg, app.len, broadcast, app.image).exception)
    ensures h.change == Unchanged ==> h.app == app
    ensures h.change != Unchanged ==> 2 <= |h.app.response| <= MaxResponse
  {
    match Check(app.msg, app.len, broadcast, app.image)
    case Accept(op) =>
      var d := Execute(op, app.image);
      Handled(app.(response := d.response, image := d.image), ToProcessing)
    case Reject(e) =>
      if broadcast then Handled(app, Unchanged)
      else Handled(app.(response := ExceptionPdu(app.msg[0], e)), ToError)
  }

  /**
   * `Modbus_App_Receive_Char` for each byte of a PDU, then
   * `Modbus_App_L_Msg_Set`: the PDU is written at the start of the request
   * buffer and the length recorded; the older bytes after it stay.
   */
  function Receive(app: App, pdu: seq<byte>, len: byte): (r: App)
    requires |pdu| <= BufferSize
    ensures r.msg[..|pdu|] == pdu && r.msg[|pdu|..] == app.msg[|pdu|..]
    ensures r.len == len && r.response == app.response && r.image == app.image
  {
    app.(msg := Splice(app.msg, 0, pdu), len := len)
  }
}
