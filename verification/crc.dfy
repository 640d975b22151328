/**
 * The CRC-16 of the RTU transmission mode (section 6.2.2 of the MODBUS over
 * Serial Line Specification V1.02): the table-driven accumulator of
 * `Modbus_OSL_RTU_Mount_CRC` and `Modbus_OSL_RTU_Check_CRC`, the ADU
 * assembly of `Modbus_OSL_RTU_Mount_ADU`, and the check of a received frame
 * (`Modbus_OSL_RTU_Check_CRC` / `Modbus_OSL_RTU_Control_CRC`).
 *
 * The model also carries the bit-by-bit algorithm the standard defines
 * (preset 0xFFFF, reflected polynomial 0xA001) and proves the table-driven
 * accumulator computes it.
 */
module Crc {
  import opened Bytes

  /** Sixteen consecutive entries of a table. */
  datatype Row = Row(e0: bv8, e1: bv8, e2: bv8, e3: bv8, e4: bv8, e5: bv8, e6: bv8, e7: bv8, e8: bv8, e9: bv8, e10: bv8, e11: bv8, e12: bv8, e13: bv8, e14: bv8, e15: bv8)

  /** Entry `j` (below 16) of a row. */
  function Pick(r: Row, j: bv8): bv8
  {
    if j == 0x0 then r.e0
    else if j == 0x1 then r.e1
    else if j == 0x2 then r.e2
    else if j == 0x3 then r.e3
    else if j == 0x4 then r.e4
    else if j == 0x5 then r.e5
    else if j == 0x6 then r.e6
    else if j == 0x7 then r.e7
    else if j == 0x8 then r.e8
    else if j == 0x9 then r.e9
    else if j == 0xA then r.e10
    else if j == 0xB then r.e11
    else if j == 0xC then r.e12
    else if j == 0xD then r.e13
    else if j == 0xE then r.e14
    else r.e15
  }

  /**
   * Row `n` (below 16) of `auchCRCHi`: entries `16 n` to `16 n + 15`, in the
   * order of the source. Despite its name, its entry is folded into the low
   * byte of the accumulator.
   */
  function HiRow(n: bv8): Row
  {
    if n == 0x0 then Row(0x00, 0xC1, 0x81, 0x40, 0x01, 0xC0, 0x80, 0x41, 0x01, 0xC0, 0x80, 0x41, 0x00, 0xC1, 0x81, 0x40)
    else if n == 0x1 then Row(0x01, 0xC0, 0x80, 0x41, 0x00, 0xC1, 0x81, 0x40, 0x00, 0xC1, 0x81, 0x40, 0x01, 0xC0, 0x80, 0x41)
    else if n == 0x2 then Row(0x01, 0xC0, 0x80, 0x41, 0x00, 0xC1, 0x81, 0x40, 0x00, 0xC1, 0x81, 0x40, 0x01, 0xC0, 0x80, 0x41)
    else if n == 0x3 then Row(0x00, 0xC1, 0x81, 0x40, 0x01, 0xC0, 0x80, 0x41, 0x01, 0xC0, 0x80, 0x41, 0x00, 0xC1, 0x81, 0x40)
    else if n == 0x4 then Row(0x01, 0xC0, 0x80, 0x41, 0x00, 0xC1, 0x81, 0x40, 0x00, 0xC1, 0x81, 0x40, 0x01, 0xC0, 0x80, 0x41)
    else if n == 0x5 then Row(0x00, 0xC1, 0x81, 0x40, 0x01, 0xC0, 0x80, 0x41, 0x01, 0xC0, 0x80, 0x41, 0x00, 0xC1, 0x81, 0x40)
    else if n == 0x6 then Row(0x00, 0xC1, 0x81, 0x40, 0x01, 0xC0, 0x80, 0x41, 0x01, 0xC0, 0x80, 0x41, 0x00, 0xC1, 0x81, 0x40)
    else if n == 0x7 then Row(0x01, 0xC0, 0x80, 0x41, 0x00, 0xC1, 0x81, 0x40, 0x00, 0xC1, 0x81, 0x40, 0x01, 0xC0, 0x80, 0x41)
    else if n == 0x8 then Row(0x01, 0xC0, 0x80, 0x41, 0x00, 0xC1, 0x81, 0x40, 0x00, 0xC1, 0x81, 0x40, 0x01, 0xC0, 0x80, 0x41)
    else if n == 0x9 then Row(0x00, 0xC1, 0x81, 0x40, 0x01, 0xC0, 0x80, 0x41, 0x01, 0xC0, 0x80, 0x41, 0x00, 0xC1, 0x81, 0x40)
    else if n == 0xA then Row(0x00, 0xC1, 0x81, 0x40, 0x01, 0xC0, 0x80, 0x41, 0x01, 0xC0, 0x80, 0x41, 0x00, 0xC1, 0x81, 0x40)
    else if n == 0xB then Row(0x01, 0xC0, 0x80, 0x41, 0x00, 0xC1, 0x81, 0x40, 0x00, 0xC1, 0x81, 0x40, 0x01, 0xC0, 0x80, 0x41)
    else if n == 0xC then Row(0x00, 0xC1, 0x81, 0x40, 0x01, 0xC0, 0x80, 0x41, 0x01, 0xC0, 0x80, 0x41, 0x00, 0xC1, 0x81, 0x40)
    else if n == 0xD then Row(0x01, 0xC0, 0x80, 0x41, 0x00, 0xC1, 0x81, 0x40, 0x00, 0xC1, 0x81, 0x40, 0x01, 0xC0, 0x80, 0x41)
    else if n == 0xE then Row(0x01, 0xC0, 0x80, 0x41, 0x00, 0xC1, 0x81, 0x40, 0x00, 0xC1, 0x81, 0x40, 0x01, 0xC0, 0x80, 0x41)
    else Row(0x00, 0xC1, 0x81, 0x40, 0x01, 0xC0, 0x80, 0x41, 0x01, 0xC0, 0x80, 0x41, 0x00, 0xC1, 0x81, 0x40)
  }

  /** Row `n` (below 16) of `auchCRCLo`; its entry becomes the high byte of the accumulator. */
  function LoRow(n: bv8): Row
  {
    if n == 0x0 then Row(0x00, 0xC0, 0xC1, 0x01, 0xC3, 0x03, 0x02, 0xC2, 0xC6, 0x06, 0x07, 0xC7, 0x05, 0xC5, 0xC4, 0x04)
    else if n == 0x1 then Row(0xCC, 0x0C, 0x0D, 0xCD, 0x0F, 0xCF, 0xCE, 0x0E, 0x0A, 0xCA, 0xCB, 0x0B, 0xC9, 0x09, 0x08, 0xC8)
    else if n == 0x2 then Row(0xD8, 0x18, 0x19, 0xD9, 0x1B, 0xDB, 0xDA, 0x1A, 0x1E, 0xDE, 0xDF, 0x1F, 0xDD, 0x1D, 0x1C, 0xDC)
    else if n == 0x3 then Row(0x14, 0xD4, 0xD5, 0x15, 0xD7, 0x17, 0x16, 0xD6, 0xD2, 0x12, 0x13, 0xD3, 0x11, 0xD1, 0xD0, 0x10)
    else if n == 0x4 then Row(0xF0, 0x30, 0x31, 0xF1, 0x33, 0xF3, 0xF2, 0x32, 0x36, 0xF6, 0xF7, 0x37, 0xF5, 0x35, 0x34, 0xF4)
    else if n == 0x5 then Row(0x3C, 0xFC, 0xFD, 0x3D, 0xFF, 0x3F, 0x3E, 0xFE, 0xFA, 0x3A, 0x3B, 0xFB, 0x39, 0xF9, 0xF8, 0x38)
    else if n == 0x6 then Row(0x28, 0xE8, 0xE9, 0x29, 0xEB, 0x2B, 0x2A, 0xEA, 0xEE, 0x2E, 0x2F, 0xEF, 0x2D, 0xED, 0xEC, 0x2C)
    else if n == 0x7 then Row(0xE4, 0x24, 0x25, 0xE5, 0x27, 0xE7, 0xE6, 0x26, 0x22, 0xE2, 0xE3, 0x23, 0xE1, 0x21, 0x20, 0xE0)
    else if n == 0x8 then Row(0xA0, 0x60, 0x61, 0xA1, 0x63, 0xA3, 0xA2, 0x62, 0x66, 0xA6, 0xA7, 0x67, 0xA5, 0x65, 0x64, 0xA4)
    else if n == 0x9 then Row(0x6C, 0xAC, 0xAD, 0x6D, 0xAF, 0x6F, 0x6E, 0xAE, 0xAA, 0x6A, 0x6B, 0xAB, 0x69, 0xA9, 0xA8, 0x68)
    else if n == 0xA then Row(0x78, 0xB8, 0xB9, 0x79, 0xBB, 0x7B, 0x7A, 0xBA, 0xBE, 0x7E, 0x7F, 0xBF, 0x7D, 0xBD, 0xBC, 0x7C)
    else if n == 0xB then Row(0xB4, 0x74, 0x75, 0xB5, 0x77, 0xB7, 0xB6, 0x76, 0x72, 0xB2, 0xB3, 0x73, 0xB1, 0x71, 0x70, 0xB0)
    else if n == 0xC then Row(0x50, 0x90, 0x91, 0x51, 0x93, 0x53, 0x52, 0x92, 0x96, 0x56, 0x57, 0x97, 0x55, 0x95, 0x94, 0x54)
    else if n == 0xD then Row(0x9C, 0x5C, 0x5D, 0x9D, 0x5F, 0x9F, 0x9E, 0x5E, 0x5A, 0x9A, 0x9B, 0x5B, 0x99, 0x59, 0x58, 0x98)
    else if n == 0xE then Row(0x88, 0x48, 0x49, 0x89, 0x4B, 0x8B, 0x8A, 0x4A, 0x4E, 0x8E, 0x8F, 0x4F, 0x8D, 0x4D, 0x4C, 0x8C)
    else Row(0x44, 0x84, 0x85, 0x45, 0x87, 0x47, 0x46, 0x86, 0x82, 0x42, 0x43, 0x83, 0x41, 0x81, 0x80, 0x40)
  }

  /** `auchCRCHi[i]`. */
  function TableHi(i: bv8): bv8 { Pick(HiRow(i >> 4), i & 0xF) }

  /** `auchCRCLo[i]`. */
  function TableLo(i: bv8): bv8 { Pick(LoRow(i >> 4), i & 0xF) }

  /** The accumulator pair `uchCRCHi`, `uchCRCLo`. */
  datatype Acc = Acc(hi: bv8, lo: bv8)

  /** Both accumulator bytes start at 0xFF. */
  const Preset := Acc(0xFF, 0xFF)

  /** The table step at index `idx`: the high byte becomes `auchCRCLo[idx]`, the low byte the old high byte XOR `auchCRCHi[idx]`. */
  function Advance(a: Acc, idx: bv8): Acc { Acc(TableLo(idx), a.hi ^ TableHi(idx)) }

  /** One iteration of the table loop over the byte whose bits are `v`: the index is the low byte XOR `v`. */
  function StepBits(a: Acc, v: bv8): Acc { Advance(a, a.lo ^ v) }

  /** One iteration of the table loop over byte `b`. */
  function Step(a: Acc, b: byte): Acc { StepBits(a, b as bv8) }

  /** The table loop over `bytes`, first byte first, from accumulator `a`. */
  function Fold(a: Acc, bytes: seq<byte>): Acc
    decreases |bytes|
  {
    if bytes == [] then a else Fold(Step(a, bytes[0]), bytes[1..])
  }

  /** The accumulator after the table loop has run over `bytes` from the preset. */
  function CrcOf(bytes: seq<byte>): Acc { Fold(Preset, bytes) }

  /** The accumulator as the 16-bit CRC register of the standard (low byte sent first). */
  function Register(a: Acc): bv16 { ((a.hi as bv16) << 8) | (a.lo as bv16) }

  /** The generator polynomial 0x8005, bit-reversed, as the standard's shift-right algorithm uses it. */
  const Poly: bv16 := 0xA001

  /**
   * One single-bit round of the standard: shift right, and XOR the
   * polynomial in when the bit shifted out was 1 (`c & 1` is 0 or 1, so the
   * product is the polynomial or zero).
   */
  function Round(c: bv16): bv16 { (c >> 1) ^ (Poly * (c & 1)) }

  /** Four rounds. */
  function HalfRounds(c: bv16): bv16 { Round(Round(Round(Round(c)))) }

  /** The eight rounds of one byte. */
  function ByteRounds(c: bv16): bv16 { HalfRounds(HalfRounds(c)) }

  /** One byte of the standard's bitwise algorithm: XOR it into the low byte, then eight rounds. */
  function StandardStepBits(c: bv16, v: bv8): bv16 { ByteRounds(c ^ (v as bv16)) }

  function StandardStep(c: bv16, b: byte): bv16 { StandardStepBits(c, b as bv8) }

  function StandardFold(c: bv16, bytes: seq<byte>): bv16
    decreases |bytes|
  {
    if bytes == [] then c else StandardFold(StandardStep(c, bytes[0]), bytes[1..])
  }

  /** The CRC of the standard: register preset to 0xFFFF, bytes in transmission order. */
  function StandardCrc(bytes: seq<byte>): bv16 { StandardFold(0xFFFF, bytes) }

  /** Table entry `i` is the eight-round image of `i`. */
  predicate TableEntry(i: bv8)
  {
    ByteRounds(i as bv16) == Register(Acc(TableLo(i), TableHi(i)))
  }

  lemma TableRow0()
    ensures forall i: bv8 | i < 0x10 :: TableEntry(i)
  {
  }

  lemma TableRow1()
    ensures forall i: bv8 | 0x10 <= i < 0x20 :: TableEntry(i)
  {
  }

  lemma TableRow2()
    ensures forall i: bv8 | 0x20 <= i < 0x30 :: TableEntry(i)
  {
  }

  lemma TableRow3()
    ensures forall i: bv8 | 0x30 <= i < 0x40 :: TableEntry(i)
  {
  }

  lemma TableRow4()
    ensures forall i: bv8 | 0x40 <= i < 0x50 :: TableEntry(i)
  {
  }

  lemma TableRow5()
    ensures forall i: bv8 | 0x50 <= i < 0x60 :: TableEntry(i)
  {
  }

  lemma TableRow6()
    ensures forall i: bv8 | 0x60 <= i < 0x70 :: TableEntry(i)
  {
  }

  lemma TableRow7()
    ensures forall i: bv8 | 0x70 <= i < 0x80 :: TableEntry(i)
  {
  }

  lemma TableRow8()
    ensures forall i: bv8 | 0x80 <= i < 0x90 :: TableEntry(i)
  {
  }

  lemma TableRow9()
    ensures forall i: bv8 | 0x90 <= i < 0xA0 :: TableEntry(i)
  {
  }

  lemma TableRow10()
    ensures forall i: bv8 | 0xA0 <= i < 0xB0 :: TableEntry(i)
  {
  }

  lemma TableRow11()
    ensures forall i: bv8 | 0xB0 <= i < 0xC0 :: TableEntry(i)
  {
  }

  lemma TableRow12()
    ensures forall i: bv8 | 0xC0 <= i < 0xD0 :: TableEntry(i)
  {
  }

  lemma TableRow13()
    ensures forall i: bv8 | 0xD0 <= i < 0xE0 :: TableEntry(i)
  {
  }

  lemma TableRow14()
    ensures forall i: bv8 | 0xE0 <= i < 0xF0 :: TableEntry(i)
  {
  }

  lemma TableRow15()
    ensures forall i: bv8 | 0xF0 <= i :: TableEntry(i)
  {
  }

  /** Every entry of the two tables is what the standard's bitwise rounds compute. */
  lemma TablesAreStandard()
    ensures forall i: bv8 :: TableEntry(i)
  {
    TableRow0();
    TableRow1();
    TableRow2();
    TableRow3();
    TableRow4();
    TableRow5();
    TableRow6();
    TableRow7();
    TableRow8();
    TableRow9();
    TableRow10();
    TableRow11();
    TableRow12();
    TableRow13();
    TableRow14();
    TableRow15();
  }

  /** One entry of the tables, as the standard's rounds compute it. */
  lemma TableEntryAt(i: bv8)
    ensures ByteRounds(i as bv16) == Register(Acc(TableLo(i), TableHi(i)))
  {
    TablesAreStandard();
    assert TableEntry(i);
  }

  /** Byte `h` placed in the high half of a register. */
  function High(h: bv8): bv16 { (h as bv16) << 8 }

  /**
   * Eight rounds over a register whose low byte is clear only move its high
   * byte down: those bits never reach the bit that is shifted out, so they
   * never feed the polynomial back.
   */
  lemma ByteSplit(h: bv16, l: bv16)
    requires h & 0xFF == 0
    ensures ByteRounds(h ^ l) == (h >> 8) ^ ByteRounds(l)
  {
  }

  /** `ByteSplit` with the rounds over the low part, and the XOR after them, already known. */
  lemma RoundsOverHigh(h: bv16, l: bv16, t: bv16, u: bv16)
    requires h & 0xFF == 0 && ByteRounds(l) == t && (h >> 8) ^ t == u
    ensures ByteRounds(h ^ l) == u
  {
    ByteSplit(h, l);
  }

  /** XOR-ing a byte into the register touches only its low byte. */
  lemma XorByte(a: Acc, v: bv8)
    ensures Register(a) ^ (v as bv16) == High(a.hi) ^ ((a.lo ^ v) as bv16)
  {
  }

  /** A byte in the high half leaves the low byte clear and comes back down after a shift by eight. */
  lemma HighByte(h: bv8)
    ensures High(h) & 0xFF == 0 && High(h) >> 8 == h as bv16
  {
  }

  /** XOR-ing a byte into a register whose low byte is `thi`. */
  lemma XorIntoLow(h: bv8, tlo: bv8, thi: bv8)
    ensures (h as bv16) ^ Register(Acc(tlo, thi)) == Register(Acc(tlo, h ^ thi))
  {
  }

  /** `RoundsOverHigh` for a byte placed in the high half. */
  lemma HighByteRounds(h: bv8, l: bv16, t: bv16, u: bv16)
    requires ByteRounds(l) == t && (h as bv16) ^ t == u
    ensures ByteRounds(High(h) ^ l) == u
  {
    HighByte(h);
    RoundsOverHigh(High(h), l, t, u);
  }

  /** The rounds over the register with a byte XOR-ed in are the rounds over its high byte above the index byte. */
  lemma RoundsAfterXor(a: Acc, v: bv8, u: bv16)
    requires ByteRounds(High(a.hi) ^ ((a.lo ^ v) as bv16)) == u
    ensures ByteRounds(Register(a) ^ (v as bv16)) == u
  {
    XorByte(a, v);
  }

  /** The rounds of one byte of the bitwise algorithm, given the rounds over the index byte. */
  lemma RoundsOfStep(a: Acc, v: bv8, t: bv16, u: bv16)
    requires ByteRounds((a.lo ^ v) as bv16) == t && (a.hi as bv16) ^ t == u
    ensures ByteRounds(Register(a) ^ (v as bv16)) == u
  {
    HighByteRounds(a.hi, (a.lo ^ v) as bv16, t, u);
    RoundsAfterXor(a, v, u);
  }

  /** A table step whose entries at the index byte agree with the eight rounds, as an equation over registers. */
  lemma StepRounds(a: Acc, v: bv8, tlo: bv8, thi: bv8)
    requires ByteRounds((a.lo ^ v) as bv16) == Register(Acc(tlo, thi))
    ensures ByteRounds(Register(a) ^ (v as bv16)) == Register(Acc(tlo, a.hi ^ thi))
  {
    XorIntoLow(a.hi, tlo, thi);
    RoundsOfStep(a, v, Register(Acc(tlo, thi)), Register(Acc(tlo, a.hi ^ thi)));
  }

  /** One table step is one byte of the bitwise algorithm when the table entries it reads are right. */
  lemma StepIsStandard(a: Acc, v: bv8, tlo: bv8, thi: bv8)
    requires tlo == TableLo(a.lo ^ v) && thi == TableHi(a.lo ^ v)
    requires ByteRounds((a.lo ^ v) as bv16) == Register(Acc(tlo, thi))
    ensures Register(StepBits(a, v)) == StandardStepBits(Register(a), v)
  {
    StepRounds(a, v, tlo, thi);
    StepEntries(a, v, tlo, thi);
  }

  /** A step reads the two table entries at its index byte. */
  lemma StepEntries(a: Acc, v: bv8, tlo: bv8, thi: bv8)
    requires tlo == TableLo(a.lo ^ v) && thi == TableHi(a.lo ^ v)
    ensures StepBits(a, v) == Acc(tlo, a.hi ^ thi)
  {
    EntriesAt(a, a.lo ^ v, tlo, thi);
  }

  /** The step at index `i`, with the two entries read there named. */
  lemma EntriesAt(a: Acc, i: bv8, tlo: bv8, thi: bv8)
    requires tlo == TableLo(i) && thi == TableHi(i)
    ensures Advance(a, i) == Acc(tlo, a.hi ^ thi)
  {
  }

  /** The table loop computes the bitwise algorithm from any starting register. */
  lemma {:induction false} FoldIsStandard(a: Acc, bytes: seq<byte>)
    ensures Register(Fold(a, bytes)) == StandardFold(Register(a), bytes)
    decreases |bytes|
  {
    if bytes != [] {
      var v := bytes[0] as bv8;
      var tlo, thi := TableLo(a.lo ^ v), TableHi(a.lo ^ v);
      TableEntryAt(a.lo ^ v);
      StepIsStandard(a, v, tlo, thi);
      FoldIsStandard(Step(a, bytes[0]), bytes[1..]);
    }
  }

  /** `Mount_CRC` and `Check_CRC` share the accumulator, and it is the standard CRC. */
  lemma CrcIsStandard(bytes: seq<byte>)
    ensures Register(CrcOf(bytes)) == StandardCrc(bytes)
  {
    FoldIsStandard(Preset, bytes);
  }

  /** The two CRC bytes as `Mount_CRC` stores them: `uchCRCLo` first, then `uchCRCHi`. */
  function CrcBytes(bytes: seq<byte>): (r: seq<byte>)
    ensures |r| == 2
  {
    var a := CrcOf(bytes);
    [a.lo as int, a.hi as int]
  }

  /** The bytes sent are the standard CRC register, low byte first. */
  lemma CrcBytesStandard(bytes: seq<byte>)
    ensures CrcBytes(bytes) == [(StandardCrc(bytes) & 0xFF) as int, (StandardCrc(bytes) >> 8) as int]
  {
    var a := CrcOf(bytes);
    CrcIsStandard(bytes);
    RegisterHalves(a, StandardCrc(bytes));
  }

  /** The low and high bytes of the register are the accumulator's two bytes. */
  lemma RegisterHalves(a: Acc, c: bv16)
    requires Register(a) == c
    ensures (c & 0xFF) as int == a.lo as int
    ensures (c >> 8) as int == a.hi as int
  {
    assert c & 0xFF == a.lo as bv16;
    assert c >> 8 == a.hi as bv16;
  }

  /**
   * `Modbus_OSL_RTU_Mount_ADU`: the slave address, the PDU, then the CRC of
   * both. The CRC covers `L_pdu + 1` bytes counted in an `unsigned char`: for
   * a 255-byte PDU that count wraps to 0, and the CRC of no bytes is written
   * over the address and the first PDU byte.
   */
  function MountAdu(slave: byte, pdu: seq<byte>): (adu: seq<byte>)
    requires |pdu| <= 255
    ensures |pdu| < 255 ==> |adu| == |pdu| + 3 && adu[..|pdu| + 1] == [slave] + pdu
    ensures |pdu| == 255 ==> |adu| == BufferSize && adu[..2] == [0xFF, 0xFF] && adu[2..] == pdu[1..]
  {
    var body := [slave] + pdu;
    if Trunc8(|body|) == |body| then body + CrcBytes(body)
    else CrcBytes([]) + body[2..]
  }

  /**
   * `Modbus_OSL_RTU_Check_CRC` through `Modbus_OSL_RTU_Control_CRC`: the last
   * two of the `len` bytes of `msg` are the CRC of the bytes before them.
   * A length below 2 makes the source read before the start of the buffer;
   * the model rejects such a frame. A frame passes exactly when it ends in
   * the bytes the sender appends: the standard CRC of the rest, low byte
   * first.
   */
  predicate CheckCrc(msg: seq<byte>, len: nat)
    requires len <= |msg|
    ensures CheckCrc(msg, len) <==> 2 <= len && msg[len - 2 .. len] == CrcBytes(msg[..len - 2])
  {
    if len < 2 then false
    else
      assert msg[len - 2 .. len] == [msg[len - 2], msg[len - 1]];
      && msg[len - 1] == CrcOf(msg[..len - 2]).hi as int
      && msg[len - 2] == CrcOf(msg[..len - 2]).lo as int
  }

  /** Round trip: every ADU built for a PDU shorter than 255 bytes passes the check, over any trailing buffer bytes. */
  lemma MountedAduChecks(slave: byte, pdu: seq<byte>, rest: seq<byte>)
    requires |pdu| < 255
    ensures CheckCrc(MountAdu(slave, pdu) + rest, |pdu| + 3)
    ensures (MountAdu(slave, pdu) + rest)[..|pdu| + 1] == [slave] + pdu
  {
    var body := [slave] + pdu;
    var msg := MountAdu(slave, pdu) + rest;
    assert msg[..|pdu| + 1] == body;
    assert msg[|pdu| + 1 .. |pdu| + 3] == CrcBytes(body);
  }

  /** The CRC of no bytes is the preset, so a two-byte frame passes only as 0xFF, 0xFF. */
  lemma EmptyCrc(msg: seq<byte>)
    requires 2 <= |msg|
    ensures CheckCrc(msg, 2) <==> msg[0] == 0xFF && msg[1] == 0xFF
  {
    assert msg[..0] == [];
  }
}
