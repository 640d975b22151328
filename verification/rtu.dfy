/**
 * The RTU receive state machine of `Modbus_OSL_RTU.c` (section 2.5.1.1 of
 * the MODBUS over Serial Line Specification V1.02): the states INITIAL,
 * IDLE, RECEPTION, CONTROL AND WAITING and EMISSION, driven by three events
 * (a character arrives, 1.5 character times of silence, 3.5 character times
 * of silence), and two 256-byte buffers that alternate between receiving a
 * frame and holding the last complete one.
 *
 * The machine shares the main state, the frame flag and the completion flag
 * with the serial controller (`Modbus_OSL.c`), so the `Line` below holds them
 * too. `Modbus_Fatal_Error` never returns; the model makes it the absorbing
 * `Halted` machine.
 */
module Rtu {
  import opened Bytes
  import opened Crc

  /** `Modbus_OSL_States`, RTU half. */
  datatype RtuState = RtuInitial | RtuIdle | Reception | ControlAndWaiting | Emission

  /** `Modbus_OSL_MainStates`. */
  datatype MainState = MainInitial | MainIdle | Checking | Processing | Reply | MainError

  /** `Modbus_OSL_Frames`: whether an error (parity, overlong frame, late character, CRC) was seen. */
  datatype Frame = FrameOk | FrameNok

  /** The two frame buffers, `Modbus_OSL_RTU_Msg1` and `Modbus_OSL_RTU_Msg2`. */
  datatype Slot = Msg1 | Msg2

  /**
   * The state the RTU code works on: its own state, the controller's main
   * state, frame flag and completion flag (`Modbus_OSL_Processing_Flag`),
   * both buffers, which one receives (`Modbus_OSL_RTU_Msg`), which one holds
   * the last complete frame (`Modbus_OSL_RTU_Msg_Complete`, null until the
   * first frame), the complete frame's length and the receive index.
   */
  datatype Line = Line(
    rtu: RtuState,
    main: MainState,
    frame: Frame,
    complete: bool,
    msg1: Buffer,
    msg2: Buffer,
    receiving: Slot,
    published: Option<Slot>,
    lMsg: byte,
    index: u16)

  /** A running line, or one stopped in `Modbus_Fatal_Error`. */
  datatype Machine = Halted | Running(line: Line)

  /** The buffer that is not `s`. */
  function Other(s: Slot): Slot
  {
    if s == Msg1 then Msg2 else Msg1
  }

  /** The contents of buffer `s`. */
  function BufferOf(l: Line, s: Slot): Buffer
  {
    if s == Msg1 then l.msg1 else l.msg2
  }

  /** `Modbus_OSL_RTU_Msg`: the buffer being received into. */
  function Receiving(l: Line): Buffer { BufferOf(l, l.receiving) }

  /** `Modbus_OSL_RTU_Msg_Complete`: the buffer holding the last complete frame. */
  function Completed(l: Line): Buffer
    requires l.published.Some?
  {
    BufferOf(l, l.published.value)
  }

  /**
   * `Modbus_OSL_RTU_Msg[Modbus_OSL_RTU_Index] = c`. A character past the
   * 256th is stored outside the buffer in the source; the model drops it
   * (the frame is already marked NOK by then).
   */
  function Store(l: Line, c: byte): (r: Line)
    ensures r.receiving == l.receiving && r.published == l.published
    ensures l.index < BufferSize ==> Receiving(r) == Receiving(l)[l.index := c]
    ensures BufferOf(r, Other(l.receiving)) == BufferOf(l, Other(l.receiving))
  {
    if l.index >= BufferSize then l
    else if l.receiving == Msg1 then l.(msg1 := l.msg1[l.index := c])
    else l.(msg2 := l.msg2[l.index := c])
  }

  /** `Modbus_OSL_RTU_Init`: length and index 0, receive into `Msg1`, state INITIAL; timers are armed outside the model. */
  function Init(l: Line): (r: Line)
    ensures r.rtu == RtuInitial && r.index == 0 && r.lMsg == 0 && r.receiving == Msg1
    ensures r.main == l.main && r.frame == l.frame && r.complete == l.complete && r.published == l.published
  {
    l.(rtu := RtuInitial, lMsg := 0, index := 0, receiving := Msg1)
  }

  /** `Modbus_OSL_RTU_15T`: legal only in RECEPTION, which it ends. */
  function OnT15(m: Machine): (r: Machine)
    ensures r.Running? <==> m.Running? && m.line.rtu == Reception
    ensures r.Running? ==> r.line == m.line.(rtu := ControlAndWaiting)
  {
    match m
    case Halted => Halted
    case Running(l) => if l.rtu == Reception then Running(l.(rtu := ControlAndWaiting)) else Halted
  }

  /**
   * Publication at the end of a good frame: the receiving buffer becomes the
   * complete one, the other one receives next, the length is the index kept
   * in the `unsigned char` `Modbus_OSL_RTU_L_Msg` (so modulo 256) and the
   * completion flag is raised (`Modbus_OSL_Reception_Complete`).
   */
  function Publish(l: Line): Line
  {
    l.(receiving := Other(l.receiving), published := Some(l.receiving), lMsg := Trunc8(l.index), complete := true)
  }

  /**
   * `Modbus_OSL_RTU_35T`: INITIAL and EMISSION go to IDLE (INITIAL also sets
   * the main state IDLE); CONTROL AND WAITING publishes the frame if it is
   * OK and the main state is not ERROR, then always resets the frame flag,
   * the index and the state; in IDLE or RECEPTION it is a fatal error.
   */
  function OnT35(m: Machine): (r: Machine)
    ensures r.Running? <==> m.Running? && m.line.rtu in {RtuInitial, ControlAndWaiting, Emission}
    ensures r.Running? ==> r.line.rtu == RtuIdle
    ensures r.Running? && m.line.rtu == ControlAndWaiting ==> r.line.frame == FrameOk && r.line.index == 0
  {
    match m
    case Halted => Halted
    case Running(l) =>
      match l.rtu
      case RtuInitial => Running(l.(rtu := RtuIdle, main := MainIdle))
      case ControlAndWaiting =>
        var p := if l.frame == FrameOk && l.main != MainError then Publish(l) else l;
        Running(p.(frame := FrameOk, index := 0, rtu := RtuIdle))
      case Emission => Running(l.(rtu := RtuIdle))
      case _ => Halted
  }

  /**
   * `Modbus_OSL_RTU_UART`: a character is dropped in INITIAL and EMISSION;
   * in IDLE it starts a frame; in RECEPTION it is appended, and marks the
   * frame NOK if 256 characters were already received; in CONTROL AND
   * WAITING it arrived too late and marks the frame NOK.
   */
  function OnChar(m: Machine, c: byte): (r: Machine)
    ensures r.Running? <==> m.Running?
    ensures r.Running? && m.line.rtu in {RtuInitial, Emission} ==> r == m
    ensures r.Running? && m.line.rtu == ControlAndWaiting ==> r.line == m.line.(frame := FrameNok)
  {
    match m
    case Halted => Halted
    case Running(l) =>
      match l.rtu
      case RtuInitial => m
      case RtuIdle => Running(Store(l, c).(index := Trunc16(l.index + 1), rtu := Reception))
      case Reception =>
        var f := if l.index > 255 then FrameNok else l.frame;
        Running(Store(l, c).(frame := f, index := Trunc16(l.index + 1)))
      case ControlAndWaiting => Running(l.(frame := FrameNok))
      case Emission => m
  }

  /** `Modbus_OSL_Output` in RTU mode: the line enters EMISSION while the reply is sent. */
  function StartEmission(l: Line): (r: Line)
    ensures r.rtu == Emission
  {
    l.(rtu := Emission)
  }

  /** `Modbus_OSL_RTU_Char_Get`: byte `i` of the complete frame. */
  function CharGet(l: Line, i: byte): byte
    requires l.published.Some?
  {
    Completed(l)[i]
  }

  /** `Modbus_OSL_RTU_L_Msg_Get`: the complete frame's length without its CRC, as an `unsigned char`. */
  function LMsgGet(l: Line): (n: byte)
    ensures 2 <= l.lMsg ==> n == l.lMsg - 2
    ensures l.lMsg < 2 ==> n == l.lMsg + 254
  {
    Trunc8(l.lMsg - 2)
  }

  /** The result of `Modbus_OSL_RTU_Control_CRC`: the line with its frame flag set, and the return value. */
  datatype Checked = Checked(line: Line, ok: bool)

  /**
   * `Modbus_OSL_RTU_Control_CRC`: run the CRC over all but the last two
   * bytes of the complete frame, compare with those two, and set the frame
   * flag. A length below two makes the source compare bytes before the
   * start of the buffer; the model fails such a frame.
   */
  function ControlCrc(l: Line): (r: Checked)
    requires l.published.Some?
    ensures r.ok <==> 2 <= l.lMsg && Completed(l)[l.lMsg - 2 .. l.lMsg] == CrcBytes(Completed(l)[..l.lMsg - 2])
    ensures r.line == l.(frame := if r.ok then FrameOk else FrameNok)
  {
    var ok := CheckCrc(Completed(l), l.lMsg);
    Checked(l.(frame := if ok then FrameOk else FrameNok), ok)
  }

  /** The characters `cs` arriving one after another. */
  function Feed(m: Machine, cs: seq<byte>): Machine
    decreases |cs|
  {
    if cs == [] then m else OnChar(Feed(m, cs[..|cs| - 1]), cs[|cs| - 1])
  }

  /** States in which no frame is being received start the next frame at position 0. */
  predicate IndexReset(l: Line)
  {
    l.rtu in {RtuInitial, RtuIdle, Emission} ==> l.index == 0
  }

  /** The three line events keep `IndexReset`. */
  lemma EventsKeepIndexReset(m: Machine, c: byte)
    requires m.Running? && IndexReset(m.line)
    ensures OnChar(m, c).Running? && IndexReset(OnChar(m, c).line)
    ensures OnT15(m).Running? ==> IndexReset(OnT15(m).line)
    ensures OnT35(m).Running? ==> IndexReset(OnT35(m).line)
  {
  }

  /**
   * Receiving `cs` from IDLE: the index counts the characters, the first 256
   * leave the frame flag as it was and a 257th marks the frame NOK. Nothing
   * outside the receiving buffer changes.
   */
  lemma {:induction false} FeedFrame(l: Line, cs: seq<byte>)
    requires l.rtu == RtuIdle && l.index == 0
    requires 1 <= |cs| < 0x1_0000
    ensures Feed(Running(l), cs).Running?
    ensures var r := Feed(Running(l), cs).line;
      && r.rtu == Reception && r.index == |cs|
      && r.main == l.main && r.complete == l.complete && r.lMsg == l.lMsg
      && r.receiving == l.receiving && r.published == l.published
      && BufferOf(r, Other(l.receiving)) == BufferOf(l, Other(l.receiving))
      && r.frame == if |cs| <= BufferSize then l.frame else FrameNok
    decreases |cs|
  {
    var n := |cs| - 1;
    if n > 0 {
      FeedFrame(l, cs[..n]);
    }
  }

  /** The first 256 characters received from IDLE land at the start of the receiving buffer. */
  lemma {:induction false} FeedContents(l: Line, cs: seq<byte>)
    requires l.rtu == RtuIdle && l.index == 0
    requires 1 <= |cs| <= BufferSize
    ensures Feed(Running(l), cs).Running?
    ensures Receiving(Feed(Running(l), cs).line)[..|cs|] == cs
    decreases |cs|
  {
    FeedFrame(l, cs);
    var n := |cs| - 1;
    if n == 0 {
      assert Receiving(Feed(Running(l), cs).line)[..1] == [cs[0]];
    } else {
      var prefix := cs[..n];
      FeedContents(l, prefix);
      FeedFrame(l, prefix);
      var p := Feed(Running(l), prefix).line;
      var r := Feed(Running(l), cs).line;
      assert Receiving(r) == Receiving(p)[n := cs[n]];
      assert Receiving(r)[..|cs|] == prefix + [cs[n]];
      assert prefix + [cs[n]] == cs;
    }
  }

  /** `Feed`, then 1.5T and 3.5T of silence. */
  function ReceiveFrame(l: Line, cs: seq<byte>): Machine
  {
    OnT35(OnT15(Feed(Running(l), cs)))
  }

  /**
   * A frame of 1 to 256 characters received from IDLE is published exactly
   * when no error was flagged and the main state is not ERROR: the complete
   * buffer then starts with the characters, its length is their number
   * modulo 256 (0 for a frame that fills the buffer), and the other buffer
   * receives next. Either way the line is back in IDLE with
   * the frame flag OK and the index 0.
   */
  lemma FrameArrives(l: Line, cs: seq<byte>)
    requires l.rtu == RtuIdle && l.index == 0
    requires 1 <= |cs| <= BufferSize
    ensures ReceiveFrame(l, cs).Running?
    ensures var r := ReceiveFrame(l, cs).line;
      && r.rtu == RtuIdle && r.frame == FrameOk && r.index == 0 && r.main == l.main
      && (l.frame == FrameOk && l.main != MainError ==>
            r.published == Some(l.receiving) && r.receiving == Other(l.receiving)
            && r.complete && r.lMsg == |cs| % 0x100 && Completed(r)[..|cs|] == cs)
      && (!(l.frame == FrameOk && l.main != MainError) ==>
            r.published == l.published && r.receiving == l.receiving
            && r.complete == l.complete && r.lMsg == l.lMsg)
  {
    FeedFrame(l, cs);
    FeedContents(l, cs);
    var f := Feed(Running(l), cs).line;
    var r := ReceiveFrame(l, cs).line;
    if l.frame == FrameOk && l.main != MainError {
      assert r.msg1 == f.msg1 && r.msg2 == f.msg2;
      assert Completed(r) == Receiving(f);
    }
  }

  /** A frame of more than 256 characters is never published, whatever the flags were. */
  lemma OverlongFrameDropped(l: Line, cs: seq<byte>)
    requires l.rtu == RtuIdle && l.index == 0
    requires BufferSize < |cs| < 0x1_0000
    ensures ReceiveFrame(l, cs).Running?
    ensures var r := ReceiveFrame(l, cs).line;
      r.published == l.published && r.complete == l.complete && r.lMsg == l.lMsg
      && r.rtu == RtuIdle && r.frame == FrameOk && r.index == 0
  {
    FeedFrame(l, cs);
  }

  /**
   * Round trip over the line: the ADU built for a PDU of at most 252 bytes
   * (at most 255 characters), received by a line in IDLE with no error
   * pending, is published, passes the CRC control, and yields the address
   * at position 0, the PDU after it, and the PDU length plus one from
   * `L_Msg_Get`.
   */
  lemma AduArrives(l: Line, slave: byte, pdu: seq<byte>)
    requires l.rtu == RtuIdle && l.index == 0 && l.frame == FrameOk && l.main != MainError
    requires |pdu| <= BufferSize - 4
    ensures ReceiveFrame(l, MountAdu(slave, pdu)).Running?
    ensures var r := ReceiveFrame(l, MountAdu(slave, pdu)).line;
      && r.published.Some? && r.complete
      && ControlCrc(r).ok
      && CharGet(r, 0) == slave
      && Completed(r)[1 .. |pdu| + 1] == pdu
      && LMsgGet(r) == |pdu| + 1
  {
    var adu := MountAdu(slave, pdu);
    AduPublished(l, slave, pdu);
    var r := ReceiveFrame(l, adu).line;
    var buf := Completed(r);
    PrefixSplit(buf, adu);
    MountedAduChecks(slave, pdu, buf[|adu|..]);
    assert buf[..|pdu| + 1] == [slave] + pdu;
    assert buf[1 .. |pdu| + 1] == ([slave] + pdu)[1..];
  }

  /** The ADU of a PDU of at most 252 bytes is published whole, with its full length. */
  lemma AduPublished(l: Line, slave: byte, pdu: seq<byte>)
    requires l.rtu == RtuIdle && l.index == 0 && l.frame == FrameOk && l.main != MainError
    requires |pdu| <= BufferSize - 4
    ensures ReceiveFrame(l, MountAdu(slave, pdu)).Running?
    ensures var r := ReceiveFrame(l, MountAdu(slave, pdu)).line;
      && r.published.Some? && r.complete && r.lMsg == |pdu| + 3
      && Completed(r)[..|pdu| + 3] == MountAdu(slave, pdu)
  {
    var adu := MountAdu(slave, pdu);
    assert |adu| == |pdu| + 3 < 0x100;
    FrameArrives(l, adu);
  }

  /** A sequence that starts with `p` is `p` followed by the rest. */
  lemma PrefixSplit<T>(s: seq<T>, p: seq<T>)
    requires |p| <= |s| && s[..|p|] == p
    ensures s == p + s[|p|..]
  {
    assert s == s[..|p|] + s[|p|..];
  }

  /**
   * As written, the longest legal frame is lost: the ADU of a 253-byte PDU
   * is 256 characters, it is published whole but with length 0, and the
   * CRC control fails it.
   */
  lemma MaximalFrameAsWritten(l: Line, slave: byte, pdu: seq<byte>)
    requires l.rtu == RtuIdle && l.index == 0 && l.frame == FrameOk && l.main != MainError
    requires |pdu| == BufferSize - 3
    ensures |MountAdu(slave, pdu)| == BufferSize
    ensures ReceiveFrame(l, MountAdu(slave, pdu)).Running?
    ensures var r := ReceiveFrame(l, MountAdu(slave, pdu)).line;
      && r.published.Some? && r.complete && Completed(r) == MountAdu(slave, pdu)
      && r.lMsg == 0 && !ControlCrc(r).ok
  {
    var adu := MountAdu(slave, pdu);
    FrameArrives(l, adu);
  }

  /**
   * The same frame with its length kept in full, as the 16-bit receive
   * index holds it: the CRC over the first 254 bytes matches the last two,
   * and the PDU sits after the address.
   */
  lemma MaximalFrameFullLength(l: Line, slave: byte, pdu: seq<byte>)
    requires l.rtu == RtuIdle && l.index == 0 && l.frame == FrameOk && l.main != MainError
    requires |pdu| == BufferSize - 3
    ensures ReceiveFrame(l, MountAdu(slave, pdu)).Running?
    ensures var r := ReceiveFrame(l, MountAdu(slave, pdu)).line;
      && r.published.Some? && Feed(Running(l), MountAdu(slave, pdu)).line.index == BufferSize
      && CheckCrc(Completed(r), BufferSize)
      && Completed(r)[0] == slave && Completed(r)[1 .. BufferSize - 2] == pdu
  {
    var adu := MountAdu(slave, pdu);
    FeedFrame(l, adu);
    MaximalFrameAsWritten(l, slave, pdu);
    var r := ReceiveFrame(l, adu).line;
    MountedAduChecks(slave, pdu, []);
    assert Completed(r) == adu + [];
    assert Completed(r)[1 .. BufferSize - 2] == ([slave] + pdu)[1..];
  }
}
