/**
 * The slave's serial controller (`Modbus_Project_Slave/Slave/Modbus_OSL.c`):
 * start-up, the UART interrupt, the hand-over of a complete RTU frame to the
 * application after the address filter and the CRC gate, and the reply,
 * which a broadcast request never gets.
 *
 * ASCII mode is accepted by `Modbus_OSL_Init` but its branches are empty
 * stubs: the UART interrupt ignores characters in ASCII mode, so no frame is
 * ever completed and nothing is delivered.
 */
module SlaveSerial {
  import opened Bytes
  import Crc
  import Rtu
  import SlaveApp

  /** Highest unicast slave address; 0 is the broadcast address. */
  const MaxSlave: byte := 247

  /** `B19200`, the rate `BDEFAULT` selects. */
  const DefaultBaud: nat := 19200

  /** The value of the `BDEFAULT` enumerator: one past `B115200`. */
  const BaudDefault: nat := 115201

  /** `Modbus_OSL_Modes` as passed to `Modbus_OSL_Init`. */
  datatype ModeRequest = RequestRtu | RequestAscii | RequestDefault

  /** The transmission mode the controller runs in. */
  datatype Mode = RtuMode | AsciiMode

  /**
   * The controller's state: its address, the broadcast flag of the last
   * request addressed to it, baud rate and mode, the serial line (RTU state,
   * main state, flags and buffers), the application, and the last ADU
   * handed to the UART (`Modbus_OSL_Response_ADU` up to
   * `Modbus_OSL_L_Response_ADU`).
   */
  datatype Slave = Slave(
    address: byte,
    broadcast: bool,
    baud: nat,
    mode: Mode,
    line: Rtu.Line,
    app: SlaveApp.App,
    adu: seq<byte>)

  /** A running controller, or one stopped in `Modbus_Fatal_Error`. */
  datatype Node = Stopped | Serving(slave: Slave)

  /** The completion flag is only ever raised together with a complete buffer to read from. */
  predicate Wf(s: Slave)
  {
    s.line.complete ==> s.line.published.Some?
  }

  /** The return code of `Modbus_OSL_Init` and the controller it leaves. */
  datatype Started = Started(code: byte, slave: Slave)

  /**
   * `Modbus_OSL_Init`: an address above 247 is refused (return 1) before
   * anything is touched; otherwise the address is stored, the completion
   * flag cleared, the frame marked OK, the baud rate defaulted to 19200, the
   * main state set to INITIAL, RTU chosen for `MDEFAULT` and RTU, and the
   * RTU machine initialised.
   */
  function Init(s: Slave, address: byte, baud: nat, mode: ModeRequest): (r: Started)
    ensures r.code == 1 <==> address > MaxSlave
    ensures r.code == 1 ==> r.slave == s
    ensures r.code == 0 ==>
      && r.slave.address == address && Wf(r.slave)
      && r.slave.line.frame == Rtu.FrameOk && r.slave.line.main == Rtu.MainInitial
      && r.slave.baud == (if baud == BaudDefault then DefaultBaud else baud)
      && (r.slave.mode == RtuMode <==> mode != RequestAscii)
      && (r.slave.mode == RtuMode ==> r.slave.line.rtu == Rtu.RtuInitial && r.slave.line.index == 0)
  {
    if address > MaxSlave then Started(1, s)
    else
      var m := if mode == RequestAscii then AsciiMode else RtuMode;
      var line := s.line.(complete := false, frame := Rtu.FrameOk, main := Rtu.MainInitial);
      var line' := if m == RtuMode then Rtu.Init(line) else line;
      Started(0, s.(address := address, baud := if baud == BaudDefault then DefaultBaud else baud, mode := m, line := line'))
  }

  /** The controller after an RTU event, or stopped if the event was fatal. */
  function Lift(s: Slave, m: Rtu.Machine): (n: Node)
    ensures n.Serving? <==> m.Running?
    ensures n.Serving? ==> n.slave == s.(line := m.line)
  {
    if m.Running? then Serving(s.(line := m.line)) else Stopped
  }

  /** What the UART interrupt reports: a parity error, or a received character. */
  datatype UartEvent = ParityError | Received(c: byte)

  /**
   * `UART1IntHandler`: a parity error marks the frame NOK and no character
   * reaches the RTU machine; a character goes to `Modbus_OSL_RTU_UART` in
   * RTU mode and is ignored in ASCII mode.
   */
  function Uart(n: Node, e: UartEvent): (r: Node)
    ensures n.Stopped? ==> r.Stopped?
    ensures n.Serving? && e.ParityError? ==> r == Serving(n.slave.(line := n.slave.line.(frame := Rtu.FrameNok)))
    ensures n.Serving? && e.Received? && n.slave.mode == RtuMode ==>
      r == Lift(n.slave, Rtu.OnChar(Rtu.Running(n.slave.line), e.c))
    ensures n.Serving? && e.Received? && n.slave.mode == AsciiMode ==> r == n
  {
    match n
    case Stopped => Stopped
    case Serving(s) =>
      match e
      case ParityError => Serving(s.(line := s.line.(frame := Rtu.FrameNok)))
      case Received(c) =>
        if s.mode == RtuMode then Lift(s, Rtu.OnChar(Rtu.Running(s.line), c)) else n
  }

  /** The timer interrupt at 1.5 character times, dispatched to `Modbus_OSL_RTU_15T`. */
  function Timer15(n: Node): (r: Node)
    ensures r.Serving? ==> n.Serving? && r == Lift(n.slave, Rtu.OnT15(Rtu.Running(n.slave.line)))
  {
    if n.Stopped? then Stopped else Lift(n.slave, Rtu.OnT15(Rtu.Running(n.slave.line)))
  }

  /** The timer interrupt at 3.5 character times, dispatched to `Modbus_OSL_RTU_35T`. */
  function Timer35(n: Node): (r: Node)
    ensures r.Serving? ==> n.Serving? && r == Lift(n.slave, Rtu.OnT35(Rtu.Running(n.slave.line)))
  {
    if n.Stopped? then Stopped else Lift(n.slave, Rtu.OnT35(Rtu.Running(n.slave.line)))
  }

  /** The line events keep the controller well formed. */
  lemma EventsKeepWf(n: Node, e: UartEvent)
    requires n.Serving? && Wf(n.slave)
    ensures Uart(n, e).Serving? ==> Wf(Uart(n, e).slave)
    ensures Timer15(n).Serving? ==> Wf(Timer15(n).slave)
    ensures Timer35(n).Serving? ==> Wf(Timer35(n).slave)
  {
  }

  /** A flag read together with the controller it leaves. */
  datatype Outcome = Outcome(result: bool, slave: Slave)

  /**
   * `Modbus_OSL_Processing_Msg`: read the completion flag and clear it, so
   * each completed frame is taken at most once.
   */
  function ProcessingMsg(s: Slave): (r: Outcome)
    ensures r.result == s.line.complete
    ensures !r.slave.line.complete
    ensures r.slave == s.(line := s.line.(complete := false))
  {
    Outcome(s.line.complete, s.(line := s.line.(complete := false)))
  }

  /** Taking the flag twice with no frame completed in between finds nothing the second time. */
  lemma ProcessingMsgOnce(s: Slave)
    ensures !ProcessingMsg(ProcessingMsg(s).slave).result
    ensures ProcessingMsg(ProcessingMsg(s).slave).slave == ProcessingMsg(s).slave
  {
  }

  /**
   * `Modbus_OSL_RTU_to_App`: frame bytes `1 .. L_Msg_Get()-1` go to the
   * application from position 0, with length `L_Msg_Get() - 1` (both in
   * `unsigned char`): the address and the CRC are stripped.
   */
  function ToApp(s: Slave): (r: Slave)
    requires s.line.published.Some?
    ensures 1 <= Rtu.LMsgGet(s.line) ==>
      r.app == SlaveApp.Receive(s.app, Rtu.Completed(s.line)[1 .. Rtu.LMsgGet(s.line)], Rtu.LMsgGet(s.line) - 1)
    ensures r.line == s.line && r.address == s.address && r.broadcast == s.broadcast
  {
    var n := Rtu.LMsgGet(s.line);
    var pdu := if n >= 1 then Rtu.Completed(s.line)[1 .. n] else [];
    s.(app := SlaveApp.Receive(s.app, pdu, Trunc8(n - 1)))
  }

  /**
   * `Modbus_OSL_Receive_Request`: take the completion flag; if it was set,
   * enter CHECKING and read the address byte. A frame for another slave is
   * ignored (main state IDLE) without a CRC check. For this slave or for
   * address 0 the broadcast flag records which, and the CRC decides: a good
   * frame goes to the application (return 1), a bad one is dropped with the
   * frame flag reset to OK and the main state IDLE.
   */
  function ReceiveRequest(s: Slave): (r: Outcome)
    requires Wf(s)
    ensures Wf(r.slave) && !r.slave.line.complete
    ensures !s.line.complete ==> !r.result && r.slave == ProcessingMsg(s).slave
    ensures r.result ==> r.slave.line.main == Rtu.Checking && r.slave.line.frame == Rtu.FrameOk
    ensures s.line.complete && s.mode == RtuMode && !r.result ==>
      r.slave.line.main == Rtu.MainIdle && r.slave.app == s.app
  {
    var taken := ProcessingMsg(s);
    if !taken.result then taken
    else
      var t := taken.slave.(line := taken.slave.line.(main := Rtu.Checking));
      if t.mode == AsciiMode then Outcome(false, t)
      else
        var addr := Rtu.CharGet(t.line, 0);
        if addr == t.address || addr == 0 then
          var u := t.(broadcast := addr == 0);
          var checked := Rtu.ControlCrc(u.line);
          if checked.ok then Outcome(true, ToApp(u.(line := checked.line)))
          else Outcome(false, u.(line := checked.line.(frame := Rtu.FrameOk, main := Rtu.MainIdle)))
        else Outcome(false, t.(line := t.line.(main := Rtu.MainIdle)))
  }

  /** A frame addressed to another slave is dropped before any CRC check and reaches nobody. */
  lemma ForeignFrameIgnored(s: Slave)
    requires Wf(s) && s.line.complete && s.mode == RtuMode
    requires Rtu.CharGet(s.line, 0) != s.address && Rtu.CharGet(s.line, 0) != 0
    ensures !ReceiveRequest(s).result
    ensures ReceiveRequest(s).slave == s.(line := s.line.(complete := false, main := Rtu.MainIdle))
  {
  }

  /**
   * A frame for this slave or for everybody sets the broadcast flag exactly
   * when its address byte is 0, and is delivered exactly when its CRC is
   * right; a delivered frame gives the application its PDU, and a rejected
   * one leaves the frame flag OK.
   */
  lemma AddressedFrame(s: Slave)
    requires Wf(s) && s.line.complete && s.mode == RtuMode && s.address <= MaxSlave
    requires Rtu.CharGet(s.line, 0) == s.address || Rtu.CharGet(s.line, 0) == 0
    ensures ReceiveRequest(s).slave.broadcast <==> Rtu.CharGet(s.line, 0) == 0
    ensures ReceiveRequest(s).result <==> Rtu.ControlCrc(s.line).ok
    ensures ReceiveRequest(s).slave.line.frame == Rtu.FrameOk
    ensures ReceiveRequest(s).result ==>
      && 3 <= s.line.lMsg <= BufferSize
      && ReceiveRequest(s).slave.app ==
         SlaveApp.Receive(s.app, Rtu.Completed(s.line)[1 .. s.line.lMsg - 2], s.line.lMsg - 3)
  {
    if Rtu.ControlCrc(s.line).ok {
      GoodFrame(s);
    } else {
      BadFrame(s);
    }
  }

  /** The controller as `Modbus_OSL_Receive_Request` leaves it before the CRC check, for a frame it takes. */
  function BeforeCrc(s: Slave): (u: Slave)
    requires Wf(s) && s.line.published.Some?
    ensures Wf(u) && u.line.published == s.line.published && u.line.lMsg == s.line.lMsg
  {
    var addr := Rtu.CharGet(s.line, 0);
    s.(line := s.line.(complete := false, main := Rtu.Checking), broadcast := addr == 0)
  }

  /** A frame for this slave or for everybody with a good CRC reaches the application. */
  lemma GoodFrame(s: Slave)
    requires Wf(s) && s.line.complete && s.mode == RtuMode && s.address <= MaxSlave
    requires Rtu.CharGet(s.line, 0) == s.address || Rtu.CharGet(s.line, 0) == 0
    requires Rtu.ControlCrc(s.line).ok
    ensures ReceiveRequest(s).result
    ensures ReceiveRequest(s).slave.broadcast <==> Rtu.CharGet(s.line, 0) == 0
    ensures ReceiveRequest(s).slave.line.frame == Rtu.FrameOk
    ensures 3 <= s.line.lMsg <= BufferSize
    ensures ReceiveRequest(s).slave.app ==
      SlaveApp.Receive(s.app, Rtu.Completed(s.line)[1 .. s.line.lMsg - 2], s.line.lMsg - 3)
  {
    var u := BeforeCrc(s);
    var checked := Rtu.ControlCrc(u.line);
    assert Rtu.Completed(u.line) == Rtu.Completed(s.line);
    CheckedLength(s.line);
    var v := u.(line := checked.line);
    assert Rtu.Completed(v.line) == Rtu.Completed(s.line) && Rtu.LMsgGet(v.line) == s.line.lMsg - 2;
    assert ReceiveRequest(s) == Outcome(true, ToApp(v));
  }

  /** A frame for this slave or for everybody with a bad CRC is dropped, with the frame flag back at OK. */
  lemma BadFrame(s: Slave)
    requires Wf(s) && s.line.complete && s.mode == RtuMode && s.address <= MaxSlave
    requires Rtu.CharGet(s.line, 0) == s.address || Rtu.CharGet(s.line, 0) == 0
    requires !Rtu.ControlCrc(s.line).ok
    ensures !ReceiveRequest(s).result
    ensures ReceiveRequest(s).slave.broadcast <==> Rtu.CharGet(s.line, 0) == 0
    ensures ReceiveRequest(s).slave.line.frame == Rtu.FrameOk
  {
    var u := BeforeCrc(s);
    var checked := Rtu.ControlCrc(u.line);
    assert Rtu.Completed(u.line) == Rtu.Completed(s.line);
    assert ReceiveRequest(s) == Outcome(false, u.(line := checked.line.(frame := Rtu.FrameOk, main := Rtu.MainIdle)));
  }

  /**
   * A frame that passes the CRC check and starts with a slave address holds
   * its address and both CRC bytes, so stripping them never underflows; the
   * PDU left may be empty.
   */
  lemma CheckedLength(l: Rtu.Line)
    requires l.published.Some? && Rtu.ControlCrc(l).ok && Rtu.CharGet(l, 0) <= MaxSlave
    ensures 3 <= l.lMsg <= BufferSize
  {
    if l.lMsg == 2 {
      Crc.EmptyCrc(Rtu.Completed(l));
    }
  }

  /**
   * `Modbus_OSL_Output` in RTU mode: the ADU is the own address, the PDU and
   * its CRC, of length `L_pdu + 3` in an `unsigned char`; the RTU machine
   * enters EMISSION and the ADU is what `Modbus_OSL_Send` writes to the UART.
   * In ASCII mode nothing is assembled and the previous buffer is sent again.
   */
  function Output(s: Slave, pdu: seq<byte>): (r: Slave)
    requires |pdu| <= 255
    ensures s.mode == RtuMode && |pdu| <= 252 ==>
      r.adu == Crc.MountAdu(s.address, pdu) && |r.adu| == |pdu| + 3 && r.line.rtu == Rtu.Emission
    ensures s.mode == AsciiMode ==> r == s
  {
    if s.mode == RtuMode then
      var adu := Crc.MountAdu(s.address, pdu);
      var len := Trunc8(|pdu| + 3);
      s.(adu := adu[..if len <= |adu| then len else |adu|], line := Rtu.StartEmission(s.line))
    else s
  }

  /** The main state `Modbus_App_Manage_Request` leaves. */
  function MainAfter(main: Rtu.MainState, c: SlaveApp.MainChange): Rtu.MainState
  {
    match c
    case ToProcessing => Rtu.Processing
    case ToError => Rtu.MainError
    case Unchanged => main
  }

  /**
   * `Modbus_OSL_Serial_Comm`: acts only in main state IDLE. A delivered
   * request is handled by the application; unless it was a broadcast, the
   * main state passes through REPLY and the response is sent
   * (`Modbus_App_Send`, i.e. `Modbus_OSL_Output`). It always ends in IDLE.
   */
  function SerialComm(s: Slave): (r: Slave)
    requires Wf(s)
    ensures Wf(r)
    ensures s.line.main != Rtu.MainIdle ==> r == s
    ensures s.line.main == Rtu.MainIdle && s.mode == RtuMode ==> r.line.main == Rtu.MainIdle
    ensures s.line.main == Rtu.MainIdle && ReceiveRequest(s).result && r.broadcast ==> r.adu == s.adu
  {
    if s.line.main != Rtu.MainIdle then s
    else
      var received := ReceiveRequest(s);
      if !received.result then received.slave
      else
        var t := received.slave;
        var h := SlaveApp.ManageRequest(t.app, t.broadcast);
        var u := t.(app := h.app, line := t.line.(main := MainAfter(t.line.main, h.change)));
        var v := if !u.broadcast then Output(u.(line := u.line.(main := Rtu.Reply)), u.app.response) else u;
        v.(line := v.line.(main := Rtu.MainIdle))
  }

  /** Start-up in RTU mode: once 3.5 character times pass, the line and the controller are IDLE and ready for a frame. */
  lemma StartUp(s: Slave, address: byte, baud: nat)
    requires address <= MaxSlave
    ensures var r := Timer35(Serving(Init(s, address, baud, RequestDefault).slave));
      && r.Serving? && Wf(r.slave)
      && r.slave.line.rtu == Rtu.RtuIdle && r.slave.line.main == Rtu.MainIdle
      && r.slave.line.index == 0 && r.slave.line.frame == Rtu.FrameOk && !r.slave.line.complete
  {
  }

  /** The characters `cs` arriving at the UART one after another. */
  function Listen(n: Node, cs: seq<byte>): Node
    decreases |cs|
  {
    if cs == [] then n else Uart(Listen(n, cs[..|cs| - 1]), Received(cs[|cs| - 1]))
  }

  /** In RTU mode the UART hands every character to the RTU machine and nothing else changes. */
  lemma {:induction false} ListenIsFeed(s: Slave, cs: seq<byte>)
    requires s.mode == RtuMode
    ensures Listen(Serving(s), cs) == Lift(s, Rtu.Feed(Rtu.Running(s.line), cs))
    decreases |cs|
  {
    if cs != [] {
      ListenIsFeed(s, cs[..|cs| - 1]);
    }
  }

  /** A controller holding a complete, correct frame for `addr` whose PDU is `pdu`. */
  predicate Holds(t: Slave, addr: byte, pdu: seq<byte>)
  {
    && Wf(t) && t.mode == RtuMode && t.address <= MaxSlave
    && t.line.complete && t.line.main == Rtu.MainIdle
    && Rtu.ControlCrc(t.line).ok && Rtu.CharGet(t.line, 0) == addr
    && t.line.lMsg == |pdu| + 3 && Rtu.Completed(t.line)[1 .. |pdu| + 1] == pdu
  }

  /** The ADU a master builds for `addr`, received by an idle controller, leaves it holding that frame. */
  lemma AduReceived(s: Slave, addr: byte, pdu: seq<byte>)
    requires Wf(s) && s.mode == RtuMode && s.address <= MaxSlave
    requires s.line.rtu == Rtu.RtuIdle && s.line.index == 0 && s.line.frame == Rtu.FrameOk
    requires s.line.main == Rtu.MainIdle
    requires |pdu| <= BufferSize - 4
    ensures var n := Timer35(Timer15(Listen(Serving(s), Crc.MountAdu(addr, pdu))));
      && n.Serving? && n.slave.app == s.app && n.slave.adu == s.adu && n.slave.address == s.address
      && Holds(n.slave, addr, pdu)
  {
    var adu := Crc.MountAdu(addr, pdu);
    ListenIsFeed(s, adu);
    Rtu.AduArrives(s.line, addr, pdu);
    Rtu.FrameArrives(s.line, adu);
  }

  /**
   * `Modbus_OSL_Serial_Comm` on a held frame: the application gets exactly
   * the PDU and handles it; the reply is the ADU of its response under the
   * own address, and a broadcast gets none.
   */
  lemma HeldFrameServed(t: Slave, addr: byte, pdu: seq<byte>)
    requires Holds(t, addr, pdu)
    requires addr == t.address || addr == 0
    ensures var h := SlaveApp.ManageRequest(SlaveApp.Receive(t.app, pdu, |pdu|), addr == 0);
      var r := SerialComm(t);
      && r.app == h.app && r.broadcast == (addr == 0) && r.line.main == Rtu.MainIdle
      && (addr == 0 ==> r.adu == t.adu)
      && (addr != 0 ==> r.adu == Crc.MountAdu(t.address, h.app.response))
  {
    AddressedFrame(t);
    assert Rtu.Completed(t.line)[1 .. t.line.lMsg - 2] == pdu;
    var received := ReceiveRequest(t);
    assert received.result && received.slave.broadcast == (addr == 0);
    assert received.slave.app == SlaveApp.Receive(t.app, pdu, |pdu|);
    DeliveredServed(t);
  }

  /** `Modbus_OSL_Serial_Comm` on a delivered request: the application handles it and, unless it was a broadcast, the response is sent. */
  lemma DeliveredServed(s: Slave)
    requires Wf(s) && s.mode == RtuMode && s.line.main == Rtu.MainIdle && ReceiveRequest(s).result
    ensures var t := ReceiveRequest(s).slave;
      var h := SlaveApp.ManageRequest(t.app, t.broadcast);
      var r := SerialComm(s);
      && r.app == h.app && r.broadcast == t.broadcast && r.line.main == Rtu.MainIdle
      && (t.broadcast ==> r.adu == s.adu)
      && (!t.broadcast ==> r.adu == Crc.MountAdu(s.address, h.app.response))
  {
    var t := ReceiveRequest(s).slave;
    assert t.adu == s.adu && t.address == s.address && t.mode == RtuMode;
  }

  /**
   * A request served end to end: the ADU a master builds for slave `addr`
   * (this slave or broadcast) arrives at an idle controller followed by
   * 1.5T and 3.5T of silence; `Modbus_OSL_Serial_Comm` then hands the
   * application exactly the PDU, and sends back the ADU of the response
   * under the own address, unless the request was a broadcast, which gets
   * no reply.
   */
  lemma RequestServed(s: Slave, addr: byte, pdu: seq<byte>)
    requires Wf(s) && s.mode == RtuMode && s.address <= MaxSlave
    requires s.line.rtu == Rtu.RtuIdle && s.line.index == 0 && s.line.frame == Rtu.FrameOk
    requires s.line.main == Rtu.MainIdle
    requires addr == s.address || addr == 0
    requires |pdu| <= BufferSize - 4
    ensures var n := Timer35(Timer15(Listen(Serving(s), Crc.MountAdu(addr, pdu))));
      && n.Serving? && Wf(n.slave)
      && var h := SlaveApp.ManageRequest(SlaveApp.Receive(s.app, pdu, |pdu|), addr == 0);
         var r := SerialComm(n.slave);
         && r.app == h.app && r.broadcast == (addr == 0) && r.line.main == Rtu.MainIdle
         && (addr == 0 ==> r.adu == s.adu)
         && (addr != 0 ==> r.adu == Crc.MountAdu(s.address, h.app.response))
  {
    AduReceived(s, addr, pdu);
    var n := Timer35(Timer15(Listen(Serving(s), Crc.MountAdu(addr, pdu))));
    HeldFrameServed(n.slave, addr, pdu);
  }
}
