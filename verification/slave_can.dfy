/**
 * The slave's CAN controller (`Modbus_Project_Slave/Slave/Modbus_CAN.c`)
 * with the CAN parts of the slave's application layer
 * (`Modbus_Slave_Init` and `Modbus_App_Send` of
 * `Modbus_Project_Slave/Slave/Modbus_app.c`): two receive objects, 17 for
 * requests addressed to this slave and 18 for broadcasts, reassembly of the
 * request, and the controller that hands it to `Modbus_App_Manage_Request`
 * and sends the response back as frames.
 */
module SlaveCan {
  import opened Bytes
  import opened CanFrames
  import SlaveApp

  /** Highest address a slave may take. */
  const MaxSlave: nat := 247

  /** The slave's `enum Modbus_MainState` in its CAN build. */
  datatype MainState = Initial | Idle | Checking | Processing | Reply | Error

  /** `enum Modbus_CAN_BitRate`. */
  datatype BitRate = Kbps100 | Mbps1

  /**
   * The controller's state: main state, own address, whether the request
   * being received came through the broadcast object, bit rate, reassembly
   * state, and the application's buffers and I/O image.
   */
  datatype Link = Link(
    main: MainState,
    slave: byte,
    broadcast: bool,
    rate: BitRate,
    rx: Rx,
    app: SlaveApp.App)

  /** A running slave, or one stopped in `Modbus_CAN_Error_Management`. */
  datatype Node = Halted | Running(link: Link)

  /**
   * `Modbus_CAN_Init`, with `Modbus_CAN_ReceptionConfiguration`: the address
   * and bit rate are stored, the completion flag cleared, and the main state
   * ends in IDLE.
   */
  function Init(l: Link, rate: BitRate, slave: byte): (r: Link)
    ensures r.main == Idle && r.slave == slave && r.rate == rate && !r.rx.complete
    ensures r.app == l.app
  {
    l.(main := Idle, slave := slave, rate := rate, rx := l.rx.(complete := false))
  }

  /** A slave application and the C function's return code. */
  datatype Started = Started(code: byte, node: Node)

  /**
   * `Modbus_Slave_Init` (CAN build): the I/O image is mapped in any case;
   * an address up to 247 (re)initialises the controller and returns 0, a
   * higher one returns 1 without touching the controller, which keeps its
   * state (a running slave keeps serving with its old address and the new
   * image). A slave stopped in `Modbus_CAN_Error_Management` never gets here.
   */
  function SlaveInit(n: Node, image: SlaveApp.Image, rate: BitRate, slave: byte): (r: Started)
    ensures r.code == 0 <==> slave <= MaxSlave
    ensures n.Halted? ==> r.node.Halted?
    ensures n.Running? && r.code == 0 ==> r.node == Running(Init(n.link.(app := n.link.app.(image := image)), rate, slave))
    ensures n.Running? && r.code == 1 ==>
      && r.node.Running?
      && r.node.link.app.image == image
      && r.node.link.app.(image := n.link.app.image) == n.link.app
      && r.node.link.(app := n.link.app) == n.link
  {
    match n
    case Halted => Started(if slave <= MaxSlave then 0 else 1, Halted)
    case Running(l) =>
      var mapped := l.(app := l.app.(image := image));
      if slave <= MaxSlave then Started(0, Running(Init(mapped, rate, slave))) else Started(1, Running(mapped))
  }

  /**
   * At start-up the main state is still INITIAL, so a refused address leaves
   * a controller that stops at its first step.
   */
  lemma RefusedAtStartUp(l: Link, image: SlaveApp.Image, rate: BitRate, slave: byte)
    requires l.main == Initial && slave > MaxSlave
    ensures SlaveInit(Running(l), image, rate, slave).code == 1
    ensures Controller(SlaveInit(Running(l), image, rate, slave).node).node.Halted?
  {
  }

  /** Object 17 receives a frame: `(id & 0x1FF) == 0x100 | slave`. */
  predicate ForThisSlave(l: Link, f: CanFrame)
  {
    Filtered(f.id) == 256 + l.slave
  }

  /** Object 18 receives a frame: `(id & 0x1FF) == 0x100`. */
  predicate ForAll(f: CanFrame)
  {
    Filtered(f.id) == 256
  }

  /**
   * `Modbus_CAN_CallBack`: without new data in the object the main state
   * becomes ERROR; otherwise the frame is reassembled as a request, and an
   * unexpected header also means ERROR.
   */
  function CallBack(l: Link, f: Option<CanFrame>): (r: Link)
    ensures f.None? || Absorb(l.rx, f.value, true).None? ==> r == l.(main := Error)
    ensures f.Some? && Absorb(l.rx, f.value, true).Some? ==> r == l.(rx := Absorb(l.rx, f.value, true).value)
  {
    if f.None? then l.(main := Error)
    else
      match Absorb(l.rx, f.value, true)
      case None => l.(main := Error)
      case Some(rx) => l.(rx := rx)
  }

  /** What the CAN interrupt reports. */
  datatype CanEvent =
    | BusFault                        // bus-off, error warning or error passive
    | StatusOk                        // any other status interrupt
    | Transmitted                     // a transmit object finished
    | Arrived(frame: CanFrame)
    | NoNewData(broadcastObject: bool) // object 17 or 18 interrupted without new data
    | Spurious

  /**
   * `Modbus_CAN_IntHandler`: a bus fault stops the slave; a frame for object
   * 17 (checked first, as the lower-numbered object) or object 18 is handed
   * to the callback, with the broadcast flag telling which, unless a
   * complete request is still waiting; other frames are not received.
   */
  function IntHandler(n: Node, e: CanEvent): (r: Node)
    ensures n.Halted? || e.BusFault? ==> r.Halted?
    ensures n.Running? && e.Arrived? && !ForThisSlave(n.link, e.frame) && !ForAll(e.frame) ==> r == n
    ensures n.Running? && e.Arrived? && n.link.rx.complete ==> r == n
    ensures n.Running? && e.Arrived? && !n.link.rx.complete && ForThisSlave(n.link, e.frame) ==>
      r == Running(CallBack(n.link.(broadcast := false), Some(e.frame)))
    ensures n.Running? && e.Arrived? && !n.link.rx.complete && !ForThisSlave(n.link, e.frame) && ForAll(e.frame) ==>
      r == Running(CallBack(n.link.(broadcast := true), Some(e.frame)))
  {
    match n
    case Halted => Halted
    case Running(l) =>
      match e
      case BusFault => Halted
      case Arrived(f) =>
        if l.rx.complete then n
        else if ForThisSlave(l, f) then Running(CallBack(l.(broadcast := false), Some(f)))
        else if ForAll(f) then Running(CallBack(l.(broadcast := true), Some(f)))
        else n
      case NoNewData(b) =>
        if l.rx.complete then n else Running(CallBack(l.(broadcast := b), None))
      case _ => n
  }

  /**
   * `Modbus_CAN_FixOutput` called by `Modbus_App_Send`: the response goes
   * out as answer frames carrying this slave's address.
   */
  function Send(l: Link): (fs: seq<CanFrame>)
    ensures |l.app.response| <= 255 ==> Payload(fs) == l.app.response
    ensures forall i :: 0 <= i < |fs| ==> HeaderOf(fs[i].id) % 2 == 0 && Filtered(fs[i].id) == l.slave
  {
    var fs := Frames(l.app.response, l.slave, false);
    FramesCount(l.app.response, l.slave, false);
    forall i | 0 <= i < |fs|
      ensures HeaderOf(fs[i].id) % 2 == 0 && Filtered(fs[i].id) == l.slave
    {
      FramesAt(l.app.response, l.slave, false, i);
      IdFields(Header(KindAt(i, |l.app.response|), false), l.slave);
    }
    fs
  }

  /** The result of `Modbus_Slave_Communication`: its return code, the slave, and the frames sent. */
  datatype Served = Served(code: byte, node: Node, frames: seq<CanFrame>)

  /**
   * `Modbus_CAN_Controller`: in IDLE with a complete request, the request
   * goes to the application (`Modbus_CAN_to_App`), is handled by
   * `Modbus_App_Manage_Request`, and for a unicast request the response is
   * sent; the completion flag is cleared and the state returns to IDLE
   * (return 1). In IDLE without a request nothing happens (return 0). Any
   * other main state is fatal.
   */
  function Controller(n: Node): (r: Served)
    ensures n.Halted? || n.link.main != Idle ==> r.node.Halted? && r.code == 0 && r.frames == []
    ensures n.Running? && n.link.main == Idle && !n.link.rx.complete ==> r == Served(0, n, [])
    ensures n.Running? && n.link.main == Idle && n.link.rx.complete ==>
      var l := n.link;
      var h := SlaveApp.ManageRequest(SlaveApp.Receive(l.app, l.rx.buffer[..l.rx.length], l.rx.length), l.broadcast);
      && r.code == 1
      && r.node == Running(l.(app := h.app, rx := l.rx.(complete := false)))
      && (l.broadcast ==> r.frames == [])
      && (!l.broadcast ==> r.frames == Frames(h.app.response, l.slave, false) && Payload(r.frames) == h.app.response)
  {
    match n
    case Halted => Served(0, Halted, [])
    case Running(l) =>
      if l.main != Idle then Served(0, Halted, [])
      else if !l.rx.complete then Served(0, n, [])
      else
        var app := SlaveApp.Receive(l.app, l.rx.buffer[..l.rx.length], l.rx.length);
        var h := SlaveApp.ManageRequest(app, l.broadcast);
        var l' := l.(app := h.app, rx := l.rx.(complete := false));
        Served(1, Running(l'), if l.broadcast then [] else Send(l'))
  }

  /** The frames `fs` arriving one after another. */
  function Hear(n: Node, fs: seq<CanFrame>): Node
    decreases |fs|
  {
    if fs == [] then n else Hear(IntHandler(n, Arrived(fs[0])), fs[1..])
  }

  /** Where the frames of a request to `slave` are received: object 17 for its own address, object 18 for a broadcast. */
  lemma RequestFrameRouted(l: Link, pdu: seq<byte>, slave: byte, i: nat)
    requires i < |Frames(pdu, slave, true)|
    ensures var f := Frames(pdu, slave, true)[i];
      && (ForThisSlave(l, f) <==> slave == l.slave)
      && (ForAll(f) <==> slave == 0)
  {
    FramesCount(pdu, slave, true);
    FramesAt(pdu, slave, true, i);
    IdFields(Header(KindAt(i, |pdu|), true), slave);
  }

  /** Hearing the frames of a request addressed to this slave, or broadcast, is reassembly of those frames. */
  lemma {:induction false} HearIsDeliver(l: Link, pdu: seq<byte>, slave: byte, k: nat)
    requires slave == l.slave || (slave == 0 && l.slave != 0)
    requires l.broadcast == (slave != l.slave) || !l.rx.complete
    requires k <= |Frames(pdu, slave, true)|
    ensures var fs := Frames(pdu, slave, true)[k..];
      && Deliver(l.rx, fs, true).Some? ==>
           && Hear(Running(l), fs).Running?
           && Hear(Running(l), fs).link == l.(rx := Deliver(l.rx, fs, true).value, broadcast := Hear(Running(l), fs).link.broadcast)
           && (Deliver(l.rx, fs, true).value.complete ==> Hear(Running(l), fs).link.broadcast == (slave != l.slave))
    decreases |Frames(pdu, slave, true)| - k
  {
    var all := Frames(pdu, slave, true);
    var fs := all[k..];
    if k < |all| && Deliver(l.rx, fs, true).Some? {
      assert fs[0] == all[k];
      assert fs[1..] == all[k + 1..];
      RequestFrameRouted(l, pdu, slave, k);
      var next := IntHandler(Running(l), Arrived(fs[0]));
      if l.rx.complete {
        HearIsDeliver(l, pdu, slave, k + 1);
      } else {
        HearIsDeliver(next.link, pdu, slave, k + 1);
      }
    }
  }

  /**
   * A request of 1 to 255 bytes from the master, cut into request frames
   * for this slave or for all, is reassembled in full, marked broadcast
   * exactly when addressed to 0, and the controller's next step hands it
   * to `Modbus_App_Manage_Request` and answers a unicast request with the
   * response's frames.
   */
  lemma RequestServed(l: Link, pdu: seq<byte>, slave: byte)
    requires l.main == Idle && !l.rx.complete
    requires slave == l.slave || (slave == 0 && l.slave != 0)
    requires 1 <= |pdu| <= 255
    ensures var h := Hear(Running(l), Frames(pdu, slave, true));
      && h.Running? && h.link.rx.complete && h.link.rx.buffer[..h.link.rx.length] == pdu
      && h.link.broadcast == (slave != l.slave) && h.link.main == Idle
    ensures var s := Controller(Hear(Running(l), Frames(pdu, slave, true)));
      var handled := SlaveApp.ManageRequest(SlaveApp.Receive(l.app, pdu, |pdu|), slave != l.slave);
      && s.code == 1 && s.node.Running? && s.node.link.main == Idle && !s.node.link.rx.complete
      && s.node.link.app == handled.app
      && (slave != l.slave ==> s.frames == [])
      && (slave == l.slave ==> Payload(s.frames) == handled.app.response)
  {
    var fs := Frames(pdu, slave, true);
    FramesDelivered(l.rx, pdu, slave, true);
    HearIsDeliver(l, pdu, slave, 0);
    assert fs[0..] == fs;
  }

  /** Frames not addressed to this slave and not broadcast leave it unchanged. */
  lemma ForeignFramesIgnored(l: Link, fs: seq<CanFrame>)
    requires forall i :: 0 <= i < |fs| ==> !ForThisSlave(l, fs[i]) && !ForAll(fs[i])
    ensures Hear(Running(l), fs) == Running(l)
    decreases |fs|
  {
    if fs != [] {
      ForeignFramesIgnored(l, fs[1..]);
    }
  }
}
