/**
 * The master's CAN controller (`Modbus_Project_Master/Master/Modbus_CAN.c`):
 * sending a request as frames, the receive filter for the addressed slave,
 * reassembly of the answer, the main-state machine with its retry counter
 * and forward flag, and the two one-shot timers.
 *
 * The calls back into the application layer (`Modbus_App_Send`,
 * `Modbus_App_FIFOSend`, `Modbus_App_Manage_CallBack`,
 * `Modbus_App_No_Response`) are returned as an `Action` that the
 * application layer carries out.
 */
module MasterCan {
  import opened Bytes
  import opened CanFrames

  /** `enum Modbus_MainState` of the master. */
  datatype MainState = Initial | Idle | WaitReply | Turnaround | Processing | Error

  /** `enum Modbus_CAN_BitRate`. */
  datatype BitRate = Kbps100 | Mbps1

  /** Timer ticks the master allows per byte on the bus: 9,333,333 at 100 kbit/s, 933,333 at 1 Mbit/s. */
  function TransferTicks(rate: BitRate): nat
  {
    if rate == Kbps100 then 9_333_333 else 933_333
  }

  /** Timer ticks allowed per byte for the slave's processing: `900000 * 4`. */
  const ProcessTicks: nat := 3_600_000

  /** Extra ticks per earlier attempt, to avoid congestion. */
  const CongestionTicks: nat := 8000

  /** `modbus_delay` as `Modbus_CAN_SetBitRate` sets it: the busy wait between two frames. */
  function Delay(rate: BitRate): nat
  {
    TransferTicks(rate) + ProcessTicks
  }

  /**
   * The controller's state: main state, maximum and current attempt number,
   * forward flag, bit rate, reassembly state, the slave the receive object
   * 17 is filtering for (none before the first unicast request), and the
   * two timers' loaded values and whether they are running.
   */
  datatype Link = Link(
    main: MainState,
    maxAttempts: byte,
    attempts: byte,
    forward: bool,
    rate: BitRate,
    rx: Rx,
    filter: Option<byte>,
    unicastTimeout: nat,
    broadcastTimeout: nat,
    unicastArmed: bool,
    broadcastArmed: bool)

  /** A running controller, or one stopped in `Modbus_CAN_Error_Management`. */
  datatype Node = Halted | Running(link: Link)

  /**
   * `Modbus_CAN_Init`: the maximum number of attempts and the bit rate are
   * stored, the forward flag cleared, the attempt counter set to 1, the
   * index and the completion flag cleared, and the main state ends in IDLE.
   */
  function Init(l: Link, rate: BitRate, attempts: byte): (r: Link)
    ensures r.main == Idle && r.maxAttempts == attempts && r.attempts == 1 && !r.forward
    ensures r.rate == rate && r.rx.index == 0 && !r.rx.complete
  {
    l.(main := Idle, maxAttempts := attempts, rate := rate, forward := false, attempts := 1,
       rx := l.rx.(index := 0, complete := false))
  }

  /** The load value of the unicast timer: transfer and processing time for `guess` bytes, plus congestion time per earlier attempt. */
  function UnicastTicks(rate: BitRate, guess: u16, attempts: byte): (t: int)
    ensures attempts >= 1 ==> t >= guess * Delay(rate)
    ensures 2 * (t - (attempts - 1) * CongestionTicks) == BroadcastTicks(rate, guess)
  {
    guess * TransferTicks(rate) + ProcessTicks * guess + (attempts - 1) * CongestionTicks
  }

  /** The load value of the broadcast timer: twice the transfer and processing time for `guess` bytes. */
  function BroadcastTicks(rate: BitRate, guess: u16): (t: nat)
  {
    (guess * TransferTicks(rate) + ProcessTicks * guess) * 2
  }

  /**
   * The timer loads are computed in 32-bit arithmetic and kept in an
   * `unsigned long`, which holds 32 bits on the Cortex-M3: the value loaded
   * is the time asked for modulo 2^32.
   */
  const LoadRange: nat := 0x1_0000_0000

  /** What `Modbus_CAN_UnicastTimeout` stores in `modbus_unicast_timeout`: the unicast time wrapped to 32 bits. */
  function UnicastLoad(rate: BitRate, guess: u16, attempts: byte): (t: nat)
    ensures t < LoadRange
    ensures (t - UnicastTicks(rate, guess, attempts)) % LoadRange == 0
    ensures 0 <= UnicastTicks(rate, guess, attempts) < LoadRange ==> t == UnicastTicks(rate, guess, attempts)
  {
    UnicastTicks(rate, guess, attempts) % LoadRange
  }

  /** What `Modbus_CAN_BroadcastTimeout` stores in `modbus_broadcast_timeout`: the broadcast time wrapped to 32 bits. */
  function BroadcastLoad(rate: BitRate, guess: u16): (t: nat)
    ensures t < LoadRange
    ensures (t - BroadcastTicks(rate, guess)) % LoadRange == 0
    ensures BroadcastTicks(rate, guess) < LoadRange ==> t == BroadcastTicks(rate, guess)
  {
    BroadcastTicks(rate, guess) % LoadRange
  }

  /** The largest guess whose unicast time, on a first attempt, fits in 32 bits. */
  function UnicastLimit(rate: BitRate): nat
  {
    if rate == Kbps100 then 332 else 947
  }

  /** The largest guess whose broadcast time fits in 32 bits. */
  function BroadcastLimit(rate: BitRate): nat
  {
    if rate == Kbps100 then 166 else 473
  }

  /**
   * A first attempt loads the unicast time asked for exactly when the guess
   * is at most 332 bytes (100 kbit/s) or 947 bytes (1 Mbit/s); a larger
   * guess loads a wrapped, shorter time on every attempt.
   */
  lemma UnicastLoadWraps(rate: BitRate, guess: u16, attempts: byte)
    ensures attempts == 1 ==> (UnicastLoad(rate, guess, attempts) == UnicastTicks(rate, guess, attempts) <==> guess <= UnicastLimit(rate))
    ensures guess > UnicastLimit(rate) ==> UnicastLoad(rate, guess, attempts) < UnicastTicks(rate, guess, attempts)
  {
    if guess > UnicastLimit(rate) {
      assert UnicastTicks(rate, guess, attempts) >= LoadRange;
    } else if attempts == 1 {
      assert UnicastTicks(rate, guess, attempts) < LoadRange;
    }
  }

  /**
   * The broadcast timer loads the time asked for exactly when the guess is
   * at most 166 bytes (100 kbit/s) or 473 bytes (1 Mbit/s); a larger guess
   * loads a wrapped, shorter time.
   */
  lemma BroadcastLoadWraps(rate: BitRate, guess: u16)
    ensures BroadcastLoad(rate, guess) == BroadcastTicks(rate, guess) <==> guess <= BroadcastLimit(rate)
    ensures guess > BroadcastLimit(rate) ==> BroadcastLoad(rate, guess) < BroadcastTicks(rate, guess)
  {
    if guess > BroadcastLimit(rate) {
      assert BroadcastTicks(rate, guess) >= LoadRange;
    } else {
      assert BroadcastTicks(rate, guess) < LoadRange;
    }
  }

  /** `Modbus_CAN_UnicastTimeout`: load and start the unicast timer. */
  function UnicastTimeout(l: Link, guess: u16): Link
  {
    l.(unicastTimeout := UnicastLoad(l.rate, guess, l.attempts), unicastArmed := true)
  }

  /** `Modbus_CAN_BroadcastTimeout`: load and start the broadcast timer. */
  function BroadcastTimeout(l: Link, guess: u16): Link
  {
    l.(broadcastTimeout := BroadcastLoad(l.rate, guess), broadcastArmed := true)
  }

  /** `Modbus_CAN_ReceptionConfiguration`: object 17 accepts answers from `slave` only, and the completion flag is cleared. */
  function ReceptionConfiguration(l: Link, slave: byte): (r: Link)
    ensures r.filter == Some(slave) && !r.rx.complete
  {
    l.(filter := Some(slave), rx := l.rx.(complete := false))
  }

  /** Object 17 receives a frame: its identifier passes the filter `(id & 0x1FF) == slave`. */
  predicate Accepts(l: Link, f: CanFrame)
  {
    l.filter.Some? && Filtered(f.id) == l.filter.value
  }

  /** A controller and the frames it handed to the CAN peripheral. */
  datatype Sent = Sent(link: Link, frames: seq<CanFrame>)

  /**
   * `Modbus_CAN_FixOutput`: for a unicast request the receive filter is set
   * to the slave (which clears the completion flag), for a broadcast only
   * the completion flag is cleared; the PDU goes out as request frames;
   * after the last frame a unicast request waits for the reply (WAITREPLY,
   * unicast timer) and a broadcast for the turnaround delay (TURNAROUND,
   * broadcast timer). An empty PDU sends nothing and leaves the state.
   */
  function FixOutput(l: Link, pdu: seq<byte>, slave: byte, guess: u16): (r: Sent)
    ensures r.frames == Frames(pdu, slave, true)
    ensures !r.link.rx.complete && r.link.attempts == l.attempts && r.link.maxAttempts == l.maxAttempts
    ensures slave != 0 ==> r.link.filter == Some(slave)
    ensures slave == 0 ==> r.link.filter == l.filter
    ensures |pdu| == 0 ==> r.link.main == l.main
    ensures |pdu| > 0 && slave != 0 ==>
      r.link.main == WaitReply && r.link.unicastArmed
      && r.link.unicastTimeout == UnicastLoad(l.rate, guess, l.attempts)
    ensures |pdu| > 0 && slave == 0 ==>
      r.link.main == Turnaround && r.link.broadcastArmed
      && r.link.broadcastTimeout == BroadcastLoad(l.rate, guess)
  {
    var configured := if slave != 0 then ReceptionConfiguration(l, slave) else l.(rx := l.rx.(complete := false));
    var frames := Frames(pdu, slave, true);
    if |pdu| == 0 then Sent(configured, frames)
    else if slave != 0 then Sent(UnicastTimeout(configured.(main := WaitReply), guess), frames)
    else Sent(BroadcastTimeout(configured.(main := Turnaround), guess), frames)
  }

  /**
   * `Modbus_CAN_CallBack`: without new data in object 17 the main state
   * becomes ERROR; otherwise the frame is reassembled as an answer (an
   * unexpected header also means ERROR), and an individual or end frame
   * stops the unicast timer (`Modbus_CAN_RemoveTimeout`).
   */
  function CallBack(l: Link, f: Option<CanFrame>): (r: Link)
    ensures f.None? ==> r == l.(main := Error)
    ensures f.Some? && Absorb(l.rx, f.value, false).None? ==> r == l.(main := Error)
    ensures f.Some? && Absorb(l.rx, f.value, false).Some? ==>
      r.rx == Absorb(l.rx, f.value, false).value && r.main == l.main
      && (r.unicastArmed <==> l.unicastArmed && !(KindOf(HeaderOf(f.value.id), false).value in {Individual, End}))
  {
    if f.None? then l.(main := Error)
    else
      match Absorb(l.rx, f.value, false)
      case None => l.(main := Error)
      case Some(rx) =>
        var ends := KindOf(HeaderOf(f.value.id), false).value in {Individual, End};
        l.(rx := rx, unicastArmed := l.unicastArmed && !ends)
  }

  /** What the CAN interrupt reports. */
  datatype CanEvent =
    | BusFault              // bus-off, error warning or error passive
    | StatusOk              // any other status interrupt
    | Transmitted           // a transmit object finished
    | Arrived(frame: CanFrame)
    | NoNewData             // object 17 interrupted without new data
    | Spurious

  /**
   * `Modbus_CAN_IntHandler`: a bus fault stops the controller; a frame that
   * passes object 17's filter is handed to the callback unless a complete
   * answer is still pending; object 18 is never configured on the master,
   * so no other frame is received.
   */
  function IntHandler(n: Node, e: CanEvent): (r: Node)
    ensures n.Halted? ==> r.Halted?
    ensures n.Running? && e.BusFault? ==> r.Halted?
    ensures n.Running? && e.Arrived? && !Accepts(n.link, e.frame) ==> r == n
    ensures n.Running? && e.Arrived? && n.link.rx.complete ==> r == n
    ensures n.Running? && e.Arrived? && Accepts(n.link, e.frame) && !n.link.rx.complete ==>
      r == Running(CallBack(n.link, Some(e.frame)))
  {
    match n
    case Halted => Halted
    case Running(l) =>
      match e
      case BusFault => Halted
      case Arrived(f) =>
        if Accepts(l, f) && !l.rx.complete then Running(CallBack(l, Some(f))) else n
      case NoNewData =>
        if !l.rx.complete then Running(CallBack(l, None)) else n
      case _ => n
  }

  /** `Modbus_CAN_GetForwardFlag`: read the forward flag and clear it. */
  function GetForwardFlag(l: Link): (r: (bool, Link))
    ensures r.0 == l.forward && r.1 == l.(forward := false)
  {
    (l.forward, l.(forward := false))
  }

  /** `Modbus_CAN_Reset_Attempt`. */
  function ResetAttempt(l: Link): Link
  {
    l.(attempts := 1)
  }

  /** The result of `Modbus_CAN_Repeat_Request`: the controller, and whether it gave up (and `Modbus_App_No_Response` runs). */
  datatype Repeat = Repeat(link: Link, gaveUp: bool)

  /**
   * `Modbus_CAN_Repeat_Request`: below the maximum the attempt counter is
   * incremented and the forward flag set, so the request is sent again;
   * otherwise the request is given up and the counter reset to 1.
   */
  function RepeatRequest(l: Link): (r: Repeat)
    ensures r.gaveUp <==> l.attempts >= l.maxAttempts
    ensures !r.gaveUp ==> r.link == l.(attempts := l.attempts + 1, forward := true)
    ensures r.gaveUp ==> r.link == l.(attempts := 1)
  {
    if l.attempts < l.maxAttempts then Repeat(l.(attempts := l.attempts + 1, forward := true), false)
    else Repeat(l.(attempts := 1), true)
  }

  /**
   * `Repeat_Request` for `n` unanswered transmissions in a row, each resend
   * consuming the forward flag: whether each of them gave up.
   */
  function Repeats(l: Link, n: nat): seq<bool>
    decreases n
  {
    if n == 0 then []
    else
      var r := RepeatRequest(l);
      [r.gaveUp] + Repeats(r.link.(forward := false), n - 1)
  }

  /** `n` times `false`. */
  function Resends(n: nat): (s: seq<bool>)
    ensures |s| == n && forall i :: 0 <= i < n ==> !s[i]
  {
    seq(n, _ => false)
  }

  /**
   * With attempt counter `a` and maximum `m`, the next `m - a` unanswered
   * transmissions are each resent and the one after is given up.
   */
  lemma {:induction false} RepeatsFrom(l: Link)
    requires 1 <= l.attempts <= l.maxAttempts
    ensures Repeats(l, l.maxAttempts - l.attempts + 1) == Resends(l.maxAttempts - l.attempts) + [true]
    decreases l.maxAttempts - l.attempts
  {
    var r := RepeatRequest(l);
    if l.attempts < l.maxAttempts {
      var next := r.link.(forward := false);
      RepeatsFrom(next);
      assert Repeats(l, l.maxAttempts - l.attempts + 1) == [false] + Repeats(next, l.maxAttempts - next.attempts + 1);
      assert [false] + Resends(l.maxAttempts - next.attempts) == Resends(l.maxAttempts - l.attempts);
    } else {
      assert Repeats(r.link.(forward := false), 0) == [];
    }
  }

  /**
   * With at most `m` attempts and no reply ever, a fresh request (counter 1)
   * is transmitted `m` times: the first `m - 1` failures resend it, the
   * `m`-th records exactly one no-response failure.
   */
  lemma GivesUpAfterMax(l: Link)
    requires l.attempts == 1 && l.maxAttempts >= 1
    ensures Repeats(l, l.maxAttempts) == Resends(l.maxAttempts - 1) + [true]
    ensures multiset(Repeats(l, l.maxAttempts))[true] == 1
  {
    RepeatsFrom(l);
    var s := Resends(l.maxAttempts - 1);
    assert multiset(s)[true] == 0 by {
      assert true !in s;
    }
  }

  /** `Modbus_CAN_Timeouts`: WAITREPLY becomes ERROR, TURNAROUND becomes IDLE, and any other state is fatal. */
  function Timeouts(l: Link): (r: Node)
    ensures r.Running? <==> l.main in {WaitReply, Turnaround}
    ensures r.Running? ==> r.link == l.(main := if l.main == WaitReply then Error else Idle)
  {
    match l.main
    case WaitReply => Running(l.(main := Error))
    case Turnaround => Running(l.(main := Idle))
    case _ => Halted
  }

  /** The two timers' interrupts. */
  datatype TimerEvent = UnicastExpired | BroadcastExpired

  /**
   * A one-shot timer interrupts only while running, and stops. The unicast
   * handler (`Modbus_CAN_UnicastTimeoutHandler`) does nothing once an answer
   * is complete; the broadcast handler always runs `Modbus_CAN_Timeouts`.
   */
  function Expire(n: Node, e: TimerEvent): (r: Node)
    ensures n.Halted? ==> r.Halted?
    ensures n.Running? && e == UnicastExpired && n.link.unicastArmed && !n.link.rx.complete ==>
      r == Timeouts(n.link.(unicastArmed := false))
    ensures n.Running? && e == UnicastExpired && n.link.rx.complete ==> r.Running?
    ensures n.Running? && e == UnicastExpired && !n.link.unicastArmed ==> r == n
    ensures n.Running? && e == BroadcastExpired ==>
      r == (if n.link.broadcastArmed then Timeouts(n.link.(broadcastArmed := false)) else n)
    ensures n.Running? && e == BroadcastExpired && n.link.broadcastArmed && n.link.main == Turnaround ==>
      r.Running? && r.link.main == Idle && !r.link.broadcastArmed
  {
    match n
    case Halted => Halted
    case Running(l) =>
      if e == UnicastExpired then
        if !l.unicastArmed then n
        else
          var l' := l.(unicastArmed := false);
          if l'.rx.complete then Running(l') else Timeouts(l')
      else
        if !l.broadcastArmed then n
        else Timeouts(l.(broadcastArmed := false))
  }

  /** What `Modbus_CAN_Controller` asks of the application layer. */
  datatype Action =
    | Nothing       // nothing to do
    | Resend        // `Modbus_App_Send` of the active request
    | SendNext      // `Modbus_App_FIFOSend`
    | Answer        // `Modbus_CAN_to_App` then `Modbus_App_Manage_CallBack`
    | GiveUp        // `Modbus_App_No_Response`

  /** The controller after a step, and the action for the application layer. */
  datatype Step = Step(link: Link, action: Action)

  /**
   * `Modbus_CAN_Controller`: in IDLE the forward flag is read and cleared,
   * and the active request is resent if it was set, else the next queued
   * one is sent; in WAITREPLY a complete answer clears the flag, enters
   * PROCESSING and goes to the application; TURNAROUND waits; ERROR runs
   * `Repeat_Request` and returns to IDLE.
   */
  function Controller(l: Link): (r: Step)
    ensures l.main == Idle ==> r.link == l.(forward := false) && r.action == (if l.forward then Resend else SendNext)
    ensures l.main == WaitReply && l.rx.complete ==>
      r.action == Answer && r.link == l.(main := Processing, rx := l.rx.(complete := false))
    ensures l.main == WaitReply && !l.rx.complete ==> r == Step(l, Nothing)
    ensures l.main == Error ==>
      r.link.main == Idle && (r.action == GiveUp <==> l.attempts >= l.maxAttempts)
      && r.link.(main := l.main) == RepeatRequest(l).link
    ensures l.main in {Initial, Turnaround, Processing} ==> r == Step(l, Nothing)
  {
    match l.main
    case Idle =>
      var (flag, l') := GetForwardFlag(l);
      Step(l', if flag then Resend else SendNext)
    case WaitReply =>
      if l.rx.complete then Step(l.(rx := l.rx.(complete := false), main := Processing), Answer)
      else Step(l, Nothing)
    case Error =>
      var r := RepeatRequest(l);
      Step(r.link.(main := Idle), if r.gaveUp then GiveUp else Nothing)
    case _ => Step(l, Nothing)
  }

  /** `Modbus_CAN_to_App`: the reassembled answer and its length, as the application receives them. */
  function ToApp(l: Link): (r: seq<byte>)
    ensures |r| == l.rx.length
  {
    l.rx.buffer[..l.rx.length]
  }

  /** The frames `fs` arriving one after another at object 17. */
  function Hear(n: Node, fs: seq<CanFrame>): Node
    decreases |fs|
  {
    if fs == [] then n else Hear(IntHandler(n, Arrived(fs[0])), fs[1..])
  }

  /** A frame of a slave's answer always passes the filter set for that slave. */
  lemma AnswerAccepted(l: Link, resp: seq<byte>, slave: byte, i: nat)
    requires l.filter == Some(slave) && i < |Frames(resp, slave, false)|
    ensures Accepts(l, Frames(resp, slave, false)[i])
  {
    FramesCount(resp, slave, false);
    FramesAt(resp, slave, false, i);
    IdFields(Header(KindAt(i, |resp|), false), slave);
  }

  /** Hearing the frames of an answer from the slave being waited for is reassembly of those frames. */
  lemma {:induction false} HearIsDeliver(l: Link, resp: seq<byte>, slave: byte, k: nat)
    requires l.filter == Some(slave) && l.main == WaitReply
    requires k <= |Frames(resp, slave, false)|
    ensures var fs := Frames(resp, slave, false)[k..];
      && Deliver(l.rx, fs, false).Some? ==>
           && Hear(Running(l), fs).Running?
           && Hear(Running(l), fs).link.rx == Deliver(l.rx, fs, false).value
           && Hear(Running(l), fs).link.main == WaitReply
           && Hear(Running(l), fs).link.filter == Some(slave)
           && (Hear(Running(l), fs).link.unicastArmed ==> l.unicastArmed)
           && (!l.rx.complete && Deliver(l.rx, fs, false).value.complete ==> !Hear(Running(l), fs).link.unicastArmed)
    decreases |Frames(resp, slave, false)| - k
  {
    var all := Frames(resp, slave, false);
    var fs := all[k..];
    if k < |all| && Deliver(l.rx, fs, false).Some? {
      assert fs[0] == all[k];
      assert fs[1..] == all[k + 1..];
      AnswerAccepted(l, resp, slave, k);
      var next := IntHandler(Running(l), Arrived(fs[0]));
      if l.rx.complete {
        HearIsDeliver(l, resp, slave, k + 1);
      } else {
        HearIsDeliver(next.link, resp, slave, k + 1);
      }
    }
  }

  /**
   * An answer of 1 to 255 bytes from the slave the master is waiting for,
   * sent as the slave cuts it into frames, is reassembled in full; the
   * unicast timer is stopped, and the controller then hands it to the
   * application in PROCESSING.
   */
  lemma AnswerReceived(l: Link, resp: seq<byte>, slave: byte)
    requires l.filter == Some(slave) && l.main == WaitReply && !l.rx.complete
    requires 1 <= |resp| <= 255
    ensures var h := Hear(Running(l), Frames(resp, slave, false));
      && h.Running? && h.link.rx.complete && !h.link.unicastArmed
      && ToApp(h.link) == resp
      && Controller(h.link).action == Answer && Controller(h.link).link.main == Processing
  {
    var fs := Frames(resp, slave, false);
    FramesDelivered(l.rx, resp, slave, false);
    HearIsDeliver(l, resp, slave, 0);
    assert fs[0..] == fs;
  }
}
