/**
 * The Modbus-over-CAN framing shared by master and slave
 * (`Modbus_CAN_FixOutput` and `Modbus_CAN_CallBack` in both
 * `Modbus_CAN.c` files): a PDU is cut into frames of at most eight bytes
 * whose 11-bit identifier is `(header << 8) | slave`. The three header bits
 * hold the frame type in bits 1-2 (individual, begin, continuation, end) and
 * in bit 0 whether the frame belongs to a request (1, master to slave) or an
 * answer (0, slave to master). Receivers accept identifiers through a
 * filter on the low nine bits (`ulMsgIDMask = 0x1FF`) and reassemble the
 * PDU in a 256-byte buffer.
 *
 * Identifiers are kept as naturals: `(h << 8) | s` with `s < 256` is
 * `h * 256 + s`, `id & 0x700` is `(id / 256 % 8) * 256` and `id & 0x1FF` is
 * `id % 512`.
 */
module CanFrames {
  import opened Bytes

  /** `MAX_FRAME`: payload bytes per CAN frame. */
  const MaxFrame: nat := 8

  /** The four frame types. */
  datatype Kind = Individual | Begin | Continuation | End

  function KindCode(k: Kind): nat
  {
    match k
    case Individual => 0
    case Begin => 1
    case Continuation => 2
    case End => 3
  }

  /** The header of a frame: the type in bits 1-2, the request bit in bit 0. */
  function Header(k: Kind, request: bool): (h: nat)
    ensures h < 8
  {
    2 * KindCode(k) + if request then 1 else 0
  }

  /** The identifier `(header << 8) | slave`. */
  function Id(header: nat, slave: byte): (id: nat)
    requires header < 8
    ensures id < 2048
  {
    header * 256 + slave
  }

  /** The payload of a CAN data frame: at most eight bytes (`ulMsgLen`). */
  type FrameData = s: seq<byte> | |s| <= 8

  /** A CAN data frame: identifier and payload. */
  datatype CanFrame = CanFrame(id: nat, data: FrameData)

  /** `(id & 0x700) >> 8`: the three header bits of an identifier. */
  function HeaderOf(id: nat): nat { id / 256 % 8 }

  /** `id & 0x1FF`: the identifier bits a receive filter compares. */
  function Filtered(id: nat): nat { id % 512 }

  /** The header and slave number come back out of an identifier, and the filter sees the request bit and the slave. */
  lemma IdFields(h: nat, slave: byte)
    requires h < 8
    ensures HeaderOf(Id(h, slave)) == h
    ensures Filtered(Id(h, slave)) == (h % 2) * 256 + slave
  {
  }

  /**
   * The frame type a receiver reads from a header, given which direction it
   * expects: the master's callback knows 0x000, 0x200, 0x400 and 0x600, the
   * slave's 0x100, 0x300, 0x500 and 0x700; anything else is unexpected.
   */
  function KindOf(h: nat, request: bool): (k: Option<Kind>)
    ensures k.Some? ==> Header(k.value, request) == h
  {
    if h >= 8 || h % 2 != (if request then 1 else 0) then None
    else if h / 2 == 0 then Some(Individual)
    else if h / 2 == 1 then Some(Begin)
    else if h / 2 == 2 then Some(Continuation)
    else Some(End)
  }

  /** Decoding a header gives back the frame type it was built from. */
  lemma KindOfHeader(k: Kind, request: bool)
    ensures KindOf(Header(k, request), request) == Some(k)
  {
  }

  /** The frame of type `k` for `slave` carrying `data`. */
  function Make(k: Kind, request: bool, slave: byte, data: FrameData): CanFrame
  {
    CanFrame(Id(Header(k, request), slave), data)
  }

  /**
   * `Modbus_CAN_FixOutput`: no frame for an empty PDU; one individual frame
   * for at most eight bytes; otherwise a begin frame with the first eight
   * bytes, continuation frames of eight, and an end frame with the rest.
   */
  function Frames(pdu: seq<byte>, slave: byte, request: bool): seq<CanFrame>
  {
    if |pdu| == 0 then []
    else if |pdu| <= MaxFrame then [Make(Individual, request, slave, pdu)]
    else [Make(Begin, request, slave, pdu[..MaxFrame])] + Rest(pdu[MaxFrame..], slave, request)
  }

  /** The frames after the begin frame of a long PDU. */
  function Rest(rest: seq<byte>, slave: byte, request: bool): seq<CanFrame>
    requires |rest| >= 1
    decreases |rest|
  {
    if |rest| <= MaxFrame then [Make(End, request, slave, rest)]
    else [Make(Continuation, request, slave, rest[..MaxFrame])] + Rest(rest[MaxFrame..], slave, request)
  }

  /** The payloads of `fs`, concatenated in order. */
  function Payload(fs: seq<CanFrame>): seq<byte>
  {
    if fs == [] then [] else fs[0].data + Payload(fs[1..])
  }

  lemma {:induction false} PayloadAppend(a: seq<CanFrame>, b: seq<CanFrame>)
    ensures Payload(a + b) == Payload(a) + Payload(b)
    decreases |a|
  {
    if a == [] {
      assert a + b == b;
    } else {
      assert (a + b)[0] == a[0] && (a + b)[1..] == a[1..] + b;
      PayloadAppend(a[1..], b);
    }
  }

  /** Bytes `8i ..` of `s`, at most eight of them: the payload of frame `i`. */
  function Chunk(s: seq<byte>, i: nat): FrameData
    requires MaxFrame * i < |s|
  {
    if MaxFrame * i + MaxFrame <= |s| then s[MaxFrame * i .. MaxFrame * i + MaxFrame] else s[MaxFrame * i..]
  }

  /**
   * The type of frame `i` of a PDU of `n` bytes: individual for a short PDU;
   * otherwise begin first, end for the frame holding the last byte, and
   * continuation in between.
   */
  function KindAt(i: nat, n: nat): Kind
  {
    if n <= MaxFrame then Individual
    else if i == 0 then Begin
    else if MaxFrame * i + MaxFrame >= n then End
    else Continuation
  }

  /** The frames after the begin frame: one per started group of eight bytes, and their payloads make up `rest`. */
  lemma {:induction false} RestCount(rest: seq<byte>, slave: byte, request: bool)
    requires |rest| >= 1
    ensures |Rest(rest, slave, request)| == ByteCount(|rest|)
    ensures Payload(Rest(rest, slave, request)) == rest
    decreases |rest|
  {
    var fs := Rest(rest, slave, request);
    if |rest| > MaxFrame {
      var tail := rest[MaxFrame..];
      RestCount(tail, slave, request);
      var head := [Make(Continuation, request, slave, rest[..MaxFrame])];
      assert fs == head + Rest(tail, slave, request);
      PayloadAppend(head, Rest(tail, slave, request));
      assert Payload(head) == rest[..MaxFrame] + Payload([]);
      assert rest == rest[..MaxFrame] + tail;
    } else {
      assert Payload(fs) == rest + Payload([]);
    }
  }

  /** Frame `i` after the begin frame carries chunk `i` of `rest`; the last one is an end frame, the others continuations. */
  lemma {:induction false} RestAt(rest: seq<byte>, slave: byte, request: bool, i: nat)
    requires MaxFrame * i < |rest|
    ensures i < |Rest(rest, slave, request)| && Rest(rest, slave, request)[i] ==
      Make(if MaxFrame * i + MaxFrame >= |rest| then End else Continuation, request, slave, Chunk(rest, i))
    decreases i
  {
    if i == 0 {
      RestFirst(rest, slave, request);
    } else {
      var tail := rest[MaxFrame..];
      RestAt(tail, slave, request, i - 1);
      RestNext(rest, slave, request);
      ChunkShift(rest, i);
    }
  }

  /** The first frame after the begin frame carries the first chunk. */
  lemma RestFirst(rest: seq<byte>, slave: byte, request: bool)
    requires 1 <= |rest|
    ensures 1 <= |Rest(rest, slave, request)|
    ensures Rest(rest, slave, request)[0] == Make(if MaxFrame >= |rest| then End else Continuation, request, slave, Chunk(rest, 0))
  {
    if |rest| < MaxFrame {
      assert Chunk(rest, 0) == rest[0..] == rest;
    } else {
      assert Chunk(rest, 0) == rest[..MaxFrame];
    }
  }

  /** After its first frame, the frames of a long remainder are those of what follows its first chunk. */
  lemma RestNext(rest: seq<byte>, slave: byte, request: bool)
    requires MaxFrame < |rest|
    ensures |Rest(rest, slave, request)| == 1 + |Rest(rest[MaxFrame..], slave, request)|
    ensures Rest(rest, slave, request)[1..] == Rest(rest[MaxFrame..], slave, request)
  {
  }

  /** Chunk `i` of a sequence is chunk `i - 1` of what follows its first chunk. */
  lemma ChunkShift(s: seq<byte>, i: nat)
    requires 0 < i && MaxFrame * i < |s|
    ensures Chunk(s[MaxFrame..], i - 1) == Chunk(s, i)
  {
    var t := s[MaxFrame..];
    var lo := MaxFrame * (i - 1);
    assert lo + MaxFrame == MaxFrame * i;
    if lo + MaxFrame <= |t| {
      assert t[lo .. lo + MaxFrame] == s[lo + MaxFrame .. lo + 2 * MaxFrame];
    } else {
      assert t[lo..] == s[lo + MaxFrame..];
    }
  }

  /**
   * The chunking of `Modbus_CAN_FixOutput`: a PDU of `n` bytes becomes
   * `ceil(n / 8)` frames whose payloads in order are the PDU.
   */
  lemma FramesCount(pdu: seq<byte>, slave: byte, request: bool)
    ensures |Frames(pdu, slave, request)| == ByteCount(|pdu|)
    ensures Payload(Frames(pdu, slave, request)) == pdu
  {
    var fs := Frames(pdu, slave, request);
    if |pdu| == 0 {
    } else if |pdu| <= MaxFrame {
      assert Payload(fs) == pdu + Payload([]);
    } else {
      var rest := pdu[MaxFrame..];
      RestCount(rest, slave, request);
      var head := [Make(Begin, request, slave, pdu[..MaxFrame])];
      PayloadAppend(head, Rest(rest, slave, request));
      assert Payload(head) == pdu[..MaxFrame] + Payload([]);
      assert pdu == pdu[..MaxFrame] + rest;
    }
  }

  /**
   * Frame `i` of `Modbus_CAN_FixOutput`: identifier `(header << 8) | slave`
   * with the header of `KindAt(i, n)` in the given direction, and the `i`-th
   * group of eight bytes (the remainder for the last frame) as payload.
   */
  lemma FramesAt(pdu: seq<byte>, slave: byte, request: bool, i: nat)
    requires MaxFrame * i < |pdu|
    ensures i < |Frames(pdu, slave, request)| && Frames(pdu, slave, request)[i] == Make(KindAt(i, |pdu|), request, slave, Chunk(pdu, i))
  {
    if |pdu| < MaxFrame {
      assert Chunk(pdu, 0) == pdu[0..] == pdu;
    } else if i == 0 {
      assert Chunk(pdu, 0) == pdu[..MaxFrame];
    } else {
      var rest := pdu[MaxFrame..];
      RestAt(rest, slave, request, i - 1);
      assert Frames(pdu, slave, request)[1..] == Rest(rest, slave, request);
      ChunkShift(pdu, i);
    }
  }

  /**
   * A receiver's reassembly state (`input_pdu`, `modbus_index`,
   * `input_length`, `modbus_complete_reception`).
   */
  datatype Rx = Rx(buffer: Buffer, index: byte, length: byte, complete: bool)

  /**
   * `input_pdu[at + i] = data[i]` for every `i`: the bytes that fall past the
   * 256-byte buffer are written outside it in the source; the model drops them.
   */
  function Place(buffer: Buffer, at: byte, data: seq<byte>): (r: Buffer)
    ensures at + |data| <= BufferSize ==> r[..at] == buffer[..at] && r[at .. at + |data|] == data
  {
    var n := if at + |data| <= BufferSize then |data| else BufferSize - at;
    Splice(buffer, at, data[..n])
  }

  /**
   * The reassembly step of `Modbus_CAN_CallBack`: an individual frame is the
   * whole PDU; a begin frame starts it at offset 0; a continuation or end
   * frame is appended at the index (an 8-bit counter), and an end frame
   * completes it with the index as length. A header of the wrong direction
   * is unexpected (`None`), and the caller enters ERROR.
   */
  function Absorb(rx: Rx, f: CanFrame, request: bool): (r: Option<Rx>)
    ensures r.None? <==> KindOf(HeaderOf(f.id), request).None?
    ensures r.Some? ==> (r.value.complete <==> rx.complete || KindOf(HeaderOf(f.id), request).value in {Individual, End})
  {
    match KindOf(HeaderOf(f.id), request)
    case None => None
    case Some(Individual) =>
      Some(Rx(Place(rx.buffer, 0, f.data), |f.data|, |f.data|, true))
    case Some(Begin) =>
      Some(rx.(buffer := Place(rx.buffer, 0, f.data), index := |f.data|))
    case Some(k) =>
      var buffer := Place(rx.buffer, rx.index, f.data);
      var index := Trunc8(rx.index + |f.data|);
      if k == End then Some(Rx(buffer, index, index, true))
      else Some(rx.(buffer := buffer, index := index))
  }

  /**
   * The frames `fs` reaching a receiver in order: a frame is only handed to
   * the callback while no complete PDU is pending (the interrupt handler's
   * guard), and an unexpected frame stops reassembly with `None`.
   */
  function Deliver(rx: Rx, fs: seq<CanFrame>, request: bool): Option<Rx>
    decreases |fs|
  {
    if fs == [] then Some(rx)
    else if rx.complete then Deliver(rx, fs[1..], request)
    else
      match Absorb(rx, fs[0], request)
      case None => None
      case Some(next) => Deliver(next, fs[1..], request)
  }

  /**
   * Receiving the frames after a begin frame, with the first `done` bytes of
   * the PDU already in place and the index at `done`, completes the PDU.
   */
  lemma {:induction false} RestDelivered(rx: Rx, pdu: seq<byte>, done: nat, slave: byte, request: bool)
    requires MaxFrame <= done < |pdu| <= 255
    requires !rx.complete && rx.index == done && rx.buffer[..done] == pdu[..done]
    ensures Deliver(rx, Rest(pdu[done..], slave, request), request).Some?
    ensures var r := Deliver(rx, Rest(pdu[done..], slave, request), request).value;
      r.complete && r.length == |pdu| && r.buffer[..|pdu|] == pdu
    decreases |pdu| - done
  {
    var rest := pdu[done..];
    var fs := Rest(rest, slave, request);
    if |rest| <= MaxFrame {
      LastDelivered(rx, pdu, done, slave, request);
    } else {
      var f := Make(Continuation, request, slave, rest[..MaxFrame]);
      RestNext(rest, slave, request);
      assert fs[1..] == Rest(pdu[done + MaxFrame..], slave, request) by {
        assert rest[MaxFrame..] == pdu[done + MaxFrame..];
      }
      Appended(rx, f, Continuation, request, slave);
      var next := Absorb(rx, f, request).value;
      Joined(next.buffer, pdu, done, done + MaxFrame);
      DeliverStep(rx, fs, request);
      RestDelivered(next, pdu, done + MaxFrame, slave, request);
    }
  }

  /** The end frame holding the last bytes completes the PDU. */
  lemma LastDelivered(rx: Rx, pdu: seq<byte>, done: nat, slave: byte, request: bool)
    requires MaxFrame <= done < |pdu| <= 255 && |pdu| - done <= MaxFrame
    requires !rx.complete && rx.index == done && rx.buffer[..done] == pdu[..done]
    ensures Deliver(rx, Rest(pdu[done..], slave, request), request).Some?
    ensures var r := Deliver(rx, Rest(pdu[done..], slave, request), request).value;
      r.complete && r.length == |pdu| && r.buffer[..|pdu|] == pdu
  {
    var rest := pdu[done..];
    var f := Make(End, request, slave, rest);
    var fs := Rest(rest, slave, request);
    assert fs == [f];
    Appended(rx, f, End, request, slave);
    var next := Absorb(rx, f, request).value;
    Joined(next.buffer, pdu, done, |pdu|);
    DeliverStep(rx, fs, request);
    assert fs[1..] == [];
  }

  /** A frame handed over while no PDU is pending is absorbed before the rest are delivered. */
  lemma DeliverStep(rx: Rx, fs: seq<CanFrame>, request: bool)
    requires fs != [] && !rx.complete && Absorb(rx, fs[0], request).Some?
    ensures Deliver(rx, fs, request) == Deliver(Absorb(rx, fs[0], request).value, fs[1..], request)
  {
  }

  /** A continuation or end frame of the expected direction is appended at the index. */
  lemma Appended(rx: Rx, f: CanFrame, k: Kind, request: bool, slave: byte)
    requires k == Continuation || k == End
    requires f.id == Id(Header(k, request), slave)
    requires !rx.complete && rx.index + |f.data| <= 255
    ensures Absorb(rx, f, request).Some?
    ensures var r := Absorb(rx, f, request).value;
      && r.index == rx.index + |f.data|
      && r.buffer[..rx.index] == rx.buffer[..rx.index]
      && r.buffer[rx.index .. rx.index + |f.data|] == f.data
      && (r.complete <==> k == End)
      && (k == End ==> r.length == r.index)
  {
    KindOfHeader(k, request);
    IdFields(Header(k, request), slave);
  }

  /** A buffer agreeing with `p` before `done` and from `done` to `n` agrees with it up to `n`. */
  lemma Joined(b: seq<byte>, p: seq<byte>, done: nat, n: nat)
    requires done <= n <= |b| && n <= |p|
    requires b[..done] == p[..done] && b[done .. n] == p[done .. n]
    ensures b[..n] == p[..n]
  {
    assert b[..n] == b[..done] + b[done .. n];
    assert p[..n] == p[..done] + p[done .. n];
  }

  /**
   * Round trip over the bus: the frames `Modbus_CAN_FixOutput` cuts from a
   * PDU of 1 to 255 bytes, received in order by a receiver with no complete
   * PDU pending that expects that direction, rebuild the PDU: reception is
   * complete, the length is the PDU's, and the buffer starts with it.
   */
  lemma FramesDelivered(rx: Rx, pdu: seq<byte>, slave: byte, request: bool)
    requires 1 <= |pdu| <= 255 && !rx.complete
    ensures Deliver(rx, Frames(pdu, slave, request), request).Some?
    ensures var r := Deliver(rx, Frames(pdu, slave, request), request).value;
      r.complete && r.length == |pdu| && r.buffer[..|pdu|] == pdu
  {
    var fs := Frames(pdu, slave, request);
    if |pdu| <= MaxFrame {
      KindOfHeader(Individual, request);
      IdFields(Header(Individual, request), slave);
      assert fs[1..] == [];
    } else {
      KindOfHeader(Begin, request);
      IdFields(Header(Begin, request), slave);
      var next := Absorb(rx, fs[0], request).value;
      assert fs[1..] == Rest(pdu[MaxFrame..], slave, request);
      RestDelivered(next, pdu, MaxFrame, slave, request);
    }
  }
}
