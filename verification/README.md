# Modbus master and slave over CAN and serial RTU, in Dafny

This project models the core of a Modbus stack for Cortex-M3 boards. The stack has two parts:

- a **master**, which queues requests, sends them over CAN, times them out, retries them and checks the answers;
- a **slave**, which receives requests over CAN or over an RTU serial line, checks them against its I/O image, runs them and answers.

Every part of the C code becomes a module of pure functions over immutable state:

| module | file | what it models |
|---|---|---|
| `Bytes` | `bytes.dfy` | byte, word and packed-bit conversions the PDUs use, with their round trips |
| `Fifo` | `fifo.dfy` | the circular request queue and the failure queue of the master |
| `Crc` | `crc.dfy` | the table-driven Modbus CRC, proved equal to the bitwise CRC-16 of the standard |
| `Rtu` | `rtu.dfy` | the RTU receive state machine (1.5T/3.5T timers, double buffer), ADU building and the CRC control |
| `SlaveSerial` | `slave_serial.dfy` | the slave's serial controller (`Modbus_OSL.c`) |
| `CanFrames` | `can_frames.dfy` | CAN identifiers, cutting a PDU into frames and reassembling them |
| `MasterCan` | `master_can.dfy` | the master's CAN controller: filter, callback, timeouts, retries |
| `SlaveCan` | `slave_can.dfy` | the slave's CAN controller |
| `MasterApp` | `master_app.dfy` | the master application layer (CAN build): user functions, request PDUs, answer checks |
| `SlaveApp` | `slave_app.dfy` | the slave application layer: request checks, execution on the image, responses |
| `Exchange` | `exchange.dfy` | master and slave together: requests and answers round-trip between them |

Interrupt handlers and timer expiries are event functions (`IntHandler`, `Expire`, `OnChar`, `OnT15`, `OnT35`). Hardware
calls become parameters or are dropped. A fatal `while(1)` becomes an absorbing `Halted` state. Each C static buffer
is a 256-byte sequence, so stale bytes past the current length stay visible, as they are in C. The request, answer
and exception formats follow the MODBUS Application Protocol Specification V1.1b3. The CRC follows section 6.2.2
of the MODBUS over Serial Line Specification and Implementation Guide V1.02.

Where the C code has a defect (see Findings), the model runs the code as written, and the corrected version is a
separate member with its intended property proved. The one exception is the master's failure queue, which runs
corrected (see Left out).

## Model

| member | source | states |
|---|---|---|
| Fifo.Init | Modbus_Project_Master/Master/Modbus_FIFO.c:30-33 | all counters start at 0, so the queue is valid and holds nothing |
| Fifo.Enqueue | Modbus_Project_Master/Master/Modbus_FIFO.c:72-81 | a full queue refuses the item; otherwise the item is stored at the head slot, which moves on modulo the queue's bound, and the count grows by one; a head past the array is reported as a store outside it |
| Fifo.Dequeue | Modbus_Project_Master/Master/Modbus_FIFO.c:92-102 | an empty queue yields nothing; otherwise the item at the tail slot is returned, the tail moves on modulo the bound and the count drops by one; a tail past the array is reported as a load outside it |
| Fifo.EnqueueAppends | Modbus_Project_Master/Master/Modbus_FIFO.c:72-81 | on a valid queue that is not full, the contents after an enqueue are the old contents followed by the item, and the queue stays valid |
| Fifo.DequeueTakesOldest | Modbus_Project_Master/Master/Modbus_FIFO.c:92-102 | on a valid non-empty queue, a dequeue returns the oldest item and leaves the rest in order (first in, first out) |
| Fifo.DequeueKeepsValid | Modbus_Project_Master/Master/Modbus_FIFO.c:92-102 | the counters after a dequeue still satisfy the queue invariant |
| Fifo.DequeueShifts | Modbus_Project_Master/Master/Modbus_FIFO.c:92-102 | after a dequeue, position i of the queue holds what position i+1 held before |
| Fifo.SoundShapeStaysInBuffer | Modbus_Project_Master/Master/Modbus_FIFO.c:72-102 | when the full test and the wrap use the array's own size, every store and load stays inside the array |
| Fifo.Put | Modbus_Project_Master/Master/Modbus_FIFO.c:152-162 | enqueue as the layers above use it: no room exactly when the queue holds its maximum, otherwise the contents gain the item at the back |
| Fifo.Take | Modbus_Project_Master/Master/Modbus_FIFO.c:174-185 | dequeue as the layers above use it: nothing exactly when the queue is empty, otherwise the oldest item and the remaining contents |
| Fifo.ErrorQueueStaysInBuffer | Modbus_Project_Master/Master/Modbus_FIFO.c:135-185 | corrected failure queue: every enqueue either refuses or stores inside the 25 slots |
| Fifo.FillAsWrittenCounts | Modbus_Project_Master/Master/Modbus_FIFO.c:152-162 | with the failure queue as written, the first n (at most 25) failures recorded and never read fill slots 0 to n-1 |
| Fifo.ErrorQueueEscapesAsWritten | Modbus_Project_Master/Master/Modbus_FIFO.c:135-162 | with the failure queue as written, after 25 unread failures it is not full, and the 26th is stored at index 25, past its array |
| Crc.TablesAreStandard | Modbus_Project_Master/Master/Modbus_OSL_RTU.c:100-141 | every entry of auchCRCHi and auchCRCLo is the result of eight shift/XOR-0xA001 rounds of its index |
| Crc.FoldIsStandard | Modbus_Project_Master/Master/Modbus_OSL_RTU.c:151-165 | the table loop over any bytes, from any register, computes the bitwise CRC-16 algorithm |
| Crc.CrcIsStandard | Modbus_Project_Master/Master/Modbus_OSL_RTU.c:199-217 | the accumulator of Mount_CRC and Check_CRC is the standard CRC with preset 0xFFFF |
| Crc.CrcBytesStandard | Modbus_Project_Master/Master/Modbus_OSL_RTU.c:151-165 | the two CRC bytes are sent low byte of the standard register first |
| Crc.MountAdu | Modbus_Project_Master/Master/Modbus_OSL_RTU.c:176-187 | the ADU is the address, the PDU and the CRC of both; with a 255-byte PDU the 8-bit count wraps and the CRC of nothing overwrites the first two bytes |
| Crc.CheckCrc | Modbus_Project_Master/Master/Modbus_OSL_RTU.c:199-217 | a frame passes the check exactly when it has at least two bytes and its last two are the CRC the sender appends to the rest, low byte first |
| Crc.MountedAduChecks | Modbus_Project_Master/Master/Modbus_OSL_RTU.c:176-217 | round trip: every ADU built for a PDU shorter than 255 bytes passes the CRC check, whatever follows it in the buffer |
| Crc.EmptyCrc | Modbus_Project_Master/Master/Modbus_OSL_RTU.c:199-217 | a two-byte frame passes only as 0xFF 0xFF, the CRC of no bytes |
| Rtu.Store | Modbus_Project_Master/Master/Modbus_OSL_RTU.c:485-531 | a character below position 256 lands at the index of the receiving buffer; the other buffer and the published frame are untouched |
| Rtu.Init | Modbus_Project_Master/Master/Modbus_OSL_RTU.c:338-368 | the line starts INITIAL, receiving into the first buffer, at index and length 0 |
| Rtu.OnT15 | Modbus_Project_Master/Master/Modbus_OSL_RTU.c:379-392 | 1.5T of silence ends a reception (state CONTROL AND WAITING) and is fatal in any other state |
| Rtu.OnT35 | Modbus_Project_Master/Master/Modbus_OSL_RTU.c:414-464 | 3.5T of silence is legal in INITIAL, CONTROL AND WAITING and EMISSION and fatal otherwise; it leaves the line IDLE, and after a reception the frame flag OK and the index 0 |
| Rtu.OnChar | Modbus_Project_Master/Master/Modbus_OSL_RTU.c:485-531 | a character is never fatal; it is dropped in INITIAL and EMISSION and marks a late frame NOK in CONTROL AND WAITING |
| Rtu.StartEmission | Modbus_Project_Slave/Slave/Modbus_OSL.c:577-602 | sending a reply puts the line in EMISSION |
| Rtu.LMsgGet | Modbus_Project_Master/Master/Modbus_OSL_RTU.c:574-577 | the published length less its two CRC bytes; below 2 the unsigned char wraps to 254 or 255 |
| Rtu.ControlCrc | Modbus_Project_Master/Master/Modbus_OSL_RTU.c:226-234 | the frame flag becomes OK exactly when the published length is at least 2 and the last two bytes are the standard CRC of the rest, low byte first |
| Rtu.EventsKeepIndexReset | Modbus_Project_Master/Master/Modbus_OSL_RTU.c:379-531 | the three line events keep the index at 0 in every state that is not receiving |
| Rtu.FeedFrame | Modbus_Project_Master/Master/Modbus_OSL_RTU.c:485-531 | characters received from IDLE: the index counts them, a 257th marks the frame NOK, and nothing outside the receiving buffer changes |
| Rtu.FeedContents | Modbus_Project_Master/Master/Modbus_OSL_RTU.c:485-531 | the first 256 characters received from IDLE land, in order, at the start of the receiving buffer |
| Rtu.FrameArrives | Modbus_Project_Master/Master/Modbus_OSL_RTU.c:414-464 | a frame of 1 to 256 characters followed by silence is published exactly when no error was flagged and the main state is not ERROR, with its characters and its length modulo 256, as the unsigned char `L_Msg` holds it |
| Rtu.OverlongFrameDropped | Modbus_Project_Master/Master/Modbus_OSL_RTU.c:485-531 | a frame of more than 256 characters is never published |
| Rtu.AduArrives | Modbus_Project_Master/Master/Modbus_OSL_RTU.c:176-234 | round trip over the line: the ADU of a PDU of at most 252 bytes is published, passes the CRC control, and gives back the address and the PDU |
| Rtu.MaximalFrameAsWritten | Modbus_Project_Master/Master/Modbus_OSL_RTU.c:414-464 | as written, the 256-character ADU of a 253-byte PDU is published whole but with length 0, and the CRC control fails it |
| Rtu.MaximalFrameFullLength | Modbus_Project_Master/Master/Modbus_OSL_RTU.c:414-464 | the same frame with its length kept in full, as the 16-bit receive index holds it, passes the CRC check and carries the address and the PDU |
| SlaveSerial.Init | Modbus_Project_Slave/Slave/Modbus_OSL.c:229-309 | an address above 247 is refused with nothing changed; otherwise the controller is well formed, with that address, the frame flag OK, main state INITIAL, the requested baud rate (or the default) and RTU unless ASCII was asked for |
| SlaveSerial.Uart | Modbus_Project_Slave/Slave/Modbus_OSL.c:319-355 | a parity error marks the frame NOK; in RTU mode a character reaches the RTU machine; in ASCII mode it is ignored |
| SlaveSerial.Timer15 | Modbus_Project_Master/Master/Modbus_OSL_RTU.c:379-392 | the 1.5T interrupt is the RTU machine's 1.5T step, or a stop when that step is fatal |
| SlaveSerial.Timer35 | Modbus_Project_Master/Master/Modbus_OSL_RTU.c:414-464 | the 3.5T interrupt is the RTU machine's 3.5T step, or a stop when that step is fatal |
| SlaveSerial.EventsKeepWf | Modbus_Project_Slave/Slave/Modbus_OSL.c:319-355 | the line events only raise the completion flag together with a complete buffer to read |
| SlaveSerial.ProcessingMsg | Modbus_Project_Slave/Slave/Modbus_OSL.c:446-454 | reading the completion flag clears it |
| SlaveSerial.ProcessingMsgOnce | Modbus_Project_Slave/Slave/Modbus_OSL.c:446-454 | a completed frame is taken at most once: a second read with no new frame finds nothing |
| SlaveSerial.ToApp | Modbus_Project_Slave/Slave/Modbus_OSL.c:466-475 | the application gets the frame without its address and CRC, at the start of its buffer, with that length |
| SlaveSerial.ReceiveRequest | Modbus_Project_Slave/Slave/Modbus_OSL.c:487-552 | the completion flag is always consumed; without a completed frame nothing is delivered; a delivered frame leaves the main state CHECKING with the frame flag OK, and a frame not delivered leaves it IDLE with the application untouched |
| SlaveSerial.ForeignFrameIgnored | Modbus_Project_Slave/Slave/Modbus_OSL.c:487-552 | a frame for another slave is dropped before any CRC check and the main state returns to IDLE |
| SlaveSerial.AddressedFrame | Modbus_Project_Slave/Slave/Modbus_OSL.c:487-552 | for a frame addressed here or broadcast, the broadcast flag is set exactly for address 0, and the frame is delivered exactly when its CRC is right |
| SlaveSerial.GoodFrame | Modbus_Project_Slave/Slave/Modbus_OSL.c:487-552 | a frame addressed here or broadcast with a good CRC reaches the application |
| SlaveSerial.BadFrame | Modbus_Project_Slave/Slave/Modbus_OSL.c:487-552 | a frame addressed here or broadcast with a bad CRC is dropped and the frame flag is back at OK |
| SlaveSerial.CheckedLength | Modbus_Project_Slave/Slave/Modbus_OSL.c:466-475 | a frame that passes the CRC check and starts with a slave address holds its address and both CRC bytes (`L_Msg` at least 3), so stripping them never underflows; the PDU handed on may be empty |
| SlaveSerial.Output | Modbus_Project_Slave/Slave/Modbus_OSL.c:577-602 | in RTU mode the reply is the ADU of the own address and the response PDU, three bytes longer than it, and the line enters EMISSION; in ASCII mode nothing changes |
| SlaveSerial.SerialComm | Modbus_Project_Slave/Slave/Modbus_OSL.c:365-381 | outside main state IDLE nothing happens; in RTU mode a pass ends back in IDLE, keeps the invariant, and sends nothing for a broadcast request |
| SlaveSerial.StartUp | Modbus_Project_Slave/Slave/Modbus_OSL.c:229-309 | after start-up in RTU mode and 3.5T of silence, line and controller are IDLE and ready for a frame |
| SlaveSerial.ListenIsFeed | Modbus_Project_Slave/Slave/Modbus_OSL.c:319-355 | in RTU mode the UART passes every character to the RTU machine and nothing else changes |
| SlaveSerial.AduReceived | Modbus_Project_Slave/Slave/Modbus_OSL.c:487-552 | the ADU a master builds for a PDU of at most 252 bytes for this slave or for all, received by an idle controller, leaves it holding that frame |
| SlaveSerial.HeldFrameServed | Modbus_Project_Slave/Slave/Modbus_OSL.c:365-381 | on a held frame the application gets exactly the PDU; the reply is the ADU of its response, and a broadcast gets none |
| SlaveSerial.DeliveredServed | Modbus_Project_Slave/Slave/Modbus_OSL.c:365-381 | a delivered request is handled by the application and, unless broadcast, answered |
| SlaveSerial.RequestServed | Modbus_Project_Slave/Slave/Modbus_OSL.c:365-381 | end to end over the serial line: a master's ADU of a PDU of at most 252 bytes followed by silence is served, and a unicast request is answered with the ADU of the application's response |
| CanFrames.Header | Modbus_CAN.h:112-160 | a header fits in the three identifier bits above the slave number |
| CanFrames.Id | Modbus_Project_Master/Master/Modbus_CAN.c:216-305 | an identifier fits in the 11 bits of a standard CAN identifier |
| CanFrames.IdFields | Modbus_Project_Master/Master/Modbus_CAN.c:307-319 | header and slave come back out of an identifier, and the receive filter sees the request bit and the slave |
| CanFrames.KindOf | Modbus_Project_Master/Master/Modbus_CAN.c:321-382 | a header a receiver recognises is the header of the frame type it decodes to, in the direction the receiver expects |
| CanFrames.KindOfHeader | Modbus_Project_Master/Master/Modbus_CAN.c:321-382 | decoding a header gives back the frame type it was built from |
| CanFrames.FramesCount | Modbus_Project_Master/Master/Modbus_CAN.c:216-305 | a PDU of n bytes becomes ceil(n/8) frames whose payloads, in order, are the PDU |
| CanFrames.FramesAt | Modbus_Project_Master/Master/Modbus_CAN.c:216-305 | frame i has the identifier of its type and the slave, and carries the i-th group of eight bytes |
| CanFrames.Place | Modbus_Project_Master/Master/Modbus_CAN.c:321-382 | when the bytes fit in the buffer they are written at the index and the bytes before it are kept |
| CanFrames.Absorb | Modbus_Project_Master/Master/Modbus_CAN.c:321-382 | a frame with an unrecognised header is an error; otherwise the PDU is complete exactly when it already was or the frame is an individual or end frame |
| CanFrames.FramesDelivered | Modbus_Project_Master/Master/Modbus_CAN.c:216-382 | round trip over the bus: the frames cut from a PDU of 1 to 255 bytes, received in order, rebuild the PDU with its length and mark it complete |
| MasterCan.Init | Modbus_Project_Master/Master/Modbus_CAN.c:133-176 | the controller starts IDLE, with the attempt counter at 1, no forward flag and no answer pending |
| MasterCan.UnicastTicks | Modbus_Project_Master/Master/Modbus_CAN.c:484-507 | the unicast timeout allows transfer and processing time for every guessed byte, and is half the broadcast timeout plus the congestion time of the earlier attempts |
| MasterCan.UnicastLoad | Modbus_Project_Master/Master/Modbus_CAN.c:484-507 | the value kept in the 32-bit `modbus_unicast_timeout` is below 2^32, congruent to the unicast time modulo 2^32, and equal to it whenever that time fits |
| MasterCan.BroadcastLoad | Modbus_Project_Master/Master/Modbus_CAN.c:515-528 | the value kept in the 32-bit `modbus_broadcast_timeout` is below 2^32, congruent to the broadcast time modulo 2^32, and equal to it whenever that time fits |
| MasterCan.UnicastLoadWraps | Modbus_Project_Master/Master/Modbus_CAN.c:484-507 | a first attempt loads the time asked for exactly when the guess is at most 332 bytes (100 kbit/s) or 947 (1 Mbit/s); a larger guess loads a shorter, wrapped time on every attempt |
| MasterCan.BroadcastLoadWraps | Modbus_Project_Master/Master/Modbus_CAN.c:515-528 | the broadcast timer loads the time asked for exactly when the guess is at most 166 bytes (100 kbit/s) or 473 (1 Mbit/s); a larger guess loads a shorter, wrapped time |
| MasterCan.ReceptionConfiguration | Modbus_Project_Master/Master/Modbus_CAN.c:307-319 | after configuration object 17 accepts answer frames from that slave and no answer is pending |
| MasterCan.FixOutput | Modbus_Project_Master/Master/Modbus_CAN.c:216-305 | a unicast request sets the filter to its slave and waits for the reply with the unicast timer loaded as `MasterCan.UnicastLoad`; a broadcast waits out the turnaround with the broadcast timer loaded as `MasterCan.BroadcastLoad`; the frames sent are the request frames of the PDU |
| MasterCan.CallBack | Modbus_Project_Master/Master/Modbus_CAN.c:321-382 | a frame with no new data, or with an unexpected header, means ERROR; otherwise it is reassembled as an answer |
| MasterCan.IntHandler | Modbus_Project_Master/Master/Modbus_CAN.c:69-130 | a bus fault stops the controller; a filtered frame is taken only while no complete answer is pending |
| MasterCan.GetForwardFlag | Modbus_Project_Master/Master/Modbus_CAN.c:429-435 | the forward flag is read and left cleared |
| MasterCan.RepeatRequest | Modbus_Project_Master/Master/Modbus_CAN.c:443-457 | below the maximum the counter grows by one and the request is marked for resending; at the maximum it is given up and the counter restarts at 1 |
| MasterCan.RepeatsFrom | Modbus_Project_Master/Master/Modbus_CAN.c:443-457 | from counter a with maximum m, the next m-a failures are resent and the one after is given up |
| MasterCan.GivesUpAfterMax | Modbus_Project_Master/Master/Modbus_CAN.c:437-457 | a fresh request that is never answered is sent exactly m times and then given up once |
| MasterCan.Timeouts | Modbus_Project_Master/Master/Modbus_CAN.c:459-472 | a timeout turns WAITREPLY into ERROR and TURNAROUND into IDLE; in any other state it is fatal |
| MasterCan.Expire | Modbus_Project_Master/Master/Modbus_CAN.c:474-528 | a unicast timer that is not running does nothing; once it fires it runs the timeout unless an answer is already complete, and then the controller keeps running; the broadcast timer, when armed, runs the timeout, which takes TURNAROUND to IDLE |
| MasterCan.Controller | Modbus_Project_Master/Master/Modbus_CAN.c:384-422 | IDLE asks to resend or to send the next request; a complete answer in WAITREPLY clears the completion flag, enters PROCESSING and is handed to the application; ERROR goes back to IDLE with the attempt counted |
| MasterCan.ToApp | Modbus_Project_Master/Master/Modbus_CAN.c:537-546 | the application receives as many bytes as were reassembled |
| MasterCan.AnswerAccepted | Modbus_Project_Master/Master/Modbus_CAN.c:307-319 | every frame of a slave's answer passes the filter set for that slave |
| MasterCan.HearIsDeliver | Modbus_Project_Master/Master/Modbus_CAN.c:69-130 | hearing the frames of the awaited slave's answer is reassembling them |
| MasterCan.AnswerReceived | Modbus_Project_Master/Master/Modbus_CAN.c:321-422 | an answer of 1 to 255 bytes from the awaited slave is rebuilt in full, and the controller then hands exactly those bytes to the application |
| SlaveCan.Init | Modbus_Project_Slave/Slave/Modbus_CAN.c:121-154 | the slave controller starts IDLE with its address and rate, no request pending |
| SlaveCan.SlaveInit | Modbus_Project_Slave/Slave/Modbus_app.c:467-492 | the image is mapped in any case; an address up to 247 (re)starts the controller and returns 0; a higher one returns 1 and leaves the controller's state as it was, so a running slave keeps serving with its old address and the new image |
| SlaveCan.RefusedAtStartUp | Modbus_Project_Slave/Slave/Modbus_CAN.c:340-362 | at start-up (main state INITIAL) a refused address leaves a controller that stops at its first step |
| SlaveCan.CallBack | Modbus_Project_Slave/Slave/Modbus_CAN.c:280-338 | a frame with no new data, or with an unexpected header, means ERROR; otherwise it is reassembled as a request |
| SlaveCan.IntHandler | Modbus_Project_Slave/Slave/Modbus_CAN.c:52-119 | a bus fault stops the slave; a frame for its own object or the broadcast object is taken, the broadcast flag telling which |
| SlaveCan.Send | Modbus_Project_Slave/Slave/Modbus_CAN.c:195-260 | every frame is an answer frame that passes the master's filter for this slave, and for a response of up to 255 bytes their payloads are the response |
| SlaveCan.Controller | Modbus_Project_Slave/Slave/Modbus_CAN.c:340-364 | in IDLE a complete request is handed to the application and handled; a unicast request is answered with the response frames, a broadcast is not |
| SlaveCan.RequestFrameRouted | Modbus_Project_Slave/Slave/Modbus_CAN.c:262-278 | request frames for this slave reach object 17, broadcast frames object 18 |
| SlaveCan.HearIsDeliver | Modbus_Project_Slave/Slave/Modbus_CAN.c:52-119 | hearing the frames of a request addressed here or broadcast is reassembling them |
| SlaveCan.RequestServed | Modbus_Project_Slave/Slave/Modbus_CAN.c:280-364 | a request of 1 to 255 bytes is rebuilt in full, flagged broadcast exactly for address 0, and then served by the controller |
| SlaveCan.ForeignFramesIgnored | Modbus_Project_Slave/Slave/Modbus_CAN.c:52-119 | frames for another slave leave this slave unchanged |
| MasterApp.Encode | Modbus_Project_Master/Master/Modbus_app.c:1065-1193 | a request PDU starts with its function code and is 5 to 252 bytes long |
| MasterApp.EncodeDescribes | Modbus_Project_Master/Master/Modbus_app.c:1065-1193 | every request PDU, read back field by field, gives the request it came from |
| MasterApp.StandardDescribes | Modbus_Project_Master/Master/Modbus_app.c:1065-1073 | a five-byte request reads back as its code, address and quantity or value |
| MasterApp.WriteCoilsDescribes | Modbus_Project_Master/Master/Modbus_app.c:1083-1112 | a write-multiple-coils request reads back as its address, quantity, byte count and coils |
| MasterApp.WriteRegistersDescribes | Modbus_Project_Master/Master/Modbus_app.c:1122-1140 | a write-multiple-registers request reads back as its address, quantity, byte count and registers |
| MasterApp.MaskWriteDescribes | Modbus_Project_Master/Master/Modbus_app.c:1150-1160 | a mask-write request reads back as its address and both masks |
| MasterApp.ReadWriteDescribes | Modbus_Project_Master/Master/Modbus_app.c:1171-1193 | a read/write request reads back as both halves and the registers written |
| MasterApp.Init | Modbus_Project_Master/Master/Modbus_app.c:353-367 | with at least one attempt both queues are empty and the controller IDLE with that maximum; otherwise nothing changes |
| MasterApp.Send | Modbus_Project_Master/Master/Modbus_app.c:525-572 | the request in flight goes out as the frames of its PDU; a unicast request then waits for the reply, a broadcast for the turnaround |
| MasterApp.EnqueueOrSend | Modbus_Project_Master/Master/Modbus_app.c:499-512 | an idle master with nothing queued sends at once; otherwise the request joins the back of the queue, and a full queue returns 1 with nothing changed |
| MasterApp.Submit | Modbus_Project_Master/Master/Modbus_app.c:721-1038 | a request failing the parameter checks returns 1 and changes nothing; any other is enqueued or sent |
| MasterApp.Accepted | Modbus_Project_Master/Master/Modbus_app.c:721-1038 | a request passes its user function's checks only for a slave address up to 247, and never as a broadcast read |
| MasterApp.WriteCoilRequest | Modbus_Project_Master/Master/Modbus_app.c:847-868 | any nonzero coil argument is sent as on |
| MasterApp.FifoSend | Modbus_Project_Master/Master/Modbus_app.c:638-647 | returns 1 exactly when the queue is empty; otherwise the oldest queued request becomes the one in flight and is sent |
| MasterApp.NoResponse | Modbus_Project_Master/Master/Modbus_app.c:613-619 | the request in flight is recorded as a failure with answer 0, 0, unless the failure queue is full |
| MasterApp.RecordFailure | Modbus_Project_Master/Master/Modbus_FIFO.c:152-162 | the request in flight and the answer bytes are appended to the failure queue while it has room; a full queue leaves the master unchanged |
| MasterApp.GetError | Modbus_Project_Master/Master/Modbus_app.c:599-602 | the oldest unread failure is returned and removed; none exactly when there is none |
| MasterApp.ExceptionAsWrittenIgnoresCode | Modbus_Project_Master/Master/Modbus_app.c:469-473 | the exception test as written passes every two-byte answer whose second byte is not 11, whatever its first byte |
| MasterApp.ForeignAnswerRecordedAsWritten | Modbus_Project_Master/Master/Modbus_app.c:469-473 | as written, the answer 5, 2 to a function-3 request is recorded as its exception |
| MasterApp.GatewayExceptionRetriedAsWritten | Modbus_Project_Master/Master/Modbus_app.c:469-473 | as written, the exception answer 0x83, 11 to a function-3 request is not recorded and counts as an error |
| MasterApp.ExceptionAnswerExact | Modbus_Project_Master/Master/Modbus_app.c:469-473 | the corrected test passes exactly a two-byte answer of the request's code plus 128 and a defined exception code |
| MasterApp.ReadGuess | Modbus_Project_Master/Master/Modbus_app.c:543-565 | for reads of fewer than 256 items, the guessed answer size covers the answer PDU |
| MasterApp.ManyCoilsGuess | Modbus_Project_Master/Master/Modbus_app.c:543-565 | the guess ORs the quantity's two bytes: a read of 256 coils guesses 9 bytes for a 34-byte answer |
| MasterApp.BroadcastCoilWraps | Modbus_Project_Master/Master/Modbus_app.c:540-548 | a broadcast write of one coil on guesses 263 bytes, so at 100 kbit/s its broadcast timer load wraps to a shorter time |
| MasterApp.ManyRegistersWrap | Modbus_Project_Master/Master/Modbus_app.c:553-556 | a write of 81 registers guesses 336 bytes, so at 100 kbit/s its unicast timer load wraps to a shorter time on every attempt |
| MasterApp.Guess | Modbus_Project_Master/Master/Modbus_app.c:543-565 | the guessed answer size lies between 8 and 1033 bytes for every accepted request, which bounds the unicast timeout it scales |
| MasterApp.ManageCallBack | Modbus_Project_Master/Master/Modbus_app.c:404-487 | an answer with the request's code that passes its check hands the values to the user and resets the attempts, and one that fails means ERROR; any other answer is recorded as an exception when it is two bytes long with a second byte other than 11, whatever its first byte (the test as written), and otherwise means ERROR |
| MasterApp.AnswerOk | Modbus_Project_Master/Master/Modbus_app.c:1220-1338 | a write's answer passes exactly when its bytes after the code are the request's address and value or quantity, high byte first (and both masks for a mask write); a read's answer passes only when its length is its byte count plus 2 |
| MasterApp.ReadValues | Modbus_Project_Master/Master/Modbus_app.c:1220-1338 | a read hands over exactly the quantity asked: bit k is bit k mod 8 of data byte k/8, register i the big-endian field at bytes 2+2i; writes hand over nothing |
| MasterApp.Communication | Modbus_Project_Master/Master/Modbus_app.c:384-389 | returns 0 exactly when the master is IDLE with nothing to resend and nothing queued, and keeps the invariant |
| MasterApp.CommunicationResends | Modbus_Project_Master/Master/Modbus_app.c:384-389 | IDLE with the forward flag resends the request in flight and leaves the queue alone |
| MasterApp.CommunicationSendsNext | Modbus_Project_Master/Master/Modbus_app.c:384-389 | IDLE without the forward flag sends the oldest queued request |
| MasterApp.CommunicationAnswers | Modbus_Project_Master/Master/Modbus_app.c:384-389 | a complete answer is copied into the application buffer with its length and handled; nothing is sent |
| MasterApp.CommunicationRecovers | Modbus_Project_Master/Master/Modbus_app.c:384-389 | ERROR returns to IDLE, marking the request for resending below the limit and recording it as unanswered at the limit |
| MasterApp.Interrupt | Modbus_Project_Master/Master/Modbus_CAN.c:69-130 | a CAN interrupt changes only the controller part of the master, keeps the invariant, and a bus fault stops it |
| MasterApp.Expire | Modbus_Project_Master/Master/Modbus_CAN.c:474-528 | a timer interrupt changes only the controller part of the master and keeps the invariant |
| SlaveApp.ReadCheck | Modbus_Project_Slave/Slave/Modbus_app.c:772-855 | a read is accepted exactly when its length is 5, its quantity within the table's limit and the range inside the table; otherwise exception 3 or 2 |
| SlaveApp.WriteCoilCheck | Modbus_Project_Slave/Slave/Modbus_app.c:868-879 | the value must be 0xFF00 or 0 and the length 5, then the coil must exist |
| SlaveApp.WriteRegisterCheck | Modbus_Project_Slave/Slave/Modbus_app.c:892-903 | the length must be 5, then the register must exist |
| SlaveApp.WriteCoilsCheck | Modbus_Project_Slave/Slave/Modbus_app.c:917-939 | quantity 1 to 1968, byte count its 8-bit ceiling over 8, matching length, then the range must exist |
| SlaveApp.WriteRegistersCheck | Modbus_Project_Slave/Slave/Modbus_app.c:953-967 | quantity 1 to 123, byte count twice it, length 6 plus the byte count, then the range must exist |
| SlaveApp.MaskWriteCheck | Modbus_Project_Slave/Slave/Modbus_app.c:980-990 | the length must be 7, then the register must exist |
| SlaveApp.ReadWriteCheck | Modbus_Project_Slave/Slave/Modbus_app.c:1004-1026 | the read half, then the write half with byte count and length, are checked in the source's order |
| SlaveApp.Check | Modbus_Project_Slave/Slave/Modbus_app.c:584-643 | a read sent as broadcast and an unsupported code are refused with exception 1; the ten supported codes go to their checks |
| SlaveApp.ExceptionPdu | Modbus_Project_Slave/Slave/Modbus_app.c:523-567 | the exception response is the code with its top bit set, then the exception code |
| SlaveApp.ReadBitsAnswer | Modbus_Project_Slave/Slave/Modbus_app.c:1044-1100 | a bit read's data bytes unpack to the values read |
| SlaveApp.ReadWordsAnswer | Modbus_Project_Slave/Slave/Modbus_app.c:1109-1145 | a register read's data bytes decode to the registers read |
| SlaveApp.StoreBits | Modbus_Project_Slave/Slave/Modbus_app.c:1202-1225 | coil addr+k takes bit k%8 of data byte k/8, and every other coil is kept |
| SlaveApp.StoreWords | Modbus_Project_Slave/Slave/Modbus_app.c:1233-1248 | corrected merge: register addr+i becomes the big-endian word of data bytes 2i and 2i+1, and every other register is kept |
| SlaveApp.StoreWordsRoundTrip | Modbus_Project_Slave/Slave/Modbus_app.c:1233-1248 | registers sent high byte first are stored as sent |
| SlaveApp.StoreWordsAsWrittenLosesHighByte | Modbus_Project_Slave/Slave/Modbus_app.c:1244-1245 | as written, the register 0x0100 is stored as 0x0001 |
| SlaveApp.StoreWordsAsWritten | Modbus_Project_Slave/Slave/Modbus_app.c:1244-1245 | as written: register addr+i becomes the OR of data bytes 2i and 2i+1, a value below 256, and every other register is kept |
| SlaveApp.StoreWordsAsWrittenKeeps | Modbus_Project_Slave/Slave/Modbus_app.c:1244-1245 | registers sent high byte first are stored as the OR of their two bytes, so the written range holds what was sent exactly when every value is below 256 |
| SlaveApp.MaskSelects | Modbus_Project_Slave/Slave/Modbus_app.c:1259-1277 | a mask write keeps the bits the AND mask selects and takes every other bit from the OR mask |
| SlaveApp.MaskUnique | Modbus_Project_Slave/Slave/Modbus_app.c:1259-1277 | no other word keeps those bits of the register and those of the OR mask |
| SlaveApp.Execute | Modbus_Project_Slave/Slave/Modbus_app.c:677-717 | the response starts with the request's code, reads leave the image alone, and table sizes do not change |
| SlaveApp.ManageRequest | Modbus_Project_Slave/Slave/Modbus_app.c:523-567 | an accepted request is executed; a refused unicast request is answered with its exception; a refused broadcast changes nothing |
| SlaveApp.Receive | Modbus_Project_Slave/Slave/Modbus_app.c:730-747 | the PDU is written at the start of the request buffer with its length, and the rest is kept |
| Bytes.UnwordsWords | Modbus_Project_Master/Master/Modbus_app.c:1122-1140 | registers sent high byte first decode back to the registers |
| Bytes.WordsUnwords | Modbus_Project_Master/Master/Modbus_app.c:1261-1273 | an even-length byte string decoded to registers encodes back to itself |
| Bytes.UnpackPack | Modbus_Project_Master/Master/Modbus_app.c:1083-1112 | packed single-bit values unpack to the values |
| Bytes.PackPadding | Modbus_Project_Master/Master/Modbus_app.c:1083-1112 | the bits above the last value of a packed field are zero |
| Exchange.RequestChecked | Modbus_Project_Slave/Slave/Modbus_app.c:584-643 | any request the master's user functions accept, built as a PDU, is accepted by the slave's checks exactly when the image holds what it addresses, and refused with exception 2 otherwise |
| Exchange.ReadBitsAnswered | Modbus_Project_Master/Master/Modbus_app.c:1220-1249 | the slave's answer to a bit read passes the master's check, and the user receives exactly the addressed bits when the tables hold only 0 and 1, as the slave's own writes leave them |
| Exchange.ReadBitsPasses | Modbus_Project_Master/Master/Modbus_app.c:1220-1249 | whatever bytes the coil and input tables hold, the slave's answer to a bit read passes the master's check and hands the user one value per bit asked for |
| Exchange.ReadWordsAnswered | Modbus_Project_Master/Master/Modbus_app.c:1261-1273 | the slave's answer to a register read passes the master's check, and the user receives exactly the addressed registers |
| Exchange.ReadWriteAnswered | Modbus_Project_Master/Master/Modbus_app.c:1326-1338 | the answer to a read/write passes the check; the user receives the registers read after the write, and each written register holds the OR of the two bytes of the value sent |
| Exchange.ReadWriteRuns | Modbus_Project_Slave/Slave/Modbus_app.c:1290-1314 | the slave's read/write: each written register takes the OR of the value's two bytes, and the answer is the range read after the write |
| Exchange.WriteRegistersRuns | Modbus_Project_Slave/Slave/Modbus_app.c:1233-1248 | the slave's write of several registers: each takes the OR of the value's two bytes, every other register is kept, and the answer echoes address and quantity |
| Exchange.WriteAnswered | Modbus_Project_Master/Master/Modbus_app.c:1285-1293 | the slave's echo of any write passes the master's check |
| Exchange.MaskWriteAnswered | Modbus_Project_Master/Master/Modbus_app.c:1304-1313 | the slave's echo of a mask write passes the master's check |
| Exchange.Answered | Modbus_Project_Master/Master/Modbus_app.c:404-487 | for any accepted request and any image, the slave's response carries the request's code and passes the master's answer check |
| Exchange.ExceptionAnswered | Modbus_Project_Master/Master/Modbus_app.c:469-473 | the slave's exception response passes the master's exception test both as written and corrected, and is never taken for a normal answer |
| Exchange.ExceptionRecorded | Modbus_Project_Master/Master/Modbus_app.c:464-484 | the master's callback on the slave's exception response hands over nothing, resets the attempts, returns to IDLE and, while there is room, appends the request with that response to the failure queue |
| Exchange.Served | Modbus_Project_Slave/Slave/Modbus_app.c:523-567 | a request the master issues is executed by the slave exactly when the image holds what it addresses; otherwise a unicast gets exception 2 and a broadcast changes nothing |
| Exchange.Exchanged | Modbus_Project_Master/Master/Modbus_app.c:404-487 | a whole unicast exchange, for any image: the master accepts the answer exactly when the slave's image holds what was addressed; otherwise the answer is exception 2, which the exception test records, as written and corrected |

## Left out

- ASCII serial mode: the controller ignores characters in ASCII mode, and the ASCII framing itself is not modelled.
- The master's serial build (the `OSL_Mode` branch of the master `Modbus_app.c`) is not modelled; the master is modelled in its CAN build.
- Hardware set-up and driver calls (GPIO, UART and CAN peripheral registers, LEDs, busy waits) are left out: they carry no logic of the stack.
- `Modbus_OSL_Timers.c` and the timer reload values are not modelled. The 1.5T and 3.5T expiries are events, and `Modbus_CAN_SetBitRate` only stores a bit rate and a delay.
- Interrupt interleaving is modelled only at event granularity: each interrupt is one atomic step between main-loop steps.
- MasterCan.UnicastTicks: the unicast time asked for, as an unbounded integer. What the timer is loaded with is `MasterCan.UnicastLoad`, that time modulo 2^32. The source computes the products in signed 32-bit `int`, whose overflow C leaves undefined; the model takes the two's-complement wrap the Cortex-M3 performs. Ordinary requests reach it: from guess 333 at 100 kbit/s (a write of 81 registers guesses 336) and from 948 at 1 Mbit/s. The time at which a timer fires is not modelled (expiry is an event), so the wrap shows only in the value loaded.
- MasterCan.BroadcastTicks: the broadcast time asked for, as an unbounded integer. The timer is loaded with `MasterCan.BroadcastLoad`, that time modulo 2^32. It wraps from guess 167 at 100 kbit/s, which every broadcast write of one coil on reaches (guess 263), and from 474 at 1 Mbit/s.
- Pointer arguments of the master's user functions are snapshots taken when the request is made. Later writes by the user to those arrays are not modelled.
- Bytes that C writes past a 256-byte buffer (the 257th RTU character, CAN data past index 255) are dropped in the model. The source writes them outside the buffer.
- Rtu.ControlCrc: a published length below 2 (a 256-character frame publishes 0) is rejected. The source compares bytes before the start of the buffer there (see the findings).
- The slave serial application buffer is 253 bytes in C and 256 in the model; no reachable length differs.
- Unreachable `default:` branches that call the fatal-error routine are modelled as the `Halted` state.
- The debug getters and test programs (`maintest.c`, `maintest_slave.c`) are not part of this model.
- SlaveApp.Execute: its own contract states only the shape of the response and what stays unchanged. The values read and written are stated by `SlaveApp.ReadBitsAnswer`, `SlaveApp.StoreBits`, `SlaveApp.StoreWordsAsWritten`, `SlaveApp.MaskSelects` and the `Exchange` lemmas.
- MasterApp.Communication: its own contract states only the return code and the invariant. Each branch is stated by `MasterApp.CommunicationResends`, `MasterApp.CommunicationSendsNext`, `MasterApp.CommunicationAnswers` and `MasterApp.CommunicationRecovers`.
- MasterApp.Interrupt: states only what changes around the controller. What the controller itself does is stated by `MasterCan.IntHandler`.
- MasterApp.Expire: states only what changes around the controller. What the controller itself does is stated by `MasterCan.Expire`.
- CanFrames.Header: its own contract only bounds the result. The bit layout is stated by CanFrames.IdFields and CanFrames.KindOfHeader.
- CanFrames.Id: its own contract only bounds the result. The bit layout is stated by CanFrames.IdFields.
- MasterCan.ToApp: its own contract states only the length. The bytes handed over are stated by MasterCan.AnswerReceived.
- Rtu.StartEmission: its own contract states only the new line state. The ADU sent with it is stated by SlaveSerial.Output.
- MasterApp.NoResponse: the failure queue runs corrected: full at 25 items, positions wrapping at 25 (`Fifo.ErrorShape`). As written it wraps at 255 over 25 slots, so a 26th failure recorded with none read is stored outside the array (`Fifo.ErrorQueueEscapesAsWritten`); the model does not follow the master into that state.
- MasterApp.RecordFailure: runs on the corrected failure queue, as MasterApp.NoResponse does.
- MasterApp.ManageCallBack: records exceptions in the corrected failure queue, as MasterApp.NoResponse does; its exception test is the one as written.
- MasterApp.GetError: reads the corrected failure queue, as MasterApp.NoResponse does.
- MasterApp.Init: empties the corrected failure queue, as MasterApp.NoResponse does.
- MasterCan.IntHandler: a frame that arrives while a complete answer is pending is dropped. In C it stays unread in message object 17 with its interrupt pending, and may be taken once the answer is consumed; the model keeps no such backlog.
- SlaveCan.IntHandler: a frame that arrives while a complete request is pending is dropped. In C it stays unread in message object 17 or 18 with its interrupt pending, and may be taken once the request is served; the model keeps no such backlog.
- Kept as written, everywhere the model runs them: the answer-size guess `pdu[4] | pdu[3]` (see `MasterApp.ManyCoilsGuess`); the guess for function 23, which reads byte 10 of the request (the high byte of the first register written) instead of the read quantity; the RTU length `L_Msg` in an unsigned char (`Rtu.MaximalFrameAsWritten`); the master's exception test (`MasterApp.ExceptionAsWrittenIgnoresCode`); the slave's register merge for functions 16 and 23 (`SlaveApp.StoreWordsAsWritten`); and the 32-bit timer loads (`MasterCan.UnicastLoadWraps`, `MasterCan.BroadcastLoadWraps`). The corrected versions under Findings are proved as separate members.

## Findings

| source | as written | input that shows it | evidently intended | confidence | as-written member | corrected member |
|---|---|---|---|---|---|---|
| Modbus_Project_Master/Master/Modbus_FIFO.c:135-185 | the failure queue tests fullness and wraps at 255, but its array has 25 slots | 26 failures recorded with none read: the 26th is stored at index 25 | full at 25 items, wrap at 25 | not executed | Fifo.ErrorQueueEscapesAsWritten | Fifo.ErrorQueueStaysInBuffer |
| Modbus_Project_Master/Master/Modbus_OSL_RTU.c:414-464 | `L_Msg` is an `unsigned char`, so a 256-character frame publishes length 0, and the CRC control then reads before the buffer | the ADU of a 253-byte PDU (256 characters) | the full length 256, so the frame passes its CRC control | not executed | Rtu.MaximalFrameAsWritten | Rtu.MaximalFrameFullLength |
| Modbus_Project_Master/Master/Modbus_app.c:469-473 | `Msg[0] == Function \| 128` groups as `(Msg[0] == Function) \| 128`, which is always true | answer 5, 2 to a function-3 request is recorded as its exception; answer 0x83, 11 is not | the answer's first byte equals the function code plus 128 | not executed | MasterApp.ForeignAnswerRecordedAsWritten | MasterApp.ExceptionAnswerExact |
| Modbus_Project_Slave/Slave/Modbus_app.c:1244-1245 | register bytes merged as `Msg[2i] \| Msg[2i+1]` instead of the high byte shifted by 8 | register 0x0100, sent as bytes 1, 0, is stored as 1 | `Msg[2i] << 8 \| Msg[2i+1]` | not executed | SlaveApp.StoreWordsAsWrittenLosesHighByte | SlaveApp.StoreWordsRoundTrip |
