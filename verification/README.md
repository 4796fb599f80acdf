# Power meter firmware: a verified model of its UART, upgrade and uplink cores

The firmware receives SLIP packets and firmware images over a UART, writes images to flash and reboots
into them, forwards messages to a TCP server, and sends bytes back. A Python script on a PC drives the
serial upgrade. This project models the stateful parts and proves what they keep over every run.

| file | what it holds |
|---|---|
| `Bytes.dfy` | octets, `Flatten`, a few sequence facts |
| `Slip.dfy` | the SLIP codec (RFC 1055, section "PROTOCOL") with the caller's reaction to each return code |
| `Commands.dfy` | C strings, `strstr` dispatch, the `sscanf` pattern, the host's decimal printing |
| `UartRx.dfy` | slab blocks, reference counters, event queue, recovery; callbacks interleaved with the worker |
| `UartTx.dfy` | transmit ring, claims, semaphore; TX_DONE interleaved with the writer |
| `Uplink.dfy` | message queue with drop-oldest, peek / send / get, short writes |
| `Upgrade.dfy` | flash session, image accounting, FOTA state, command handling, FTP session |
| `SerialUpgrade.dfy` | the host script and the device, end to end, over a FIFO of arbitrarily cut events |
| `Composition.dfy` | the same protocol over the block pool of `UartRx.dfy` |

How to read it. Each C function is a method of a class (`Slip.Decoder`, `UartRx.Receiver`,
`UartTx.Transmitter`, `Uplink.TxQueue`, `Upgrade.Firmware`) or a method with the source's loop; its
contract equates the new state with a function of the old one. Interleavings are machines: a value state, a
`Step` datatype, `Enabled` (what the environment may do), `Next`, and `ValidRun`; the theorems quantify over
all valid runs. Nondeterministic outcomes (which block the allocator returns, whether a driver or library
call succeeds, what `send` answers, the word an allocator scribbles over, an unset local variable, memory
behind the receive buffer) are parameters of the steps.

Assumed of the environment: the driver reports a nonempty range inside a block it owns, beyond what it
reported before, and releases every block before RX_DISABLED; message queues are bounded FIFOs; a work item is
not queued twice and the work queue runs `rx_process` and `fota_work_cb` one after the other; `send` returns an
error or a positive number of bytes; the UART driver refuses a transmission while one is running and takes an
empty one like any other.

## Where the code departs from its documentation or evident intent

The model follows the code; each departure has a theorem that says exactly when it matters.

- `slip.h` documents `ERROR_NO_MEM`, the decoder returns `-ERROR_NO_MEM` and `rx_process` compares with
  `+ERROR_NO_MEM`: a packet as long as the buffer jams the decoder for good (`Slip.FullIsAbsorbing`,
  `Slip.StreamRoundTrip`; `Slip.RepairedCallerRecovers` for the comparison that was meant).
- An image of at most 1024 bytes is never completed or requested, yet the device reboots
  (`Upgrade.CompletedSession`, `SerialUpgrade.EndToEnd`). A failed store does not stop the boot request.
- RX_DISABLED between `uart_rx_enable` and the swap back to idle is forgotten, and a failed `uart_rx_enable`
  leaks a block (`UartRx.EachFailureLeaksOneBlock`). Reception is off for good after the first, or after
  eight of the second, and in no other case (`UartRx.LostRecovery`); both can happen
  (`UartRx.ReceptionCanBeLost`).
- TX_DONE gives the semaphore although it chained a transfer; a writer that takes it makes bytes go out twice
  (`UartTx.WireAccounting`, `UartTx.CollisionHappens`). A write longer than the 256-byte ring wakes up in
  just that moment unless the ring stands at its start, and then also loses its tail (`UartTx.WriteToIdle`).
- `uart_send_data` encodes up to 512 bytes into 512 bytes; the frame is longer for 512 bytes whatever they are,
  and from 256 bytes on for some (`UartTx.EchoFits`).
- `do_tcp_send` returns the last piece's length, so a message sent in pieces is sent again
  (`Uplink.ReturnsLengthIffSingleSend`). A drop between the client's peek and send frees the buffer it sends
  from (`Uplink.SentBufferIsLive`); one between its peek and get makes it remove a message it never sent
  (`Uplink.EveryRunConserves`, `Uplink.OvertakenTakeHappens`).
- A session that receives more than announced writes through a NULL session and requests the upgrade again
  (`Upgrade.OverlongSession`).
- `dfu_flash_start` reports the erase's result only: after a failed `flash_img_init` a download writes through
  NULL, requests the upgrade and reboots into an erased slot (`Upgrade.StartOutcome`,
  `Upgrade.DownloadWithoutInit`). A download that reports success without having sent anything reboots too
  (`Upgrade.DownloadOutcome`).
- The DFU lock's module id is NULL, which is also the unlocked value (`Upgrade.LockExcludes`).
- An upload payload's length is kept in eight bits (`Commands.UploadOfCleanPacket`).

## Model

| member | source | states |
|---|---|---|
| Slip.FrameShape | src/slip/slip.h:88-92 | the documented bound 2n+1, with the exact size, and no END inside a frame's body |
| Slip.WireBytes | src/slip/slip.c:45-48 | the frame of every single byte, in the octets of RFC 1055 |
| Slip.SlipEncode | src/slip/slip.c:51-82 | NULL is refused; otherwise, for any output that holds the frame, the frame fills its front and nothing else is written |
| Slip.HostSlipEncode | scripts/serial_upgrade.py:13-26 | the host's frame is the device's frame behind a leading END |
| Slip.FeedConcat | src/uart_handler.c:287-310 | decoding two pieces in turn is decoding their concatenation |
| Slip.CutsDoNotMatter | src/uart_handler.c:270-313 | how the stream is cut into UART events has no effect on what is delivered |
| Slip.FeedStuffed | src/slip/slip.c:96-135 | a stuffed packet is unstuffed into the buffer behind the index, nothing is delivered early |
| Slip.FullIsAbsorbing | src/slip/slip.c:91-94 | a full decoder never changes or delivers again, because the caller's reset branch is not taken |
| Slip.StreamRoundTrip | src/slip/slip.c:84-147 | for every packet list and every cut of its encoding, exactly the packets before the first overlong one arrive, zero padded; all arrive iff each is shorter than the buffer |
| Slip.ReturnCodes | src/slip/slip.h:50-54 | what each return code tells: packet complete (and only then one is handed on), buffer full, illegal escape, more needed |
| Slip.ViolationDiscards | src/slip/slip.c:124-143 | an ESC followed by anything but its two codes discards the packet: nothing is delivered up to the next END, which restores the start of a packet |
| Slip.PacketIff | src/slip/slip.c:84-147 | for every byte string up to an END: something is delivered iff it is a stuffed packet shorter than the buffer, and then exactly that packet |
| Slip.FromStaleClean | scripts/serial_upgrade.py:17-26 | in the host's framing every packet arrives, each preceded by an empty one, whatever stale bytes the buffer holds |
| Slip.Resynchronises | src/slip/slip.c:137-143 | from every non-full state, exactly what a stream in host framing delivers; only a pending escape loses a frame, and only the first |
| Slip.TwoEndsResynchronise | src/slip/slip.c:130-143 | after any noise two ENDs restore the start of a packet iff the noise did not fill the buffer |
| Slip.RepairedCallerRecovers | src/uart_handler.c:303-306 | testing -ERROR_NO_MEM changes the behaviour of full decoders only, and makes them recover |
| Slip.DeliveriesAreTerminated | src/uart_handler.c:292-301 | every buffer handed to handle_uart_data ends in NUL with the packet short of it, for every byte stream |
| Slip.ZeroTail | src/uart_handler.c:298 | without a protocol violation only zeros follow a delivered packet |
| Slip.Decoder.AddByte | src/slip/slip.c:84-147 | the in-place decoder computes the specified state and return code |
| Slip.Decoder.Reset | src/uart_handler.c:298-300 | after a packet the decoder is the clean one |
| Commands.StrStr | src/uart_handler.c:230-247 | finds the first occurrence, or there is none |
| Commands.Decimal | scripts/serial_upgrade.py:44 | the printed digits denote the number |
| Commands.TransferCommandRoundTrip | src/upgrade_app.c:33-43 | the command printed for any n below 2^31 is dispatched as a transfer and scanned back to n |
| Commands.TransferCommandText | scripts/serial_upgrade.py:44 | the text of the command, for every n |
| Commands.AnnouncedIsScanned | src/upgrade_app.c:33-43 | a signed decimal behind "(" is scanned whatever stands around it, unless an int cannot hold it |
| Commands.ScannedIsAnnounced | src/upgrade_app.c:33-43 | and only such a text is scanned |
| Commands.FetchedLength | src/upgrade_app.c:33-43 | the stored length is the number modulo 2^32, or the unset local |
| Commands.UploadOfCleanPacket | src/uart_handler.c:244-254 | "upload:" hands on the payload's first (length mod 256) bytes; all of it iff at most 255 |
| UartRx.BlockOfExact | src/uart_handler.c:76-86 | rounding down maps a pointer to a block iff it lies inside that block |
| UartRx.RxRdyKeepsInv | src/uart_handler.c:368-379 | a reception, queued or dropped, keeps every counter equal to the number of references |
| UartRx.BufRequestKeepsInv | src/uart_handler.c:380-391 | so does a buffer request, accepted, refused by the driver or unsatisfiable |
| UartRx.RequestOutcome | src/uart_handler.c:380-391 | a free block goes to the driver iff it accepts; a refused one goes back, and nothing else changes |
| UartRx.ReceptionOutcome | src/uart_handler.c:368-379 | queued and submitted iff fewer than eight events wait; otherwise no trace but the bytes in memory |
| UartRx.BufReleasedKeepsInv | src/uart_handler.c:392-396 | so does a release, whether or not it frees the block |
| UartRx.DroppingKeepsInv | src/uart_handler.c:113-122 | so does the worker's decrement, with the slab call still to come |
| UartRx.EnablingKeepsInv | src/uart_handler.c:135-141 | so does uart_rx_enable, succeeding or failing |
| UartRx.StepKeepsInv | src/uart_handler.c:264-405 | counters, fill marks, recovery and wake-up rules survive every callback and every atomic worker operation |
| UartRx.FreedWithLastReference | src/uart_handler.c:113-122 | a block returns to the slab, or is on its way, exactly when its last reference goes |
| UartRx.RunKeepsInv | src/uart_handler.c:264-405 | the invariant holds after every interleaving |
| UartRx.InitEstablishesInv | src/uart_handler.c:493-497 | and at the end of uart_handler_init |
| UartRx.WriteMissesUnread | src/uart_handler.c:368-371 | the driver's next write never touches bytes of an unread event |
| UartRx.RunIsFifo | src/uart_handler.c:264-313 | over every run, consumed bytes then what memory holds unread equal the accepted events' bytes in order |
| UartRx.EventQueueStep | src/uart_handler.c:270-312 | event by event the same: append on reception, take on polling, and the event being read stays intact |
| UartRx.FailedRecoveryMeansFullQueue | src/uart_handler.c:163-175 | a recovery that finds no block means all unleaked blocks are pinned by queued events, one each |
| UartRx.RecoveryFindsBlock | src/uart_handler.c:163-178 | a worker run that starts after RX_DISABLED drains the queue and then finds a block iff not all have leaked |
| UartRx.EachFailureLeaksOneBlock | src/uart_handler.c:135-139 | blocks are leaked by failed uart_rx_enable calls, one each, and by nothing else |
| UartRx.SomeRunTurnsOn | src/uart_handler.c:163-178 | from every state whose recovery was not forgotten and with a block not leaked, some run turns the receiver on |
| UartRx.OffForGoodIff | src/uart_handler.c:124-178 | no run whatever turns the receiver on again iff its recovery was forgotten or all blocks have leaked |
| UartRx.LostRecovery | src/uart_handler.c:163-178 | over every run from initialisation, reception is off for good iff RX_DISABLED fell between the enable and the swap to idle, or eight calls of uart_rx_enable failed |
| UartRx.ReceptionCanBeLost | src/uart_handler.c:135-139 | both ways to lose reception for good occur in runs from initialisation |
| UartRx.NoLostWakeUp | src/uart_handler.c:372-401 | unread events and a stopped receiver always have a worker running or due |
| UartRx.SubmittedExactly | src/uart_handler.c:171-173 | rx_process is submitted by a queued reception, by RX_DISABLED when no recovery is under way and by a failed recovery, and by nothing else |
| UartRx.RecoveryIsTried | src/uart_handler.c:163-171 | rx_process attempts a recovery at its end iff one is under way |
| UartRx.Receiver.constructor | src/uart_handler.c:493-499 | the initial state, with one block at the driver |
| UartRx.Receiver.BlockStartGet | src/uart_handler.c:76-86 | the unique block start at or below the pointer |
| UartRx.Receiver.RxBufAlloc | src/uart_handler.c:88-106 | a free block leaves the slab with counter 1, or there is none |
| UartRx.Receiver.RxBufRef | src/uart_handler.c:108-111 | one counter goes up by one |
| UartRx.Receiver.RxBufUnref | src/uart_handler.c:113-122 | one counter goes down by one, or its block goes back to the slab |
| UartRx.Receiver.RxReady | src/uart_handler.c:368-379 | the callback takes the machine's reception step |
| UartRx.Receiver.BufferRequested | src/uart_handler.c:380-391 | the callback takes the machine's buffer-request step |
| UartRx.Receiver.BufferReleased | src/uart_handler.c:392-396 | the callback takes the machine's release step |
| UartRx.Receiver.ReceiverDisabled | src/uart_handler.c:397-401 | the callback takes the machine's shutdown step |
| UartRx.Receiver.RxEnable | src/uart_handler.c:124-142 | a run of worker steps; succeeds iff a block is free and the driver agrees |
| UartRx.Receiver.RxRecovery | src/uart_handler.c:163-178 | restarts the receiver and goes idle, or stays ongoing with a retry scheduled; does nothing when idle |
| UartRx.Receiver.ConsumeEvent | src/uart_handler.c:287-289 | the byte loop hands on exactly the event's content |
| UartRx.Receiver.ProcessOneEvent | src/uart_handler.c:270-313 | takes the oldest event, hands on its content, drops its reference |
| UartRx.Receiver.RxProcess | src/uart_handler.c:264-316 | uninterrupted, it consumes all pending bytes in order, empties the queue and restarts a stopped receiver |
| UartTx.StepWriter | src/uart_handler.c:415-432 | for every step, whatever the driver answers: bytes the writer was given are placed, kept or abandoned |
| UartTx.StepRing | src/uart_handler.c:318-367 | for every step, whatever the driver answers: placed bytes are conserved, but for one extra copy of a transfer that is rewound |
| UartTx.RunWriter | src/uart_handler.c:407-450 | over every run, requested is placed plus still to be placed plus abandoned; without abandonment in order |
| UartTx.RunRing | src/uart_handler.c:318-367 | over every run, the wire and then the ring hold what was placed, in order and once, unless there was a collision; collisions account exactly for the surplus |
| UartTx.WireAccounting | src/uart_handler.c:318-450 | once drained, in any run, the wire carried the requested number of bytes plus repetitions less losses; unless both occurred it is exact iff neither did |
| UartTx.LossCanHideRepetition | src/uart_handler.c:421-430 | with both a loss and a repetition the wire can still equal what was requested |
| UartTx.CollisionHappens | src/uart_handler.c:362-366 | from power-on, with an accepting driver, three writes that all fit make 44 bytes go out twice |
| UartTx.IdleWritesNeverCollide | src/uart_handler.c:407-450 | writes of at most 256 bytes to an idle, empty transmitter never collide and lose nothing |
| UartTx.IdleWritesAreExact | src/uart_handler.c:318-450 | and go out exactly, including across a wrap as two chained transfers |
| UartTx.WriteDuringChainRepeats | src/uart_handler.c:330-335 | a write under the chained second half makes that half go out twice |
| UartTx.WriteLeads | src/uart_handler.c:407-450 | a call of uart_tx_write is a run of the machine, with these answers of the driver and this many bytes lost |
| UartTx.WriteCodes | src/uart_handler.c:421-447 | what the return code tells: 0 means nothing was given up, 1 that the device is inactive and exactly the bytes without room were; what fits is never given up, and -1 then means that the driver refused |
| UartTx.WriteToIdle | src/uart_handler.c:415-432 | a write to an idle transmitter succeeds iff it has at most 256 bytes, or at most 512 with the ring at its start; otherwise exactly how much is kept, lost and repeated |
| UartTx.EchoFits | src/uart_handler.c:216-223 | the frame stays in the 512-byte buffer iff the bytes, one more for each special one and END do; always iff at most 255 bytes |
| UartTx.Transmitter.TxStart | src/uart_handler.c:318-343 | claims one contiguous run and starts it, or cancels the whole claim |
| UartTx.Transmitter.OnTxDone | src/uart_handler.c:355-367 | releases the run, chains the next, gives the semaphore |
| UartTx.Transmitter.UartTxWrite | src/uart_handler.c:407-450 | for data of any length, blocking included: it terminates with the specified state and return code |
| UartTx.Transmitter.UartSendData | src/uart_handler.c:216-223 | the SLIP frame of the bytes is what is written to the ring |
| Uplink.ReturnsLengthIffSingleSend | src/socket_app.c:41-59 | the return value equals the length iff the message is empty or one send took it whole |
| Uplink.WithoutErrorsAllIsSent | src/socket_app.c:46-56 | without an error every byte is sent |
| Uplink.FailureIsReturned | src/socket_app.c:46-51 | a failing send's error is the return value, however much went out before, and exactly the bytes taken so far are out |
| Uplink.SendOutcome | src/socket_app.c:41-59 | for all answers of send: either everything is out and the last piece's length is returned, or a call failed with bytes to go and its error is |
| Uplink.DoTcpSend | src/socket_app.c:41-59 | the loop computes the specified return value and sends that prefix |
| Uplink.PacketKeepsInv | src/uart_handler.c:181-212 | a packet, stored, refused for lack of memory or displacing the oldest, conserves messages and buffers |
| Uplink.SendKeepsInv | src/socket_app.c:197-213 | so does the client's send |
| Uplink.GetKeepsInv | src/socket_app.c:201-203 | so does its get, even when overtaken |
| Uplink.EveryRunConserves | src/uart_handler.c:192-206 | in every interleaving accepted messages split in order into departed and queued, at most 20 queued, each buffer freed once; the client removes what it sent iff no drop came in between |
| Uplink.PacketOutcome | src/uart_handler.c:186-206 | a packet is queued iff memory was allocated; only then, and only from a queue of 20, does the oldest go |
| Uplink.SentBufferIsLive | src/uart_handler.c:192-199 | in every run, the buffer do_tcp_send is handed is still allocated iff no drop came since the peek |
| Uplink.AtLeastOnce | src/socket_app.c:190-215 | with any short writes and no drops the stream is whole copies in queue order, each departed message at least once |
| Uplink.AtLeastOnceWithDrops | src/socket_app.c:190-215 | with any short writes and drops at any moment the stream is whole copies in order, intact unless a drop freed them; of the messages the client removed exactly those not overtaken by a drop are in it |
| Uplink.OvertakenTakeHappens | src/socket_app.c:194-203 | a take overtaken by a drop occurs in a run from the empty queue |
| Uplink.TurnOutcome | src/socket_app.c:194-213 | exactly when a turn retires the head, counts a failed send, or asks for a reconnect |
| Uplink.TxQueue.constructor | src/socket_app.c:36 | the queue starts empty |
| Uplink.TxQueue.OnPacketReceived | src/uart_handler.c:181-212 | the method takes the specified step |
| Uplink.TxQueue.ClientSend | src/socket_app.c:197-213 | the method takes the specified step and reports a reconnect |
| Uplink.TxQueue.ClientGet | src/socket_app.c:201-203 | the method takes the specified step |
| Uplink.TxQueue.ClientTurn | src/socket_app.c:191-215 | peek, send and get composed |
| Upgrade.CommandsIgnoreCuts | src/uart_handler.c:264-313 | while no packet switches to transfer mode, the device handles the packets of the whole stream however it is cut |
| Upgrade.UploadReachesQueue | src/uart_handler.c:181-260 | an upload frame, however cut, puts exactly one message into tx_send_queue, the payload's first (length mod 256) bytes, behind what the queue kept |
| Upgrade.CommandEffect | src/uart_handler.c:228-260 | what a packet does, told from which keywords occur in its text, in order of precedence; without one, nothing |
| Upgrade.UploadEffect | src/uart_handler.c:244-254 | the message is the memory behind the first "upload:", wherever it stands |
| Upgrade.CommandFromWire | src/uart_handler.c:264-313 | a command frame, however cut into events, is handled as exactly its text |
| Upgrade.RebootFromWire | src/uart_handler.c:255-259 | "reboot" on the wire: the work item reboots, the flash is untouched |
| Upgrade.DownloadEndToEnd | src/upgrade_app.c:261-324 | "download" on the wire: the work item runs the session, the next one reboots, with the complete image iff longer than 1024 bytes and all stored |
| Upgrade.EventsComplete | src/uart_handler.c:274-282 | the whole device after any cut of the rest of a file into image events |
| Upgrade.TransferCompletes | src/uart_handler.c:274-282 | a serial transfer, however cut: all bytes counted, events shorter than 708 acknowledged, one call for the reboot, the image the file iff longer than 1024 bytes and stores succeed |
| Upgrade.PartialSession | src/upgrade_app.c:327-348 | below the announced length the counter counts every byte, the image is what was stored, nothing is requested |
| Upgrade.CompletedSession | src/upgrade_app.c:349-360 | a boot request is made iff the length exceeds 1024; the image is complete iff also every store succeeded |
| Upgrade.OverlongSession | src/upgrade_app.c:349-360 | chunks after the announced length are written through NULL and request again, one each, iff the length exceeds 1024; the image stays |
| Upgrade.FtpDownload | src/upgrade_app.c:261-303 | a download starts from zero whatever came before and leads to the reboot; with a complete image iff longer than 1024 bytes and all stored |
| Upgrade.CallbacksCount | src/upgrade_app.c:78-86 | the callbacks of a session leave the last announced length and the bytes received modulo 2^32, and decide nothing |
| Upgrade.DownloadOutcome | src/upgrade_app.c:261-303 | any download whatever: the device goes on to reboot iff the session started, the code is 226 and the last announced length equals the bytes received modulo 2^32; otherwise it stays as it is and does not retry |
| Upgrade.StartOutcome | src/dfu_lib/nrf_dfu_flash.c:70-109 | success iff there is a context and the erase succeeds; open iff the initialisation succeeded too |
| Upgrade.DownloadWithoutInit | src/dfu_lib/nrf_dfu_flash.c:86-108 | after a failed initialisation every chunk goes through NULL, and the device requests the upgrade and reboots into an empty image |
| Upgrade.StepKeepsCausal | src/upgrade_app.c:224-324 | every event and every work item keeps the state equal to the latest apply_state call, each call justified |
| Upgrade.RebootCausality | src/upgrade_app.c:307-324 | in every run a reboot follows a latest UPDATE_APPLY, made for a reboot packet or when the lengths agreed; two states never occur |
| Upgrade.LockExcludes | src/dfu_lib/nrf_dfu_flash.c:39-60 | the lock refuses a second lock iff the module id is not the unlocked value, which it is |
| Upgrade.OneByte | src/uart_handler.c:287-310 | the byte loop with packets handled on the spot equals decoding first and handling after |
| Upgrade.Firmware.constructor | src/uart_handler.c:56-63 | the state after power-on |
| Upgrade.Firmware.DfuFlashStart | src/dfu_lib/nrf_dfu_flash.c:70-109 | opens an empty session; the return code is the erase's |
| Upgrade.Firmware.DfuDataStore | src/dfu_lib/nrf_dfu_flash.c:129-136 | appends to an open session |
| Upgrade.Firmware.DfuFlashFinish | src/dfu_lib/nrf_dfu_flash.c:112-126 | one boot request, session closed |
| Upgrade.Firmware.ApplyState | src/upgrade_app.c:224-258 | sets the state and submits the work item, except for IDLE |
| Upgrade.Firmware.ImageDataSave | src/upgrade_app.c:327-362 | the specified accounting step |
| Upgrade.Firmware.HandleUartData | src/uart_handler.c:228-260 | the specified dispatch, in the order of the tests |
| Upgrade.Firmware.RxProcessEvent | src/uart_handler.c:274-311 | one event, in either mode, has the specified effect |
| Upgrade.Firmware.StartDfuProcess | src/upgrade_app.c:261-303 | the specified FTP session |
| Upgrade.Firmware.FotaWorkCb | src/upgrade_app.c:307-324 | downloads, reboots or does nothing, as the state says |
| SerialUpgrade.SendFirmware | scripts/serial_upgrade.py:29-91 | what the script writes for any log, its packet counter, and whether its send loop ended |
| SerialUpgrade.HandshakeDeliveries | scripts/serial_upgrade.py:44-45 | what a clean decoder makes of every prefix of the handshake |
| SerialUpgrade.TransferPacketOpens | src/uart_handler.c:235-243 | the decoded handshake sets the length, zeroes the counter, opens the flash and prints the line the host waits for |
| SerialUpgrade.BeginHandshaking | src/uart_handler.c:264-313 | any event of the handshake keeps the invariant, up to and including the switch of modes |
| SerialUpgrade.EndKeepsInv | src/uart_handler.c:276-282 | storing an image event keeps image, counter and request in step with the file |
| SerialUpgrade.ReadKeepsInv | scripts/serial_upgrade.py:49-79 | reading any line, and the chunk it may trigger, keeps acknowledgements in step with chunks |
| SerialUpgrade.StepKeepsInv | scripts/serial_upgrade.py:43-91 | the protocol invariant survives every step |
| SerialUpgrade.ShortStaysShort | src/uart_handler.c:372-377 | once an event of the transfer was dropped, what can still arrive is less than the file, for good, and nothing is requested |
| SerialUpgrade.StepDecreasesWork | scripts/serial_upgrade.py:61-79 | every step uses up a bounded amount of work, so all runs are finite |
| SerialUpgrade.NeverHaltsEarly | scripts/serial_upgrade.py:71-79 | no deadlock: before the reboot something can always happen |
| SerialUpgrade.EndToEnd | src/uart_handler.c:264-316 | every run without drops ends in the reboot; at a reboot nothing was dropped and the image is the file with exactly one earlier boot request iff the file exceeds 1024 bytes; no store follows the finish |
| SerialUpgrade.TwoStepsAreOneEvent | src/uart_handler.c:274-282 | whatever happens between acknowledging and storing an image event, the two steps make up rx_process's turn for it |
| SerialUpgrade.RunSeparates | src/uart_handler.c:274-311 | over every run the events begun in SLIP mode extend what the decoder has seen of the handshake, those begun in transfer mode extend the part of the file counted |
| SerialUpgrade.ModesStaySeparate | src/uart_handler.c:274-311 | for every file: only handshake bytes reach the decoder, only file bytes image_data_save, nothing the uplink, and apply_state is called at most once, for the completed transfer |
| SerialUpgrade.StepReplays | scripts/serial_upgrade.py:49-79 | the host is always where the lines read have brought it, having written that much of the file |
| SerialUpgrade.AcknowledgementsSuffice | scripts/serial_upgrade.py:59-79 | one chunk outstanding at most, ceil(n/512) in all, an acknowledgement for each once everything is delivered; at the reboot the device's log ends the script's send loop with the file written |
| Composition.StepSimulates | src/uart_handler.c:264-405 | every step over the block pool is a protocol step or invisible to the protocol |
| Composition.WorkerIsNeverRefused | src/uart_handler.c:264-313 | the protocol is ready whenever the worker takes or drops an event |
| Composition.RunSimulates | src/uart_handler.c:264-405 | every run over the block pool is a run of the abstract protocol |
| Composition.EndToEnd | src/uart_handler.c:264-405 | the upgrade theorem over every interleaving of host, buffer requests, receptions, drops, releases, shutdowns and recoveries |
| Composition.RebootIsReachable | src/uart_handler.c:163-405 | as long as nothing was dropped and reception is healthy, some continuation over the pool reaches the reboot |
| Composition.RebootReachableIff | src/uart_handler.c:163-405 | in every reachable state some continuation reaches the reboot iff nothing was dropped and reception is not off for good or nothing is left to receive |

## Left out

- LTE, modem, socket setup, polling, the TCP server and the reconnect itself (`src/main.c`, most of `src/socket_app.c`): library calls.
- FTP opening, login, status and close: a session is its callbacks and the code `download_image_file` returns.
- Flash driver, MCUboot and `flash_img` buffering: a session appends to a logical image; patching tools in `scripts/` are not modelled.
- Log lines other than the two the host looks for are one value `Other`, and those of `apply_state` and of completion are not in the log; a packet whose text imitates an acknowledgement is therefore not represented.
- Events dropped before the transfer packet is decoded: a lost piece of the handshake can change the length it announces; the upgrade theorems cover drops from then on, `UartRx` all of them.
- Inevitability over the block pool: a driver that stops asking for buffers stops the transfer; `Composition` proves that the reboot stays reachable, `SerialUpgrade` that it is inevitable for a pipeline that delivers.
- Files of 2^31 bytes or more: the `%d` conversion has no defined result for them.
- A length that does not fit an `int` counts as not scanned.
- UART_TX_ABORTED with a partial length, and several threads in `uart_tx_write` at once: there is one caller.
- Drops between two sends of one do_tcp_send: it is one step, so what a pointer reads is settled when it begins.
- UPDATE_SERIAL and UPDATE_PENDING beyond showing that they never occur.
- A release event without a buffer, interrupts before `k_work_init_delayable`, timing, baud rate, power management, hardware flow control.
