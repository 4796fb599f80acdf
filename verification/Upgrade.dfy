// The device side of an upgrade: src/dfu_lib/nrf_dfu_flash.c, src/upgrade_app.c and the protocol
// part of src/uart_handler.c (handle_uart_data and the body of rx_process's loop). The work queue
// runs rx_process and fota_work_cb one after the other, so the state below has one writer.
module Upgrade {
  import opened Bytes
  import opened Commands
  import Slip
  import Uplink

  datatype FotaState = IDLE | UPDATE_SERIAL | UPDATE_DOWNLOAD | UPDATE_PENDING | UPDATE_APPLY

  // ----------------------------------------------------------------- flash

  /** The flash session: whether ctx is allocated, the image written so far, boot requests made, and
      writes through a NULL ctx. */
  datatype Flash = Flash(open: bool, stream: seq<Byte>, requests: nat, strays: nat)

  /** Outcomes of calls into libraries, and memory contents, that the code cannot control. */
  datatype Env = Env(mallocOk: bool, initOk: bool, eraseOk: bool, storeOk: bool, unset: int, beyond: seq<Byte>)

  predicate Cooperative(env: Env) { env.mallocOk && env.initOk && env.eraseOk && env.storeOk }

  /** dfu_flash_start(0): the new session and the return code. The erase's result hides the result of
      flash_img_init. */
  function FlashStart(f: Flash, env: Env): (Flash, bool) {
    if !f.open && !env.mallocOk then (f, false)
    else (f.(open := env.initOk, stream := if env.eraseOk || env.initOk then [] else f.stream), env.eraseOk)
  }

  /** dfu_data_store */
  function Store(f: Flash, data: seq<Byte>, ok: bool): Flash {
    if !f.open then f.(strays := f.strays + 1)
    else if ok then f.(stream := f.stream + data)
    else f
  }

  /** dfu_flash_finish */
  function Finish(f: Flash): Flash { f.(requests := f.requests + 1, open := false) }

  // ---------------------------------------------------------------- device

  datatype Cause = DownloadCommand | RebootCommand | SerialComplete | FtpComplete

  /** A call of apply_state, with the counters at that moment. */
  datatype Applied = Applied(state: FotaState, cause: Cause, fileLength: nat, totalLength: nat)

  /** The log lines the host tells apart. */
  datatype Line = FetchLength | ReceivedImage | Other

  datatype Device = Device(
    transferMode: bool,
    slip: Slip.State,
    fileLength: nat,
    totalLength: nat,
    flash: Flash,
    state: FotaState,
    workQueued: bool,
    rebooted: bool,
    applied: seq<Applied>,        // every apply_state call so far
    uplinked: seq<seq<Byte>>,     // messages handed to on_packet_received so far
    log: seq<Line>
  )

  const SLIP_MTU := 512

  /** The device after power-on. */
  function Boot(slot: seq<Byte>): Device {
    Device(false, Slip.Clean(SLIP_MTU), 0, 0, Flash(false, slot, 0, 0), IDLE, false, false, [], [], [])
  }

  function Say(d: Device, line: Line): Device { d.(log := d.log + [line]) }

  /** apply_state. total_length is unsigned, so UPDATE_PENDING never falls back to a download. */
  function Applying(d: Device, state: FotaState, cause: Cause): Device {
    d.(state := state,
       workQueued := d.workQueued || state != IDLE,
       applied := d.applied + [Applied(state, cause, d.fileLength, d.totalLength)])
  }

  /** image_data_save up to the store: the counter moves and the acknowledging line is printed. */
  function SaveBegin(d: Device, length: nat): Device {
    var t := d.(totalLength := (d.totalLength + length) % 0x1_0000_0000);
    if length < 708 then Say(t, ReceivedImage) else t
  }

  /** image_data_save from the store on. A store that fails is only logged. */
  function SaveEnd(d: Device, data: seq<Byte>, ok: bool): Device {
    if d.totalLength < d.fileLength then d.(flash := Store(d.flash, data, ok))
    else if d.fileLength > 1024 then d.(flash := Finish(Store(d.flash, data, ok)))
    else d
  }

  function ImageSaved(d: Device, data: seq<Byte>, ok: bool): Device {
    SaveEnd(SaveBegin(d, |data|), data, ok)
  }

  /** handle_uart_data */
  function UartDataHandled(d: Device, p: Slip.Delivery, env: Env): (r: Device)
    ensures r.slip == d.slip
  {
    match Classify(p.buffer)
    case Download => Applying(d, UPDATE_DOWNLOAD, DownloadCommand)
    case Transfer =>
      var text := CString(p.buffer);
      Say(d, if ScanLength(text).Some? then FetchLength else Other)
        .(transferMode := true, flash := FlashStart(d.flash, env).0, totalLength := 0,
          fileLength := FetchFileLength(text, env.unset))
    case Upload(at) => d.(uplinked := d.uplinked + [Uploaded(p.buffer, p.length, at, env.beyond)])
    case Reboot => Applying(d, UPDATE_APPLY, RebootCommand)
    case Unknown => d
  }

  /** Each decoded packet is logged, then handled. */
  function HandlePackets(d: Device, ps: seq<Slip.Delivery>, env: Env): (r: Device)
    ensures r.slip == d.slip
    decreases |ps|
  {
    if ps == [] then d else HandlePackets(UartDataHandled(Say(d, Other), ps[0], env), ps[1..], env)
  }

  function EndImageEvent(d: Device, data: seq<Byte>, ok: bool): Device {
    var t := SaveEnd(d, data, ok);
    if t.fileLength == t.totalLength then Applying(t, UPDATE_APPLY, SerialComplete) else t
  }

  /** One turn of rx_process's loop. transfer_mode is looked at once for the whole event. */
  function ProcessEvent(d: Device, event: seq<Byte>, env: Env): (r: Device)
    requires d.slip.Ok()
    ensures r.slip.Ok()
  {
    if d.transferMode then EndImageEvent(SaveBegin(d, |event|), event, env.storeOk)
    else HandlePackets(d.(slip := Slip.After(d.slip, event)), Slip.Delivered(d.slip, event), env)
  }

  /** rx_process over the queued events. */
  function ProcessEvents(d: Device, events: seq<seq<Byte>>, env: Env): (r: Device)
    requires d.slip.Ok()
    decreases |events|
  {
    if events == [] then d else ProcessEvents(ProcessEvent(d, events[0], env), events[1..], env)
  }

  // ------------------------------------------------------------- wire to queue

  predicate NoTransfer(ps: seq<Slip.Delivery>) { forall p :: p in ps ==> !Classify(p.buffer).Transfer? }

  lemma {:induction false} HandlePacketsConcat(d: Device, ps: seq<Slip.Delivery>, qs: seq<Slip.Delivery>, env: Env)
    ensures HandlePackets(d, ps + qs, env) == HandlePackets(HandlePackets(d, ps, env), qs, env)
    ensures NoTransfer(ps) ==> HandlePackets(d, ps, env).transferMode == d.transferMode
    decreases |ps|
  {
    if ps == [] {
      assert ps + qs == qs;
    } else {
      assert (ps + qs)[1..] == ps[1..] + qs;
      HandlePacketsConcat(UartDataHandled(Say(d, Other), ps[0], env), ps[1..], qs, env);
    }
  }

  /** The log only grows. */
  lemma {:induction false} PacketsExtendLog(d: Device, ps: seq<Slip.Delivery>, env: Env)
    ensures d.log <= HandlePackets(d, ps, env).log
    decreases |ps|
  {
    if ps != [] {
      PacketsExtendLog(UartDataHandled(Say(d, Other), ps[0], env), ps[1..], env);
    }
  }

  /** Handling packets neither looks at the decoder nor touches it. */
  lemma {:induction false} PacketsIgnoreDecoder(d: Device, slip: Slip.State, ps: seq<Slip.Delivery>, env: Env)
    ensures HandlePackets(d.(slip := slip), ps, env) == HandlePackets(d, ps, env).(slip := slip)
    decreases |ps|
  {
    hide UartDataHandled;
    if ps != [] {
      HandlerIgnoresDecoder(Say(d, Other), d.slip, slip, ps[0], env);
      PacketsIgnoreDecoder(UartDataHandled(Say(d, Other), ps[0], env), slip, ps[1..], env);
    }
  }

  /** As long as no packet switches to transfer mode, the cuts between events do not matter: the device
      handles exactly the packets of the whole stream. */
  lemma {:induction false} CommandsIgnoreCuts(d: Device, events: seq<seq<Byte>>, env: Env)
    requires d.slip.Ok() && !d.transferMode && NoTransfer(Slip.Delivered(d.slip, Flatten(events)))
    ensures ProcessEvents(d, events, env) ==
            HandlePackets(d.(slip := Slip.After(d.slip, Flatten(events))), Slip.Delivered(d.slip, Flatten(events)), env)
    decreases |events|
  {
    hide Slip.After, Slip.Delivered, HandlePackets;
    if events == [] {
      NothingToHandle(d, env);
    } else {
      var rest := Flatten(events[1..]);
      var s := Slip.After(d.slip, events[0]);
      var ps, qs := Slip.Delivered(d.slip, events[0]), Slip.Delivered(s, rest);
      Slip.FeedConcat(d.slip, events[0], rest);
      var t := ProcessEvent(d, events[0], env);
      assert NoTransfer(ps) && NoTransfer(qs) by {
        assert forall p :: p in ps || p in qs ==> p in ps + qs;
      }
      HandlePacketsConcat(d.(slip := s), ps, qs, env);
      CommandsIgnoreCuts(t, events[1..], env);
      var u := Slip.After(s, rest);
      PacketsIgnoreDecoder(HandlePackets(d.(slip := s), ps, env), u, qs, env);
      PacketsIgnoreDecoder(d.(slip := s), u, ps + qs, env);
    }
  }

  lemma NothingToHandle(d: Device, env: Env)
    ensures HandlePackets(d, [], env) == d && d.(slip := d.slip) == d
    ensures d.slip.Ok() ==> Slip.After(d.slip, []) == d.slip && Slip.Delivered(d.slip, []) == []
  {
  }

  /** on_packet_received for each of the messages. */
  function Received(q: Uplink.Uplink, messages: seq<seq<Byte>>, allocOk: bool): Uplink.Uplink
    decreases |messages|
  {
    if messages == [] then q else Received(Uplink.PacketReceived(q, messages[0], allocOk), messages[1..], allocOk)
  }

  /** From the wire to the uplink: an "upload:" frame on a clean decoder, however it is cut into events,
      hands on exactly one message, the payload's first |payload| mod 256 bytes, and that message is the
      newest in tx_send_queue; a full queue has lost its oldest. */
  lemma UploadReachesQueue(d: Device, payload: seq<Byte>, events: seq<seq<Byte>>, env: Env, q: Uplink.Uplink, allocOk: bool)
    requires d.slip == Slip.Clean(SLIP_MTU) && !d.transferMode && 7 + |payload| < SLIP_MTU
    requires Flatten(events) == Slip.Encode(NAME_UPLOAD + payload)
    requires var text := CString(Slip.Exactly(NAME_UPLOAD + payload, SLIP_MTU).buffer);
             !Contains(text, NAME_DOWNLOAD) && !Contains(text, NAME_TRANSFER)
    requires |q.queue| <= Uplink.TX_QUEUE_COUNT
    ensures ProcessEvents(d, events, env) ==
            Say(d, Other).(uplinked := d.uplinked + [payload[..|payload| % 256]])
    ensures var t := Received(q, ProcessEvents(d, events, env).uplinked[|d.uplinked|..], allocOk);
            var kept := if |q.queue| == Uplink.TX_QUEUE_COUNT then q.queue[1..] else q.queue;
            t.queue == if allocOk then kept + [Uplink.Message(|q.accepted|, payload[..|payload| % 256])] else q.queue
  {
    hide Slip.After, Slip.Delivered, Slip.Encode, CString, Contains, Flatten;
    var p := Slip.Exactly(NAME_UPLOAD + payload, SLIP_MTU);
    Slip.FeedFrame(d.slip, NAME_UPLOAD + payload);
    assert Slip.Overlay(d.slip.buffer, 0, NAME_UPLOAD + payload) == p.buffer;
    UploadOfCleanPacket(payload, p, env.beyond);
    CommandsIgnoreCuts(d, events, env);
    assert [p][1..] == [];
    assert HandlePackets(d, [p], env) == HandlePackets(UartDataHandled(Say(d, Other), p, env), [], env);
    var message := payload[..|payload| % 256];
    assert (d.uplinked + [message])[|d.uplinked|..] == [message];
    var one := [message];
    assert one[1..] == [];
    assert Received(q, one, allocOk) == Received(Uplink.PacketReceived(q, message, allocOk), [], allocOk);
  }

  // ------------------------------------------------------- what a packet means

  ghost predicate Has(text: seq<Byte>, word: string) { exists k: nat :: OccursAt(text, Ascii(word), k) }

  lemma HasIff(text: seq<Byte>, word: string)
    ensures Has(text, word) <==> Contains(text, Ascii(word))
  {
  }

  /** What a packet does, told from where the keywords occur in its text, before the first NUL: a download
      outranks a transfer, that an upload, and that a reboot. */
  lemma CommandEffect(d: Device, p: Slip.Delivery, env: Env)
    ensures var text, t := CString(p.buffer), UartDataHandled(d, p, env);
            if Has(text, "download") then
              t == d.(state := UPDATE_DOWNLOAD, workQueued := true,
                      applied := d.applied + [Applied(UPDATE_DOWNLOAD, DownloadCommand, d.fileLength, d.totalLength)])
            else if Has(text, "transfer") then
              && t == d.(transferMode := true, fileLength := FetchFileLength(text, env.unset), totalLength := 0,
                         flash := FlashStart(d.flash, env).0, log := t.log)
              && t.log == d.log + [if ScanLength(text).Some? then FetchLength else Other]
            else if Has(text, "upload:") then
              t.uplinked != [] && t == d.(uplinked := d.uplinked + [t.uplinked[|t.uplinked| - 1]])
            else if Has(text, "reboot") then
              t == d.(state := UPDATE_APPLY, workQueued := true,
                      applied := d.applied + [Applied(UPDATE_APPLY, RebootCommand, d.fileLength, d.totalLength)])
            else t == d
  {
    hide CString, StrStr, ScanLength, FetchFileLength, FlashStart, Uploaded;
    var text := CString(p.buffer);
    HasIff(text, "download");
    HasIff(text, "transfer");
    HasIff(text, "upload:");
    HasIff(text, "reboot");
  }

  /** The message an upload hands on is the memory right behind the first "upload:", as many bytes as the
      packet is longer than the keyword, modulo 256, wherever that keyword stands. */
  lemma UploadEffect(d: Device, p: Slip.Delivery, env: Env, k: nat)
    requires var text := CString(p.buffer);
             && !Has(text, "download") && !Has(text, "transfer") && OccursAt(text, Ascii("upload:"), k)
             && forall j: nat :: j < k ==> !OccursAt(text, Ascii("upload:"), j)
    ensures var t, memory := UartDataHandled(d, p, env), p.buffer + env.beyond;
            && |t.uplinked| == |d.uplinked| + 1 && t.uplinked[..|d.uplinked|] == d.uplinked
            && var message := t.uplinked[|d.uplinked|];
               && |message| == (p.length - 7) % 256
               && forall i :: 0 <= i < |message| && k + 7 + i < |memory| ==> message[i] == memory[k + 7 + i]
  {
    hide CString, StrStr;
    var text := CString(p.buffer);
    HasIff(text, "download");
    HasIff(text, "transfer");
    HasIff(text, "upload:");
    assert StrStr(text, NAME_UPLOAD).value == k;
  }

  lemma NoneInShorter(text: seq<Byte>, word: string)
    requires |text| < |word|
    ensures !Has(text, word)
  {
  }

  /** A command frame on a clean decoder, however it is cut into events, is handled as exactly that text. */
  lemma CommandFromWire(d: Device, cmd: seq<Byte>, events: seq<seq<Byte>>, env: Env)
    requires d.slip == Slip.Clean(SLIP_MTU) && !d.transferMode && |cmd| < SLIP_MTU && 0 !in cmd
    requires Flatten(events) == Slip.Encode(cmd) && (Has(cmd, "download") || !Has(cmd, "transfer"))
    ensures var p := Slip.Exactly(cmd, SLIP_MTU);
            CString(p.buffer) == cmd && ProcessEvents(d, events, env) == UartDataHandled(Say(d, Other), p, env)
  {
    hide Slip.After, Slip.Delivered, Slip.Encode, CString, StrStr, Flatten, UartDataHandled;
    var p := Slip.Exactly(cmd, SLIP_MTU);
    CStringPadded(cmd, SLIP_MTU - |cmd|);
    Slip.FeedFrame(d.slip, cmd);
    assert Slip.Overlay(d.slip.buffer, 0, cmd) == p.buffer;
    HasIff(cmd, "download");
    HasIff(cmd, "transfer");
    CommandsIgnoreCuts(d, events, env);
    var one := [p];
    assert one[1..] == [];
    assert HandlePackets(d, one, env) == HandlePackets(UartDataHandled(Say(d, Other), p, env), [], env);
  }

  /** "reboot" on the wire: the work item it submits reboots the device, and nothing has touched the flash. */
  lemma RebootFromWire(slot: seq<Byte>, events: seq<seq<Byte>>, env: Env, fotaEnv: Env, ftp: Ftp)
    requires Flatten(events) == Slip.Encode(Ascii("reboot"))
    ensures var t := ProcessEvents(Boot(slot), events, env);
            && t.workQueued && !t.rebooted && t.state == UPDATE_APPLY
            && FotaWork(t, fotaEnv, ftp).rebooted && FotaWork(t, fotaEnv, ftp).flash == Flash(false, slot, 0, 0)
  {
    hide CString, StrStr, UartDataHandled, ProcessEvents, Flatten, Slip.Encode;
    var cmd := Ascii("reboot");
    forall k | 0 <= k < |cmd| ensures cmd[k] != 0 {
      assert cmd[k] == "reboot"[k] as int;
    }
    NoneInShorter(cmd, "download");
    NoneInShorter(cmd, "transfer");
    NoneInShorter(cmd, "upload:");
    assert OccursAt(cmd, Ascii("reboot"), 0);
    CommandFromWire(Boot(slot), cmd, events, env);
    CommandEffect(Say(Boot(slot), Other), Slip.Exactly(cmd, SLIP_MTU), env);
  }

  /** "download" on the wire submits the work item that runs the session. */
  lemma DownloadFromWire(slot: seq<Byte>, events: seq<seq<Byte>>, env: Env)
    requires Flatten(events) == Slip.Encode(Ascii("download"))
    ensures var t := ProcessEvents(Boot(slot), events, env);
            t.workQueued && !t.rebooted && t.state == UPDATE_DOWNLOAD && t.flash == Flash(false, slot, 0, 0)
  {
    hide CString, StrStr, UartDataHandled, ProcessEvents, Flatten, Slip.Encode;
    var cmd := Ascii("download");
    forall k | 0 <= k < |cmd| ensures cmd[k] != 0 {
      assert cmd[k] == "download"[k] as int;
    }
    assert OccursAt(cmd, Ascii("download"), 0);
    CommandFromWire(Boot(slot), cmd, events, env);
    CommandEffect(Say(Boot(slot), Other), Slip.Exactly(cmd, SLIP_MTU), env);
  }

  // ------------------------------------------------------- events in transfer mode

  /** The lines a run of image events prints: one for each event shorter than 708 bytes. */
  function AckLines(events: seq<seq<Byte>>): seq<Line> {
    if events == [] then [] else (if |events[0]| < 708 then [ReceivedImage] else []) + AckLines(events[1..])
  }

  predicate NoneEmpty(events: seq<seq<Byte>>) { forall i :: 0 <= i < |events| ==> events[i] != [] }

  /** An image event that does not complete the file is counted, acknowledged and stored. */
  lemma EventBelow(d: Device, event: seq<Byte>, env: Env)
    requires d.slip.Ok() && d.transferMode && d.flash.open && d.totalLength + |event| < d.fileLength < UINT32
    ensures ProcessEvent(d, event, env) ==
            d.(totalLength := d.totalLength + |event|, log := d.log + AckLines([event]),
               flash := d.flash.(stream := d.flash.stream + if env.storeOk then event else []))
  {
    hide HandlePackets, Slip.After, Slip.Delivered;
    NothingAppended(d.flash.stream);
    NothingAppended(d.log);
    NothingAppended(AckLines([event]));
  }

  /** The one that completes it is counted and acknowledged; it is stored and the upgrade requested if the
      file has more than 1024 bytes; and the device is told to reboot. */
  lemma EventCompletes(d: Device, event: seq<Byte>, env: Env)
    requires d.slip.Ok() && d.transferMode && d.flash.open && d.totalLength + |event| == d.fileLength < UINT32
    ensures ProcessEvent(d, event, env) ==
            d.(totalLength := d.fileLength, log := d.log + AckLines([event]), state := UPDATE_APPLY, workQueued := true,
               applied := d.applied + [Applied(UPDATE_APPLY, SerialComplete, d.fileLength, d.fileLength)],
               flash := if d.fileLength > 1024
                        then Flash(false, d.flash.stream + (if env.storeOk then event else []), d.flash.requests + 1, d.flash.strays)
                        else d.flash)
  {
    hide HandlePackets, Slip.After, Slip.Delivered;
    NothingAppended(d.flash.stream);
    NothingAppended(d.log);
    NothingAppended(AckLines([event]));
  }

  lemma {:induction false} EventsComplete(d: Device, events: seq<seq<Byte>>, env: Env)
    requires d.slip.Ok() && d.transferMode && d.flash.open && NoneEmpty(events) && events != []
    requires d.totalLength + |Flatten(events)| == d.fileLength < UINT32
    ensures var t := ProcessEvents(d, events, env);
            && t == d.(totalLength := d.fileLength, log := d.log + AckLines(events), state := UPDATE_APPLY, workQueued := true,
                       applied := d.applied + [Applied(UPDATE_APPLY, SerialComplete, d.fileLength, d.fileLength)],
                       flash := t.flash)
            && t.flash.strays == d.flash.strays
            && (if d.fileLength > 1024
                then t.flash == Flash(false, d.flash.stream + (if env.storeOk then Flatten(events) else []),
                                      d.flash.requests + 1, d.flash.strays)
                else t.flash.requests == d.flash.requests && t.flash.open
                     && |t.flash.stream| < |d.flash.stream| + |Flatten(events)|)
    decreases |events|
  {
    hide ProcessEvent;
    var first, rest := events[0], events[1..];
    assert |Flatten(events)| == |first| + |Flatten(rest)|;
    AckLinesFirst(d.log, events);
    if rest == [] {
      EventCompletes(d, first, env);
      NothingAppended(first);
      assert ProcessEvents(d, events, env) == ProcessEvents(ProcessEvent(d, first, env), [], env);
    } else {
      assert rest[0] != [] && |Flatten(rest)| > 0;
      var u := ProcessEvent(d, first, env);
      EventBelow(d, first, env);
      EventsComplete(u, rest, env);
      Associative(d.flash.stream, first, Flatten(rest));
      NothingAppended(d.flash.stream);
    }
  }

  lemma AckLinesFirst(log: seq<Line>, events: seq<seq<Byte>>)
    requires events != []
    ensures (log + AckLines([events[0]])) + AckLines(events[1..]) == log + AckLines(events)
  {
    NothingAppended(AckLines([events[0]]));
    Associative(log, AckLines([events[0]]), AckLines(events[1..]));
  }

  /** A serial transfer seen from the device: however the file is cut into events, once they are processed
      every byte is counted, each event shorter than 708 bytes is acknowledged, the device is told to reboot
      once, and the image is the file, with one new boot request, exactly when the file is longer than 1024
      bytes and stores succeed. */
  lemma TransferCompletes(d: Device, file: seq<Byte>, events: seq<seq<Byte>>, env: Env)
    requires d.slip.Ok() && d.transferMode && d.flash.open && d.flash.stream == []
    requires d.totalLength == 0 && 0 < d.fileLength == |file| < UINT32
    requires NoneEmpty(events) && Flatten(events) == file
    ensures var t := ProcessEvents(d, events, env);
            && t.totalLength == |file| && t.log == d.log + AckLines(events)
            && t.state == UPDATE_APPLY && t.workQueued && |t.applied| == |d.applied| + 1
            && (t.flash.stream == file <==> |file| > 1024 && env.storeOk)
            && t.flash.requests == d.flash.requests + (if |file| > 1024 then 1 else 0)
            && t.flash.strays == d.flash.strays && t.uplinked == d.uplinked && t.slip == d.slip
  {
    hide ProcessEvents, AckLines;
    EventsComplete(d, events, env);
    assert [] + file == file;
  }

  // -------------------------------------------------------------- FTP session

  /** What the FTP library calls back with: a 150 reply or a piece of the file. */
  datatype FtpEvent = Announce(reply: seq<Byte>, unset: int) | Data(bytes: seq<Byte>, ok: bool)

  /** One download: the callbacks in order and download_image_file's result. */
  datatype Ftp = Ftp(events: seq<FtpEvent>, code: int)

  const FTP_CODE_226 := 226

  function FtpCallback(d: Device, e: FtpEvent): Device {
    match e
    case Announce(reply, unset) => d.(fileLength := FetchFileLength(reply, unset))
    case Data(bytes, ok) => ImageSaved(d, bytes, ok)
  }

  function FtpCallbacks(d: Device, es: seq<FtpEvent>): Device
    decreases |es|
  {
    if es == [] then d else FtpCallbacks(FtpCallback(d, es[0]), es[1..])
  }

  /** start_dfu_process */
  function DfuProcessed(d: Device, env: Env, ftp: Ftp): Device {
    var (flash, ok) := FlashStart(d.flash, env);
    var t := d.(fileLength := 0, totalLength := 0, flash := flash);
    if !ok then t
    else
      var u := FtpCallbacks(t, ftp.events);
      if ftp.code == FTP_CODE_226 && u.fileLength == u.totalLength then Applying(u, UPDATE_APPLY, FtpComplete)
      else u
  }

  /** fota_work_cb */
  function FotaWork(d: Device, env: Env, ftp: Ftp): Device {
    var t := d.(workQueued := false);
    match t.state
    case UPDATE_DOWNLOAD => DfuProcessed(t, env, ftp)
    case UPDATE_APPLY => t.(rebooted := true)
    case _ => t
  }

  // ------------------------------------------------------- session accounting

  datatype Chunk = Chunk(bytes: seq<Byte>, ok: bool)

  function SaveAll(d: Device, chunks: seq<Chunk>): Device
    decreases |chunks|
  {
    if chunks == [] then d else SaveAll(ImageSaved(d, chunks[0].bytes, chunks[0].ok), chunks[1..])
  }

  function AllBytes(chunks: seq<Chunk>): seq<Byte> {
    if chunks == [] then [] else chunks[0].bytes + AllBytes(chunks[1..])
  }

  function StoredBytes(chunks: seq<Chunk>): seq<Byte> {
    if chunks == [] then [] else (if chunks[0].ok then chunks[0].bytes else []) + StoredBytes(chunks[1..])
  }

  predicate AllStored(chunks: seq<Chunk>) { forall c :: c in chunks ==> c.ok }

  predicate NonEmpty(chunks: seq<Chunk>) { forall c :: c in chunks ==> c.bytes != [] }

  lemma {:induction false} StoredIsAllIffOk(chunks: seq<Chunk>)
    requires NonEmpty(chunks)
    ensures |StoredBytes(chunks)| <= |AllBytes(chunks)|
    ensures StoredBytes(chunks) == AllBytes(chunks) <==> AllStored(chunks)
    ensures |StoredBytes(chunks)| == |AllBytes(chunks)| <==> AllStored(chunks)
  {
    if chunks != [] {
      StoredIsAllIffOk(chunks[1..]);
      assert chunks == [chunks[0]] + chunks[1..];
      assert AllStored(chunks) <==> chunks[0].ok && AllStored(chunks[1..]);
    }
  }

  /** A running session: counters and image as dfu_flash_start left them plus what came since. */
  predicate InSession(d: Device) { d.flash.open && d.totalLength < d.fileLength < UINT32 }

  lemma SavePartial(d: Device, bytes: seq<Byte>, ok: bool)
    requires InSession(d) && d.totalLength + |bytes| < d.fileLength
    ensures var t := ImageSaved(d, bytes, ok);
            && InSession(t) && t.fileLength == d.fileLength && t.totalLength == d.totalLength + |bytes|
            && t.flash == d.flash.(stream := d.flash.stream + if ok then bytes else [])
  {
    assert d.flash.stream + [] == d.flash.stream;
  }

  lemma SaveLast(d: Device, bytes: seq<Byte>, ok: bool)
    requires InSession(d) && d.fileLength <= d.totalLength + |bytes| < UINT32
    ensures var t := ImageSaved(d, bytes, ok);
            && t.fileLength == d.fileLength && t.totalLength == d.totalLength + |bytes|
            && t.flash == if d.fileLength > 1024 then Finish(Store(d.flash, bytes, ok)) else d.flash
  {
  }

  /** While the announced length is not reached, the counter counts every byte received, the image is
      exactly what was stored, and no boot request is made. */
  lemma {:induction false} PartialSession(d: Device, chunks: seq<Chunk>)
    requires InSession(d) && d.totalLength + |AllBytes(chunks)| < d.fileLength
    ensures var t := SaveAll(d, chunks);
            && InSession(t)
            && t.fileLength == d.fileLength
            && t.totalLength == d.totalLength + |AllBytes(chunks)|
            && t.flash == d.flash.(stream := d.flash.stream + StoredBytes(chunks))
    decreases |chunks|
  {
    if chunks == [] {
      assert d.flash.stream + [] == d.flash.stream;
    } else {
      var u := ImageSaved(d, chunks[0].bytes, chunks[0].ok);
      SavePartial(d, chunks[0].bytes, chunks[0].ok);
      PartialSession(u, chunks[1..]);
      Associative(d.flash.stream, if chunks[0].ok then chunks[0].bytes else [], StoredBytes(chunks[1..]));
    }
  }

  /** The chunk that reaches the announced length ends the session. A boot request is made if and only
      if the length exceeds 1024 - whether or not every store succeeded - and the image is complete
      if and only if both hold. */
  lemma CompletedSession(d: Device, chunks: seq<Chunk>, last: Chunk)
    requires InSession(d) && d.totalLength == 0 && d.flash.stream == []
    requires NonEmpty(chunks + [last])
    requires |AllBytes(chunks)| < d.fileLength <= |AllBytes(chunks)| + |last.bytes| < UINT32
    ensures var t := ImageSaved(SaveAll(d, chunks), last.bytes, last.ok);
            && t.fileLength == d.fileLength && t.totalLength == |AllBytes(chunks)| + |last.bytes|
            && t.flash.requests == d.flash.requests + (if d.fileLength > 1024 then 1 else 0)
            && t.flash.strays == d.flash.strays
            && t.flash.open == (d.fileLength <= 1024)
            && (t.flash.stream == AllBytes(chunks) + last.bytes <==>
                d.fileLength > 1024 && AllStored(chunks + [last]))
  {
    var u := SaveAll(d, chunks);
    PartialSession(d, chunks);
    assert [] + StoredBytes(chunks) == StoredBytes(chunks);
    SaveLast(u, last.bytes, last.ok);
    var t := ImageSaved(u, last.bytes, last.ok);
    SplitLast(chunks, last);
    StoredIsAllIffOk(chunks);
    var all := AllBytes(chunks) + last.bytes;
    if d.fileLength > 1024 && last.ok {
      assert t.flash.stream == StoredBytes(chunks) + last.bytes;
      assert |t.flash.stream| == |all| <==> AllStored(chunks);
    } else {
      assert |t.flash.stream| < |all|;
    }
  }

  lemma SplitLast(chunks: seq<Chunk>, last: Chunk)
    requires NonEmpty(chunks + [last])
    ensures NonEmpty(chunks) && last.bytes != []
    ensures AllStored(chunks + [last]) <==> AllStored(chunks) && last.ok
  {
    assert forall c :: c in chunks ==> c in chunks + [last];
    assert last in chunks + [last];
  }

  lemma LateChunk(d: Device, late: Chunk)
    requires 0 < d.fileLength <= d.totalLength && d.totalLength + |late.bytes| < UINT32
    requires d.flash.open <==> d.fileLength <= 1024
    ensures var t := ImageSaved(d, late.bytes, late.ok);
            && t.fileLength == d.fileLength && t.totalLength == d.totalLength + |late.bytes|
            && t.flash == if d.fileLength <= 1024 then d.flash
                          else d.flash.(strays := d.flash.strays + 1, requests := d.flash.requests + 1)
  {
  }

  lemma {:induction false} LateChunks(d: Device, late: seq<Chunk>)
    requires 0 < d.fileLength <= d.totalLength && d.totalLength + |AllBytes(late)| < UINT32
    requires d.flash.open <==> d.fileLength <= 1024
    ensures var t := SaveAll(d, late);
            t.flash == if d.fileLength <= 1024 then d.flash
                       else d.flash.(strays := d.flash.strays + |late|, requests := d.flash.requests + |late|)
    decreases |late|
  {
    hide ImageSaved;
    if late != [] {
      LateChunk(d, late[0]);
      LateChunks(ImageSaved(d, late[0].bytes, late[0].ok), late[1..]);
    }
  }

  /** A sender that does not stop at the announced length: each later chunk of a session longer than 1024
      bytes is written through a NULL ctx and requests the upgrade again; that happens if and only if
      there is a later chunk and the length exceeds 1024. The image stays what it was either way. */
  lemma OverlongSession(d: Device, chunks: seq<Chunk>, last: Chunk, late: seq<Chunk>)
    requires InSession(d) && d.totalLength == 0 && d.flash.stream == [] && NonEmpty(chunks + [last])
    requires |AllBytes(chunks)| < d.fileLength <= |AllBytes(chunks)| + |last.bytes|
    requires |AllBytes(chunks)| + |last.bytes| + |AllBytes(late)| < UINT32
    ensures var done := SaveAll(d, chunks + [last]);
            var t := SaveAll(done, late);
            && t.flash.stream == done.flash.stream
            && t.flash.requests == d.flash.requests + (if d.fileLength > 1024 then 1 + |late| else 0)
            && t.flash.strays == d.flash.strays + (if d.fileLength > 1024 then |late| else 0)
            && (t.flash.strays > d.flash.strays <==> d.fileLength > 1024 && late != [])
  {
    hide AllBytes, ImageSaved, SaveAll, NonEmpty;
    SaveAllSnoc(d, chunks, last);
    CompletedSession(d, chunks, last);
    LateChunks(SaveAll(d, chunks + [last]), late);
  }

  function DataEvents(chunks: seq<Chunk>): seq<FtpEvent> {
    if chunks == [] then [] else [Data(chunks[0].bytes, chunks[0].ok)] + DataEvents(chunks[1..])
  }

  lemma {:induction false} DataCallbacksSave(d: Device, chunks: seq<Chunk>)
    ensures FtpCallbacks(d, DataEvents(chunks)) == SaveAll(d, chunks)
    decreases |chunks|
  {
    if chunks != [] {
      assert DataEvents(chunks)[1..] == DataEvents(chunks[1..]);
      DataCallbacksSave(ImageSaved(d, chunks[0].bytes, chunks[0].ok), chunks[1..]);
    }
  }

  lemma {:induction false} SaveAllSnoc(d: Device, chunks: seq<Chunk>, last: Chunk)
    ensures SaveAll(d, chunks + [last]) == ImageSaved(SaveAll(d, chunks), last.bytes, last.ok)
    decreases |chunks|
  {
    if chunks == [] {
      assert chunks + [last] == [last] && [last][1..] == [];
    } else {
      assert (chunks + [last])[1..] == chunks[1..] + [last];
      SaveAllSnoc(ImageSaved(d, chunks[0].bytes, chunks[0].ok), chunks[1..], last);
    }
  }

  /** A download starts from zero counters and an empty image whatever an earlier, partial one left.
      When the server sends exactly the announced number of bytes and reports success, the device
      goes on to reboot, and it does so with the complete image and one more boot request exactly
      when the file is longer than 1024 bytes and every store succeeded. */
  lemma FtpDownload(d: Device, env: Env, reply: seq<Byte>, unset: int, chunks: seq<Chunk>, last: Chunk)
    requires Cooperative(env) && NonEmpty(chunks + [last])
    requires ScanLength(reply) == Some(|AllBytes(chunks)| + |last.bytes|)
    requires |AllBytes(chunks)| + |last.bytes| < UINT32
    ensures var n := |AllBytes(chunks)| + |last.bytes|;
            var t := DfuProcessed(d, env, Ftp([Announce(reply, unset)] + DataEvents(chunks + [last]), FTP_CODE_226));
            && t.state == UPDATE_APPLY && t.workQueued && t.totalLength == t.fileLength == n
            && (t.flash.stream == AllBytes(chunks) + last.bytes <==> n > 1024 && AllStored(chunks + [last]))
            && t.flash.requests == d.flash.requests + (if n > 1024 then 1 else 0)
            && t.flash.strays == d.flash.strays
  {
    hide AllBytes, ImageSaved, NonEmpty, ScanLength;
    var n := |AllBytes(chunks)| + |last.bytes|;
    var start := d.(fileLength := 0, totalLength := 0, flash := FlashStart(d.flash, env).0);
    var announced := FtpCallback(start, Announce(reply, unset));
    SplitLast(chunks, last);
    assert announced == start.(fileLength := n);
    var events := [Announce(reply, unset)] + DataEvents(chunks + [last]);
    assert events[1..] == DataEvents(chunks + [last]);
    assert FtpCallbacks(start, events) == FtpCallbacks(announced, DataEvents(chunks + [last]));
    DataCallbacksSave(announced, chunks + [last]);
    SaveAllSnoc(announced, chunks, last);
    CompletedSession(announced, chunks, last);
  }

  // ------------------------------------------------------ any download whatever

  /** The length the last announcement gave. */
  function LastAnnounced(es: seq<FtpEvent>, before: nat): nat {
    if es == [] then before
    else LastAnnounced(es[1..], if es[0].Announce? then FetchFileLength(es[0].reply, es[0].unset) else before)
  }

  function DataLength(es: seq<FtpEvent>): nat {
    if es == [] then 0 else (if es[0].Data? then |es[0].bytes| else 0) + DataLength(es[1..])
  }

  /** The callbacks of a session count and announce; they decide nothing. */
  lemma {:induction false} CallbacksCount(d: Device, es: seq<FtpEvent>)
    requires d.totalLength < UINT32
    ensures var t := FtpCallbacks(d, es);
            && t.fileLength == LastAnnounced(es, d.fileLength)
            && t.totalLength == (d.totalLength + DataLength(es)) % UINT32
            && t == d.(fileLength := t.fileLength, totalLength := t.totalLength, flash := t.flash, log := t.log)
    decreases |es|
  {
    hide FetchFileLength, Store;
    if es != [] {
      CallbacksCount(FtpCallback(d, es[0]), es[1..]);
      if es[0].Data? {
        ModuloSum(d.totalLength, |es[0].bytes|, DataLength(es[1..]));
      }
    }
  }

  lemma ModuloSum(a: nat, b: nat, c: nat)
    ensures ((a + b) % 0x1_0000_0000 + c) % 0x1_0000_0000 == (a + (b + c)) % 0x1_0000_0000
  {
  }

  /** Did dfu_flash_start report success? Memory for the context and the erase decide, not the initialisation. */
  predicate Started(f: Flash, env: Env) { (f.open || env.mallocOk) && env.eraseOk }

  /** What fota_work_cb makes of a download, whatever the flash, the library and the server do. The device
      goes on to reboot if and only if the session started, the transfer ended with code 226 and the last
      announced length is the number of bytes received modulo 2^32 (both are 0 if nothing came). Otherwise
      it stays as it is, and does not try again. */
  lemma DownloadOutcome(d: Device, env: Env, ftp: Ftp)
    requires d.state == UPDATE_DOWNLOAD
    ensures var t := FotaWork(d, env, ftp);
            var announced, received := LastAnnounced(ftp.events, 0), DataLength(ftp.events) % 0x1_0000_0000;
            && t.rebooted == d.rebooted && t.uplinked == d.uplinked && t.transferMode == d.transferMode && t.slip == d.slip
            && (if Started(d.flash, env) && ftp.code == 226 && announced == received then
                  && t.state == UPDATE_APPLY && t.workQueued
                  && t.applied == d.applied + [Applied(UPDATE_APPLY, FtpComplete, received, received)]
                else
                  t.state == UPDATE_DOWNLOAD && !t.workQueued && t.applied == d.applied)
            && (if Started(d.flash, env) then t.fileLength == announced && t.totalLength == received
                else t.fileLength == 0 == t.totalLength && t.log == d.log)
  {
    hide FtpCallbacks;
    var u := d.(workQueued := false, fileLength := 0, totalLength := 0, flash := FlashStart(d.flash, env).0);
    CallbacksCount(u, ftp.events);
  }

  /** From the wire to the new image: "download", and a server that sends what it announced and reports
      success. The work item runs the session, and the next one reboots; then the image is the file, with a
      boot request, exactly when the file is longer than 1024 bytes and every store succeeded. */
  lemma DownloadEndToEnd(slot: seq<Byte>, events: seq<seq<Byte>>, env: Env, fotaEnv: Env, again: Env, none: Ftp,
                         reply: seq<Byte>, unset: int, chunks: seq<Chunk>, last: Chunk)
    requires Flatten(events) == Slip.Encode(Ascii("download")) && Cooperative(fotaEnv) && NonEmpty(chunks + [last])
    requires ScanLength(reply) == Some(|AllBytes(chunks)| + |last.bytes|)
    requires |AllBytes(chunks)| + |last.bytes| < UINT32
    ensures var n := |AllBytes(chunks)| + |last.bytes|;
            var ftp := Ftp([Announce(reply, unset)] + DataEvents(chunks + [last]), 226);
            var t := FotaWork(ProcessEvents(Boot(slot), events, env), fotaEnv, ftp);
            && t.workQueued && !t.rebooted && FotaWork(t, again, none).rebooted
            && FotaWork(t, again, none).flash == t.flash
            && (t.flash.stream == AllBytes(chunks) + last.bytes <==> n > 1024 && AllStored(chunks + [last]))
            && t.flash.requests == (if n > 1024 then 1 else 0) && t.flash.strays == 0
  {
    hide ProcessEvents, DfuProcessed, ScanLength, Flatten, AllBytes, Slip.Encode;
    DownloadFromWire(slot, events, env);
    var d := ProcessEvents(Boot(slot), events, env);
    var ftp := Ftp([Announce(reply, unset)] + DataEvents(chunks + [last]), 226);
    FtpDownload(d.(workQueued := false), fotaEnv, reply, unset, chunks, last);
    DownloadOutcome(d, fotaEnv, ftp);
  }

  // ----------------------------------------------------- a session that never opened

  /** dfu_flash_start in full: it succeeds if and only if there is a context and the erase succeeds, but the
      session is open if and only if the initialisation succeeded too - whatever the code says. */
  lemma StartOutcome(f: Flash, env: Env)
    ensures var (g, ok) := FlashStart(f, env);
            && (ok <==> Started(f, env))
            && (g.open <==> (f.open || env.mallocOk) && env.initOk)
            && g.requests == f.requests && g.strays == f.strays
            && g.stream == if (f.open || env.mallocOk) && (env.eraseOk || env.initOk) then [] else f.stream
  {
  }

  /** The chunks whose arrival finds the announced length reached. */
  function Completions(d: Device, chunks: seq<Chunk>): nat
    decreases |chunks|
  {
    if chunks == [] then 0
    else
      var t := ImageSaved(d, chunks[0].bytes, chunks[0].ok);
      (if t.totalLength >= d.fileLength then 1 else 0) + Completions(t, chunks[1..])
  }

  /** Without an open session every chunk of a long file is written through a NULL ctx; the image stays
      erased, and the upgrade is requested all the same, once for every chunk from the announced length on. */
  lemma {:induction false} ClosedSession(d: Device, chunks: seq<Chunk>)
    requires !d.flash.open && d.fileLength > 1024
    ensures SaveAll(d, chunks).flash ==
            d.flash.(strays := d.flash.strays + |chunks|, requests := d.flash.requests + Completions(d, chunks))
    decreases |chunks|
  {
    if chunks != [] {
      ClosedSession(ImageSaved(d, chunks[0].bytes, chunks[0].ok), chunks[1..]);
    }
  }

  /** So a download after a failed initialisation reports success, requests the upgrade and reboots into an
      empty image. */
  lemma DownloadWithoutInit(d: Device, env: Env, reply: seq<Byte>, unset: int, chunks: seq<Chunk>)
    requires d.state == UPDATE_DOWNLOAD && Started(d.flash, env) && !env.initOk
    requires ScanLength(reply) == Some(|AllBytes(chunks)|) && 1024 < |AllBytes(chunks)|
    ensures var t := FotaWork(d, env, Ftp([Announce(reply, unset)] + DataEvents(chunks), 226));
            && t.state == UPDATE_APPLY && t.workQueued
            && t.flash.stream == [] && t.flash.strays == d.flash.strays + |chunks| && t.flash.requests > d.flash.requests
  {
    hide ScanLength, FtpCallbacks, SaveAll, Completions;
    var n := |AllBytes(chunks)|;
    var events := [Announce(reply, unset)] + DataEvents(chunks);
    var start := d.(workQueued := false, fileLength := 0, totalLength := 0, flash := FlashStart(d.flash, env).0);
    StartOutcome(d.flash, env);
    ScanRange(reply);
    FetchedLength(reply, unset);
    var announced := start.(fileLength := n);
    AnnouncedFirst(start, reply, unset, DataEvents(chunks));
    DataCallbacksSave(announced, chunks);
    ClosedSession(announced, chunks);
    DataIsAnnounced(chunks, n);
    assert LastAnnounced(events, 0) == LastAnnounced(DataEvents(chunks), n) by {
      assert events[1..] == DataEvents(chunks);
    }
    assert DataLength(events) == DataLength(DataEvents(chunks)) by {
      assert events[1..] == DataEvents(chunks);
    }
    DownloadOutcome(d, env, Ftp(events, 226));
    SomeCompletion(announced, chunks);
  }

  lemma AnnouncedFirst(d: Device, reply: seq<Byte>, unset: int, es: seq<FtpEvent>)
    ensures FtpCallbacks(d, [Announce(reply, unset)] + es) ==
            FtpCallbacks(d.(fileLength := FetchFileLength(reply, unset)), es)
  {
    var events := [Announce(reply, unset)] + es;
    assert events[1..] == es;
  }

  lemma {:induction false} DataIsAnnounced(chunks: seq<Chunk>, n: nat)
    ensures LastAnnounced(DataEvents(chunks), n) == n && DataLength(DataEvents(chunks)) == |AllBytes(chunks)|
  {
    if chunks != [] {
      assert DataEvents(chunks)[1..] == DataEvents(chunks[1..]);
      DataIsAnnounced(chunks[1..], n);
    }
  }

  lemma {:induction false} SomeCompletion(d: Device, chunks: seq<Chunk>)
    requires 0 < d.fileLength <= d.totalLength + |AllBytes(chunks)| < UINT32 && d.totalLength < d.fileLength
    ensures Completions(d, chunks) > 0
    decreases |chunks|
  {
    hide Store;
    var t := ImageSaved(d, chunks[0].bytes, chunks[0].ok);
    assert t.fileLength == d.fileLength && t.totalLength == d.totalLength + |chunks[0].bytes|;
    if t.totalLength < d.fileLength {
      SomeCompletion(t, chunks[1..]);
    }
  }

  // ---------------------------------------------------------- reboot causality

  datatype Step = Uart(event: seq<Byte>, env: Env) | Fota(fotaEnv: Env, ftp: Ftp)

  /** The device stops at the reboot; fota_work_cb runs only when it was submitted. */
  predicate Enabled(d: Device, e: Step) { !d.rebooted && (e.Fota? ==> d.workQueued) }

  function Next(d: Device, e: Step): Device
    requires d.slip.Ok()
  {
    match e
    case Uart(event, env) => ProcessEvent(d, event, env)
    case Fota(env, ftp) => FotaWork(d, env, ftp)
  }

  predicate ValidRun(d: Device, es: seq<Step>)
    decreases |es|
  {
    es == [] || (d.slip.Ok() && Enabled(d, es[0]) && ValidRun(Next(d, es[0]), es[1..]))
  }

  function Final(d: Device, es: seq<Step>): Device
    requires ValidRun(d, es)
    decreases |es|
  {
    if es == [] then d else Final(Next(d, es[0]), es[1..])
  }

  /** A legitimate apply_state call: a download, a reboot packet, or a length match. */
  predicate Justified(a: Applied) {
    match a.cause
    case DownloadCommand => a.state == UPDATE_DOWNLOAD
    case RebootCommand => a.state == UPDATE_APPLY
    case _ => a.state == UPDATE_APPLY && a.fileLength == a.totalLength
  }

  /** The global state is what the latest apply_state call set it to, and a reboot has happened only
      under UPDATE_APPLY. */
  predicate Causal(d: Device) {
    && d.slip.Ok()
    && (forall a :: a in d.applied ==> Justified(a))
    && d.state == (if d.applied == [] then IDLE else d.applied[|d.applied| - 1].state)
    && (d.rebooted ==> d.state == UPDATE_APPLY)
  }

  lemma ApplyKeepsCausal(d: Device, state: FotaState, cause: Cause)
    requires Causal(d) && !d.rebooted && Justified(Applied(state, cause, d.fileLength, d.totalLength))
    ensures Causal(Applying(d, state, cause)) && !Applying(d, state, cause).rebooted
  {
  }

  lemma {:induction false} PacketsKeepCausal(d: Device, ps: seq<Slip.Delivery>, env: Env)
    requires Causal(d) && !d.rebooted
    ensures Causal(HandlePackets(d, ps, env)) && !HandlePackets(d, ps, env).rebooted
    decreases |ps|
  {
    if ps != [] {
      var t := Say(d, Other);
      match Classify(ps[0].buffer) {
        case Download => ApplyKeepsCausal(t, UPDATE_DOWNLOAD, DownloadCommand);
        case Reboot => ApplyKeepsCausal(t, UPDATE_APPLY, RebootCommand);
        case _ =>
      }
      PacketsKeepCausal(UartDataHandled(t, ps[0], env), ps[1..], env);
    }
  }

  lemma {:induction false} CallbacksKeepCausal(d: Device, es: seq<FtpEvent>)
    requires Causal(d) && !d.rebooted
    ensures Causal(FtpCallbacks(d, es)) && !FtpCallbacks(d, es).rebooted
    decreases |es|
  {
    if es != [] {
      CallbacksKeepCausal(FtpCallback(d, es[0]), es[1..]);
    }
  }

  lemma UartKeepsCausal(d: Device, event: seq<Byte>, env: Env)
    requires Causal(d) && !d.rebooted
    ensures Causal(ProcessEvent(d, event, env))
  {
    hide Justified, HandlePackets, Slip.After, Slip.Delivered;
    if d.transferMode {
      var t := SaveEnd(SaveBegin(d, |event|), event, env.storeOk);
      if t.fileLength == t.totalLength {
        LengthMatchIsJustified(t, SerialComplete);
        ApplyKeepsCausal(t, UPDATE_APPLY, SerialComplete);
      }
    } else {
      PacketsKeepCausal(d.(slip := Slip.After(d.slip, event)), Slip.Delivered(d.slip, event), env);
    }
  }

  lemma LengthMatchIsJustified(d: Device, cause: Cause)
    requires d.fileLength == d.totalLength && (cause.SerialComplete? || cause.FtpComplete?)
    ensures Justified(Applied(UPDATE_APPLY, cause, d.fileLength, d.totalLength))
  {
  }

  lemma FotaKeepsCausal(d: Device, env: Env, ftp: Ftp)
    requires Causal(d) && !d.rebooted
    ensures Causal(FotaWork(d, env, ftp))
  {
    hide Justified, FtpCallbacks, FlashStart;
    if d.state == UPDATE_DOWNLOAD {
      var t := d.(workQueued := false, fileLength := 0, totalLength := 0, flash := FlashStart(d.flash, env).0);
      CallbacksKeepCausal(t, ftp.events);
      var u := FtpCallbacks(t, ftp.events);
      if u.fileLength == u.totalLength {
        LengthMatchIsJustified(u, FtpComplete);
        ApplyKeepsCausal(u, UPDATE_APPLY, FtpComplete);
      }
    }
  }

  lemma StepKeepsCausal(d: Device, e: Step)
    requires Causal(d) && Enabled(d, e)
    ensures Causal(Next(d, e))
  {
    hide ProcessEvent, FotaWork;
    match e
    case Uart(event, env) => UartKeepsCausal(d, event, env);
    case Fota(env, ftp) => FotaKeepsCausal(d, env, ftp);
  }

  lemma {:induction false} RunKeepsCausal(d: Device, es: seq<Step>)
    requires Causal(d) && ValidRun(d, es)
    ensures Causal(Final(d, es))
    decreases |es|
  {
    if es != [] {
      StepKeepsCausal(d, es[0]);
      RunKeepsCausal(Next(d, es[0]), es[1..]);
    }
  }

  /** Every run, however submissions of the work item coalesce: the state stays among three of its five
      values, and a reboot means that the latest apply_state call was UPDATE_APPLY, made for a
      "reboot" packet or at an instant when the two lengths agreed. */
  lemma RebootCausality(slot: seq<Byte>, es: seq<Step>)
    requires ValidRun(Boot(slot), es)
    ensures var t := Final(Boot(slot), es);
            && t.state in {IDLE, UPDATE_DOWNLOAD, UPDATE_APPLY}
            && (t.rebooted ==>
                  && t.applied != []
                  && var last := t.applied[|t.applied| - 1];
                     last.state == UPDATE_APPLY && (last.cause == RebootCommand || last.fileLength == last.totalLength))
  {
    RunKeepsCausal(Boot(slot), es);
    var t := Final(Boot(slot), es);
    if t.applied != [] {
      assert Justified(t.applied[|t.applied| - 1]);
    }
  }

  // ------------------------------------------------------------------- locking

  const DFU_UNLOCKED := 0

  /** dfu_lock: the lock word afterwards and whether it was taken. */
  function DfuLock(word: int, moduleId: int): (int, bool) {
    if word == DFU_UNLOCKED then (moduleId, true) else (word, false)
  }

  function DfuUnlock(word: int, moduleId: int): (int, bool) {
    if word == moduleId then (DFU_UNLOCKED, true) else (word, false)
  }

  datatype LockStep = Lock | Unlock

  function LockWord(moduleId: int, steps: seq<LockStep>): int
    decreases |steps|
  {
    if steps == [] then DFU_UNLOCKED
    else
      var word := LockWord(moduleId, steps[..|steps| - 1]);
      if steps[|steps| - 1].Lock? then DfuLock(word, moduleId).0 else DfuUnlock(word, moduleId).0
  }

  /** After any use of the lock by its one user, another dfu_lock is refused exactly when the module id
      differs from DFU_UNLOCKED and the last call was a lock. The id is an uninitialised pointer
      constant, NULL, so nothing is ever refused. */
  lemma {:induction false} LockExcludes(moduleId: int, steps: seq<LockStep>)
    ensures LockWord(moduleId, steps) in {DFU_UNLOCKED, moduleId}
    ensures !DfuLock(LockWord(moduleId, steps), moduleId).1 <==>
            moduleId != DFU_UNLOCKED && steps != [] && steps[|steps| - 1].Lock?
    ensures DfuUnlock(LockWord(moduleId, steps), moduleId).1 <==>
            moduleId == DFU_UNLOCKED || (steps != [] && steps[|steps| - 1].Lock?)
    decreases |steps|
  {
    if steps != [] {
      LockExcludes(moduleId, steps[..|steps| - 1]);
    }
  }

  // ------------------------------------------------------------- the C functions

  lemma HandlePacketsSnoc(d: Device, ps: seq<Slip.Delivery>, p: Slip.Delivery, env: Env)
    ensures HandlePackets(d, ps + [p], env) == UartDataHandled(Say(HandlePackets(d, ps, env), Other), p, env)
  {
    HandlePacketsConcat(d, ps, [p], env);
    assert [p][1..] == [];
  }

  /** What rx_process has made of the first i bytes of an event. */
  function Progress(d: Device, event: seq<Byte>, i: nat, env: Env): Device
    requires d.slip.Ok() && i <= |event|
  {
    HandlePackets(d.(slip := Slip.After(d.slip, event[..i])), Slip.Delivered(d.slip, event[..i]), env)
  }

  /** One turn of rx_process's inner loop. */
  function ByteReceived(d: Device, c: Byte, env: Env): Device
    requires d.slip.Ok()
  {
    var (t, ps) := Slip.Accept(d.slip, c);
    (if ps == [] then d else UartDataHandled(Say(d, Other), ps[0], env)).(slip := t)
  }

  /** One more byte of the event in rx_process's inner loop. */
  lemma OneByte(d: Device, event: seq<Byte>, i: nat, env: Env)
    requires d.slip.Ok() && i < |event|
    ensures Progress(d, event, i, env).slip == Slip.After(d.slip, event[..i])
    ensures Progress(d, event, i + 1, env) == ByteReceived(Progress(d, event, i, env), event[i], env)
  {
    hide HandlePackets, Slip.After, Slip.Delivered, Slip.Accept, UartDataHandled;
    var s := Slip.After(d.slip, event[..i]);
    var seen := Slip.Delivered(d.slip, event[..i]);
    var (t, ps) := Slip.Accept(s, event[i]);
    assert event[..i + 1] == event[..i] + [event[i]];
    Slip.FeedConcat(d.slip, event[..i], [event[i]]);
    Slip.FeedOne(s, event[i]);
    PacketsIgnoreDecoder(d, s, seen, env);
    PacketsIgnoreDecoder(d, t, seen, env);
    NothingAppended(seen);
    if ps != [] {
      assert ps == [ps[0]];
      HandlePacketsSnoc(d.(slip := t), seen, ps[0], env);
      HandlerIgnoresDecoder(Say(HandlePackets(d, seen, env), Other), s, t, ps[0], env);
    }
  }

  lemma HandlerIgnoresDecoder(d: Device, s: Slip.State, t: Slip.State, p: Slip.Delivery, env: Env)
    ensures UartDataHandled(d.(slip := t), p, env) == UartDataHandled(d.(slip := s), p, env).(slip := t)
  {
  }

  /** The globals of uart_handler.c, upgrade_app.c and nrf_dfu_flash.c that an upgrade goes through. */
  class Firmware {
    const decoder: Slip.Decoder
    var transferMode: bool
    var fileLength: nat
    var totalLength: nat
    var ctx: bool
    var stream: seq<Byte>
    var requests: nat
    ghost var strays: nat
    var state: FotaState
    var workQueued: bool
    var rebooted: bool
    ghost var applied: seq<Applied>
    var uplinked: seq<seq<Byte>>
    var log: seq<Line>

    /** Power-on, with whatever the secondary slot holds. */
    constructor (slot: seq<Byte>)
      ensures Valid() && fresh(decoder) && fresh(decoder.buffer) && View() == Boot(slot)
    {
      decoder := new Slip.Decoder(SLIP_MTU);
      transferMode, fileLength, totalLength := false, 0, 0;
      ctx, stream, requests, strays := false, slot, 0, 0;
      state, workQueued, rebooted, applied := IDLE, false, false, [];
      uplinked, log := [], [];
    }

    ghost function View(): Device
      reads this, decoder, decoder.buffer
    {
      Device(transferMode, decoder.View(), fileLength, totalLength, Flash(ctx, stream, requests, strays),
             state, workQueued, rebooted, applied, uplinked, log)
    }

    ghost predicate Valid()
      reads this, decoder, decoder.buffer
    {
      decoder.Valid()
    }

    method DfuFlashStart(env: Env) returns (ok: bool)
      modifies this`ctx, this`stream
      ensures (View().flash, ok) == FlashStart(old(View()).flash, env)
      ensures View() == old(View()).(flash := View().flash)
    {
      if !ctx {
        if !env.mallocOk {
          return false;
        }
        ctx := true;
      }
      if env.initOk {
        stream := [];
      } else {
        ctx := false;
      }
      if env.eraseOk {
        stream := [];
      }
      return env.eraseOk;
    }

    method DfuDataStore(data: seq<Byte>, ok: bool)
      modifies this`stream, this`strays
      ensures View() == old(View()).(flash := Store(old(View()).flash, data, ok))
    {
      if !ctx {
        strays := strays + 1;
      } else if ok {
        stream := stream + data;
      }
    }

    method DfuFlashFinish()
      modifies this`ctx, this`requests
      ensures View() == old(View()).(flash := Finish(old(View()).flash))
    {
      requests := requests + 1;
      ctx := false;
    }

    method ApplyState(newState: FotaState, ghost cause: Cause)
      modifies this`state, this`workQueued, this`applied
      ensures View() == Applying(old(View()), newState, cause)
    {
      state := newState;
      applied := applied + [Applied(newState, cause, fileLength, totalLength)];
      match newState {
        case IDLE =>
        case UPDATE_SERIAL => workQueued := true;
        case UPDATE_DOWNLOAD => workQueued := true;
        case UPDATE_PENDING => workQueued := true;   // total_length >= 0 always holds
        case UPDATE_APPLY => workQueued := true;
      }
    }

    method ImageDataSave(data: seq<Byte>, ok: bool)
      modifies this`totalLength, this`log, this`stream, this`strays, this`ctx, this`requests
      ensures View() == ImageSaved(old(View()), data, ok)
    {
      totalLength := (totalLength + |data|) % 0x1_0000_0000;
      if |data| < 708 {
        log := log + [ReceivedImage];
      }
      if totalLength < fileLength {
        DfuDataStore(data, ok);
      } else if fileLength > 1024 {
        DfuDataStore(data, ok);
        DfuFlashFinish();
      }
    }

    method HandleUartData(buffer: seq<Byte>, length: nat, env: Env)
      modifies this
      ensures View() == UartDataHandled(old(View()), Slip.Delivery(buffer, length), env)
    {
      hide CString, StrStr, ScanLength, FetchFileLength, Uploaded, FlashStart;
      var text := CString(buffer);
      if Contains(text, NAME_DOWNLOAD) {
        ApplyState(UPDATE_DOWNLOAD, DownloadCommand);
      } else if Contains(text, NAME_TRANSFER) {
        transferMode := true;
        var ok := DfuFlashStart(env);
        totalLength := 0;
        log := log + [if ScanLength(text).Some? then FetchLength else Other];
        fileLength := FetchFileLength(text, env.unset);
      } else if Contains(text, NAME_UPLOAD) {
        var at := StrStr(text, NAME_UPLOAD).value;
        uplinked := uplinked + [Uploaded(buffer, length, at, env.beyond)];
      } else if Contains(text, NAME_REBOOT) {
        ApplyState(UPDATE_APPLY, RebootCommand);
      }
    }

    /** The body of rx_process's loop for one event. */
    method RxProcessEvent(event: seq<Byte>, env: Env)
      requires Valid()
      modifies this, decoder, decoder.buffer
      ensures Valid() && View() == ProcessEvent(old(View()), event, env)
    {
      if transferMode {
        ImageDataSave(event, env.storeOk);
        if fileLength == totalLength {
          ApplyState(UPDATE_APPLY, SerialComplete);
        }
        return;
      }
      ghost var d := View();
      var i := 0;
      assert event[..0] == [] && event[..|event|] == event;
      while i < |event|
        invariant 0 <= i <= |event| && Valid()
        invariant View() == Progress(d, event, i, env)
      {
        OneByte(d, event, i, env);
        ReceiveByte(event[i], env);
        i := i + 1;
      }
    }

    method ReceiveByte(c: Byte, env: Env)
      requires Valid()
      modifies this, decoder, decoder.buffer
      ensures Valid() && View() == ByteReceived(old(View()), c, env)
    {
      hide UartDataHandled;
      var code := decoder.AddByte(c);
      if code == Slip.NRF_SUCCESS {
        log := log + [Other];
        HandleUartData(decoder.buffer[..], decoder.currentIndex, env);
        decoder.Reset();
      } else if code == Slip.ERROR_NO_MEM {
        decoder.currentIndex := 0;
        decoder.state := Slip.Decoding;
      }
    }

    method StartDfuProcess(env: Env, ftp: Ftp)
      modifies this
      ensures View() == DfuProcessed(old(View()), env, ftp)
    {
      fileLength := 0;
      totalLength := 0;
      var ok := DfuFlashStart(env);
      if !ok {
        return;
      }
      DownloadImageFile(ftp.events);
      if ftp.code == FTP_CODE_226 && fileLength == totalLength {
        ApplyState(UPDATE_APPLY, FtpComplete);
      }
    }

    /** The library's callbacks during download_image_file. */
    method DownloadImageFile(events: seq<FtpEvent>)
      modifies this
      ensures View() == FtpCallbacks(old(View()), events)
    {
      hide ImageSaved, FetchFileLength;
      ghost var d := View();
      var i := 0;
      assert events[..0] == [] && events[..|events|] == events;
      while i < |events|
        invariant 0 <= i <= |events|
        invariant View() == FtpCallbacks(d, events[..i])
      {
        FtpCallbacksSnoc(d, events[..i], events[i]);
        assert events[..i + 1] == events[..i] + [events[i]];
        match events[i] {
          case Announce(reply, unset) => fileLength := FetchFileLength(reply, unset);
          case Data(bytes, stored) => ImageDataSave(bytes, stored);
        }
        i := i + 1;
      }
    }

    method FotaWorkCb(env: Env, ftp: Ftp)
      modifies this
      ensures View() == FotaWork(old(View()), env, ftp)
    {
      workQueued := false;
      match state {
        case UPDATE_DOWNLOAD => StartDfuProcess(env, ftp);
        case UPDATE_APPLY => rebooted := true;
        case _ =>
      }
    }
  }

  lemma {:induction false} FtpCallbacksSnoc(d: Device, es: seq<FtpEvent>, e: FtpEvent)
    ensures FtpCallbacks(d, es + [e]) == FtpCallback(FtpCallbacks(d, es), e)
    decreases |es|
  {
    if es == [] {
      assert es + [e] == [e] && [e][1..] == [];
      assert FtpCallbacks(d, [e]) == FtpCallbacks(FtpCallback(d, e), []);
    } else {
      assert (es + [e])[1..] == es[1..] + [e];
      FtpCallbacksSnoc(FtpCallback(d, es[0]), es[1..], e);
    }
  }
}
