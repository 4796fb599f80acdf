// The host of scripts/serial_upgrade.py and the device, end to end. The receive pipeline appears as
// what UartRx proves it to be, a FIFO of events that the driver may cut anywhere: an event is any
// 1 to 512 of the bytes next on the wire, and is dropped if it finds the queue full once the transfer
// has begun. The acknowledging line leaves before the data is stored, so an image event takes the
// worker two steps.
module SerialUpgrade {
  import opened Bytes
  import opened Commands
  import opened Upgrade
  import Slip
  import R = UartRx

  const PACKET_SIZE := 512
  const EVENT_MAX := R.BUF_SIZE

  // --------------------------------------------------------------------- host

  datatype Phase = Confirming | Chunking | Finished

  /** Bytes written after the handshake, chunks written, acknowledgements read. */
  datatype Host = Host(phase: Phase, sent: nat, chunks: nat, acks: nat)

  const HOST_START := Host(Confirming, 0, 0, 0)

  function Handshake(n: nat): seq<Byte> { Slip.EncodeHost(TransferCommand(n)) }

  /** Write the next chunk, or stop. */
  function SendNext(file: seq<Byte>, h: Host): (Host, seq<Byte>)
    requires h.sent <= |file|
  {
    if h.sent < |file| then
      var end := Min(h.sent + PACKET_SIZE, |file|);
      (h.(phase := Chunking, sent := end, chunks := h.chunks + 1), file[h.sent..end])
    else
      (h.(phase := Finished), [])
  }

  /** Read one line of the device's log. */
  function HostReads(file: seq<Byte>, h: Host, line: Line): (r: (Host, seq<Byte>))
    requires h.sent <= |file|
    ensures r.0.sent <= |file|
  {
    match (h.phase, line)
    case (Confirming, FetchLength) => SendNext(file, h)
    case (Chunking, ReceivedImage) => SendNext(file, h.(acks := h.acks + 1))
    case _ => (h, [])
  }

  function HostAfter(file: seq<Byte>, h: Host, lines: seq<Line>): (r: (Host, seq<Byte>))
    requires h.sent <= |file|
    ensures r.0.sent <= |file|
    decreases |lines|
  {
    if lines == [] then (h, [])
    else
      var (g, out) := HostReads(file, h, lines[0]);
      var (f, rest) := HostAfter(file, g, lines[1..]);
      (f, out + rest)
  }

  lemma {:induction false} HostAfterSnoc(file: seq<Byte>, h: Host, lines: seq<Line>, line: Line)
    requires h.sent <= |file|
    ensures HostAfter(file, h, lines + [line]).0 == HostReads(file, HostAfter(file, h, lines).0, line).0
    ensures HostAfter(file, h, lines + [line]).1 ==
            HostAfter(file, h, lines).1 + HostReads(file, HostAfter(file, h, lines).0, line).1
    decreases |lines|
  {
    hide HostReads;
    if lines == [] {
      assert (lines + [line])[0] == line && (lines + [line])[1..] == [];
      NothingAppended(HostReads(file, h, line).1);
    } else {
      var (g, out) := HostReads(file, h, lines[0]);
      assert (lines + [line])[0] == lines[0] && (lines + [line])[1..] == lines[1..] + [line];
      HostAfterSnoc(file, g, lines[1..], line);
      Associative(out, HostAfter(file, g, lines[1..]).1, HostReads(file, HostAfter(file, h, lines).0, line).1);
    }
  }

  /** One more line of the log read. */
  lemma ReadOne(file: seq<Byte>, log: seq<Line>, read: nat, h: Host, out: seq<Byte>)
    requires read < |log| && h.sent <= |file| && HostAfter(file, HOST_START, log[..read]) == (h, out)
    ensures var (g, more) := HostReads(file, h, log[read]);
            HostAfter(file, HOST_START, log[..read + 1]) == (g, out + more)
  {
    HostAfterSnoc(file, HOST_START, log[..read], log[read]);
    assert log[..read + 1] == log[..read] + [log[read]];
  }

  lemma HostAfterNothing(file: seq<Byte>)
    ensures HostAfter(file, HOST_START, []) == (HOST_START, [])
  {
  }

  /** send_firmware against a finite log: what it writes, its packet counter, and whether its send
      loop ended. */
  method SendFirmware(file: seq<Byte>, log: seq<Line>) returns (written: seq<Byte>, packetIndex: nat, done: bool)
    ensures var (h, out) := HostAfter(file, HOST_START, log);
            && written == Handshake(|file|) + out
            && packetIndex == 1 + h.acks
            && (done <==> h.phase == Finished)
  {
    hide HostAfter, TransferCommand;
    HostAfterNothing(file);
    written := Slip.HostSlipEncode(TransferCommand(|file|));
    packetIndex := 1;
    done := false;
    ghost var out: seq<Byte> := [];
    NothingAppended(written);
    assert log[..0] == [] && log[..|log|] == log;
    var read := 0;
    while read < |log| && log[read] != FetchLength
      invariant 0 <= read <= |log| && HostAfter(file, HOST_START, log[..read]) == (HOST_START, [])
    {
      ReadOne(file, log, read, HOST_START, []);
      NothingAppended<Byte>([]);
      read := read + 1;
    }
    if read == |log| {
      return;
    }
    ReadOne(file, log, read, HOST_START, []);
    read := read + 1;
    var offset := 0;
    ghost var g := HOST_START;
    NothingAppended(SendNext(file, g).1);
    while offset < |file|
      invariant offset == g.sent <= |file| && packetIndex == 1 + g.acks && read <= |log|
      invariant HostAfter(file, HOST_START, log[..read]) == (SendNext(file, g).0, out + SendNext(file, g).1)
      invariant written == Handshake(|file|) + out
    {
      var chunk := file[offset..Min(offset + PACKET_SIZE, |file|)];
      ghost var h := SendNext(file, g).0;
      Associative(Handshake(|file|), out, chunk);
      written := written + chunk;
      out := out + chunk;
      while read < |log| && log[read] != ReceivedImage
        invariant 0 <= read <= |log| && HostAfter(file, HOST_START, log[..read]) == (h, out)
      {
        ReadOne(file, log, read, h, out);
        NothingAppended(out);
        read := read + 1;
      }
      if read == |log| {
        return;
      }
      ReadOne(file, log, read, h, out);
      read := read + 1;
      offset := offset + |chunk|;
      packetIndex := packetIndex + 1;
      g := h.(acks := h.acks + 1);
    }
    done := true;
    ghost var last := SendNext(file, g).0;
    NothingAppended(out);
    while read < |log|
      invariant 0 <= read <= |log| && HostAfter(file, HOST_START, log[..read]) == (last, out)
    {
      ReadOne(file, log, read, last, out);
      read := read + 1;
    }
  }

  // ------------------------------------------------------------------- system

  datatype System = System(
    host: Host,
    wire: seq<Byte>,               // written by the host, not yet reported by the driver
    events: seq<seq<Byte>>,        // rx_event_queue
    busy: Option<seq<Byte>>,       // the image event between its acknowledgement and its store
    dev: Device,
    read: nat                      // how much of the log the host has read
  )

  datatype Step =
    | Deliver(count: nat)   // RX_RDY with room in the queue
    | Drop(count: nat)      // RX_RDY with none, once the transfer has begun
    | Begin                 // the worker takes the next event
    | End                   // it stores the image event
    | Read                  // the host reads a line
    | RunFota               // fota_work_cb

  predicate Enabled(file: seq<Byte>, s: System, e: Step) {
    && !s.dev.rebooted && s.host.sent <= |file| && s.dev.slip.Ok()
    && match e
       case Deliver(k) => 1 <= k <= EVENT_MAX && k <= |s.wire| && |s.events| < R.QUEUE_SIZE
       case Drop(k) => 1 <= k <= EVENT_MAX && k <= |s.wire| && |s.events| == R.QUEUE_SIZE && s.dev.transferMode
       case Begin => s.busy == None && s.events != []
       case End => s.busy.Some?
       case Read => s.read < |s.dev.log|
       case RunFota => s.busy == None && s.dev.workQueued
  }

  /** Library calls and stores succeed; the rest of the environment is arbitrary. */
  function Next(file: seq<Byte>, env: Env, s: System, e: Step): System
    requires Enabled(file, s, e)
  {
    match e
    case Deliver(k) => s.(wire := s.wire[k..], events := s.events + [s.wire[..k]])
    case Drop(k) => s.(wire := s.wire[k..])
    case Begin =>
      var event := s.events[0];
      if s.dev.transferMode
      then s.(events := s.events[1..], busy := Some(event), dev := SaveBegin(s.dev, |event|))
      else s.(events := s.events[1..], dev := ProcessEvent(s.dev, event, env))
    case End => s.(busy := None, dev := EndImageEvent(s.dev, s.busy.value, env.storeOk))
    case Read =>
      var (h, out) := HostReads(file, s.host, s.dev.log[s.read]);
      s.(host := h, wire := s.wire + out, read := s.read + 1)
    case RunFota => s.(dev := FotaWork(s.dev, env, Ftp([], 0)))
  }

  predicate ValidRun(file: seq<Byte>, env: Env, s: System, es: seq<Step>)
    decreases |es|
  {
    es == [] || (Enabled(file, s, es[0]) && ValidRun(file, env, Next(file, env, s, es[0]), es[1..]))
  }

  function Final(file: seq<Byte>, env: Env, s: System, es: seq<Step>): System
    requires ValidRun(file, env, s, es)
    decreases |es|
  {
    if es == [] then s else Final(file, env, Next(file, env, s, es[0]), es[1..])
  }

  /** A freshly started device, whatever its flash holds, and the host just after its first write. */
  predicate Start(file: seq<Byte>, s: System) {
    && s.host == HOST_START && s.wire == Handshake(|file|)
    && s.events == [] && s.busy == None && s.read == 0
    && s.dev == Boot(s.dev.flash.stream)
  }

  // ------------------------------------------------------- decoding the handshake

  lemma TransferCommandFits(n: nat)
    requires n < 0x8000_0000
    ensures |TransferCommand(n)| <= 26
  {
    TransferCommandShape(n);
    assert Pow10(10) == 10_000_000_000 by {
      assert Pow10(5) == 100_000;
      assert Pow10(10) == 100_000 * Pow10(5);
    }
    DecimalLength(n, 10);
  }

  lemma {:induction false} PlainBytesNeedNoStuffing(p: seq<Byte>)
    requires forall k :: 0 <= k < |p| ==> p[k] < 128
    ensures Slip.Stuff(p) == p
  {
    if p != [] {
      PlainBytesNeedNoStuffing(p[1..]);
    }
  }

  /** The leading END closes an empty packet. */
  lemma LeadingEnd(rest: seq<Byte>)
    ensures var clean := Slip.Clean(SLIP_MTU);
            && Slip.After(clean, [Slip.END] + rest) == Slip.After(clean, rest)
            && Slip.Delivered(clean, [Slip.END] + rest) == [Slip.Exactly([], SLIP_MTU)] + Slip.Delivered(clean, rest)
  {
    var clean := Slip.Clean(SLIP_MTU);
    Slip.FeedFirst(clean, Slip.END, rest);
    NothingAppended(clean.buffer);
  }

  lemma HandshakePart(cmd: seq<Byte>, c: nat)
    requires (forall k :: 0 <= k < |cmd| ==> cmd[k] < 128) && |cmd| < SLIP_MTU && 0 < c <= |cmd| + 1
    ensures c <= |Slip.EncodeHost(cmd)|
    ensures Slip.Delivered(Slip.Clean(SLIP_MTU), Slip.EncodeHost(cmd)[..c]) == [Slip.Exactly([], SLIP_MTU)]
  {
    var part := cmd[..c - 1];
    PlainBytesNeedNoStuffing(cmd);
    PlainBytesNeedNoStuffing(part);
    assert Slip.EncodeHost(cmd)[..c] == [Slip.END] + part;
    LeadingEnd(part);
    Slip.FeedStuffed(Slip.Clean(SLIP_MTU), part);
  }

  lemma HandshakeWhole(cmd: seq<Byte>)
    requires |cmd| < SLIP_MTU
    ensures var clean, h := Slip.Clean(SLIP_MTU), Slip.EncodeHost(cmd);
            && Slip.After(clean, h) == clean
            && Slip.Delivered(clean, h) == [Slip.Exactly([], SLIP_MTU), Slip.Exactly(cmd, SLIP_MTU)]
  {
    var clean := Slip.Clean(SLIP_MTU);
    LeadingEnd(Slip.Encode(cmd));
    Slip.FeedFrame(clean, cmd);
    assert Slip.Overlay(clean.buffer, 0, cmd) == cmd + Zeros(SLIP_MTU - |cmd|);
  }

  /** What a clean decoder makes of the first c bytes of the handshake: an empty packet for the leading
      END, and the command once the closing END is in. */
  lemma HandshakeDeliveries(n: nat, c: nat)
    requires n < 0x8000_0000 && c <= |Handshake(n)|
    ensures |TransferCommand(n)| <= 26
    ensures Slip.Delivered(Slip.Clean(SLIP_MTU), Handshake(n)[..c]) ==
            if c == 0 then []
            else if c < |Handshake(n)| then [Slip.Exactly([], SLIP_MTU)]
            else [Slip.Exactly([], SLIP_MTU), Slip.Exactly(TransferCommand(n), SLIP_MTU)]
    ensures c == |Handshake(n)| ==> Slip.After(Slip.Clean(SLIP_MTU), Handshake(n)[..c]) == Slip.Clean(SLIP_MTU)
  {
    var cmd := TransferCommand(n);
    TransferCommandShape(n);
    TransferCommandFits(n);
    PlainBytesNeedNoStuffing(cmd);
    HandshakeWhole(cmd);
    assert Handshake(n)[..|Handshake(n)|] == Handshake(n);
    if 0 < c < |Handshake(n)| {
      HandshakePart(cmd, c);
    }
  }

  // --------------------------------------------------------------- invariant

  function CountLines(log: seq<Line>, line: Line): nat {
    if log == [] then 0
    else CountLines(log[..|log| - 1], line) + (if log[|log| - 1] == line then 1 else 0)
  }

  function Acks(log: seq<Line>): nat { CountLines(log, ReceivedImage) }

  predicate Pipeline(s: System) {
    && |s.events| <= R.QUEUE_SIZE && s.read <= |s.dev.log|
    && (forall i :: 0 <= i < |s.events| ==> 1 <= |s.events[i]| <= EVENT_MAX)
    && (s.busy.Some? ==> 1 <= |s.busy.value| <= EVENT_MAX)
    && s.dev.slip.Ok() && s.dev.flash.strays == 0
  }

  /** How much of the handshake the decoder has seen. */
  function Decoded(file: seq<Byte>, s: System): int {
    |Handshake(|file|)| - |Flatten(s.events)| - |s.wire|
  }

  /** Until the closing END of the handshake has been decoded. */
  predicate Handshaking(file: seq<Byte>, s: System) {
    var c := Decoded(file, s);
    && s.host == HOST_START && s.busy == None
    && 0 <= c < |Handshake(|file|)|
    && Handshake(|file|)[c..] == Flatten(s.events) + s.wire
    && s.dev.slip == Slip.After(Slip.Clean(SLIP_MTU), Handshake(|file|)[..c])
    && !s.dev.transferMode && s.dev.state == IDLE && !s.dev.workQueued && !s.dev.rebooted
    && s.dev.flash.requests == 0 && !s.dev.flash.open && s.dev.applied == [] && s.dev.uplinked == []
    && (forall i :: 0 <= i < |s.dev.log| ==> s.dev.log[i] == Other)
  }

  function BusyBytes(s: System): seq<Byte> { if s.busy.Some? then s.busy.value else [] }

  /** Image bytes whose event has been dealt with completely. */
  function Processed(s: System): int { s.dev.totalLength - |BusyBytes(s)| }

  /** From then on: the file is processed bytes, the event in work, the queue and the wire, in order,
      up to what the host has sent. */
  predicate Transferring(file: seq<Byte>, s: System) {
    && s.dev.transferMode && s.dev.fileLength == |file|
    && s.dev.slip == Slip.Clean(SLIP_MTU) && s.dev.uplinked == []
    && 0 <= Processed(s) <= s.host.sent <= |file|
    && file[Processed(s)..s.host.sent] == BusyBytes(s) + (Flatten(s.events) + s.wire)
  }

  predicate FlashOk(file: seq<Byte>, s: System) {
    var p, n := Processed(s), |file|;
    if p == n > 0 then
      && (s.dev.state == UPDATE_APPLY && (s.dev.workQueued || s.dev.rebooted))
      && s.dev.applied == [Applied(UPDATE_APPLY, SerialComplete, n, n)]
      && (if n > 1024 then s.dev.flash == Flash(false, file, 1, 0)
          else s.dev.flash.requests == 0 && s.dev.flash.stream <= file && |s.dev.flash.stream| < n)
    else
      && (s.dev.state == IDLE && !s.dev.workQueued && !s.dev.rebooted && s.dev.applied == [])
      && 0 <= p <= n && s.dev.flash == Flash(true, file[..p], 0, 0)
  }

  /** Acknowledgements against chunks. Every chunk but the last one sent is matched by one the host has
      read, and once nothing is on its way there is one for the last chunk too. */
  predicate AcksOk(file: seq<Byte>, s: System) {
    && s.read <= |s.dev.log|
    && (s.host.phase != Finished ==> s.host.acks == Acks(s.dev.log[..s.read]))
    && s.host.sent == Min(PACKET_SIZE * s.host.chunks, |file|)
    && (s.host.chunks > 0 ==> PACKET_SIZE * (s.host.chunks - 1) < |file|)
    && match s.host.phase
       case Confirming =>
         && s.host == HOST_START && s.wire == [] && s.events == [] && s.busy == None
         && Acks(s.dev.log) == 0 && FetchLength in s.dev.log[s.read..]
       case Chunking =>
         && s.host.chunks == s.host.acks + 1
         && (s.wire == [] && s.events == [] ==> s.host.chunks <= Acks(s.dev.log))
       case Finished => s.host.sent == |file| && s.host.chunks == s.host.acks
  }

  predicate Inv(file: seq<Byte>, s: System) {
    && |file| < 0x8000_0000
    && Pipeline(s)
    && (Handshaking(file, s) || (Transferring(file, s) && FlashOk(file, s) && AcksOk(file, s)))
  }

  // ------------------------------------------------------------ invariance proof

  lemma FlattenFirst(events: seq<seq<Byte>>)
    requires events != []
    ensures Flatten(events) == events[0] + Flatten(events[1..])
  {
  }

  lemma {:induction false} NoAcks(log: seq<Line>)
    requires forall i :: 0 <= i < |log| ==> log[i] != ReceivedImage
    ensures Acks(log) == 0
  {
    if log != [] {
      NoAcks(log[..|log| - 1]);
    }
  }

  lemma AcksSnoc(log: seq<Line>, line: Line)
    ensures Acks(log + [line]) == Acks(log) + (if line == ReceivedImage then 1 else 0)
  {
    assert (log + [line])[..|log|] == log;
  }

  lemma DeliverKeepsBytes(s: System, k: nat)
    requires k <= |s.wire|
    ensures Flatten(s.events + [s.wire[..k]]) + s.wire[k..] == Flatten(s.events) + s.wire
  {
    FlattenSnoc(s.events, s.wire[..k]);
    Associative(Flatten(s.events), s.wire[..k], s.wire[k..]);
    assert s.wire[..k] + s.wire[k..] == s.wire;
  }

  lemma DeliverKeepsInv(file: seq<Byte>, env: Env, s: System, k: nat)
    requires Inv(file, s) && Enabled(file, s, Deliver(k))
    ensures Inv(file, Next(file, env, s, Deliver(k)))
  {
    var t := Next(file, env, s, Deliver(k));
    DeliverKeepsBytes(s, k);
    assert |Flatten(t.events) + t.wire| == |Flatten(s.events) + s.wire|;
    if Handshaking(file, s) {
      assert Decoded(file, t) == Decoded(file, s);
    }
  }

  lemma {:induction false} AcksOfPrefix(log: seq<Line>, k: nat)
    requires k <= |log|
    ensures Acks(log[..k]) <= Acks(log)
  {
    if k < |log| {
      AcksOfPrefix(log[..|log| - 1], k);
      assert log[..|log| - 1][..k] == log[..k];
    } else {
      assert log[..k] == log;
    }
  }

  lemma FlattenOfNonEmpty(events: seq<seq<Byte>>)
    requires Flatten(events) == [] && forall i :: 0 <= i < |events| ==> 1 <= |events[i]|
    ensures events == []
  {
  }

  lemma EmptyPacketIsIgnored(d: Device, env: Env)
    ensures UartDataHandled(d, Slip.Exactly([], SLIP_MTU), env) == d
  {
    var b := Slip.Exactly([], SLIP_MTU).buffer;
    assert b[0] == 0 && CString(b) == [];
  }

  function Opened(d: Device, n: nat): Device {
    Say(d, FetchLength).(transferMode := true, flash := d.flash.(open := true, stream := []), totalLength := 0, fileLength := n)
  }

  lemma TransferPacketOpens(d: Device, n: nat, env: Env)
    requires n < 0x8000_0000 && |TransferCommand(n)| <= SLIP_MTU && Cooperative(env)
    ensures UartDataHandled(d, Slip.Exactly(TransferCommand(n), SLIP_MTU), env) == Opened(d, n)
  {
    hide CString, ScanLength, FetchFileLength, TransferCommand;
    var padding: nat := SLIP_MTU - |TransferCommand(n)|;
    TransferCommandRoundTrip(n, TransferCommand(n) + Zeros(padding), padding, env.unset);
    ScanTransferCommand(n);
  }

  /** The event at the head of the queue is the next piece of the handshake. */
  lemma HandshakeEvent(file: seq<Byte>, s: System)
    requires |file| < 0x8000_0000 && Handshaking(file, s) && s.events != [] && s.events[0] != []
    ensures var h, c, event := Handshake(|file|), Decoded(file, s), s.events[0];
            var c' := c + |event|;
            && c' <= |h| && h[c'..] == Flatten(s.events[1..]) + s.wire && h[..c'] == h[..c] + event
            && s.dev.slip.Ok()
            && Slip.After(s.dev.slip, event) == Slip.After(Slip.Clean(SLIP_MTU), h[..c'])
            && |TransferCommand(|file|)| <= 26
            && Slip.Delivered(s.dev.slip, event) ==
               (if c == 0 then [Slip.Exactly([], SLIP_MTU)] else [])
               + (if c' == |h| then [Slip.Exactly(TransferCommand(|file|), SLIP_MTU)] else [])
            && (c' == |h| ==> Slip.After(s.dev.slip, event) == Slip.Clean(SLIP_MTU))
  {
    hide Slip.After, Slip.Delivered, Flatten, TransferCommand, Slip.EncodeHost;
    var n := |file|;
    var h, c, event, clean := Handshake(n), Decoded(file, s), s.events[0], Slip.Clean(SLIP_MTU);
    var c' := c + |event|;
    FlattenFirst(s.events);
    Associative(event, Flatten(s.events[1..]), s.wire);
    var rest := Flatten(s.events[1..]) + s.wire;
    assert h[c..] == event + rest;
    assert h[c'..] == h[c..][|event|..] == rest;
    assert h[..c'] == h[..c] + event by {
      assert h[..c'] == h[..c] + h[c..][..|event|];
    }
    Slip.FeedConcat(clean, h[..c], event);
    HandshakeDeliveries(n, c);
    HandshakeDeliveries(n, c');
    DropCommon(Slip.Delivered(clean, h[..c]), Slip.Delivered(s.dev.slip, event), Slip.Delivered(clean, h[..c']));
  }

  lemma DropCommon<T>(a: seq<T>, b: seq<T>, whole: seq<T>)
    requires whole == a + b
    ensures b == whole[|a|..]
  {
  }

  /** What the worker does with an event while handshaking: at most an empty packet, then the command. */
  lemma HandshakePackets(d: Device, n: nat, env: Env, leading: bool, closing: bool)
    requires n < 0x8000_0000 && |TransferCommand(n)| <= 26 && Cooperative(env)
    ensures var packets := (if leading then [Slip.Exactly([], SLIP_MTU)] else [])
                           + (if closing then [Slip.Exactly(TransferCommand(n), SLIP_MTU)] else []);
            var d1 := if leading then Say(d, Other) else d;
            HandlePackets(d, packets, env) == if closing then Opened(Say(d1, Other), n) else d1
  {
    var first, last := Slip.Exactly([], SLIP_MTU), Slip.Exactly(TransferCommand(n), SLIP_MTU);
    var d1 := if leading then Say(d, Other) else d;
    EmptyPacketIsIgnored(Say(d, Other), env);
    TransferPacketOpens(Say(d1, Other), n, env);
    var tail := if closing then [last] else [];
    if closing {
      assert tail[1..] == [];
      assert HandlePackets(d1, tail, env) == HandlePackets(Opened(Say(d1, Other), n), [], env);
    }
    if leading {
      assert ([first] + tail)[1..] == tail;
      assert HandlePackets(d, [first] + tail, env) == HandlePackets(d1, tail, env);
    } else {
      NothingAppended(tail);
    }
  }

  lemma BeginHandshaking(file: seq<Byte>, env: Env, s: System)
    requires Inv(file, s) && Enabled(file, s, Begin) && Handshaking(file, s) && Cooperative(env)
    ensures Inv(file, Next(file, env, s, Begin))
    ensures |Next(file, env, s, Begin).dev.log| <= |s.dev.log| + 3 && !Next(file, env, s, Begin).dev.workQueued
  {
    hide HandlePackets, Flatten, TransferCommand, Slip.After, Slip.Delivered, Slip.EncodeHost, CountLines;
    var n := |file|;
    var c, event := Decoded(file, s), s.events[0];
    var c' := c + |event|;
    var t := Next(file, env, s, Begin);
    HandshakeEvent(file, s);
    assert |Flatten(t.events) + t.wire| == |Handshake(n)| - c';
    var d := s.dev.(slip := Slip.After(s.dev.slip, event));
    HandshakePackets(d, n, env, c == 0, c' == |Handshake(n)|);
    var d1 := if c == 0 then Say(d, Other) else d;
    if c' < |Handshake(n)| {
      assert Handshaking(file, t);
    } else {
      OpenedIsTransferring(file, s, t, d1);
    }
  }

  lemma OpenedIsTransferring(file: seq<Byte>, s: System, t: System, d: Device)
    requires |file| < 0x8000_0000 && Pipeline(t) && s.read <= |s.dev.log| && s.dev.log <= d.log
    requires t.host == HOST_START && t.busy == None && t.read == s.read && Flatten(t.events) + t.wire == []
    requires t.dev == Opened(Say(d, Other), |file|) && d.slip == Slip.Clean(SLIP_MTU)
    requires d.state == IDLE && !d.workQueued && !d.rebooted && d.flash.requests == 0
    requires d.applied == [] && d.uplinked == []
    requires forall i :: 0 <= i < |d.log| ==> d.log[i] == Other
    ensures Transferring(file, t) && FlashOk(file, t) && AcksOk(file, t)
  {
    hide CountLines, Slip.After, TransferCommand;
    FlattenOfNonEmpty(t.events);
    NoAcks(t.dev.log);
    NoAcks(t.dev.log[..t.read]);
    assert t.dev.log[|t.dev.log| - 1] == FetchLength;
    assert t.dev.log[t.read..][|t.dev.log| - 1 - t.read] == FetchLength;
    assert file[0..0] == [];
  }

  lemma BeginKeepsAcks(file: seq<Byte>, s: System, t: System)
    requires AcksOk(file, s) && s.events != []
    requires t.host == s.host && t.wire == s.wire && t.read == s.read && t.dev.log == s.dev.log + [ReceivedImage]
    ensures AcksOk(file, t)
  {
    AcksSnoc(s.dev.log, ReceivedImage);
    AcksOfPrefix(s.dev.log, s.read);
    assert t.dev.log[..s.read] == s.dev.log[..s.read];
  }

  /** The first piece of a part of the file is the file's next piece, and the rest comes behind it. */
  lemma NextPiece(file: seq<Byte>, at: nat, sent: nat, piece: seq<Byte>, rest: seq<Byte>)
    requires at <= sent <= |file| && file[at..sent] == piece + rest
    ensures at + |piece| <= sent && file[..at] + piece == file[..at + |piece|]
    ensures file[at + |piece|..sent] == rest
  {
    var part := file[at..sent];
    assert |part| == |piece| + |rest|;
    assert part[..|piece|] == piece && part[|piece|..] == rest;
    assert file[..at] + file[at..at + |piece|] == file[..at + |piece|];
  }

  /** An image event the worker takes moves from the queue to its hands. */
  lemma TakeImageEvent(file: seq<Byte>, s: System, t: System)
    requires Transferring(file, s) && |file| < 0x8000_0000 && s.busy == None && s.events != []
    requires t.host == s.host && t.wire == s.wire && t.events == s.events[1..] && t.busy == Some(s.events[0])
    requires t.dev == SaveBegin(s.dev, |s.events[0]|)
    ensures Transferring(file, t) && Processed(t) == Processed(s)
  {
    hide Flatten;
    var event, rest := s.events[0], Flatten(s.events[1..]) + s.wire;
    FlattenFirst(s.events);
    Associative(event, Flatten(s.events[1..]), s.wire);
    NothingAppended(event + rest);
    NextPiece(file, Processed(s), s.host.sent, event, rest);
  }

  lemma FlashUnchanged(file: seq<Byte>, s: System, t: System)
    requires FlashOk(file, s) && Processed(t) == Processed(s) && t.dev.flash == s.dev.flash
    requires t.dev.state == s.dev.state && t.dev.workQueued == s.dev.workQueued
    requires t.dev.rebooted == s.dev.rebooted && t.dev.applied == s.dev.applied
    ensures FlashOk(file, t)
  {
  }

  lemma BeginTransferring(file: seq<Byte>, env: Env, s: System)
    requires Inv(file, s) && Enabled(file, s, Begin) && Transferring(file, s) && FlashOk(file, s) && AcksOk(file, s)
    ensures Inv(file, Next(file, env, s, Begin))
    ensures |Next(file, env, s, Begin).dev.log| == |s.dev.log| + 1
    ensures Next(file, env, s, Begin).dev.workQueued == s.dev.workQueued
  {
    hide Handshaking, Processed, FlashOk, AcksOk, CountLines, Flatten;
    var t := Next(file, env, s, Begin);
    TakeImageEvent(file, s, t);
    FlashUnchanged(file, s, t);
    BeginKeepsAcks(file, s, t);
  }

  /** The event in work is the piece of the file right after the processed part. */
  lemma BusyIsNextPiece(file: seq<Byte>, s: System)
    requires Transferring(file, s) && s.busy.Some?
    ensures var p, total := Processed(s), s.dev.totalLength;
            && p <= total <= s.host.sent
            && file[..p] + s.busy.value == file[..total]
            && file[total..s.host.sent] == [] + (Flatten(s.events) + s.wire)
  {
    var rest := Flatten(s.events) + s.wire;
    NothingAppended(rest);
    NextPiece(file, Processed(s), s.host.sent, s.busy.value, rest);
  }

  lemma EndKeepsInv(file: seq<Byte>, env: Env, s: System)
    requires Inv(file, s) && Enabled(file, s, End) && Cooperative(env)
    ensures Inv(file, Next(file, env, s, End))
    ensures Next(file, env, s, End).dev.log == s.dev.log
  {
    hide Flatten, CountLines;
    var t := Next(file, env, s, End);
    BusyIsNextPiece(file, s);
    if s.dev.totalLength == |file| {
      assert file[..|file|] == file;
    }
  }

  lemma HostKeepsUp(file: seq<Byte>, s: System, t: System)
    requires Transferring(file, s) && s.host.sent <= t.host.sent <= |file|
    requires t == s.(host := t.host, wire := s.wire + file[s.host.sent..t.host.sent], read := t.read)
    ensures Transferring(file, t)
  {
    var p, sent, sent' := Processed(s), s.host.sent, t.host.sent;
    var out := file[sent..sent'];
    Associative(Flatten(s.events), s.wire, out);
    Associative(BusyBytes(s), Flatten(s.events) + s.wire, out);
    assert file[p..sent'] == file[p..sent] + out;
  }

  lemma HostWritesFile(file: seq<Byte>, h: Host, line: Line)
    requires h.sent <= |file|
    ensures var (g, out) := HostReads(file, h, line); h.sent <= g.sent && out == file[h.sent..g.sent]
  {
    assert file[h.sent..h.sent] == [];
  }

  lemma LogLine(log: seq<Line>, read: nat)
    requires read < |log|
    ensures Acks(log[..read + 1]) == Acks(log[..read]) + (if log[read] == ReceivedImage then 1 else 0)
    ensures Acks(log[..read + 1]) <= Acks(log)
    ensures FetchLength in log[read..] ==> log[read] == FetchLength || FetchLength in log[read + 1..]
  {
    assert log[..read + 1] == log[..read] + [log[read]];
    AcksSnoc(log[..read], log[read]);
    AcksOfPrefix(log, read + 1);
    assert log[read..] == [log[read]] + log[read + 1..];
  }

  lemma ReadKeepsAcks(file: seq<Byte>, s: System)
    requires Transferring(file, s) && AcksOk(file, s) && s.read < |s.dev.log|
    ensures var (h, out) := HostReads(file, s.host, s.dev.log[s.read]);
            AcksOk(file, s.(host := h, wire := s.wire + out, read := s.read + 1))
  {
    hide CountLines, Flatten;
    LogLine(s.dev.log, s.read);
    NothingAppended(s.wire);
  }

  /** What reading a line does. */
  lemma ReadWrites(file: seq<Byte>, env: Env, s: System)
    requires Enabled(file, s, Read)
    ensures var t := Next(file, env, s, Read);
            && s.host.sent <= t.host.sent <= |file| && t.wire == s.wire + file[s.host.sent..t.host.sent]
  {
    HostWritesFile(file, s.host, s.dev.log[s.read]);
  }

  lemma ReadKeepsInv(file: seq<Byte>, env: Env, s: System)
    requires Inv(file, s) && Enabled(file, s, Read)
    ensures Inv(file, Next(file, env, s, Read))
    ensures var t := Next(file, env, s, Read); |t.wire| - |s.wire| == t.host.sent - s.host.sent >= 0
  {
    hide AcksOk, Transferring;
    HostWritesFile(file, s.host, s.dev.log[s.read]);
    var t := Next(file, env, s, Read);
    NothingAppended(s.wire);
    if !Handshaking(file, s) {
      HostKeepsUp(file, s, t);
      ReadKeepsAcks(file, s);
    }
  }

  lemma FotaKeepsInv(file: seq<Byte>, env: Env, s: System)
    requires Inv(file, s) && Enabled(file, s, RunFota)
    ensures Inv(file, Next(file, env, s, RunFota))
    ensures Next(file, env, s, RunFota) == s.(dev := s.dev.(workQueued := false, rebooted := true))
  {
    var t := Next(file, env, s, RunFota);
    assert Processed(t) == Processed(s);
  }

  lemma StepKeepsInv(file: seq<Byte>, env: Env, s: System, e: Step)
    requires Inv(file, s) && Enabled(file, s, e) && Cooperative(env) && !e.Drop?
    ensures Inv(file, Next(file, env, s, e))
  {
    match e
    case Deliver(k) => DeliverKeepsInv(file, env, s, k);
    case Begin =>
      if Handshaking(file, s) {
        BeginHandshaking(file, env, s);
      } else {
        BeginTransferring(file, env, s);
      }
    case End => EndKeepsInv(file, env, s);
    case Read => ReadKeepsInv(file, env, s);
    case RunFota => FotaKeepsInv(file, env, s);
  }

  // ------------------------------------------------------------ dropped events

  /** Some image bytes were dropped: what has been received and what can still come is less than what the
      host has sent, and nothing was requested. */
  predicate Short(file: seq<Byte>, s: System) {
    && |file| < 0x8000_0000 && Pipeline(s)
    && s.dev.transferMode && s.dev.fileLength == |file|
    && s.dev.slip == Slip.Clean(SLIP_MTU) && s.dev.uplinked == []
    && (s.dev.state == IDLE && !s.dev.workQueued && !s.dev.rebooted && s.dev.applied == [])
    && s.dev.flash.open && s.dev.flash.requests == 0
    && s.dev.totalLength + |Flatten(s.events)| + |s.wire| < s.host.sent <= |file|
  }

  /** Without drops every byte the host has sent of the file is counted, queued or on the wire. */
  lemma BytesAddUp(file: seq<Byte>, s: System)
    requires Transferring(file, s)
    ensures s.dev.totalLength + |Flatten(s.events)| + |s.wire| == s.host.sent
  {
    assert |file[Processed(s)..s.host.sent]| == |BusyBytes(s) + (Flatten(s.events) + s.wire)|;
  }

  lemma NotBoth(file: seq<Byte>, s: System)
    ensures !(Inv(file, s) && Short(file, s))
  {
    hide AcksOk, FlashOk, Flatten;
    if Transferring(file, s) {
      BytesAddUp(file, s);
    }
  }

  lemma DropLosesBytes(file: seq<Byte>, env: Env, s: System, k: nat)
    requires (Inv(file, s) || Short(file, s)) && Enabled(file, s, Drop(k))
    ensures Short(file, Next(file, env, s, Drop(k)))
    ensures 0 <= Work(file, Next(file, env, s, Drop(k))) < Work(file, s)
  {
    hide AcksOk, Flatten;
    if Transferring(file, s) {
      BytesAddUp(file, s);
    }
  }

  lemma ShortStaysShort(file: seq<Byte>, env: Env, s: System, e: Step)
    requires Short(file, s) && Enabled(file, s, e)
    ensures Short(file, Next(file, env, s, e))
    ensures 0 <= Work(file, Next(file, env, s, e)) < Work(file, s)
  {
    hide Flatten;
    var t := Next(file, env, s, e);
    match e
    case Deliver(k) => DeliverKeepsBytes(s, k); assert |Flatten(t.events) + t.wire| == |Flatten(s.events) + s.wire|;
    case Drop(k) =>
    case Begin => FlattenFirst(s.events);
    case End =>
    case Read => HostWritesFile(file, s.host, s.dev.log[s.read]);
    case RunFota =>
  }

  // -------------------------------------------------------- progress and outcome

  /** Strictly smaller after every step. */
  function Work(file: seq<Byte>, s: System): int {
    8 * (|file| - s.host.sent) + 7 * |s.wire| + 6 * |s.events| + (if s.busy.Some? then 3 else 0)
    + (|s.dev.log| - s.read) + (if s.dev.workQueued then 1 else 0)
  }

  lemma StepDecreasesWork(file: seq<Byte>, env: Env, s: System, e: Step)
    requires Inv(file, s) && Enabled(file, s, e) && Cooperative(env) && !e.Drop?
    ensures 0 <= Work(file, Next(file, env, s, e)) < Work(file, s)
  {
    StepKeepsInv(file, env, s, e);
    match e
    case Deliver(k) =>
    case Begin =>
      if Handshaking(file, s) {
        BeginHandshaking(file, env, s);
      } else {
        BeginTransferring(file, env, s);
      }
    case End => EndKeepsInv(file, env, s);
    case Read => ReadKeepsInv(file, env, s);
    case RunFota => FotaKeepsInv(file, env, s);
  }

  /** Nothing can happen any more. */
  predicate Halted(file: seq<Byte>, s: System) {
    !Enabled(file, s, Deliver(1)) && !Enabled(file, s, Begin) && !Enabled(file, s, End)
    && !Enabled(file, s, Read) && !Enabled(file, s, RunFota)
  }

  lemma EverythingProcessed(file: seq<Byte>, s: System)
    requires Transferring(file, s) && FlashOk(file, s) && s.busy == None && s.events == [] && s.wire == []
    ensures s.host.sent == |file| > 0 && !s.dev.rebooted ==> s.dev.workQueued
  {
    assert Flatten(s.events) + s.wire == [];
    assert |file[Processed(s)..s.host.sent]| == 0;
  }

  lemma HostIsNotStuck(file: seq<Byte>, s: System)
    requires AcksOk(file, s) && s.events == [] && s.wire == [] && s.read == |s.dev.log|
    ensures s.host.sent == |file|
  {
    hide CountLines;
    assert s.dev.log[..s.read] == s.dev.log;
  }

  lemma HandshakeIsNotStuck(file: seq<Byte>, s: System)
    requires Handshaking(file, s) && s.events == []
    ensures s.wire != []
  {
  }

  /** As long as the device has not rebooted, a system with nothing else to do has bytes on the wire. */
  lemma BytesToDeliver(file: seq<Byte>, s: System)
    requires Inv(file, s) && file != [] && !s.dev.rebooted
    requires s.busy == None && s.events == [] && s.read == |s.dev.log| && !s.dev.workQueued
    ensures s.wire != []
  {
    hide Handshaking, Transferring, FlashOk, AcksOk;
    if Handshaking(file, s) {
      HandshakeIsNotStuck(file, s);
    } else if s.wire == [] {
      HostIsNotStuck(file, s);
      EverythingProcessed(file, s);
    }
  }

  /** No deadlock: as long as the device has not rebooted (or the file is empty) something can happen. */
  lemma NeverHaltsEarly(file: seq<Byte>, s: System)
    requires Inv(file, s) && file != [] && !s.dev.rebooted
    ensures !Halted(file, s)
  {
    hide Inv, Slip.After;
    InvBounds(file, s);
    if s.busy == None && s.events == [] && s.read == |s.dev.log| && !s.dev.workQueued {
      BytesToDeliver(file, s);
    }
  }

  lemma InvBounds(file: seq<Byte>, s: System)
    requires Inv(file, s)
    ensures s.host.sent <= |file| && s.dev.slip.Ok() && |s.events| <= R.QUEUE_SIZE && s.read <= |s.dev.log|
  {
  }

  predicate NoDrops(es: seq<Step>) { forall e :: e in es ==> !e.Drop? }

  /** One step, whether or not it drops an event. */
  lemma AnyStep(file: seq<Byte>, env: Env, s: System, e: Step)
    requires (Inv(file, s) || Short(file, s)) && Enabled(file, s, e) && Cooperative(env)
    ensures var t := Next(file, env, s, e); if Inv(file, s) && !e.Drop? then Inv(file, t) else Short(file, t)
    ensures 0 <= Work(file, Next(file, env, s, e)) < Work(file, s)
  {
    hide Inv, Short, Next, Enabled, Work;
    if Short(file, s) {
      NotBoth(file, s);
      ShortStaysShort(file, env, s, e);
    } else if e.Drop? {
      DropLosesBytes(file, env, s, e.count);
    } else {
      StepKeepsInv(file, env, s, e);
      StepDecreasesWork(file, env, s, e);
    }
  }

  /** Without drops the protocol invariant survives every run; a drop leaves the device short for good.
      Either way every step uses up work. */
  lemma {:induction false} RunKeepsInv(file: seq<Byte>, env: Env, s: System, es: seq<Step>)
    requires (Inv(file, s) || Short(file, s)) && ValidRun(file, env, s, es) && Cooperative(env)
    ensures var t := Final(file, env, s, es);
            && (if Inv(file, s) && NoDrops(es) then Inv(file, t) else Short(file, t))
            && 0 <= Work(file, t) <= Work(file, s) - |es|
    decreases |es|
  {
    hide Inv, Short, Next, Enabled;
    if es == [] {
      WorkIsNatural(file, s);
    } else {
      var t := Next(file, env, s, es[0]);
      AnyStep(file, env, s, es[0]);
      RunKeepsInv(file, env, t, es[1..]);
      assert NoDrops(es) <==> !es[0].Drop? && NoDrops(es[1..]) by {
        assert es == [es[0]] + es[1..];
      }
      if Short(file, t) {
        NotBoth(file, t);
      }
    }
  }

  lemma WorkIsNatural(file: seq<Byte>, s: System)
    requires Inv(file, s) || Short(file, s)
    ensures 0 <= Work(file, s)
  {
  }

  lemma StartEstablishesInv(file: seq<Byte>, s: System)
    requires |file| < 0x8000_0000 && Start(file, s)
    ensures Inv(file, s)
  {
    var h := Handshake(|file|);
    assert h[..0] == [] && h[0..] == h;
    NothingAppended(h);
  }

  /** The whole upgrade, for every file an int can measure and every interleaving of host, driver and
      worker with every cut of the bytes into events, when stores succeed. Runs are finite. As long as no
      event is dropped, a run that cannot go on ends in the reboot. At a reboot nothing has been dropped
      and the image is the file, with exactly one boot request already made, if and only if the file is
      longer than 1024 bytes; a shorter one reboots into an incomplete image that was never requested. No
      store ever goes to a closed session. */
  lemma EndToEnd(file: seq<Byte>, env: Env, s: System, es: seq<Step>)
    requires |file| < 0x8000_0000 && Cooperative(env) && Start(file, s) && ValidRun(file, env, s, es)
    ensures |es| <= 8 * |file| + 7 * |Handshake(|file|)|
    ensures var t := Final(file, env, s, es);
            && (Halted(file, t) && file != [] && NoDrops(es) ==> t.dev.rebooted)
            && t.dev.flash.strays == 0
            && (t.dev.rebooted ==>
                  && file != [] && NoDrops(es)
                  && (t.dev.flash.stream == file && t.dev.flash.requests == 1 <==> |file| > 1024)
                  && (|file| <= 1024 ==> t.dev.flash.requests == 0 && |t.dev.flash.stream| < |file|))
  {
    hide AcksOk, Enabled, Halted;
    StartEstablishesInv(file, s);
    RunKeepsInv(file, env, s, es);
    var t := Final(file, env, s, es);
    if file != [] && !t.dev.rebooted && NoDrops(es) {
      NeverHaltsEarly(file, t);
    }
  }

  // ---------------------------------------------------------- separation of modes

  /** The event a step begins in SLIP mode, that is, feeds to the decoder. */
  function FedBy(file: seq<Byte>, s: System, e: Step): seq<Byte>
    requires Enabled(file, s, e)
  {
    if e.Begin? && !s.dev.transferMode then s.events[0] else []
  }

  /** The event it begins in transfer mode, that is, calls image_data_save with. */
  function ImagedBy(file: seq<Byte>, s: System, e: Step): seq<Byte>
    requires Enabled(file, s, e)
  {
    if e.Begin? && s.dev.transferMode then s.events[0] else []
  }

  function Fed(file: seq<Byte>, env: Env, s: System, es: seq<Step>): seq<Byte>
    requires ValidRun(file, env, s, es)
    decreases |es|
  {
    if es == [] then [] else FedBy(file, s, es[0]) + Fed(file, env, Next(file, env, s, es[0]), es[1..])
  }

  function Imaged(file: seq<Byte>, env: Env, s: System, es: seq<Step>): seq<Byte>
    requires ValidRun(file, env, s, es)
    decreases |es|
  {
    if es == [] then [] else ImagedBy(file, s, es[0]) + Imaged(file, env, Next(file, env, s, es[0]), es[1..])
  }

  /** What the decoder has seen, as the state tells. */
  function Seen(file: seq<Byte>, s: System): seq<Byte> {
    if !s.dev.transferMode && 0 <= Decoded(file, s) <= |Handshake(|file|)| then Handshake(|file|)[..Decoded(file, s)]
    else Handshake(|file|)
  }

  /** What image_data_save has been called with, as the state tells. */
  function Counted(file: seq<Byte>, s: System): seq<Byte> {
    if s.dev.transferMode && s.dev.totalLength <= |file| then file[..s.dev.totalLength] else []
  }

  lemma BeginFeeds(file: seq<Byte>, env: Env, s: System)
    requires Inv(file, s) && Handshaking(file, s) && Enabled(file, s, Begin) && Cooperative(env)
    ensures var t := Next(file, env, s, Begin);
            && Seen(file, s) + s.events[0] == Seen(file, t)
            && Counted(file, t) == [] == Counted(file, s)
  {
    hide HandlePackets, Flatten, TransferCommand, Slip.After, Slip.Delivered, Slip.EncodeHost, CountLines;
    var n := |file|;
    var c, event := Decoded(file, s), s.events[0];
    var c' := c + |event|;
    var t := Next(file, env, s, Begin);
    HandshakeEvent(file, s);
    assert |Flatten(t.events) + t.wire| == |Handshake(n)| - c';
    HandshakePackets(s.dev.(slip := Slip.After(s.dev.slip, event)), n, env, c == 0, c' == |Handshake(n)|);
    assert Handshake(n)[..|Handshake(n)|] == Handshake(n);
    assert file[..0] == [];
  }

  lemma BeginImages(file: seq<Byte>, env: Env, s: System)
    requires Transferring(file, s) && |file| < 0x8000_0000 && Enabled(file, s, Begin)
    ensures var t := Next(file, env, s, Begin);
            && t.dev.transferMode && Counted(file, s) + s.events[0] == Counted(file, t)
  {
    hide Flatten;
    var event, total := s.events[0], s.dev.totalLength;
    FlattenFirst(s.events);
    Associative(event, Flatten(s.events[1..]), s.wire);
    var rest := Flatten(s.events[1..]) + s.wire;
    NothingAppended(event + rest);
    NextPiece(file, total, s.host.sent, event, rest);
  }

  lemma DeliverFeedsNothing(file: seq<Byte>, env: Env, s: System, k: nat)
    requires Enabled(file, s, Deliver(k))
    ensures var t := Next(file, env, s, Deliver(k)); Seen(file, t) == Seen(file, s) && Counted(file, t) == Counted(file, s)
  {
    hide Flatten;
    var t := Next(file, env, s, Deliver(k));
    DeliverKeepsBytes(s, k);
    assert |Flatten(t.events) + t.wire| == |Flatten(s.events) + s.wire|;
  }

  /** Reading a line makes the host write only once the device is in transfer mode. */
  lemma ReadFeedsNothing(file: seq<Byte>, env: Env, s: System)
    requires Enabled(file, s, Read) && (Handshaking(file, s) || s.dev.transferMode)
    ensures var t := Next(file, env, s, Read); Seen(file, t) == Seen(file, s) && Counted(file, t) == Counted(file, s)
  {
    hide Flatten;
    NothingAppended(s.wire);
  }

  lemma OtherStepsFeedNothing(file: seq<Byte>, env: Env, s: System, e: Step)
    requires Inv(file, s) && Enabled(file, s, e) && !e.Begin? && !e.Drop?
    ensures var t := Next(file, env, s, e); Seen(file, t) == Seen(file, s) && Counted(file, t) == Counted(file, s)
  {
    hide AcksOk, FlashOk, Flatten;
    match e
    case Deliver(k) => DeliverFeedsNothing(file, env, s, k);
    case End =>
    case Read => ReadFeedsNothing(file, env, s);
    case RunFota => FotaKeepsInv(file, env, s);
  }

  lemma StepSeparates(file: seq<Byte>, env: Env, s: System, e: Step)
    requires (Inv(file, s) || Short(file, s)) && Enabled(file, s, e) && Cooperative(env)
    ensures var t := Next(file, env, s, e);
            && Seen(file, s) + FedBy(file, s, e) == Seen(file, t)
            && (Inv(file, s) && !e.Drop? ==> Counted(file, s) + ImagedBy(file, s, e) == Counted(file, t))
  {
    hide Short, AcksOk, FlashOk, Next, Counted;
    NothingAppended(Seen(file, s));
    NothingAppended(Counted(file, s));
    NotBoth(file, s);
    if Short(file, s) || e.Drop? {
      ShortSeesNothing(file, env, s, e);
    } else if !e.Begin? {
      OtherStepsFeedNothing(file, env, s, e);
    } else if s.dev.transferMode {
      BeginImages(file, env, s);
    } else {
      BeginFeeds(file, env, s);
    }
  }

  lemma ShortSeesNothing(file: seq<Byte>, env: Env, s: System, e: Step)
    requires Enabled(file, s, e) && (Short(file, s) || e.Drop?)
    ensures s.dev.transferMode && Next(file, env, s, e).dev.transferMode
  {
  }

  lemma {:induction false} RunSeparates(file: seq<Byte>, env: Env, s: System, es: seq<Step>)
    requires (Inv(file, s) || Short(file, s)) && ValidRun(file, env, s, es) && Cooperative(env)
    ensures var t := Final(file, env, s, es);
            && Seen(file, s) + Fed(file, env, s, es) == Seen(file, t)
            && (Inv(file, s) && NoDrops(es) ==> Counted(file, s) + Imaged(file, env, s, es) == Counted(file, t))
    decreases |es|
  {
    hide Inv, Short, Next, Enabled, Seen, Counted, FedBy, ImagedBy;
    NothingAppended(Seen(file, s));
    NothingAppended(Counted(file, s));
    if es != [] {
      var e, t := es[0], Next(file, env, s, es[0]);
      AnyStep(file, env, s, e);
      StepSeparates(file, env, s, e);
      RunSeparates(file, env, t, es[1..]);
      Associative(Seen(file, s), FedBy(file, s, e), Fed(file, env, t, es[1..]));
      Associative(Counted(file, s), ImagedBy(file, s, e), Imaged(file, env, t, es[1..]));
    }
  }

  lemma SeparateWhen(file: seq<Byte>, s: System)
    requires |file| < 0x8000_0000 && (Inv(file, s) || Short(file, s))
    ensures Seen(file, s) <= Handshake(|file|) && s.dev.slip == Slip.After(Slip.Clean(SLIP_MTU), Seen(file, s))
    ensures s.dev.transferMode ==> Seen(file, s) == Handshake(|file|) && s.dev.fileLength == |file|
    ensures s.dev.uplinked == [] && |s.dev.applied| <= 1
    ensures forall a :: a in s.dev.applied ==> a == Applied(UPDATE_APPLY, SerialComplete, |file|, |file|)
  {
    hide AcksOk, Slip.After, Flatten;
    var h := Handshake(|file|);
    assert h[..|h|] == h;
    HandshakeDeliveries(|file|, |h|);
  }

  lemma ImagePrefix(file: seq<Byte>, s: System)
    requires Inv(file, s)
    ensures Counted(file, s) <= file
    ensures if s.dev.transferMode then |Counted(file, s)| == s.dev.totalLength && s.dev.flash.stream <= Counted(file, s)
            else Counted(file, s) == []
  {
    hide AcksOk, Flatten;
    if Transferring(file, s) {
      BytesAddUp(file, s);
    }
  }

  /** Mode separation, over every run, dropped events or not: the decoder is fed a prefix of the handshake
      and nothing else, all of it before the first image byte; no message goes to the uplink, and
      apply_state is called at most once, for the completed transfer. Without drops image_data_save is
      given the first total_length bytes of the file and nothing else, and the image is a prefix of them. */
  lemma ModesStaySeparate(file: seq<Byte>, env: Env, s: System, es: seq<Step>)
    requires |file| < 0x8000_0000 && Cooperative(env) && Start(file, s) && ValidRun(file, env, s, es)
    ensures var t, fed, imaged := Final(file, env, s, es), Fed(file, env, s, es), Imaged(file, env, s, es);
            && fed <= Handshake(|file|) && t.dev.slip == Slip.After(Slip.Clean(SLIP_MTU), fed)
            && (t.dev.transferMode ==> fed == Handshake(|file|) && t.dev.fileLength == |file|)
            && t.dev.uplinked == [] && |t.dev.applied| <= 1
            && (forall a :: a in t.dev.applied ==> a == Applied(UPDATE_APPLY, SerialComplete, |file|, |file|))
            && (NoDrops(es) ==>
                  && imaged <= file
                  && (if t.dev.transferMode then |imaged| == t.dev.totalLength && t.dev.flash.stream <= imaged
                      else imaged == []))
  {
    hide Inv, Short, Seen, Counted, Slip.After;
    StartEstablishesInv(file, s);
    StartSeesNothing(file, s);
    RunKeepsInv(file, env, s, es);
    RunSeparates(file, env, s, es);
    var t := Final(file, env, s, es);
    NothingAppended(Fed(file, env, s, es));
    NothingAppended(Imaged(file, env, s, es));
    SeparateWhen(file, t);
    if NoDrops(es) {
      ImagePrefix(file, t);
    }
  }

  lemma StartSeesNothing(file: seq<Byte>, s: System)
    requires Start(file, s)
    ensures Seen(file, s) == [] == Counted(file, s)
  {
  }

  // ------------------------------------------------- an image event in two steps

  /** Between taking an image event and storing it, nothing but the store changes the device. */
  lemma BusyDeviceIsStill(file: seq<Byte>, env: Env, s: System, e: Step)
    requires s.busy.Some? && Enabled(file, s, e) && e != End
    ensures Next(file, env, s, e).dev == s.dev && Next(file, env, s, e).busy == s.busy
  {
  }

  lemma {:induction false} BusyRunIsStill(file: seq<Byte>, env: Env, s: System, es: seq<Step>)
    requires s.busy.Some? && ValidRun(file, env, s, es) && End !in es
    ensures Final(file, env, s, es).dev == s.dev && Final(file, env, s, es).busy == s.busy
    decreases |es|
  {
    hide Next, Enabled;
    if es != [] {
      BusyDeviceIsStill(file, env, s, es[0]);
      BusyRunIsStill(file, env, Next(file, env, s, es[0]), es[1..]);
    }
  }

  /** Whatever happens in between, the two steps of an image event make up rx_process's turn for it. */
  lemma TwoStepsAreOneEvent(file: seq<Byte>, env: Env, s: System, es: seq<Step>)
    requires Enabled(file, s, Begin) && s.dev.transferMode
    requires var t := Next(file, env, s, Begin);
             ValidRun(file, env, t, es) && End !in es && Enabled(file, Final(file, env, t, es), End)
    ensures var u := Final(file, env, Next(file, env, s, Begin), es);
            Next(file, env, u, End).dev == ProcessEvent(s.dev, s.events[0], env)
  {
    hide ValidRun, Final;
    BusyRunIsStill(file, env, Next(file, env, s, Begin), es);
  }

  // -------------------------------------------------------- the host's side of it

  lemma {:induction false} HostAfterConcat(file: seq<Byte>, h: Host, a: seq<Line>, b: seq<Line>)
    requires h.sent <= |file|
    ensures HostAfter(file, h, a + b).0 == HostAfter(file, HostAfter(file, h, a).0, b).0
    ensures HostAfter(file, h, a + b).1 == HostAfter(file, h, a).1 + HostAfter(file, HostAfter(file, h, a).0, b).1
    decreases |a|
  {
    hide HostReads;
    if a == [] {
      assert a + b == b;
    } else {
      var (g, out) := HostReads(file, h, a[0]);
      assert (a + b)[0] == a[0] && (a + b)[1..] == a[1..] + b;
      HostAfterConcat(file, g, a[1..], b);
      Associative(out, HostAfter(file, g, a[1..]).1, HostAfter(file, HostAfter(file, h, a).0, b).1);
    }
  }

  lemma {:induction false} FinishedStays(file: seq<Byte>, h: Host, lines: seq<Line>)
    requires h.sent <= |file| && h.phase == Finished
    ensures HostAfter(file, h, lines) == (h, [])
    decreases |lines|
  {
    NothingAppended<Byte>([]);
    if lines != [] {
      FinishedStays(file, h, lines[1..]);
    }
  }

  /** A host that has written the whole file stops at the next acknowledgement, writing nothing more. */
  lemma {:induction false} LastAckFinishes(file: seq<Byte>, h: Host, lines: seq<Line>)
    requires h.phase == Chunking && h.sent == |file| && ReceivedImage in lines
    ensures HostAfter(file, h, lines) == (h.(phase := Finished, acks := h.acks + 1), [])
    decreases |lines|
  {
    NothingAppended<Byte>([]);
    if lines[0] == ReceivedImage {
      FinishedStays(file, h.(phase := Finished, acks := h.acks + 1), lines[1..]);
    } else {
      assert lines == [lines[0]] + lines[1..];
      LastAckFinishes(file, h, lines[1..]);
    }
  }

  lemma {:induction false} MoreAcksBehind(log: seq<Line>, k: nat)
    requires k <= |log|
    ensures Acks(log[..k]) < Acks(log) ==> ReceivedImage in log[k..]
    decreases |log|
  {
    if k == |log| {
      assert log[..k] == log;
    } else {
      var front, last := log[..|log| - 1], log[|log| - 1];
      assert log[k..] == front[k..] + [last] && front[..k] == log[..k];
      MoreAcksBehind(front, k);
    }
  }

  /** The host's state is what the lines it has read make of it, and it has written that much of the file. */
  predicate Replays(file: seq<Byte>, s: System) {
    && s.read <= |s.dev.log| && s.host.sent <= |file|
    && HostAfter(file, HOST_START, s.dev.log[..s.read]) == (s.host, file[..s.host.sent])
  }

  lemma StepExtendsLog(file: seq<Byte>, env: Env, s: System, e: Step)
    requires Inv(file, s) && Enabled(file, s, e) && !e.Drop?
    ensures s.dev.log <= Next(file, env, s, e).dev.log
  {
    hide HandlePackets, AcksOk;
    match e
    case Deliver(_) =>
    case Begin =>
      if !s.dev.transferMode {
        var event := s.events[0];
        PacketsExtendLog(s.dev.(slip := Slip.After(s.dev.slip, event)), Slip.Delivered(s.dev.slip, event), env);
      }
    case End =>
    case Read =>
    case RunFota => FotaKeepsInv(file, env, s);
  }

  lemma StepReplays(file: seq<Byte>, env: Env, s: System, e: Step)
    requires Inv(file, s) && Replays(file, s) && Enabled(file, s, e) && !e.Drop?
    ensures Replays(file, Next(file, env, s, e))
  {
    hide Inv, HostAfter;
    var t := Next(file, env, s, e);
    StepExtendsLog(file, env, s, e);
    assert t.dev.log[..s.read] == s.dev.log[..s.read];
    if e.Read? {
      ReadOne(file, s.dev.log, s.read, s.host, file[..s.host.sent]);
      HostWritesFile(file, s.host, s.dev.log[s.read]);
      assert file[..s.host.sent] + file[s.host.sent..t.host.sent] == file[..t.host.sent];
    }
  }

  lemma {:induction false} RunReplays(file: seq<Byte>, env: Env, s: System, es: seq<Step>)
    requires Inv(file, s) && Replays(file, s) && ValidRun(file, env, s, es) && NoDrops(es) && Cooperative(env)
    ensures Replays(file, Final(file, env, s, es))
    decreases |es|
  {
    hide Inv, Replays, Next, Enabled;
    if es != [] {
      StepKeepsInv(file, env, s, es[0]);
      StepReplays(file, env, s, es[0]);
      RunReplays(file, env, Next(file, env, s, es[0]), es[1..]);
    }
  }

  function Chunks(n: nat): nat { (n + 511) / 512 }

  /** At the reboot everything has been sent, received and taken by the worker. */
  lemma AllTaken(file: seq<Byte>, s: System)
    requires Inv(file, s) && s.dev.rebooted
    ensures Transferring(file, s) && AcksOk(file, s)
    ensures file != [] && s.host.sent == |file| && s.wire == [] && s.events == []
  {
    hide AcksOk, Flatten;
    BytesAddUp(file, s);
    FlattenOfNonEmpty(s.events);
  }

  /** What the host has not read yet of the log then ends its send loop. */
  lemma RebootedHostFinishes(file: seq<Byte>, s: System)
    requires Inv(file, s) && s.dev.rebooted
    ensures var (h, out) := HostAfter(file, s.host, s.dev.log[s.read..]);
            && h.phase == Finished && h.chunks == h.acks == Chunks(|file|) && out == []
            && s.host.sent == |file|
  {
    hide Inv, Transferring, Flatten, CountLines, HostAfter;
    AllTaken(file, s);
    if s.host.phase == Finished {
      FinishedStays(file, s.host, s.dev.log[s.read..]);
    } else {
      MoreAcksBehind(s.dev.log, s.read);
      LastAckFinishes(file, s.host, s.dev.log[s.read..]);
    }
  }

  /** Stop-and-wait, without drops: the host never has more than one unacknowledged chunk and never sends
      more than ceil(n / 512); once everything sent has been taken by the worker there is an
      acknowledgement for every chunk. And it never waits in vain: at the reboot the device's log is one
      on which the script ends its send loop, after exactly ceil(n / 512) chunks, having written the file. */
  lemma AcknowledgementsSuffice(file: seq<Byte>, env: Env, s: System, es: seq<Step>)
    requires |file| < 0x8000_0000 && Cooperative(env) && Start(file, s) && ValidRun(file, env, s, es) && NoDrops(es)
    ensures var t := Final(file, env, s, es);
            && t.host.acks <= t.host.chunks <= t.host.acks + 1
            && t.host.chunks <= Chunks(|file|)
            && (t.host.phase == Finished ==> t.host.chunks == Chunks(|file|))
            && (t.dev.transferMode && t.wire == [] && t.events == [] && t.host.phase != Finished ==>
                  t.host.chunks <= Acks(t.dev.log))
            && (t.dev.rebooted ==>
                  var (h, out) := HostAfter(file, HOST_START, t.dev.log);
                  h.phase == Finished && h.chunks == h.acks == Chunks(|file|) && out == file)
  {
    hide HostAfter, FlashOk;
    StartEstablishesInv(file, s);
    RunKeepsInv(file, env, s, es);
    var t := Final(file, env, s, es);
    if t.dev.rebooted {
      RebootedHostFinishes(file, t);
      HostAfterNothing(file);
      assert file[..0] == [] && s.dev.log[..0] == [] && file[..|file|] == file;
      RunReplays(file, env, s, es);
      HostAfterConcat(file, HOST_START, t.dev.log[..t.read], t.dev.log[t.read..]);
      assert t.dev.log[..t.read] + t.dev.log[t.read..] == t.dev.log;
      NothingAppended(file);
    }
  }
}
