// The SLIP codec of src/slip/slip.c as rx_process drives it: the encoder, the
// byte-at-a-time decoder and the caller's reaction to each return code.
module Slip {
  import opened Bytes

  const END: Byte := 0xC0
  const ESC: Byte := 0xDB
  const ESC_END: Byte := 0xDC
  const ESC_ESC: Byte := 0xDD

  const NRF_SUCCESS := 0
  const ERROR_NO_MEM := 4
  const ERROR_INVALID_DATA := 11
  const ERROR_NULL := 14
  const ERROR_BUSY := 17

  // ---------------------------------------------------------------- encoding

  function Escape(b: Byte): seq<Byte> {
    if b == END then [ESC, ESC_END] else if b == ESC then [ESC, ESC_ESC] else [b]
  }

  function Stuff(p: seq<Byte>): seq<Byte> {
    if p == [] then [] else Escape(p[0]) + Stuff(p[1..])
  }

  /** The device's frame: stuffed bytes and a closing END. */
  function Encode(p: seq<Byte>): seq<Byte> { Stuff(p) + [END] }

  /** The host's frame: an END on both sides. */
  function EncodeHost(p: seq<Byte>): seq<Byte> { [END] + Encode(p) }

  function EncodeAll(ps: seq<seq<Byte>>): seq<Byte> {
    if ps == [] then [] else Encode(ps[0]) + EncodeAll(ps[1..])
  }

  function EncodeAllHost(ps: seq<seq<Byte>>): seq<Byte> {
    if ps == [] then [] else EncodeHost(ps[0]) + EncodeAllHost(ps[1..])
  }

  lemma {:induction false} StuffConcat(a: seq<Byte>, b: seq<Byte>)
    ensures Stuff(a + b) == Stuff(a) + Stuff(b)
  {
    if a == [] {
      assert a + b == b;
    } else {
      assert (a + b)[1..] == a[1..] + b;
      StuffConcat(a[1..], b);
    }
  }

  function Specials(p: seq<Byte>): nat {
    if p == [] then 0 else (if p[0] == END || p[0] == ESC then 1 else 0) + Specials(p[1..])
  }

  /** The documented size bound, made exact, and the reason a frame can be cut at END. */
  lemma {:induction false} FrameShape(p: seq<Byte>)
    ensures |Encode(p)| == |p| + Specials(p) + 1 <= 2 * |p| + 1
    ensures END !in Stuff(p)
  {
    if p != [] {
      FrameShape(p[1..]);
    }
  }

  /** The byte values of RFC 1055, section "PROTOCOL": 192 ends a frame; inside it 192 goes as 219 220, 219
      as 219 221, and every other byte as it is. */
  lemma WireBytes(b: Byte)
    ensures Encode([b]) == if b == 192 then [219, 220, 192] else if b == 219 then [219, 221, 192] else [b, 192]
  {
    assert Stuff([b]) == Escape(b) + Stuff([]);
  }

  /** p_output[length++] = b */
  method Emit(output: array<Byte>, length: nat, b: Byte) returns (next: nat)
    requires length < output.Length
    modifies output
    ensures next == length + 1 && output[..next] == old(output[..length]) + [b]
    ensures forall k :: next <= k < output.Length ==> output[k] == old(output[k])
  {
    output[length] := b;
    next := length + 1;
  }

  /** The switch of slip_encode, for one byte. */
  method EmitEscaped(output: array<Byte>, length: nat, b: Byte) returns (next: nat)
    requires length + |Escape(b)| <= output.Length
    modifies output
    ensures next == length + |Escape(b)| && output[..next] == old(output[..length]) + Escape(b)
    ensures forall k :: next <= k < output.Length ==> output[k] == old(output[k])
  {
    ghost var before := output[..length];
    if b == END {
      next := Emit(output, length, ESC);
      next := Emit(output, next, ESC_END);
      Associative(before, [ESC], [ESC_END]);
    } else if b == ESC {
      next := Emit(output, length, ESC);
      next := Emit(output, next, ESC_ESC);
      Associative(before, [ESC], [ESC_ESC]);
    } else {
      next := Emit(output, length, b);
    }
  }

  /** What is written never outgrows the frame, and leaves room for the closing END. */
  lemma RoomLeft(p: seq<Byte>, i: nat)
    requires i < |p|
    ensures Stuff(p[..i + 1]) == Stuff(p[..i]) + Escape(p[i])
    ensures |Stuff(p[..i + 1])| + 1 <= |Encode(p)|
  {
    assert p[..i + 1] == p[..i] + [p[i]];
    StuffSnoc(p[..i], p[i]);
    assert p == p[..i + 1] + p[i + 1..];
    StuffConcat(p[..i + 1], p[i + 1..]);
  }

  /** slip_encode: the frame goes to the front of the output, the rest is untouched. The output must hold
      the frame, not the documented worst case. */
  method SlipEncode(output: array?<Byte>, input: array?<Byte>, inputLength: nat) returns (ret: int, length: nat)
    requires output != null && input != null ==>
               output != input && inputLength <= input.Length && |Encode(input[..inputLength])| <= output.Length
    modifies if output == null || input == null then {} else {output}
    ensures output == null || input == null ==> ret == -14
    ensures output != null && input != null ==>
              && ret == NRF_SUCCESS
              && length <= output.Length
              && output[..length] == Encode(input[..inputLength])
              && output[length..] == old(output[length..])
  {
    if output == null || input == null {
      return -ERROR_NULL, 0;
    }
    hide Stuff, Escape;
    ghost var p := input[..inputLength];
    length := 0;
    var i := 0;
    StuffSnoc(p[..0], END);
    while i < inputLength
      invariant 0 <= i <= inputLength && length < output.Length
      invariant output[..length] == Stuff(p[..i])
      invariant forall k :: length <= k < output.Length ==> output[k] == old(output[k])
    {
      RoomLeft(p, i);
      length := EmitEscaped(output, length, input[i]);
      i := i + 1;
    }
    assert p[..i] == p;
    length := Emit(output, length, END);
    return NRF_SUCCESS, length;
  }

  lemma StuffSnoc(p: seq<Byte>, b: Byte)
    ensures Stuff([]) == [] && Stuff(p + [b]) == Stuff(p) + Escape(b)
  {
    StuffConcat(p, [b]);
    assert Stuff([b]) == Escape(b) + Stuff([]);
  }

  /** slip_encode of scripts/serial_upgrade.py. */
  method HostSlipEncode(packet: seq<Byte>) returns (encoded: seq<Byte>)
    ensures encoded == EncodeHost(packet)
  {
    encoded := [END];
    for i := 0 to |packet|
      invariant encoded == [END] + Stuff(packet[..i])
    {
      if packet[i] == 0xC0 {
        encoded := encoded + [ESC, ESC_END];
      } else if packet[i] == 0xDB {
        encoded := encoded + [ESC, ESC_ESC];
      } else {
        encoded := encoded + [packet[i]];
      }
      assert packet[..i + 1] == packet[..i] + [packet[i]];
      StuffSnoc(packet[..i], packet[i]);
    }
    assert packet[..|packet|] == packet;
    encoded := encoded + [END];
  }

  // ---------------------------------------------------------------- decoding

  datatype Mode = Decoding | EscReceived | ClearingInvalidPacket

  /** slip_t: the whole receive buffer is part of the value, because callers read it as a C string. */
  datatype State = State(mode: Mode, index: nat, buffer: seq<Byte>) {
    predicate Ok() {
      && index <= |buffer|
      && (mode == EscReceived ==> index < |buffer|)
    }
    predicate Full() { index == |buffer| }
  }

  function Clean(capacity: nat): State { State(Decoding, 0, Zeros(capacity)) }

  function Store(s: State, b: Byte): State
    requires s.index < |s.buffer|
  {
    State(Decoding, s.index + 1, s.buffer[s.index := b])
  }

  /** slip_decode_add_byte: the new decoder and the return code. */
  function DecodeAddByte(s: State, c: Byte): (r: (State, int))
    requires s.Ok()
    ensures r.0.Ok() && |r.0.buffer| == |s.buffer|
  {
    if s.Full() then (s, -ERROR_NO_MEM)
    else match s.mode
      case Decoding =>
        if c == END then (s, NRF_SUCCESS)
        else if c == ESC then (s.(mode := EscReceived), ERROR_BUSY)
        else (Store(s, c), ERROR_BUSY)
      case EscReceived =>
        if c == ESC_END then (Store(s, END), ERROR_BUSY)
        else if c == ESC_ESC then (Store(s, ESC), ERROR_BUSY)
        else (s.(mode := ClearingInvalidPacket), -ERROR_INVALID_DATA)
      case ClearingInvalidPacket =>
        if c == END then (s.(mode := Decoding, index := 0), ERROR_BUSY)
        else (s, ERROR_BUSY)
  }

  /** What handle_uart_data is handed: the buffer and the packet length. */
  datatype Delivery = Delivery(buffer: seq<Byte>, length: nat)

  function Payload(d: Delivery): seq<Byte> {
    if d.length <= |d.buffer| then d.buffer[..d.length] else d.buffer
  }

  function Payloads(ds: seq<Delivery>): seq<seq<Byte>> {
    if ds == [] then [] else [Payload(ds[0])] + Payloads(ds[1..])
  }

  /** One turn of the byte loop in rx_process. The caller compares with +ERROR_NO_MEM. */
  function Accept(s: State, c: Byte): (r: (State, seq<Delivery>))
    requires s.Ok()
    ensures r.0.Ok() && |r.0.buffer| == |s.buffer| && |r.1| <= 1
  {
    var (t, ret) := DecodeAddByte(s, c);
    if ret == NRF_SUCCESS then (Clean(|t.buffer|), [Delivery(t.buffer, t.index)])
    else if ret == ERROR_NO_MEM then (t.(index := 0, mode := Decoding), [])
    else (t, [])
  }

  function After(s: State, bytes: seq<Byte>): (r: State)
    requires s.Ok()
    ensures r.Ok() && |r.buffer| == |s.buffer|
    decreases |bytes|
  {
    if bytes == [] then s else After(Accept(s, bytes[0]).0, bytes[1..])
  }

  function Delivered(s: State, bytes: seq<Byte>): seq<Delivery>
    requires s.Ok()
    decreases |bytes|
  {
    if bytes == [] then []
    else Accept(s, bytes[0]).1 + Delivered(Accept(s, bytes[0]).0, bytes[1..])
  }

  /** What the return codes tell: 0 that a packet is complete, and only then one is handed on; -4 that the
      buffer is full; -11 that an ESC was not followed by one of its codes; 17 that more bytes are needed. */
  lemma ReturnCodes(s: State, c: Byte)
    requires s.Ok()
    ensures var code := DecodeAddByte(s, c).1;
            && (code == 0 <==> !s.Full() && s.mode == Decoding && c == 192) && (code == 0 <==> Accept(s, c).1 != [])
            && (code == -4 <==> s.Full())
            && (code == -11 <==> !s.Full() && s.mode == EscReceived && c != 220 && c != 221)
            && code in {0, -4, -11, 17}
  {
  }

  /** rx_process over several queued events, one event at a time. */
  function DeliveredByEvents(s: State, events: seq<seq<Byte>>): seq<Delivery>
    requires s.Ok()
    decreases |events|
  {
    if events == [] then []
    else Delivered(s, events[0]) + DeliveredByEvents(After(s, events[0]), events[1..])
  }

  // ------------------------------------------------------- composition of runs

  lemma FeedFirst(s: State, c: Byte, rest: seq<Byte>)
    requires s.Ok()
    ensures After(s, [c] + rest) == After(Accept(s, c).0, rest)
    ensures Delivered(s, [c] + rest) == Accept(s, c).1 + Delivered(Accept(s, c).0, rest)
  {
    assert ([c] + rest)[1..] == rest;
  }

  lemma FeedOne(s: State, c: Byte)
    requires s.Ok()
    ensures After(s, [c]) == Accept(s, c).0
    ensures Delivered(s, [c]) == Accept(s, c).1
  {
    FeedFirst(s, c, []);
    assert [c] + [] == [c];
  }

  lemma {:induction false} FeedConcat(s: State, a: seq<Byte>, b: seq<Byte>)
    requires s.Ok()
    ensures After(s, a + b) == After(After(s, a), b)
    ensures Delivered(s, a + b) == Delivered(s, a) + Delivered(After(s, a), b)
    decreases |a|
  {
    if a == [] {
      assert a + b == b;
    } else {
      assert (a + b)[1..] == a[1..] + b;
      FeedConcat(Accept(s, a[0]).0, a[1..], b);
    }
  }

  /** How the driver cuts the stream into events does not matter. */
  lemma {:induction false} CutsDoNotMatter(s: State, events: seq<seq<Byte>>)
    requires s.Ok()
    ensures DeliveredByEvents(s, events) == Delivered(s, Flatten(events))
    decreases |events|
  {
    if events != [] {
      CutsDoNotMatter(After(s, events[0]), events[1..]);
      FeedConcat(s, events[0], Flatten(events[1..]));
    }
  }

  lemma PayloadsConcat(a: seq<Delivery>, b: seq<Delivery>)
    ensures Payloads(a + b) == Payloads(a) + Payloads(b)
  {
    if a == [] {
      assert a + b == b;
    } else {
      assert (a + b)[1..] == a[1..] + b;
      PayloadsConcat(a[1..], b);
    }
  }

  // ------------------------------------------------------------- one packet

  /** The buffer after p has been written at position at. */
  function Overlay(buffer: seq<Byte>, at: nat, p: seq<Byte>): (r: seq<Byte>)
    requires at + |p| <= |buffer|
    ensures |r| == |buffer|
  {
    buffer[..at] + p + buffer[at + |p|..]
  }

  lemma FeedNothing(s: State)
    requires s.Ok()
    ensures After(s, []) == s && Delivered(s, []) == []
  {
  }

  lemma FeedEscaped(s: State, b: Byte)
    requires s.Ok() && s.mode == Decoding && s.index < |s.buffer|
    ensures After(s, Escape(b)) == Store(s, b)
    ensures Delivered(s, Escape(b)) == []
  {
    hide After, Delivered;
    if b == END || b == ESC {
      NothingAppended<Delivery>([]);
      var code := if b == END then ESC_END else ESC_ESC;
      var m := s.(mode := EscReceived);
      FeedFirst(s, ESC, [code]);
      FeedOne(m, code);
      assert Escape(b) == [ESC] + [code];
    } else {
      FeedOne(s, b);
    }
  }

  lemma {:induction false} FeedStuffed(s: State, p: seq<Byte>)
    requires s.Ok() && s.mode == Decoding && s.index + |p| <= |s.buffer|
    ensures After(s, Stuff(p)) == State(Decoding, s.index + |p|, Overlay(s.buffer, s.index, p))
    ensures Delivered(s, Stuff(p)) == []
    decreases |p|
  {
    hide After, Delivered, Escape;
    if p == [] {
      assert Overlay(s.buffer, s.index, p) == s.buffer;
      FeedNothing(s);
    } else {
      NothingAppended<Delivery>([]);
      var t := Store(s, p[0]);
      FeedEscaped(s, p[0]);
      FeedStuffed(t, p[1..]);
      FeedConcat(s, Escape(p[0]), Stuff(p[1..]));
      assert Overlay(t.buffer, t.index, p[1..]) == Overlay(s.buffer, s.index, p);
    }
  }

  /** A full decoder answers -ERROR_NO_MEM for ever: the branch that would reset it is never taken. */
  lemma {:induction false} FullIsAbsorbing(s: State, bytes: seq<Byte>)
    requires s.Ok() && s.Full()
    ensures After(s, bytes) == s && Delivered(s, bytes) == []
    decreases |bytes|
  {
    if bytes != [] {
      assert Accept(s, bytes[0]) == (s, []);
      FullIsAbsorbing(s, bytes[1..]);
    }
  }

  lemma FeedFrame(s: State, p: seq<Byte>)
    requires s.Ok() && s.mode == Decoding && s.index + |p| < |s.buffer|
    ensures After(s, Encode(p)) == Clean(|s.buffer|)
    ensures Delivered(s, Encode(p)) == [Delivery(Overlay(s.buffer, s.index, p), s.index + |p|)]
  {
    hide Stuff, After, Delivered;
    FeedStuffed(s, p);
    FeedConcat(s, Stuff(p), [END]);
    var t := After(s, Stuff(p));
    FeedOne(t, END);
    NothingAppended([Delivery(t.buffer, t.index)]);
  }

  lemma FeedOverlong(s: State, p: seq<Byte>)
    requires s.Ok() && s.mode == Decoding && |s.buffer| <= s.index + |p|
    ensures After(s, Encode(p)).Full() && Delivered(s, Encode(p)) == []
  {
    hide Stuff, After, Delivered;
    var room := |s.buffer| - s.index;
    var q, r := p[..room], p[room..];
    assert p == q + r;
    StuffConcat(q, r);
    FeedStuffed(s, q);
    FeedConcat(s, Stuff(q), Stuff(r) + [END]);
    Associative(Stuff(q), Stuff(r), [END]);
    NothingAppended<Delivery>([]);
    FullIsAbsorbing(After(s, Stuff(q)), Stuff(r) + [END]);
  }

  // --------------------------------------------------------- stream round trip

  function Exactly(p: seq<Byte>, capacity: nat): Delivery
    requires |p| <= capacity
  {
    Delivery(p + Zeros(capacity - |p|), |p|)
  }

  /** The packets before the first one that does not leave room for a terminator. */
  function FittingPrefix(ps: seq<seq<Byte>>, capacity: nat): (r: seq<seq<Byte>>)
    ensures r <= ps && forall p :: p in r ==> |p| < capacity
    ensures r == ps <==> forall p :: p in ps ==> |p| < capacity
  {
    if ps == [] || |ps[0]| >= capacity then
      []
    else
      var r := [ps[0]] + FittingPrefix(ps[1..], capacity);
      assert ps == [ps[0]] + ps[1..];
      r
  }

  function ExactDeliveries(ps: seq<seq<Byte>>, capacity: nat): seq<Delivery>
    requires forall p :: p in ps ==> |p| <= capacity
  {
    if ps == [] then [] else [Exactly(ps[0], capacity)] + ExactDeliveries(ps[1..], capacity)
  }

  lemma {:induction false} PayloadsOfExact(ps: seq<seq<Byte>>, capacity: nat)
    requires forall p :: p in ps ==> |p| <= capacity
    ensures Payloads(ExactDeliveries(ps, capacity)) == ps
  {
    if ps != [] {
      PayloadsOfExact(ps[1..], capacity);
      assert Payload(Exactly(ps[0], capacity)) == ps[0];
      assert ps == [ps[0]] + ps[1..];
    }
  }

  lemma FirstPacket(p: seq<Byte>, capacity: nat)
    ensures var s := Clean(capacity);
            if |p| < capacity
            then After(s, Encode(p)) == s && Delivered(s, Encode(p)) == [Exactly(p, capacity)]
            else After(s, Encode(p)).Full() && Delivered(s, Encode(p)) == []
  {
    var s := Clean(capacity);
    if |p| < capacity {
      FeedFrame(s, p);
      assert Overlay(s.buffer, 0, p) == p + Zeros(capacity - |p|);
    } else {
      FeedOverlong(s, p);
    }
  }

  lemma {:induction false} StreamDeliveries(ps: seq<seq<Byte>>, capacity: nat)
    ensures Delivered(Clean(capacity), EncodeAll(ps)) == ExactDeliveries(FittingPrefix(ps, capacity), capacity)
  {
    hide After, Encode, Exactly;
    if ps != [] {
      var s := Clean(capacity);
      FirstPacket(ps[0], capacity);
      FeedConcat(s, Encode(ps[0]), EncodeAll(ps[1..]));
      if |ps[0]| < capacity {
        StreamDeliveries(ps[1..], capacity);
        var f := FittingPrefix(ps, capacity);
        assert f[0] == ps[0] && f[1..] == FittingPrefix(ps[1..], capacity);
      } else {
        FullIsAbsorbing(After(s, Encode(ps[0])), EncodeAll(ps[1..]));
      }
    }
  }

  /** For every packet list and every cut of its encoding into events, a clean decoder delivers the
      packets up to the first that is too long, zero padded; so it delivers the list itself exactly
      when every packet is shorter than the buffer. */
  lemma StreamRoundTrip(ps: seq<seq<Byte>>, capacity: nat, events: seq<seq<Byte>>)
    requires Flatten(events) == EncodeAll(ps)
    ensures DeliveredByEvents(Clean(capacity), events) == ExactDeliveries(FittingPrefix(ps, capacity), capacity)
    ensures Payloads(DeliveredByEvents(Clean(capacity), events)) == ps <==> forall p :: p in ps ==> |p| < capacity
  {
    CutsDoNotMatter(Clean(capacity), events);
    StreamDeliveries(ps, capacity);
    PayloadsOfExact(FittingPrefix(ps, capacity), capacity);
  }

  // -------------------------------------------------- what counts as a packet

  /** How a byte string without END reads: as a stuffed packet, as one cut off behind an ESC, or as one
      with an ESC that nothing legal follows. */
  datatype Reading = Stuffed(p: seq<Byte>) | Dangling(p: seq<Byte>) | Broken(p: seq<Byte>, c: Byte, rest: seq<Byte>)

  function Spelled(r: Reading): seq<Byte> {
    match r
    case Stuffed(p) => Stuff(p)
    case Dangling(p) => Stuff(p) + [ESC]
    case Broken(p, c, rest) => Stuff(p) + ([ESC, c] + rest)
  }

  predicate Violates(c: Byte) { c != ESC_END && c != ESC_ESC }

  function Behind(b: Byte, r: Reading): Reading { r.(p := [b] + r.p) }

  /** Every string without END reads in one of these ways. */
  function Read(f: seq<Byte>): (r: Reading)
    requires END !in f
    ensures Spelled(r) == f && (r.Broken? ==> Violates(r.c) && END !in r.rest)
  {
    if f == [] then Stuffed([])
    else if f[0] != ESC then
      SpelledBehind(f[0], Read(f[1..]));
      Behind(f[0], Read(f[1..]))
    else if |f| == 1 then Dangling([])
    else if Violates(f[1]) then Broken([], f[1], f[2..])
    else
      var b := if f[1] == ESC_END then END else ESC;
      SpelledBehind(b, Read(f[2..]));
      Behind(b, Read(f[2..]))
  }

  lemma SpelledBehind(b: Byte, r: Reading)
    ensures Spelled(Behind(b, r)) == Escape(b) + Spelled(r)
  {
    var p := Behind(b, r).p;
    assert p[0] == b && p[1..] == r.p;
    assert Stuff(p) == Escape(b) + Stuff(r.p);
    match r
    case Stuffed(_) =>
    case Dangling(_) => Associative(Escape(b), Stuff(r.p), [ESC]);
    case Broken(_, c, rest) => Associative(Escape(b), Stuff(r.p), [ESC, c] + rest);
  }

  /** Stuffing is read back, so it is injective. */
  lemma {:induction false} ReadStuffed(p: seq<Byte>)
    ensures END !in Stuff(p) && Read(Stuff(p)) == Stuffed(p)
  {
    FrameShape(p);
    if p != [] {
      ReadStuffed(p[1..]);
      var f := Stuff(p);
      assert f == Escape(p[0]) + Stuff(p[1..]);
      assert f[|Escape(p[0])|..] == Stuff(p[1..]);
      assert p == [p[0]] + p[1..];
    }
  }

  lemma BadEscape(s: State, c: Byte, rest: seq<Byte>)
    requires s.Ok() && s.mode == Decoding && !s.Full() && Violates(c) && END !in rest
    ensures Delivered(s, [ESC] + ([c] + (rest + [END]))) == []
    ensures After(s, [ESC] + ([c] + (rest + [END]))) == s.(index := 0)
    ensures DecodeAddByte(After(s, [ESC]), c).1 == -ERROR_INVALID_DATA
  {
    hide After, Delivered;
    var esc, clearing := s.(mode := EscReceived), s.(mode := ClearingInvalidPacket);
    FeedOne(s, ESC);
    FeedFirst(s, ESC, [c] + (rest + [END]));
    FeedFirst(esc, c, rest + [END]);
    FeedConcat(clearing, rest, [END]);
    ClearingSwallows(clearing, rest);
    FeedOne(clearing, END);
    NothingAppended<Delivery>([]);
  }

  lemma Regroup(a: seq<Byte>, c: Byte, rest: seq<Byte>)
    ensures (a + ([ESC, c] + rest)) + [END] == a + ([ESC] + ([c] + (rest + [END])))
  {
    assert [ESC, c] + rest == [ESC] + ([c] + rest);
    assert ([ESC] + ([c] + rest)) + [END] == [ESC] + ([c] + (rest + [END]));
    Associative(a, [ESC, c] + rest, [END]);
  }

  /** Once an ESC is followed by anything but its two codes, the packet is discarded: nothing is delivered
      up to the next END, and the decoder is at the start of a packet behind it. If the offending byte
      was itself an END, it does not count as that END. */
  lemma ViolationDiscards(s: State, p: seq<Byte>, c: Byte, rest: seq<Byte>)
    requires s.Ok() && s.mode == Decoding && s.index + |p| < |s.buffer| && Violates(c) && END !in rest
    ensures Delivered(s, (Stuff(p) + ([ESC, c] + rest)) + [END]) == []
    ensures After(s, (Stuff(p) + ([ESC, c] + rest)) + [END]) == State(Decoding, 0, Overlay(s.buffer, s.index, p))
    ensures DecodeAddByte(After(s, Stuff(p) + [ESC]), c).1 == -ERROR_INVALID_DATA
  {
    hide Stuff, After, Delivered, DecodeAddByte, Overlay;
    var t := State(Decoding, s.index + |p|, Overlay(s.buffer, s.index, p));
    FeedStuffed(s, p);
    FeedConcat(s, Stuff(p), [ESC]);
    BadEscape(t, c, rest);
    Regroup(Stuff(p), c, rest);
    FeedConcat(s, Stuff(p), [ESC] + ([c] + (rest + [END])));
    NothingAppended<Delivery>([]);
  }

  /** An END right behind an ESC delivers nothing and leaves the decoder waiting for another. */
  lemma DanglingDiscards(s: State, p: seq<Byte>)
    requires s.Ok() && s.mode == Decoding && s.index + |p| < |s.buffer|
    ensures Delivered(s, (Stuff(p) + [ESC]) + [END]) == []
    ensures After(s, (Stuff(p) + [ESC]) + [END]).mode == ClearingInvalidPacket
  {
    hide Stuff, After, Delivered;
    var t := State(Decoding, s.index + |p|, Overlay(s.buffer, s.index, p));
    FeedStuffed(s, p);
    Associative(Stuff(p), [ESC], [END]);
    FeedConcat(s, Stuff(p), [ESC] + [END]);
    FeedFirst(t, ESC, [END]);
    FeedOne(t.(mode := EscReceived), END);
    NothingAppended<Delivery>([]);
  }

  /** Bytes that fill the buffer swallow everything behind them. */
  lemma OverlongDiscards(s: State, p: seq<Byte>, rest: seq<Byte>)
    requires s.Ok() && s.mode == Decoding && |s.buffer| <= s.index + |p|
    ensures Delivered(s, Stuff(p) + rest) == [] && After(s, Stuff(p) + rest).Full()
  {
    hide Stuff, After, Delivered;
    var room := |s.buffer| - s.index;
    var q, r := p[..room], p[room..];
    assert p == q + r;
    StuffConcat(q, r);
    FeedStuffed(s, q);
    Associative(Stuff(q), Stuff(r), rest);
    FeedConcat(s, Stuff(q), Stuff(r) + rest);
    FullIsAbsorbing(After(s, Stuff(q)), Stuff(r) + rest);
    NothingAppended<Delivery>([]);
  }

  /** What a clean decoder makes of everything up to an END: it delivers something if and only if the bytes
      are a stuffed packet shorter than the buffer, and then exactly that packet. */
  lemma PacketIff(capacity: nat, f: seq<Byte>)
    requires END !in f
    ensures var ds := Delivered(Clean(capacity), f + [END]);
            && (ds != [] <==> exists p :: f == Stuff(p) && |p| < capacity)
            && (forall p :: f == Stuff(p) && |p| < capacity ==> ds == [Exactly(p, capacity)])
  {
    hide Stuff, After, Delivered;
    var s, r := Clean(capacity), Read(f);
    forall p | f == Stuff(p) ensures r == Stuffed(p) {
      ReadStuffed(p);
    }
    if |r.p| >= capacity {
      match r {
        case Stuffed(p) => OverlongDiscards(s, p, [END]);
        case Dangling(p) => Associative(Stuff(p), [ESC], [END]); OverlongDiscards(s, p, [ESC] + [END]);
        case Broken(p, c, rest) =>
          Associative(Stuff(p), [ESC, c] + rest, [END]);
          OverlongDiscards(s, p, ([ESC, c] + rest) + [END]);
      }
    } else {
      match r {
        case Stuffed(p) => FirstPacket(p, capacity);
        case Dangling(p) => DanglingDiscards(s, p);
        case Broken(p, c, rest) => ViolationDiscards(s, p, c, rest);
      }
    }
  }

  // ----------------------------------------------------------- resynchronising

  /** With an END on both sides, an empty packet precedes each real one. */
  function Framed(ps: seq<seq<Byte>>): seq<seq<Byte>> {
    if ps == [] then [] else [[], ps[0]] + Framed(ps[1..])
  }

  lemma HostFrameFromDecoding(s: State, p: seq<Byte>)
    requires s.Ok() && s.mode == Decoding && !s.Full() && |p| < |s.buffer|
    ensures After(s, EncodeHost(p)) == Clean(|s.buffer|)
    ensures Payloads(Delivered(s, EncodeHost(p))) == [s.buffer[..s.index], p]
  {
    hide After, Delivered, Encode;
    var t := Clean(|s.buffer|);
    var first := Delivery(s.buffer, s.index);
    assert Accept(s, END) == (t, [first]);
    FeedFirst(s, END, Encode(p));
    FeedFrame(t, p);
    var second := Delivery(Overlay(t.buffer, 0, p), |p|);
    assert Delivered(s, EncodeHost(p)) == [first, second];
    PayloadsConcat([first], [second]);
    assert Payload(second) == p;
  }

  lemma HostFrameFromClearing(s: State, p: seq<Byte>)
    requires s.Ok() && s.mode == ClearingInvalidPacket && !s.Full() && |p| < |s.buffer|
    ensures After(s, EncodeHost(p)) == Clean(|s.buffer|)
    ensures Payloads(Delivered(s, EncodeHost(p))) == [p]
  {
    hide After, Delivered, Encode;
    var t := State(Decoding, 0, s.buffer);
    assert Accept(s, END) == (t, []);
    FeedFirst(s, END, Encode(p));
    FeedFrame(t, p);
    var d := Delivery(Overlay(t.buffer, 0, p), |p|);
    assert Delivered(s, EncodeHost(p)) == [d];
    assert Payload(d) == p;
  }

  lemma {:induction false} ClearingSwallows(s: State, bytes: seq<Byte>)
    requires s.Ok() && s.mode == ClearingInvalidPacket && !s.Full() && END !in bytes
    ensures After(s, bytes) == s && Delivered(s, bytes) == []
    decreases |bytes|
  {
    if bytes != [] {
      assert Accept(s, bytes[0]) == (s, []);
      ClearingSwallows(s, bytes[1..]);
    }
  }

  lemma HostFrameFromEscape(s: State, p: seq<Byte>)
    requires s.Ok() && s.mode == EscReceived && |p| < |s.buffer|
    ensures After(s, EncodeHost(p)) == State(Decoding, 0, s.buffer)
    ensures Delivered(s, EncodeHost(p)) == []
  {
    hide Stuff, After, Delivered;
    var t := s.(mode := ClearingInvalidPacket);
    assert Accept(s, END) == (t, []);
    FeedFirst(s, END, Encode(p));
    FrameShape(p);
    FeedConcat(t, Stuff(p), [END]);
    ClearingSwallows(t, Stuff(p));
    FeedOne(t, END);
    NothingAppended<Delivery>([]);
  }

  /** What a decoder in any non-full state delivers from a stream in the host's framing. Only a
      pending escape costs a frame, and then only the first one. */
  lemma Resynchronises(s: State, ps: seq<seq<Byte>>)
    requires s.Ok() && !s.Full() && ps != []
    requires forall p :: p in ps ==> |p| < |s.buffer|
    ensures Payloads(Delivered(s, EncodeAllHost(ps))) == FirstFrame(s, ps[0]) + Framed(ps[1..])
  {
    match s.mode {
      case Decoding => HostFrameFromDecoding(s, ps[0]);
      case ClearingInvalidPacket => HostFrameFromClearing(s, ps[0]);
      case EscReceived => HostFrameFromEscape(s, ps[0]);
    }
    FirstFrameThenRest(s, ps, FirstFrame(s, ps[0]));
  }

  function FirstFrame(s: State, p: seq<Byte>): seq<seq<Byte>>
    requires s.Ok()
  {
    match s.mode
    case Decoding => [s.buffer[..s.index], p]
    case ClearingInvalidPacket => [p]
    case EscReceived => []
  }

  lemma FirstFrameThenRest(s: State, ps: seq<seq<Byte>>, first: seq<seq<Byte>>)
    requires s.Ok() && ps != [] && 0 < |s.buffer|
    requires forall p :: p in ps ==> |p| < |s.buffer|
    requires After(s, EncodeHost(ps[0])).mode == Decoding && After(s, EncodeHost(ps[0])).index == 0
    requires Payloads(Delivered(s, EncodeHost(ps[0]))) == first
    ensures Payloads(Delivered(s, EncodeAllHost(ps))) == first + Framed(ps[1..])
  {
    var t := After(s, EncodeHost(ps[0]));
    FeedConcat(s, EncodeHost(ps[0]), EncodeAllHost(ps[1..]));
    PayloadsConcat(Delivered(s, EncodeHost(ps[0])), Delivered(t, EncodeAllHost(ps[1..])));
    FromStaleClean(t, ps[1..]);
  }

  /** From index 0 every frame arrives, whatever stale bytes the buffer holds. */
  lemma {:induction false} FromStaleClean(s: State, ps: seq<seq<Byte>>)
    requires s.Ok() && s.mode == Decoding && s.index == 0 && 0 < |s.buffer|
    requires forall p :: p in ps ==> |p| < |s.buffer|
    ensures Payloads(Delivered(s, EncodeAllHost(ps))) == Framed(ps)
    decreases |ps|
  {
    if ps != [] {
      var t := After(s, EncodeHost(ps[0]));
      HostFrameFromDecoding(s, ps[0]);
      FeedConcat(s, EncodeHost(ps[0]), EncodeAllHost(ps[1..]));
      PayloadsConcat(Delivered(s, EncodeHost(ps[0])), Delivered(t, EncodeAllHost(ps[1..])));
      FromStaleClean(t, ps[1..]);
    }
  }

  /** After any noise two ENDs bring the decoder back to the start of a packet, unless the noise
      has filled it. */
  lemma TwoEndsResynchronise(s: State, noise: seq<Byte>)
    requires s.Ok() && 0 < |s.buffer|
    ensures var t := After(After(s, noise + [END]), [END]);
            t.mode == Decoding && t.index == 0 <==> !After(s, noise).Full()
  {
    hide After, Delivered;
    FeedConcat(s, noise, [END]);
    FeedOne(After(s, noise), END);
    FeedOne(After(s, noise + [END]), END);
  }

  /** Accept with the comparison that was evidently meant: -ERROR_NO_MEM. */
  function AcceptRepaired(s: State, c: Byte): (r: (State, seq<Delivery>))
    requires s.Ok()
    ensures r.0.Ok() && |r.0.buffer| == |s.buffer|
  {
    var (t, ret) := DecodeAddByte(s, c);
    if ret == -ERROR_NO_MEM then (t.(index := 0, mode := Decoding), []) else Accept(s, c)
  }

  /** The repaired caller differs from the shipped one on full decoders only, and there a third END
      restores what TwoEndsResynchronise denies. */
  lemma RepairedCallerRecovers(s: State, c: Byte)
    requires s.Ok() && 0 < |s.buffer|
    ensures AcceptRepaired(s, c) == Accept(s, c) <==> !s.Full()
    ensures var t := AcceptRepaired(s, c).0;
            var u := AcceptRepaired(t, END).0;
            var v := AcceptRepaired(u, END).0;
            s.Full() ==> v == Clean(|s.buffer|)
  {
  }

  // ----------------------------------------------------- terminator and capacity

  predicate Terminated(s: State) {
    && s.Ok()
    && 0 < |s.buffer|
    && (!s.Full() ==> s.buffer[|s.buffer| - 1] == 0)
  }

  predicate ZeroFrom(buffer: seq<Byte>, from: nat) {
    forall k :: from <= k < |buffer| ==> buffer[k] == 0
  }

  /** Whatever arrives, a delivered buffer ends in a NUL at its last position and the packet stops
      short of it, so the strstr calls of handle_uart_data stay inside the buffer. */
  lemma {:induction false} DeliveriesAreTerminated(s: State, bytes: seq<Byte>)
    requires Terminated(s)
    ensures Terminated(After(s, bytes))
    ensures forall d :: d in Delivered(s, bytes) ==>
              |d.buffer| == |s.buffer| && d.length < |d.buffer| && d.buffer[|d.buffer| - 1] == 0
    decreases |bytes|
  {
    if bytes != [] {
      var (t, ds) := Accept(s, bytes[0]);
      assert Terminated(t);
      DeliveriesAreTerminated(t, bytes[1..]);
    }
  }

  predicate NoViolation(s: State, bytes: seq<Byte>)
    requires s.Ok()
    decreases |bytes|
  {
    bytes == [] || (DecodeAddByte(s, bytes[0]).1 != -ERROR_INVALID_DATA && NoViolation(Accept(s, bytes[0]).0, bytes[1..]))
  }

  /** Without a protocol violation nothing but zeros follows a delivered packet. */
  lemma {:induction false} ZeroTail(s: State, bytes: seq<Byte>)
    requires s.Ok() && s.mode != ClearingInvalidPacket && ZeroFrom(s.buffer, s.index) && NoViolation(s, bytes)
    ensures forall d :: d in Delivered(s, bytes) ==> d.length <= |d.buffer| && ZeroFrom(d.buffer, d.length)
    decreases |bytes|
  {
    if bytes != [] {
      ZeroTail(Accept(s, bytes[0]).0, bytes[1..]);
    }
  }

  // --------------------------------------------------------------- the object

  /** slip_t as rx_process keeps it: a mode, an index and a buffer written in place. */
  class Decoder {
    var state: Mode
    var currentIndex: nat
    const buffer: array<Byte>

    ghost predicate Valid()
      reads this, buffer
    {
      View().Ok()
    }

    ghost function View(): State
      reads this, buffer
    {
      State(state, currentIndex, buffer[..])
    }

    constructor (size: nat)
      ensures Valid() && fresh(buffer) && View() == Clean(size)
    {
      state := Decoding;
      currentIndex := 0;
      buffer := new Byte[size](_ => 0);
      new;
      assert buffer[..] == Zeros(size);
    }

    method AddByte(c: Byte) returns (ret: int)
      requires Valid()
      modifies this, buffer
      ensures Valid() && (View(), ret) == DecodeAddByte(old(View()), c)
    {
      if currentIndex == buffer.Length {
        return -ERROR_NO_MEM;
      }
      match state {
        case Decoding =>
          if c == END {
            return NRF_SUCCESS;
          } else if c == ESC {
            state := EscReceived;
          } else {
            buffer[currentIndex] := c;
            currentIndex := currentIndex + 1;
          }
        case EscReceived =>
          if c == ESC_END {
            buffer[currentIndex] := END;
            currentIndex := currentIndex + 1;
            state := Decoding;
          } else if c == ESC_ESC {
            buffer[currentIndex] := ESC;
            currentIndex := currentIndex + 1;
            state := Decoding;
          } else {
            state := ClearingInvalidPacket;
            return -ERROR_INVALID_DATA;
          }
        case ClearingInvalidPacket =>
          if c == END {
            state := Decoding;
            currentIndex := 0;
          }
      }
      return ERROR_BUSY;
    }

    /** What rx_process does after a packet: memset, index and state. */
    method Reset()
      modifies this, buffer
      ensures Valid() && View() == Clean(buffer.Length)
    {
      forall k | 0 <= k < buffer.Length {
        buffer[k] := 0;
      }
      currentIndex := 0;
      state := Decoding;
      assert buffer[..] == Zeros(buffer.Length);
    }
  }
}
