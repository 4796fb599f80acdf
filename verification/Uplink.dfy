// Uplink messages: on_packet_received of src/uart_handler.c fills tx_send_queue, dropping the oldest
// message when it is full; the TCP client of src/socket_app.c peeks, sends and gets. The worker
// preempts the client thread, so packets may arrive between the client's peek and its get.
module Uplink {
  import opened Bytes

  const TX_QUEUE_COUNT := 20

  /** A socket_data_t; the id stands for its heap buffer. */
  datatype Message = Message(id: nat, data: seq<Byte>)

  datatype Client =
    | Idle
    | Holding(msg: Message)    // peeked, about to send
    | Retiring(msg: Message)   // sent, about to get

  /** How a message left the queue. Taken records what the client had peeked and whether a message was
      dropped between its peek and its get. */
  datatype Departure =
    | Dropped(msg: Message)
    | Taken(msg: Message, peeked: Message, overtaken: bool)

  datatype Uplink = Uplink(
    queue: seq<Message>,
    client: Client,
    overtaken: bool,          // a drop since the last peek
    resendCount: nat,
    reconnects: nat,
    accepted: seq<Message>,   // everything ever queued
    departed: seq<Departure>, // in the order of leaving
    freed: seq<nat>,          // buffers given to k_free, in order
    copies: seq<Message>,     // what do_tcp_send was handed, in order, with the bytes it read
    stream: seq<Byte>         // bytes the socket has taken
  )

  const EMPTY := Uplink([], Idle, false, 0, 0, [], [], [], [], [])

  // ---------------------------------------------------------------- do_tcp_send

  /** What send may answer while bytes remain: some of them taken, or an error. */
  predicate ValidSends(len: nat, offset: nat, results: seq<int>)
    decreases |results|
  {
    offset < len ==>
      && results != [] && results[0] != 0 && results[0] <= len - offset
      && (results[0] > 0 ==> ValidSends(len, offset + results[0], results[1..]))
  }

  /** do_tcp_send from an offset on: its return value and how far it got. */
  function TcpSend(len: nat, offset: nat, ret: int, results: seq<int>): (r: (int, nat))
    requires offset <= len && ValidSends(len, offset, results)
    ensures offset <= r.1 <= len
    decreases |results|
  {
    if offset == len then (ret, offset)
    else if results[0] < 0 then (results[0], offset)
    else TcpSend(len, offset + results[0], results[0], results[1..])
  }

  predicate NoErrors(len: nat, offset: nat, results: seq<int>)
    requires offset <= len && ValidSends(len, offset, results)
    decreases |results|
  {
    offset < len ==> results[0] > 0 && NoErrors(len, offset + results[0], results[1..])
  }

  /** The last piece of a message sent in several is shorter than the message. */
  lemma {:induction false} LaterPiecesAreShort(len: nat, offset: nat, ret: int, results: seq<int>)
    requires 0 < offset <= len && ValidSends(len, offset, results) && ret < len
    ensures TcpSend(len, offset, ret, results).0 < len
    decreases |results|
  {
    if offset < len && results[0] > 0 {
      LaterPiecesAreShort(len, offset + results[0], results[0], results[1..]);
    }
  }

  lemma {:induction false} WithoutErrorsAllIsSent(len: nat, offset: nat, ret: int, results: seq<int>)
    requires offset <= len && ValidSends(len, offset, results)
    ensures TcpSend(len, offset, ret, results).1 == len <== NoErrors(len, offset, results)
    ensures NoErrors(len, offset, results) && ret >= 0 ==> TcpSend(len, offset, ret, results).0 >= 0
    decreases |results|
  {
    if offset < len && results[0] > 0 {
      WithoutErrorsAllIsSent(len, offset + results[0], results[0], results[1..]);
    }
  }

  /** The return value is the length of the last piece, so it equals the message's length, and the
      client retires the message, exactly when the message is empty or a single send took it all. */
  lemma ReturnsLengthIffSingleSend(len: nat, results: seq<int>)
    requires ValidSends(len, 0, results)
    ensures TcpSend(len, 0, 0, results).0 == len <==> len == 0 || results[0] == len
  {
    if 0 < len && results[0] > 0 {
      if results[0] == len {
        assert TcpSend(len, len, len, results[1..]) == (len, len);
      } else {
        LaterPiecesAreShort(len, results[0], results[0], results[1..]);
      }
    }
  }

  function Sum(xs: seq<int>): int { if xs == [] then 0 else xs[0] + Sum(xs[1..]) }

  predicate AllPositive(xs: seq<int>) { forall i :: 0 <= i < |xs| ==> xs[i] > 0 }

  /** The calls of send before call k took some bytes each. */
  predicate Took(results: seq<int>, k: nat) { k <= |results| && AllPositive(results[..k]) }

  lemma TookOneMore(results: seq<int>, k: nat)
    requires 0 < k <= |results|
    ensures Took(results, k) <==> results[0] > 0 && Took(results[1..], k - 1)
    ensures Sum(results[..k]) == results[0] + Sum(results[1..][..k - 1])
  {
    var front, behind := results[..k], results[1..][..k - 1];
    assert front == [results[0]] + behind;
    assert front[1..] == behind;
    assert forall i :: 0 <= i < |behind| ==> behind[i] == front[i + 1];
  }

  /** A send that fails ends it, however much went out before: its error is the return value, and exactly
      the bytes taken so far are out. */
  lemma {:induction false} FailureIsReturned(len: nat, offset: nat, ret: int, results: seq<int>, k: nat)
    requires offset <= len && ValidSends(len, offset, results)
    requires k < |results| && Took(results, k) && offset + Sum(results[..k]) < len && results[k] < 0
    ensures TcpSend(len, offset, ret, results) == (results[k], offset + Sum(results[..k]))
    ensures !NoErrors(len, offset, results)
    decreases k
  {
    if k == 0 {
      assert results[..0] == [];
    } else {
      TookOneMore(results, k);
      SumIsPositive(results[1..][..k - 1]);
      FailureIsReturned(len, offset + results[0], results[0], results[1..], k - 1);
    }
  }

  lemma {:induction false} SumIsPositive(xs: seq<int>)
    requires AllPositive(xs)
    ensures Sum(xs) >= |xs|
  {
    if xs != [] {
      SumIsPositive(xs[1..]);
    }
  }

  /** Without a failure the return value is what the last call took, and everything is out. */
  lemma {:induction false} LastPieceIsReturned(len: nat, offset: nat, ret: int, results: seq<int>, k: nat)
    requires offset <= len && ValidSends(len, offset, results)
    requires Took(results, k) && offset + Sum(results[..k]) == len
    ensures TcpSend(len, offset, ret, results) == (if k == 0 then ret else results[k - 1], len)
    ensures NoErrors(len, offset, results)
    decreases k
  {
    if k == 0 {
      assert results[..0] == [];
    } else {
      TookOneMore(results, k);
      SumIsPositive(results[1..][..k - 1]);
      LastPieceIsReturned(len, offset + results[0], results[0], results[1..], k - 1);
    }
  }

  /** One of the two is always the case. */
  lemma {:induction false} SendsEnd(len: nat, offset: nat, results: seq<int>) returns (k: nat)
    requires offset <= len && ValidSends(len, offset, results)
    ensures Took(results, k)
    ensures if NoErrors(len, offset, results) then offset + Sum(results[..k]) == len
            else k < |results| && offset + Sum(results[..k]) < len && results[k] < 0
    decreases |results|
  {
    if offset == len || results[0] < 0 {
      k := 0;
      assert results[..0] == [];
    } else {
      k := SendsEnd(len, offset + results[0], results[1..]);
      k := k + 1;
      TookOneMore(results, k);
    }
  }

  /** do_tcp_send's outcome in terms of the answers of send: the calls took results[..k], and then either
      everything was out, or call k failed with bytes still to go. */
  lemma SendOutcome(len: nat, results: seq<int>) returns (k: nat)
    requires ValidSends(len, 0, results)
    ensures Took(results, k)
    ensures var (ret, sent) := TcpSend(len, 0, 0, results);
            var taken := Sum(results[..k]);
            if NoErrors(len, 0, results)
            then taken == sent == len && ret == if k == 0 then 0 else results[k - 1]
            else k < |results| && taken == sent < len && ret == results[k] < 0
  {
    k := SendsEnd(len, 0, results);
    if NoErrors(len, 0, results) {
      LastPieceIsReturned(len, 0, 0, results, k);
    } else {
      FailureIsReturned(len, 0, 0, results, k);
    }
  }

  /** do_tcp_send */
  method DoTcpSend(data: seq<Byte>, results: seq<int>) returns (ret: int, sent: seq<Byte>)
    requires ValidSends(|data|, 0, results)
    ensures var (r, n) := TcpSend(|data|, 0, 0, results); ret == r && sent == data[..n]
  {
    ret := 0;
    sent := [];
    var offset := 0;
    var calls := 0;
    while offset < |data|
      invariant 0 <= offset <= |data| && calls <= |results|
      invariant ValidSends(|data|, offset, results[calls..])
      invariant TcpSend(|data|, offset, ret, results[calls..]) == TcpSend(|data|, 0, 0, results)
      invariant sent == data[..offset]
      decreases |data| - offset
    {
      assert results[calls..][1..] == results[calls + 1..];
      ret := results[calls];
      calls := calls + 1;
      if ret < 0 {
        break;
      }
      sent := sent + data[offset..offset + ret];
      offset := offset + ret;
    }
  }

  // -------------------------------------------------------------------- steps

  datatype Step =
    | Packet(data: seq<Byte>, allocOk: bool)
    | Peek
    | Send(results: seq<int>, memory: seq<Byte>)
    | Get

  /** What the peeked pointer leads to: the message as long as its buffer is allocated, anything after. */
  predicate Readable(s: Uplink, msg: Message, memory: seq<Byte>) {
    |memory| == |msg.data| && (!s.overtaken ==> memory == msg.data)
  }

  predicate Enabled(s: Uplink, e: Step) {
    match e
    case Packet(_, _) => true
    case Peek => s.client.Idle?
    case Send(results, memory) =>
      s.client.Holding? && ValidSends(|s.client.msg.data|, 0, results) && Readable(s, s.client.msg, memory)
    case Get => s.client.Retiring?
  }

  /** on_packet_received */
  function PacketReceived(s: Uplink, data: seq<Byte>, allocOk: bool): Uplink {
    if !allocOk then s
    else
      var msg := Message(|s.accepted|, data);
      var t := if |s.queue| >= TX_QUEUE_COUNT
               then s.(queue := s.queue[1..], departed := s.departed + [Dropped(s.queue[0])],
                       freed := s.freed + [s.queue[0].id], overtaken := true)
               else s;
      t.(queue := t.queue + [msg], accepted := t.accepted + [msg])
  }

  /** The client after do_tcp_send. */
  function Sent(s: Uplink, results: seq<int>, memory: seq<Byte>): Uplink
    requires Enabled(s, Send(results, memory))
  {
    var msg := s.client.msg;
    var (ret, n) := TcpSend(|msg.data|, 0, 0, results);
    var t := s.(copies := s.copies + [Message(msg.id, memory)], stream := s.stream + memory[..n]);
    if ret == |msg.data| then t.(client := Retiring(msg))
    else if ret <= 0 then
      t.(client := Idle, resendCount := (s.resendCount + 1) % 256,
         reconnects := if s.resendCount >= 3 then s.reconnects + 1 else s.reconnects)
    else t.(client := Idle)
  }

  /** k_msgq_get and k_free: they act on whatever is at the head now. */
  function Got(s: Uplink): Uplink
    requires s.client.Retiring?
  {
    if s.queue == [] then s.(client := Idle)
    else
      s.(queue := s.queue[1..], client := Idle, resendCount := 0,
         departed := s.departed + [Taken(s.queue[0], s.client.msg, s.overtaken)],
         freed := s.freed + [s.queue[0].id])
  }

  function Next(s: Uplink, e: Step): Uplink
    requires Enabled(s, e)
  {
    match e
    case Packet(data, allocOk) => PacketReceived(s, data, allocOk)
    case Peek => if s.queue == [] then s else s.(client := Holding(s.queue[0]), overtaken := false)
    case Send(results, memory) => Sent(s, results, memory)
    case Get => Got(s)
  }

  predicate ValidRun(s: Uplink, es: seq<Step>)
    decreases |es|
  {
    es == [] || (Enabled(s, es[0]) && ValidRun(Next(s, es[0]), es[1..]))
  }

  function Final(s: Uplink, es: seq<Step>): Uplink
    requires ValidRun(s, es)
    decreases |es|
  {
    if es == [] then s else Final(Next(s, es[0]), es[1..])
  }

  // ------------------------------------------------------- conservation, always

  function Departures(ds: seq<Departure>): (r: seq<Message>)
    ensures |r| == |ds|
  {
    seq(|ds|, i requires 0 <= i < |ds| => ds[i].msg)
  }

  /** Accepted messages are the departed ones, in order, then the queued ones; a buffer has been freed
      exactly when its message departed, and only once. */
  predicate Conserved(s: Uplink) {
    && s.accepted == Departures(s.departed) + s.queue
    && |s.queue| <= TX_QUEUE_COUNT
    && (forall i :: 0 <= i < |s.accepted| ==> s.accepted[i].id == i)
    && |s.freed| == |s.departed| && (forall i :: 0 <= i < |s.freed| ==> s.freed[i] == i)
  }

  /** The client's message is still at the head unless a drop overtook it, and nothing behind the head
      has ever been handed to the socket. */
  predicate ClientOk(s: Uplink) {
    && (!s.client.Idle? ==>
          && s.queue != []
          && (if s.overtaken
              then s.client.msg.id < |s.departed| && s.departed[s.client.msg.id] == Dropped(s.client.msg)
              else s.client.msg == s.queue[0]))
    && (forall c :: c in s.copies ==> c.id < |s.accepted|)
    && (forall c :: c in s.copies && s.queue != [] ==> c.id <= s.queue[0].id)
    && (forall c :: c in s.copies && !s.client.Idle? && s.overtaken ==> c.id < s.queue[0].id)
  }

  /** A take is of the peeked message unless overtaken, and then of a message never sent. */
  predicate TakesOk(s: Uplink) {
    forall i :: 0 <= i < |s.departed| && s.departed[i].Taken? ==>
      var d := s.departed[i];
      && (d.msg == d.peeked <==> !d.overtaken)
      && (d.overtaken ==> forall c :: c in s.copies ==> c.id != d.msg.id)
  }

  predicate Inv(s: Uplink) { Conserved(s) && ClientOk(s) && TakesOk(s) }

  lemma DepartsHead(s: Uplink, d: Departure)
    requires Conserved(s) && s.queue != [] && d.msg == s.queue[0]
    ensures s.accepted == Departures(s.departed + [d]) + s.queue[1..]
    ensures s.queue[0].id == |s.departed|
    ensures |s.queue| > 1 ==> s.queue[1].id == |s.departed| + 1
  {
    assert s.queue == [s.queue[0]] + s.queue[1..];
    assert Departures(s.departed + [d]) == Departures(s.departed) + [d.msg];
    assert s.accepted[|s.departed|] == s.queue[0];
    if |s.queue| > 1 {
      assert s.accepted[|s.departed| + 1] == s.queue[1];
    }
  }

  lemma PacketKeepsInv(s: Uplink, data: seq<Byte>, allocOk: bool)
    requires Inv(s)
    ensures Inv(PacketReceived(s, data, allocOk))
  {
    if allocOk {
      var t := PacketReceived(s, data, allocOk);
      if |s.queue| >= TX_QUEUE_COUNT {
        DepartsHead(s, Dropped(s.queue[0]));
      }
      var msg := Message(|s.accepted|, data);
      assert s.accepted + [msg] == Departures(t.departed) + t.queue;
    }
  }

  lemma GetKeepsInv(s: Uplink)
    requires Inv(s) && s.client.Retiring?
    ensures Inv(Got(s))
  {
    DepartsHead(s, Taken(s.queue[0], s.client.msg, s.overtaken));
  }

  lemma SendKeepsInv(s: Uplink, results: seq<int>, memory: seq<Byte>)
    requires Inv(s) && Enabled(s, Send(results, memory))
    ensures Inv(Sent(s, results, memory))
  {
    assert s.accepted[|s.departed|] == s.queue[0];
    forall i | 0 <= i < |s.departed| ensures s.departed[i].msg.id == i {
      assert s.accepted[i] == s.departed[i].msg;
    }
  }

  lemma StepKeepsInv(s: Uplink, e: Step)
    requires Inv(s) && Enabled(s, e)
    ensures Inv(Next(s, e))
  {
    match e
    case Packet(data, allocOk) => PacketKeepsInv(s, data, allocOk);
    case Peek => if s.queue != [] { assert s.accepted[|s.departed|] == s.queue[0]; }
    case Send(results, memory) => SendKeepsInv(s, results, memory);
    case Get => GetKeepsInv(s);
  }

  /** Every interleaving of packets with the client's peek, send and get. */
  lemma {:induction false} RunKeepsInv(s: Uplink, es: seq<Step>)
    requires Inv(s) && ValidRun(s, es)
    ensures Inv(Final(s, es))
    decreases |es|
  {
    if es != [] {
      StepKeepsInv(s, es[0]);
      RunKeepsInv(Next(s, es[0]), es[1..]);
    }
  }

  /** Conservation over every run: accepted messages split in order into departed and queued ones, the
      queue never holds more than 20, and each departed message's buffer was freed exactly once. A
      take by the client is of the message it sent exactly when no drop came in between; otherwise the
      message it removes was never handed to the socket. */
  lemma EveryRunConserves(es: seq<Step>)
    requires ValidRun(EMPTY, es)
    ensures Conserved(Final(EMPTY, es)) && TakesOk(Final(EMPTY, es))
  {
    RunKeepsInv(EMPTY, es);
  }

  /** The pointer handed to do_tcp_send is to an allocated buffer exactly when no message was dropped
      since the peek. */
  lemma SentBufferIsLive(es: seq<Step>)
    requires ValidRun(EMPTY, es) && Final(EMPTY, es).client.Holding?
    ensures var t := Final(EMPTY, es); t.client.msg.id !in t.freed <==> !t.overtaken
  {
    RunKeepsInv(EMPTY, es);
    HeldBufferIsLive(Final(EMPTY, es));
  }

  lemma HeldBufferIsLive(s: Uplink)
    requires Inv(s) && s.client.Holding?
    ensures s.client.msg.id !in s.freed <==> !s.overtaken
  {
    hide TakesOk, Departures;
    assert s.accepted[|s.departed|] == s.queue[0];
    if s.overtaken {
      assert s.freed[s.client.msg.id] == s.client.msg.id;
    }
  }

  /** A packet is queued exactly when memory could be allocated, and only then, and only from a queue of
      20, does the oldest message go. */
  lemma PacketOutcome(s: Uplink, data: seq<Byte>, allocOk: bool)
    requires Inv(s)
    ensures var t, msg := PacketReceived(s, data, allocOk), Message(|s.accepted|, data);
            var full := allocOk && |s.queue| == 20;
            && t.accepted == s.accepted + (if allocOk then [msg] else [])
            && t.departed == s.departed + (if full then [Dropped(s.queue[0])] else [])
            && |t.queue| == |s.queue| + (if allocOk && !full then 1 else 0)
            && (allocOk ==> t.queue[|t.queue| - 1] == msg)
            && t.client == s.client && t.stream == s.stream && t.resendCount == s.resendCount
  {
    NothingAppended(s.accepted);
    NothingAppended(s.departed);
  }

  // ------------------------------------------------------ at least once, in order

  /** msgs, each repeated at least once. */
  predicate Repeats(copies: seq<Message>, msgs: seq<Message>)
    decreases |copies|
  {
    if copies == [] then msgs == []
    else
      && msgs != [] && copies[|copies| - 1] == msgs[|msgs| - 1]
      && (Repeats(copies[..|copies| - 1], msgs) || Repeats(copies[..|copies| - 1], msgs[..|msgs| - 1]))
  }

  function DataOf(copies: seq<Message>): seq<Byte>
  {
    if copies == [] then [] else DataOf(copies[..|copies| - 1]) + copies[|copies| - 1].data
  }

  /** No drop-oldest and no send error on the way. */
  predicate Smooth(s: Uplink, es: seq<Step>)
    requires ValidRun(s, es)
    decreases |es|
  {
    es == [] ||
    (&& (es[0].Packet? && es[0].allocOk ==> |s.queue| < TX_QUEUE_COUNT)
     && (es[0].Send? ==> NoErrors(|s.client.msg.data|, 0, es[0].results))
     && Smooth(Next(s, es[0]), es[1..]))
  }

  predicate HeadTried(s: Uplink) {
    s.queue != [] && s.copies != [] && s.copies[|s.copies| - 1] == s.queue[0]
  }

  /** The messages the socket must have seen so far. */
  function Transmitted(s: Uplink): seq<Message> {
    Departures(s.departed) + (if HeadTried(s) then [s.queue[0]] else [])
  }

  predicate InOrder(s: Uplink) {
    && Inv(s) && !s.overtaken && (s.client.Retiring? ==> HeadTried(s))
    && (forall d :: d in s.departed ==> d.Taken? && d.msg == d.peeked)
    && Repeats(s.copies, Transmitted(s))
    && s.stream == DataOf(s.copies)
  }

  lemma SmoothPacket(s: Uplink, data: seq<Byte>, allocOk: bool)
    requires InOrder(s) && (allocOk ==> |s.queue| < TX_QUEUE_COUNT)
    ensures InOrder(PacketReceived(s, data, allocOk))
  {
    PacketKeepsInv(s, data, allocOk);
    var t := PacketReceived(s, data, allocOk);
    if allocOk && s.queue == [] && s.copies != [] {
      assert s.copies[|s.copies| - 1] in s.copies;
      assert t.queue[0].id == |s.accepted|;
    }
    assert Transmitted(t) == Transmitted(s);
  }

  lemma RepeatsSnoc(copies: seq<Message>, msgs: seq<Message>, m: Message)
    requires Repeats(copies, msgs) || Repeats(copies, msgs + [m])
    ensures Repeats(copies + [m], msgs + [m]) && DataOf(copies + [m]) == DataOf(copies) + m.data
  {
    assert (copies + [m])[..|copies|] == copies && (msgs + [m])[..|msgs|] == msgs;
  }

  lemma SmoothSend(s: Uplink, results: seq<int>, memory: seq<Byte>)
    requires InOrder(s) && Enabled(s, Send(results, memory)) && NoErrors(|s.client.msg.data|, 0, results)
    ensures InOrder(Sent(s, results, memory))
  {
    hide Conserved, TakesOk, NoErrors, ValidSends, TcpSend, Repeats, DataOf;
    SendKeepsInv(s, results, memory);
    var msg, t := s.client.msg, Sent(s, results, memory);
    WithoutErrorsAllIsSent(|msg.data|, 0, 0, results);
    assert msg.data[..|msg.data|] == msg.data;
    NothingAppended(Departures(s.departed));
    RepeatsSnoc(s.copies, Departures(s.departed), msg);
  }

  lemma SmoothGet(s: Uplink)
    requires InOrder(s) && s.client.Retiring?
    ensures InOrder(Got(s))
  {
    GetKeepsInv(s);
    var t := Got(s);
    DepartsHead(s, Taken(s.queue[0], s.client.msg, s.overtaken));
    assert Departures(t.departed) == Departures(s.departed) + [s.queue[0]];
    NothingAppended(Departures(t.departed));
  }

  lemma {:induction false} SmoothRun(s: Uplink, es: seq<Step>)
    requires InOrder(s) && ValidRun(s, es) && Smooth(s, es)
    ensures InOrder(Final(s, es))
    decreases |es|
  {
    if es != [] {
      match es[0] {
        case Packet(data, allocOk) => SmoothPacket(s, data, allocOk);
        case Peek => StepKeepsInv(s, Peek);
        case Send(results, memory) => SmoothSend(s, results, memory);
        case Get => SmoothGet(s);
      }
      SmoothRun(Next(s, es[0]), es[1..]);
    }
  }

  /** With short writes in any pattern, but no send error and no drop, the TCP stream is whole copies
      of the messages in queue order, each departed message at least once. */
  lemma AtLeastOnce(es: seq<Step>)
    requires ValidRun(EMPTY, es) && Smooth(EMPTY, es)
    ensures var t := Final(EMPTY, es);
            && t.stream == DataOf(t.copies)
            && Repeats(t.copies, Transmitted(t))
            && Departures(t.departed) <= Transmitted(t) <= t.accepted
            && (forall d :: d in t.departed ==> d.Taken? && d.msg == d.peeked)
  {
    hide InOrder;
    EmptyIsInOrder();
    SmoothRun(EMPTY, es);
    TransmittedIsPrefix(Final(EMPTY, es));
  }

  lemma EmptyIsInOrder()
    ensures InOrder(EMPTY)
  {
    hide Inv;
    EmptyInv();
    assert Departures([]) == [];
  }

  lemma TransmittedIsPrefix(s: Uplink)
    requires InOrder(s)
    ensures Departures(s.departed) <= Transmitted(s) <= s.accepted
    ensures s.stream == DataOf(s.copies) && Repeats(s.copies, Transmitted(s))
    ensures forall d :: d in s.departed ==> d.Taken? && d.msg == d.peeked
  {
  }

  // -------------------------------------------------- at least once, whatever is dropped

  /** Every call of do_tcp_send gets all its bytes out, in as many pieces as it takes. */
  predicate NoSendErrors(s: Uplink, es: seq<Step>)
    requires ValidRun(s, es)
    decreases |es|
  {
    es == [] ||
    (&& (es[0].Send? ==> NoErrors(|s.client.msg.data|, 0, es[0].results))
     && NoSendErrors(Next(s, es[0]), es[1..]))
  }

  predicate WasDropped(s: Uplink, id: nat) { id < |s.departed| && s.departed[id].Dropped? }

  predicate Nondecreasing(ms: seq<Message>) { forall i, j :: 0 <= i < j < |ms| ==> ms[i].id <= ms[j].id }

  /** A copy is of an accepted message, with its bytes unless its buffer was freed by a drop. */
  predicate CopyOk(s: Uplink, c: Message) {
    c.id < |s.accepted| && (c == s.accepted[c.id] || WasDropped(s, c.id))
  }

  predicate Delivering(s: Uplink) {
    && Inv(s) && s.stream == DataOf(s.copies) && Nondecreasing(s.copies)
    && (forall c :: c in s.copies ==> CopyOk(s, c))
    && (!s.client.Idle? ==>
          && s.client.msg.id < |s.accepted| && s.client.msg == s.accepted[s.client.msg.id]
          && forall c :: c in s.copies ==> c.id <= s.client.msg.id)
    && (s.client.Retiring? && !s.overtaken ==> s.client.msg in s.copies)
    && (forall d :: d in s.departed && d.Taken? && !d.overtaken ==> d.msg in s.copies)
  }

  lemma PacketDelivers(s: Uplink, data: seq<Byte>, allocOk: bool)
    requires Delivering(s)
    ensures Delivering(PacketReceived(s, data, allocOk))
  {
    hide Conserved, TakesOk, DataOf, Departures;
    PacketKeepsInv(s, data, allocOk);
    var t := PacketReceived(s, data, allocOk);
    assert s.departed <= t.departed && s.accepted <= t.accepted;
    forall c | c in t.copies ensures CopyOk(t, c) {
      assert CopyOk(s, c);
    }
  }

  lemma PeekDelivers(s: Uplink)
    requires Delivering(s) && s.client.Idle?
    ensures Delivering(Next(s, Peek))
  {
    hide DataOf, TakesOk;
    StepKeepsInv(s, Peek);
    if s.queue != [] {
      assert s.accepted[|s.departed|] == s.queue[0];
      forall c | c in s.copies ensures CopyOk(Next(s, Peek), c) {
        assert CopyOk(s, c);
      }
    }
  }

  lemma SendDelivers(s: Uplink, results: seq<int>, memory: seq<Byte>)
    requires Delivering(s) && Enabled(s, Send(results, memory)) && NoErrors(|s.client.msg.data|, 0, results)
    ensures Delivering(Sent(s, results, memory))
  {
    hide Conserved, TakesOk, NoErrors, ValidSends, TcpSend, DataOf;
    SendKeepsInv(s, results, memory);
    var msg, t := s.client.msg, Sent(s, results, memory);
    var copy := Message(msg.id, memory);
    WithoutErrorsAllIsSent(|memory|, 0, 0, results);
    assert memory[..|memory|] == memory;
    DataSnoc(s.copies, copy);
    forall c | c in t.copies ensures CopyOk(t, c) && c.id <= msg.id {
      assert c in s.copies ==> CopyOk(s, c);
    }
    assert copy in t.copies;
  }

  lemma DataSnoc(copies: seq<Message>, m: Message)
    ensures DataOf(copies + [m]) == DataOf(copies) + m.data
  {
    assert (copies + [m])[..|copies|] == copies;
  }

  lemma GetDelivers(s: Uplink)
    requires Delivering(s) && s.client.Retiring?
    ensures Delivering(Got(s))
  {
    hide Conserved, DataOf, Departures;
    GetKeepsInv(s);
    var t := Got(s);
    assert s.departed <= t.departed;
    assert t.departed[|s.departed|].msg == t.departed[|s.departed|].peeked <==> !s.overtaken;
    forall c | c in t.copies ensures CopyOk(t, c) {
      assert CopyOk(s, c);
    }
  }

  lemma {:induction false} RunDelivers(s: Uplink, es: seq<Step>)
    requires Delivering(s) && ValidRun(s, es) && NoSendErrors(s, es)
    ensures Delivering(Final(s, es))
    decreases |es|
  {
    hide Delivering;
    if es != [] {
      match es[0] {
        case Packet(data, allocOk) => PacketDelivers(s, data, allocOk);
        case Peek => PeekDelivers(s);
        case Send(results, memory) => SendDelivers(s, results, memory);
        case Get => GetDelivers(s);
      }
      RunDelivers(Next(s, es[0]), es[1..]);
    }
  }

  lemma EmptyInv()
    ensures Inv(EMPTY)
  {
  }

  lemma EmptyDelivers()
    ensures Delivering(EMPTY)
  {
    hide Inv;
    EmptyInv();
  }

  /** With short writes in any pattern and drops at any moment, but no send error: the TCP stream is
      whole copies, in the order the messages were accepted; a copy has its message's bytes unless a
      drop had freed them; and of the messages the client removed, exactly those not overtaken by a
      drop are in the stream. */
  lemma AtLeastOnceWithDrops(es: seq<Step>)
    requires ValidRun(EMPTY, es) && NoSendErrors(EMPTY, es)
    ensures var t := Final(EMPTY, es);
            && t.stream == DataOf(t.copies) && Nondecreasing(t.copies)
            && (forall c :: c in t.copies ==> CopyOk(t, c))
            && (forall d :: d in t.departed && d.Taken? ==> (d.msg in t.copies <==> !d.overtaken))
  {
    hide Conserved, ClientOk, CopyOk, Nondecreasing;
    EmptyDelivers();
    RunDelivers(EMPTY, es);
    var t := Final(EMPTY, es);
    forall d | d in t.departed && d.Taken? ensures d.msg in t.copies <==> !d.overtaken {
      var i :| 0 <= i < |t.departed| && t.departed[i] == d;
      assert d.overtaken ==> forall c :: c in t.copies ==> c.id != d.msg.id;
    }
  }

  // ------------------------------------------------------- an overtaken take happens

  /** n one-byte messages arrive. */
  function Packets(n: nat): seq<Step> { seq(n, _ => Packet([0], true)) }

  lemma {:induction false} RunConcat(s: Uplink, es: seq<Step>, fs: seq<Step>)
    requires ValidRun(s, es) && ValidRun(Final(s, es), fs)
    ensures ValidRun(s, es + fs) && Final(s, es + fs) == Final(Final(s, es), fs)
    decreases |es|
  {
    if es == [] {
      assert es + fs == fs;
    } else {
      assert (es + fs)[0] == es[0] && (es + fs)[1..] == es[1..] + fs;
      RunConcat(Next(s, es[0]), es[1..], fs);
    }
  }

  lemma {:induction false} PacketsFill(s: Uplink, n: nat)
    requires s.client.Idle? && |s.queue| + n <= TX_QUEUE_COUNT
    ensures ValidRun(s, Packets(n))
    ensures var t := Final(s, Packets(n)); t.client.Idle? && |t.queue| == |s.queue| + n && t.departed == s.departed
    decreases n
  {
    if n > 0 {
      var t := PacketReceived(s, [0], true);
      assert Packets(n)[0] == Packet([0], true) && Packets(n)[1..] == Packets(n - 1);
      PacketsFill(t, n - 1);
    }
  }

  /** A peek, a send that takes the whole message, a packet that drops it, and the get. */
  lemma OvertakenTurn(s: Uplink)
    requires Inv(s) && s.client.Idle? && |s.queue| == TX_QUEUE_COUNT
    ensures var len := |s.queue[0].data|;
            var es := [Peek, Send([len], s.queue[0].data), Packet([], true), Get];
            && ValidRun(s, es)
            && var d := Final(s, es).departed;
               d != [] && d[|d| - 1].Taken? && d[|d| - 1].overtaken
  {
    var msg := s.queue[0];
    var len := |msg.data|;
    var send := Send([len], msg.data);
    var s1 := Next(s, Peek);
    ReturnsLengthIffSingleSend(len, [len]);
    var s2 := Next(s1, send);
    assert s2.client == Retiring(msg);
    var s3 := Next(s2, Packet([], true));
    var s4 := Next(s3, Get);
    assert Final(s3, [Get]) == s4 by { assert [Get][1..] == []; }
    var es3 := [Packet([], true), Get];
    assert es3[1..] == [Get] && Final(s2, es3) == s4;
    var es2 := [send, Packet([], true), Get];
    assert es2[1..] == es3 && Final(s1, es2) == s4;
    var es := [Peek, send, Packet([], true), Get];
    assert es[1..] == es2 && Final(s, es) == s4;
  }

  /** An overtaken take is real: some run from the empty queue has one. */
  lemma OvertakenTakeHappens()
    ensures exists es :: ValidRun(EMPTY, es) &&
              exists d :: d in Final(EMPTY, es).departed && d.Taken? && d.overtaken
  {
    hide Inv, Packets, PacketReceived, Sent, Got;
    PacketsFill(EMPTY, TX_QUEUE_COUNT);
    var s := Final(EMPTY, Packets(TX_QUEUE_COUNT));
    assert Inv(EMPTY) by { EmptyInv(); }
    RunKeepsInv(EMPTY, Packets(TX_QUEUE_COUNT));
    OvertakenTurn(s);
    var es := [Peek, Send([|s.queue[0].data|], s.queue[0].data), Packet([], true), Get];
    RunConcat(EMPTY, Packets(TX_QUEUE_COUNT), es);
    var d := Final(s, es).departed;
    assert d[|d| - 1] in d;
  }

  // ------------------------------------------------------------- the C functions

  /** tx_send_queue with the client's static counter. The message ids and the histories are ghosts. */
  class TxQueue {
    var queue: seq<Message>
    var resendCount: nat
    var nextId: nat
    ghost var client: Client
    ghost var overtaken: bool
    ghost var reconnects: nat
    ghost var accepted: seq<Message>
    ghost var departed: seq<Departure>
    ghost var freed: seq<nat>
    ghost var copies: seq<Message>
    ghost var stream: seq<Byte>

    ghost function View(): Uplink
      reads this
    {
      Uplink(queue, client, overtaken, resendCount, reconnects, accepted, departed, freed, copies, stream)
    }

    ghost predicate Valid()
      reads this
    {
      Inv(View()) && nextId == |accepted|
    }

    constructor ()
      ensures Valid() && View() == EMPTY
    {
      queue, resendCount, nextId := [], 0, 0;
      client, overtaken, reconnects := Idle, false, 0;
      accepted, departed, freed, copies, stream := [], [], [], [], [];
    }

    method OnPacketReceived(data: seq<Byte>, allocOk: bool)
      requires Valid()
      modifies this
      ensures Valid() && View() == PacketReceived(old(View()), data, allocOk)
    {
      PacketKeepsInv(View(), data, allocOk);
      if !allocOk {
        return;
      }
      var message := Message(nextId, data);
      nextId := nextId + 1;
      if |queue| >= TX_QUEUE_COUNT {
        departed := departed + [Dropped(queue[0])];
        freed := freed + [queue[0].id];
        overtaken := true;
        queue := queue[1..];
      }
      queue := queue + [message];
      accepted := accepted + [message];
    }

    /** k_msgq_peek, on a nonempty queue. */
    method ClientPeek() returns (message: Message)
      requires Valid() && client == Idle && queue != []
      modifies this`client, this`overtaken
      ensures Valid() && View() == Next(old(View()), Peek) && client == Holding(message)
    {
      StepKeepsInv(View(), Peek);
      message := queue[0];
      client, overtaken := Holding(message), false;
    }

    /** do_tcp_send and the client's reaction to its return value; memory is what the pointer reads. */
    method ClientSend(message: Message, results: seq<int>, memory: seq<Byte>) returns (whole: bool, reconnect: bool)
      requires Valid() && client == Holding(message) && Enabled(View(), Send(results, memory))
      modifies this
      ensures Valid() && View() == Sent(old(View()), results, memory)
      ensures (reconnect <==> reconnects > old(reconnects)) && (whole <==> client.Retiring?)
    {
      hide Conserved, TakesOk, ClientOk;
      SendKeepsInv(View(), results, memory);
      reconnect := false;
      var ret, sent := DoTcpSend(memory, results);
      copies := copies + [Message(message.id, memory)];
      stream := stream + sent;
      whole := ret == |message.data|;
      if whole {
        client := Retiring(message);
      } else {
        client := Idle;
        if ret <= 0 {
          if resendCount >= 3 {
            reconnect := true;
            reconnects := reconnects + 1;
          }
          resendCount := (resendCount + 1) % 256;
        }
      }
    }

    /** k_msgq_get and k_free */
    method ClientGet()
      requires Valid() && client.Retiring?
      modifies this
      ensures Valid() && View() == Got(old(View()))
    {
      GetKeepsInv(View());
      departed := departed + [Taken(queue[0], client.msg, overtaken)];
      freed := freed + [queue[0].id];
      queue := queue[1..];
      resendCount := 0;
      client := Idle;
    }

    /** The queue part of tcp_client_thread's loop, when nothing comes in between. */
    method ClientTurn(results: seq<int>) returns (reconnect: bool)
      requires Valid() && client == Idle
      requires queue != [] ==> ValidSends(|queue[0].data|, 0, results)
      modifies this
      ensures Valid() && client == Idle
      ensures View() == Turn(old(View()), results)
    {
      hide Conserved, ClientOk, TakesOk;
      if queue == [] {
        return false;
      }
      var message := ClientPeek();
      var whole;
      whole, reconnect := ClientSend(message, results, message.data);
      if whole {
        ClientGet();
      }
    }
  }

  /** One undisturbed turn of the client. */
  function Turn(s: Uplink, results: seq<int>): Uplink
    requires s.client.Idle? && (s.queue != [] ==> ValidSends(|s.queue[0].data|, 0, results))
  {
    if s.queue == [] then s
    else
      var t := Sent(Next(s, Peek), results, s.queue[0].data);
      if t.client.Retiring? then Got(t) else t
  }

  /** A turn removes the head exactly when it is empty or one send took it whole; it asks for a
      reconnect exactly when a send failed and at least three failures preceded it. A message that
      went out in pieces stays, uncounted, and will be sent again. */
  lemma TurnOutcome(s: Uplink, results: seq<int>)
    requires s.client.Idle? && s.queue != [] && ValidSends(|s.queue[0].data|, 0, results)
    ensures var t := Turn(s, results);
            var whole := s.queue[0].data == [] || results[0] == |s.queue[0].data|;
            var failed := !NoErrors(|s.queue[0].data|, 0, results);
            && (t.queue == s.queue[1..] <==> whole)
            && (!whole ==> t.queue == s.queue && t.freed == s.freed)
            && (t.reconnects == s.reconnects + 1 <==> failed && s.resendCount >= 3)
            && t.resendCount == (if whole then 0 else if failed then (s.resendCount + 1) % 256 else s.resendCount)
  {
    var len := |s.queue[0].data|;
    ReturnsLengthIffSingleSend(len, results);
    var k := SendOutcome(len, results);
    if len > 0 && NoErrors(len, 0, results) {
      assert k > 0 && results[..k][k - 1] == results[k - 1];
    }
    assert |s.queue[1..]| < |s.queue|;
  }
}
