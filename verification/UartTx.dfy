// The transmit side of src/uart_handler.c: uart_tx_write puts bytes into a 256-byte ring, tx_start
// hands one contiguous run of it to the driver, and the TX_DONE callback releases the run and starts
// the next. A semaphore is meant to say that the transmitter is idle. The callback may fall between
// any two of the writer's operations.
module UartTx {
  import opened Bytes
  import Slip

  const CAPACITY := 256

  /** Where uart_tx_write stands. */
  datatype Writer =
    | Quiet
    | Putting(rest: seq<Byte>)    // top of the loop
    | Waiting(rest: seq<Byte>)    // ring full, blocked on the semaphore
    | Starting(rest: seq<Byte>)   // semaphore taken, about to call tx_start
    | Trying                      // everything put, about to try the semaphore
    | LastStart                   // semaphore taken, about to call tx_start

  datatype Tx = Tx(
    ring: seq<Byte>,              // bytes put and not released, oldest first
    tail: nat,                    // position of the first of them in the buffer
    claimed: nat,                 // how many of them are claimed
    flight: Option<seq<Byte>>,    // what the driver is sending
    sem: bool,                    // tx_done_sem
    writer: Writer,
    wire: seq<Byte>               // what has gone out
  )

  const START := Tx([], 0, 0, None, true, Quiet, [])

  /** ring_buf_get_claim returns one contiguous run. */
  function Run(s: Tx): int { Min(|s.ring| - s.claimed, 256 - (s.tail + s.claimed) % 256) }

  /** tx_start: the state afterwards and the return code. The driver refuses while it is busy; ok is
      its answer otherwise. A refusal cancels the whole claim, not just the new part of it. */
  function Started(s: Tx, active: bool, ok: bool): (Tx, int)
    requires s.claimed <= |s.ring|
  {
    if !active then (s, 1)
    else if s.flight == None && ok then
      (s.(claimed := s.claimed + Run(s), flight := Some(s.ring[s.claimed..s.claimed + Run(s)])), 0)
    else (s.(claimed := 0), -1)
  }

  datatype Step =
    | Write(data: seq<Byte>)             // uart_tx_write is called
    | Advance(active: bool, ok: bool)    // its next operation
    | Done(active: bool, ok: bool)       // UART_TX_DONE

  predicate Enabled(s: Tx, e: Step) {
    && s.claimed <= |s.ring| <= CAPACITY
    && match e
       case Write(_) => s.writer.Quiet?
       case Advance(_, _) => !s.writer.Quiet? && (s.writer.Waiting? ==> s.sem)
       case Done(_, _) => s.flight.Some?
  }

  function Put(s: Tx, rest: seq<Byte>): Tx
    requires |s.ring| <= CAPACITY
  {
    var n := Min(|rest|, CAPACITY - |s.ring|);
    if rest == [] then s.(writer := Trying)
    else if n > 0 then s.(ring := s.ring + rest[..n], writer := Putting(rest[n..]))
    else s.(writer := Waiting(rest))
  }

  function Advanced(s: Tx, active: bool, ok: bool): Tx
    requires Enabled(s, Advance(active, ok))
  {
    match s.writer
    case Quiet => s
    case Putting(rest) => Put(s, rest)
    case Waiting(rest) => s.(sem := false, writer := Starting(rest))
    case Starting(rest) =>
      var (t, code) := Started(s, active, ok);
      if code == 0 then t.(writer := Putting(rest)) else t.(sem := true, writer := Quiet)
    case Trying => if s.sem then s.(sem := false, writer := LastStart) else s.(writer := Quiet)
    case LastStart =>
      var (t, code) := Started(s, active, ok);
      if code == 0 then t.(writer := Quiet) else t.(sem := true, writer := Quiet)
  }

  /** The callback: release the run, chain the next one, and give the semaphore in either case. A
      release of more than is claimed fails and releases nothing. */
  function Completed(s: Tx, active: bool, ok: bool): Tx
    requires Enabled(s, Done(active, ok))
  {
    var sent := s.flight.value;
    var t := s.(flight := None, wire := s.wire + sent);
    var u := if |sent| <= s.claimed
             then t.(ring := s.ring[|sent|..], tail := s.tail + |sent|, claimed := 0) else t;
    var v := if u.claimed < |u.ring| then Started(u, active, ok).0 else u;
    v.(sem := true)
  }

  function Next(s: Tx, e: Step): Tx
    requires Enabled(s, e)
  {
    match e
    case Write(data) => s.(writer := Putting(data))
    case Advance(active, ok) => Advanced(s, active, ok)
    case Done(active, ok) => Completed(s, active, ok)
  }

  predicate ValidRun(s: Tx, es: seq<Step>)
    decreases |es|
  {
    es == [] || (Enabled(s, es[0]) && ValidRun(Next(s, es[0]), es[1..]))
  }

  function Final(s: Tx, es: seq<Step>): Tx
    requires ValidRun(s, es)
    decreases |es|
  {
    if es == [] then s else Final(Next(s, es[0]), es[1..])
  }

  function Requested(es: seq<Step>): seq<Byte> {
    if es == [] then [] else (if es[0].Write? then es[0].data else []) + Requested(es[1..])
  }

  // ------------------------------------------- what goes out, what twice, what never

  function Rest(w: Writer): seq<Byte> {
    match w
    case Putting(rest) => rest
    case Waiting(rest) => rest
    case Starting(rest) => rest
    case _ => []
  }

  function Written(e: Step): seq<Byte> { if e.Write? then e.data else [] }

  /** What a step moves into the ring. */
  function Placed(s: Tx, e: Step): seq<Byte>
    requires Enabled(s, e)
  {
    if e.Advance? && s.writer.Putting? then s.writer.rest[..Min(|s.writer.rest|, CAPACITY - |s.ring|)] else []
  }

  /** What a writer gives up because tx_start failed while the ring was full. */
  function Abandoned(s: Tx, e: Step): seq<Byte>
    requires Enabled(s, e)
  {
    if e.Advance? && s.writer.Starting? && Started(s, e.active, e.ok).1 != 0 then s.writer.rest else []
  }

  /** tx_start is called by a writer while bytes are in the air. */
  predicate Collision(s: Tx, e: Step) {
    && e.Advance? && e.active && (s.writer.LastStart? || s.writer.Starting?)
    && s.flight.Some? && s.flight.value != []
  }

  /** The claim of the transfer in the air has been cancelled under it. */
  predicate Rewound(s: Tx) { s.flight.Some? && s.claimed < |s.flight.value| }

  /** How many bytes in the air will go out once more. */
  function Due(s: Tx): nat { if Rewound(s) then |s.flight.value| else 0 }

  /** How many bytes a step condemns to go out twice. */
  function Repeats(s: Tx, e: Step): nat { if Collision(s, e) && !Rewound(s) then |s.flight.value| else 0 }

  function PlacedBy(s: Tx, es: seq<Step>): seq<Byte>
    requires ValidRun(s, es)
    decreases |es|
  {
    if es == [] then [] else Placed(s, es[0]) + PlacedBy(Next(s, es[0]), es[1..])
  }

  function Lost(s: Tx, es: seq<Step>): nat
    requires ValidRun(s, es)
    decreases |es|
  {
    if es == [] then 0 else |Abandoned(s, es[0])| + Lost(Next(s, es[0]), es[1..])
  }

  function Repeated(s: Tx, es: seq<Step>): nat
    requires ValidRun(s, es)
    decreases |es|
  {
    if es == [] then 0 else Repeats(s, es[0]) + Repeated(Next(s, es[0]), es[1..])
  }

  predicate Collides(s: Tx, es: seq<Step>)
    requires ValidRun(s, es)
    decreases |es|
  {
    es != [] && (Collision(s, es[0]) || Collides(Next(s, es[0]), es[1..]))
  }

  predicate Shape(s: Tx) {
    && |s.ring| <= CAPACITY
    && (match s.flight
        case None => s.claimed == 0
        case Some(b) => b <= s.ring && (s.claimed == |b| || s.claimed == 0))
  }

  predicate Drained(s: Tx) { s.writer.Quiet? && s.ring == [] && s.flight == None }

  lemma PutWriter(s: Tx, active: bool, ok: bool)
    requires Shape(s) && s.writer.Putting?
    ensures s.writer.rest == Placed(s, Advance(active, ok)) + Rest(Put(s, s.writer.rest).writer)
  {
    var rest := s.writer.rest;
    var n := Min(|rest|, CAPACITY - |s.ring|);
    assert rest == rest[..n] + rest[n..];
    assert n == 0 ==> rest[..n] == [] && rest[n..] == rest;
  }

  /** The writer's side of a step: what it had and was given is placed, kept or abandoned. */
  lemma StepWriter(s: Tx, e: Step)
    requires Shape(s) && Enabled(s, e)
    ensures var t := Next(s, e);
            && Rest(s.writer) + Written(e) == (Placed(s, e) + Rest(t.writer)) + Abandoned(s, e)
            && (Abandoned(s, e) != [] ==> Rest(t.writer) == [])
  {
    hide Completed, Started, Put;
    NothingAppended(Rest(s.writer));
    NothingAppended(Written(e));
    match e
    case Write(_) =>
    case Done(active, ok) =>
      DoneShape(s, active, ok);
    case Advance(active, ok) =>
      if s.writer.Putting? {
        PutWriter(s, active, ok);
      } else {
        StartedShape(s, active, ok);
      }
  }

  lemma StartedShape(s: Tx, active: bool, ok: bool)
    requires Shape(s)
    ensures var t := Started(s, active, ok).0;
            && Shape(t) && t.ring == s.ring && t.wire == s.wire
            && Due(t) == if active && s.flight.Some? && s.flight.value != [] then |s.flight.value| else Due(s)
  {
  }

  lemma DoneShape(s: Tx, active: bool, ok: bool)
    requires Shape(s) && s.flight.Some?
    ensures var t := Completed(s, active, ok);
            && Shape(t) && Due(t) == 0 && t.writer == s.writer
            && |t.wire| + |t.ring| == |s.wire| + |s.ring| + Due(s)
            && (!Rewound(s) ==> t.wire + t.ring == s.wire + s.ring)
  {
    var b := s.flight.value;
    if !Rewound(s) {
      assert s.ring == b + s.ring[|b|..];
      Associative(s.wire, b, s.ring[|b|..]);
    }
  }

  lemma PutRing(s: Tx, active: bool, ok: bool)
    requires Shape(s) && s.writer.Putting?
    ensures var t := Put(s, s.writer.rest);
            && Shape(t) && t.wire == s.wire && t.ring == s.ring + Placed(s, Advance(active, ok)) && Due(t) == Due(s)
  {
    NothingAppended(s.ring);
    var rest := s.writer.rest;
    var n := Min(|rest|, CAPACITY - |s.ring|);
    assert n == 0 ==> rest[..n] == [];
  }

  lemma StartRing(s: Tx, active: bool, ok: bool)
    requires Shape(s) && Enabled(s, Advance(active, ok)) && (s.writer.Starting? || s.writer.LastStart?)
    ensures var e, t := Advance(active, ok), Advanced(s, active, ok);
            && Shape(t) && t.wire == s.wire && t.ring == s.ring && Due(t) == Due(s) + Repeats(s, e)
  {
    hide Started;
    StartedShape(s, active, ok);
  }

  lemma AdvanceRing(s: Tx, active: bool, ok: bool)
    requires Shape(s) && Enabled(s, Advance(active, ok))
    ensures var e, t := Advance(active, ok), Advanced(s, active, ok);
            && Shape(t) && t.wire == s.wire && t.ring == s.ring + Placed(s, e)
            && Due(t) == Due(s) + Repeats(s, e)
  {
    hide Started, Put;
    NothingAppended(s.ring);
    if s.writer.Putting? {
      hide Shape, Due;
      PutRing(s, active, ok);
    } else if s.writer.Starting? || s.writer.LastStart? {
      hide Advanced, Shape, Due, Repeats;
      StartRing(s, active, ok);
    }
  }

  /** The driver's side of a step: bytes only move from the ring to the wire, but for those condemned to
      go out twice. */
  lemma StepRing(s: Tx, e: Step)
    requires Shape(s) && Enabled(s, e)
    ensures var t := Next(s, e);
            && Shape(t)
            && |t.wire| + |t.ring| + Due(t) == |s.wire| + |s.ring| + Due(s) + |Placed(s, e)| + Repeats(s, e)
            && (!Rewound(s) && !Collision(s, e) ==>
                  !Rewound(t) && t.wire + t.ring == (s.wire + s.ring) + Placed(s, e))
  {
    hide Advanced, Completed;
    NothingAppended(s.wire + s.ring);
    match e
    case Write(_) =>
    case Done(active, ok) =>
      DoneShape(s, active, ok);
    case Advance(active, ok) =>
      hide Shape, Placed;
      AdvanceRing(s, active, ok);
      Associative(s.wire, s.ring, Placed(s, e));
  }

  /** One equation per step chains to one equation per run. */
  lemma ChainWriter(rest: seq<Byte>, w: seq<Byte>, p: seq<Byte>, mid: seq<Byte>,
                    w': seq<Byte>, p': seq<Byte>, end: seq<Byte>)
    requires rest + w == p + mid && mid + w' == p' + end
    ensures rest + (w + w') == (p + p') + end
  {
    assert rest + (w + w') == (rest + w) + w' == p + (mid + w') == (p + p') + end;
  }

  /** Over every run: what was requested is placed in the ring, still with the writer, or abandoned. */
  lemma {:induction false} RunWriter(s: Tx, es: seq<Step>)
    requires Shape(s) && ValidRun(s, es)
    ensures |Rest(s.writer)| + |Requested(es)| == |PlacedBy(s, es)| + |Rest(Final(s, es).writer)| + Lost(s, es)
    ensures Lost(s, es) == 0 ==> Rest(s.writer) + Requested(es) == PlacedBy(s, es) + Rest(Final(s, es).writer)
    decreases |es|
  {
    hide Shape, Next, Placed, Abandoned, Rest, Written;
    NothingAppended(Rest(s.writer));
    if es != [] {
      var t := Next(s, es[0]);
      StepRing(s, es[0]);
      StepWriter(s, es[0]);
      assert Requested(es) == Written(es[0]) + Requested(es[1..]) by { WrittenFirst(es); }
      RunWriter(t, es[1..]);
      if Lost(s, es) == 0 {
        NothingAppended(Placed(s, es[0]) + Rest(t.writer));
        ChainWriter(Rest(s.writer), Written(es[0]), Placed(s, es[0]), Rest(t.writer),
                    Requested(es[1..]), PlacedBy(t, es[1..]), Rest(Final(s, es).writer));
      }
    }
  }

  lemma WrittenFirst(es: seq<Step>)
    requires es != []
    ensures Requested(es) == Written(es[0]) + Requested(es[1..])
  {
  }

  /** Over every run: what was placed in the ring is there or on the wire, in order, exactly once but
      for what collisions repeat. */
  lemma {:induction false} RunRing(s: Tx, es: seq<Step>)
    requires Shape(s) && ValidRun(s, es)
    ensures var t := Final(s, es);
            && Shape(t)
            && |t.wire| + |t.ring| + Due(t) == |s.wire| + |s.ring| + Due(s) + |PlacedBy(s, es)| + Repeated(s, es)
            && (!Collides(s, es) && !Rewound(s) ==> t.wire + t.ring == (s.wire + s.ring) + PlacedBy(s, es))
    ensures !Rewound(s) ==> (Repeated(s, es) > 0 <==> Collides(s, es))
    decreases |es|
  {
    hide Shape, Next, Placed, Enabled;
    if es == [] {
      NothingAppended(s.wire + s.ring);
    } else {
      var t := Next(s, es[0]);
      StepRing(s, es[0]);
      RunRing(t, es[1..]);
      Associative(s.wire + s.ring, Placed(s, es[0]), PlacedBy(t, es[1..]));
    }
  }

  /** Once everything has drained, in any run whatever: the wire carried as many bytes as were requested,
      plus those collisions repeated, less those writers abandoned. Without a collision it carried what
      was placed in the ring, in order. Unless there were both collisions and losses, it carried exactly
      the bytes requested if and only if there was neither; with both, see LossCanHideRepetition. */
  lemma WireAccounting(es: seq<Step>)
    requires ValidRun(START, es) && Drained(Final(START, es))
    ensures var wire, asked := Final(START, es).wire, Requested(es);
            && |wire| == |asked| + Repeated(START, es) - Lost(START, es)
            && (Repeated(START, es) > 0 <==> Collides(START, es))
            && (!Collides(START, es) ==> wire == PlacedBy(START, es))
            && (!Collides(START, es) || Lost(START, es) == 0 ==>
                  (wire == asked <==> !Collides(START, es) && Lost(START, es) == 0))
  {
    hide PlacedBy, Lost, Repeated, Collides, Requested;
    RunWriter(START, es);
    RunRing(START, es);
    var t := Final(START, es);
    NothingAppended(t.wire);
    NothingAppended(PlacedBy(START, es));
    NothingAppended(Requested(es));
    assert START.wire + START.ring == [];
    assert Rest(START.writer) == [] == Rest(t.writer);
  }

  // ------------------------------------------------- writes to an idle transmitter

  /** Every write starts with the ring empty and the transmitter idle, and has at most 256 bytes; the
      device is active and the driver takes what it is given unless busy. */
  predicate WritesWhenIdle(s: Tx, es: seq<Step>)
    requires ValidRun(s, es)
    decreases |es|
  {
    es == [] ||
    (&& (match es[0]
         case Write(data) => s.ring == [] && s.flight == None && |data| <= CAPACITY
         case Advance(active, ok) => active && ok
         case Done(active, ok) => active && ok)
     && WritesWhenIdle(Next(s, es[0]), es[1..]))
  }

  predicate WriterAlone(s: Tx) {
    && Shape(s) && !Rewound(s)
    && |s.ring| + |Rest(s.writer)| <= CAPACITY && !s.writer.Waiting? && !s.writer.Starting?
    && (!s.writer.Quiet? ==> s.flight == None && (s.sem || s.writer.LastStart?))
    && (s.writer.Quiet? && s.flight == None ==> s.sem && s.ring == [])
  }

  lemma {:induction false} IdleWritesNeverCollide(s: Tx, es: seq<Step>)
    requires WriterAlone(s) && ValidRun(s, es) && WritesWhenIdle(s, es)
    ensures !Collides(s, es) && Lost(s, es) == 0 && WriterAlone(Final(s, es))
    decreases |es|
  {
    if es != [] {
      IdleStep(s, es[0]);
      IdleWritesNeverCollide(Next(s, es[0]), es[1..]);
    }
  }

  lemma IdleStep(s: Tx, e: Step)
    requires WriterAlone(s) && Enabled(s, e)
    requires match e
             case Write(data) => s.ring == [] && s.flight == None && |data| <= CAPACITY
             case Advance(active, ok) => active && ok
             case Done(active, ok) => active && ok
    ensures WriterAlone(Next(s, e)) && !Collision(s, e) && Abandoned(s, e) == []
  {
  }

  /** So then the wire is exact whenever the transmitter is idle again, including across a wrap of the
      ring, where one write goes out as two chained transfers. */
  lemma IdleWritesAreExact(es: seq<Step>)
    requires ValidRun(START, es) && WritesWhenIdle(START, es)
    ensures var t := Final(START, es); t.writer.Quiet? && t.flight == None ==> Drained(t) && t.wire == Requested(es)
  {
    IdleWritesNeverCollide(START, es);
    if Drained(Final(START, es)) {
      WireAccounting(es);
    }
  }

  // ---------------------------------------------------- one call of uart_tx_write

  /** The driver gives the same answers throughout. */
  predicate Answered(es: seq<Step>, active: bool, ok: bool) {
    forall e :: e in es ==> e.Write? || (e.active == active && e.ok == ok)
  }

  /** Some run, with these answers of the driver, leads from s to t, asks for exactly these bytes to be
      sent, and loses so many of them. */
  ghost predicate Leads(s: Tx, t: Tx, data: seq<Byte>, lost: nat, active: bool, ok: bool) {
    exists es :: ValidRun(s, es) && Answered(es, active, ok) && Final(s, es) == t
                 && Requested(es) == data && Lost(s, es) == lost
  }

  lemma Nowhere(s: Tx, active: bool, ok: bool)
    ensures Leads(s, s, [], 0, active, ok)
  {
    assert ValidRun(s, []) && Answered([], active, ok) && Final(s, []) == s && Requested([]) == [] && Lost(s, []) == 0;
  }

  /** A run, with one more step in front. */
  lemma Prepend(s: Tx, e: Step, t: Tx, data: seq<Byte>, lost: nat, active: bool, ok: bool)
    requires Enabled(s, e) && (e.Write? || (e.active == active && e.ok == ok))
    requires Leads(Next(s, e), t, data, lost, active, ok)
    ensures Leads(s, t, Written(e) + data, |Abandoned(s, e)| + lost, active, ok)
  {
    hide Next, Enabled, Abandoned;
    var u := Next(s, e);
    var es :| ValidRun(u, es) && Answered(es, active, ok) && Final(u, es) == t && Requested(es) == data && Lost(u, es) == lost;
    var fs := [e] + es;
    assert fs[0] == e && fs[1..] == es;
    assert ValidRun(s, fs) && Final(s, fs) == t && Lost(s, fs) == |Abandoned(s, e)| + lost;
    WrittenFirst(fs);
    assert Answered(fs, active, ok);
  }

  /** The same for a step of the writer already at work or of the driver. */
  lemma First(s: Tx, e: Step, t: Tx, data: seq<Byte>, lost: nat, active: bool, ok: bool)
    requires Enabled(s, e) && !e.Write? && e.active == active && e.ok == ok
    requires Leads(Next(s, e), t, data, lost, active, ok)
    ensures Leads(s, t, data, |Abandoned(s, e)| + lost, active, ok)
  {
    hide Leads, Enabled, Next, Abandoned;
    Prepend(s, e, t, data, lost, active, ok);
    NothingAppended(data);
  }

  lemma {:induction false} RunConcat(s: Tx, es: seq<Step>, fs: seq<Step>)
    requires ValidRun(s, es) && ValidRun(Final(s, es), fs)
    ensures ValidRun(s, es + fs) && Final(s, es + fs) == Final(Final(s, es), fs)
    ensures Requested(es + fs) == Requested(es) + Requested(fs)
    ensures Lost(s, es + fs) == Lost(s, es) + Lost(Final(s, es), fs)
    decreases |es|
  {
    hide Next, Enabled, Abandoned;
    if es == [] {
      assert es + fs == fs;
    } else {
      assert (es + fs)[0] == es[0] && (es + fs)[1..] == es[1..] + fs;
      RunConcat(Next(s, es[0]), es[1..], fs);
      WrittenFirst(es);
      WrittenFirst(es + fs);
      Associative(Written(es[0]), Requested(es[1..]), Requested(fs));
    }
  }

  lemma Then(s: Tx, t: Tx, u: Tx, b: seq<Byte>, c: seq<Byte>, lost: nat, lost': nat, active: bool, ok: bool)
    requires Leads(s, t, b, lost, active, ok) && Leads(t, u, c, lost', active, ok)
    ensures Leads(s, u, b + c, lost + lost', active, ok)
  {
    var es :| ValidRun(s, es) && Answered(es, active, ok) && Final(s, es) == t && Requested(es) == b && Lost(s, es) == lost;
    var fs :| ValidRun(t, fs) && Answered(fs, active, ok) && Final(t, fs) == u && Requested(fs) == c && Lost(t, fs) == lost';
    RunConcat(s, es, fs);
    assert Answered(es + fs, active, ok);
  }

  /** The state after a call, its return code, and how many bytes it gave up. */
  datatype Outcome = Outcome(tx: Tx, code: int, lost: nat)

  /** What holds between two operations of the writer outside tx_start. */
  predicate Ready(s: Tx) { Shape(s) && (s.sem || s.flight.Some?) }

  /** Ring full: the semaphore is taken, after the transfer in the air if need be, and tx_start called. */
  function Unblocked(s: Tx, active: bool, ok: bool): (Tx, int)
    requires Ready(s)
  {
    Started((if s.sem then s else Completed(s, active, ok)).(sem := false), active, ok)
  }

  /** A writer let through holds the semaphore, and either held it before or finds the ring emptied. */
  lemma LetThrough(s: Tx, active: bool, ok: bool)
    requires Ready(s) && |s.ring| == CAPACITY && Unblocked(s, active, ok).1 == 0
    ensures var t := Unblocked(s, active, ok).0;
            Ready(t) && t.writer == s.writer && !t.sem && (s.sem || |t.ring| < CAPACITY)
  {
  }

  /** Everything put: tx_start, if the semaphore is free. */
  function Tried(s: Tx, active: bool, ok: bool): Outcome
    requires Ready(s)
  {
    if !s.sem then Outcome(s, 0, 0)
    else
      var (t, code) := Started(s.(sem := false), active, ok);
      if code == 0 then Outcome(t, 0, 0) else Outcome(t.(sem := true), if code == 1 then 0 else code, 0)
  }

  /** uart_tx_write from some point of its loop on, when a writer that blocks is woken by the transfer in
      the air and runs on at once. */
  function WriteFrom(s: Tx, rest: seq<Byte>, active: bool, ok: bool): (r: Outcome)
    requires Ready(s)
    ensures Ready(r.tx) && r.tx.writer == s.writer
    decreases |rest|, if |s.ring| < CAPACITY then 0 else if s.sem then 2 else 1
  {
    var n := Min(|rest|, CAPACITY - |s.ring|);
    if rest == [] then Tried(s, active, ok)
    else if n > 0 then WriteFrom(s.(ring := s.ring + rest[..n]), rest[n..], active, ok)
    else
      var (t, code) := Unblocked(s, active, ok);
      if code == 0 then LetThrough(s, active, ok); WriteFrom(t, rest, active, ok) else Outcome(t.(sem := true), code, |rest|)
  }

  lemma TriedIsARun(s: Tx, active: bool, ok: bool)
    requires Ready(s) && s.writer.Quiet?
    ensures Leads(s.(writer := Putting([])), Tried(s, active, ok).tx, [], 0, active, ok) && Tried(s, active, ok).lost == 0
  {
    hide Leads, Started;
    var go, t := Advance(active, ok), Tried(s, active, ok).tx;
    var trying := s.(writer := Trying);
    StartedIgnoresWriter(s.(sem := false), LastStart, active, ok);
    Nowhere(t, active, ok);
    if s.sem {
      First(s.(sem := false, writer := LastStart), go, t, [], 0, active, ok);
    }
    First(trying, go, t, [], 0, active, ok);
    First(s.(writer := Putting([])), go, t, [], 0, active, ok);
  }

  lemma StartedIgnoresWriter(s: Tx, w: Writer, active: bool, ok: bool)
    requires s.claimed <= |s.ring|
    ensures var (t, code) := Started(s, active, ok);
            Started(s.(writer := w), active, ok) == (t.(writer := w), code) && t.writer == s.writer
  {
  }

  lemma UnblockedIsARun(s: Tx, rest: seq<Byte>, active: bool, ok: bool)
    requires Ready(s) && s.writer.Quiet? && rest != [] && |s.ring| == CAPACITY
    ensures var (t, code) := Unblocked(s, active, ok);
            if code == 0 then Leads(s.(writer := Putting(rest)), t.(writer := Putting(rest)), [], 0, active, ok)
            else Leads(s.(writer := Putting(rest)), t.(sem := true), [], |rest|, active, ok)
  {
    hide Leads, Started, Run;
    var (t, code) := Unblocked(s, active, ok);
    var go, done := Advance(active, ok), Done(active, ok);
    var u, lost := if code == 0 then t.(writer := Putting(rest)) else t.(sem := true), if code == 0 then 0 else |rest|;
    var c := if s.sem then s else Completed(s, active, ok);
    if !s.sem {
      DoneShape(s, active, ok);
      CompletedIgnoresWriter(s, Waiting(rest), active, ok);
    }
    StartedIgnoresWriter(c.(sem := false), Starting(rest), active, ok);
    Nowhere(u, active, ok);
    First(c.(sem := false, writer := Starting(rest)), go, u, [], 0, active, ok);
    First(c.(writer := Waiting(rest)), go, u, [], lost, active, ok);
    if !s.sem {
      First(s.(writer := Waiting(rest)), done, u, [], lost, active, ok);
    }
    First(s.(writer := Putting(rest)), go, u, [], lost, active, ok);
  }

  lemma CompletedIgnoresWriter(s: Tx, w: Writer, active: bool, ok: bool)
    requires Enabled(s, Done(active, ok))
    ensures Completed(s.(writer := w), active, ok) == Completed(s, active, ok).(writer := w)
  {
  }

  /** A call of uart_tx_write is a run of the machine, with the driver giving the same answers throughout
      and just so many bytes lost. */
  lemma {:induction false} WriteIsARun(s: Tx, rest: seq<Byte>, active: bool, ok: bool)
    requires Ready(s) && s.writer.Quiet?
    ensures var r := WriteFrom(s, rest, active, ok);
            Leads(s.(writer := Putting(rest)), r.tx, [], r.lost, active, ok)
    decreases |rest|, if |s.ring| < CAPACITY then 0 else if s.sem then 2 else 1
  {
    hide Leads, Started, Completed, Tried, Unblocked;
    var n := Min(|rest|, CAPACITY - |s.ring|);
    var r, p := WriteFrom(s, rest, active, ok), s.(writer := Putting(rest));
    if rest == [] {
      TriedIsARun(s, active, ok);
    } else if n > 0 {
      WriteIsARun(s.(ring := s.ring + rest[..n]), rest[n..], active, ok);
      First(p, Advance(active, ok), r.tx, [], r.lost, active, ok);
    } else {
      UnblockedIsARun(s, rest, active, ok);
      var (t, code) := Unblocked(s, active, ok);
      if code == 0 {
        LetThrough(s, active, ok);
        WriteIsARun(t, rest, active, ok);
        Then(p, t.(writer := Putting(rest)), r.tx, [], [], 0, r.lost, active, ok);
        NothingAppended<Byte>([]);
      }
    }
  }

  lemma WriteLeads(s: Tx, data: seq<Byte>, active: bool, ok: bool)
    requires Ready(s) && s.writer.Quiet?
    ensures var r := WriteFrom(s, data, active, ok); Leads(s, r.tx, data, r.lost, active, ok)
  {
    hide Leads, WriteFrom;
    var r := WriteFrom(s, data, active, ok);
    WriteIsARun(s, data, active, ok);
    Prepend(s, Step.Write(data), r.tx, [], r.lost, active, ok);
    NothingAppended(data);
  }

  /** The return code. It is not 0 whenever bytes were given up; 1 says that this is because the device is
      inactive, and then they are exactly those that found no room; what fits is never given up. For data
      that fits, -1 says that the driver refused: it was busy, or did so while idle. */
  lemma {:induction false} WriteCodes(s: Tx, rest: seq<Byte>, active: bool, ok: bool)
    requires Ready(s)
    ensures var r, room := WriteFrom(s, rest, active, ok), CAPACITY - |s.ring|;
            && r.code in {0, 1, -1} && r.lost <= |rest|
            && (r.lost > 0 ==> r.code != 0)
            && (r.code == 1 ==> !active && r.lost > 0)
            && (r.code == -1 ==> active)
            && (|rest| <= room ==> r.lost == 0)
            && (|rest| <= room ==> (r.code == -1 <==> s.sem && active && (s.flight.Some? || !ok)))
            && (!active && |rest| > room ==> r.code == 1 && r.lost == |rest| - room)
    decreases |rest|, if |s.ring| < CAPACITY then 0 else if s.sem then 2 else 1
  {
    hide Completed;
    var n := Min(|rest|, CAPACITY - |s.ring|);
    if rest == [] {
    } else if n > 0 {
      WriteCodes(s.(ring := s.ring + rest[..n]), rest[n..], active, ok);
    } else if Unblocked(s, active, ok).1 == 0 {
      LetThrough(s, active, ok);
      WriteCodes(Unblocked(s, active, ok).0, rest, active, ok);
    }
  }

  // ------------------------------------------- a write of any length when idle

  predicate Idle(s: Tx) { s.writer.Quiet? && s.ring == [] && s.flight == None && s.claimed == 0 && s.sem }

  /** The part of n bytes, put into an empty ring, that lies before the wrap. */
  function BeforeWrap(s: Tx, n: nat): nat { Min(n, 256 - s.tail % 256) }

  lemma ShortWrite(s: Tx, data: seq<Byte>)
    requires Idle(s) && 0 < |data| <= CAPACITY
    ensures var k := BeforeWrap(s, |data|);
            WriteFrom(s, data, true, true) ==
            Outcome(s.(ring := data, claimed := k, flight := Some(data[..k]), sem := false), 0, 0)
  {
    var t := s.(ring := data);
    assert s.ring + data[..|data|] == data && data[|data|..] == [];
    assert WriteFrom(s, data, true, true) == WriteFrom(t, [], true, true);
    var k := BeforeWrap(s, |data|);
    assert t.ring[0..k] == data[..k];
  }

  /** A write that finds no room: the first 256 bytes are in the ring and the part before the wrap is
      under way when the writer has to wait. */
  lemma FirstBlock(s: Tx, data: seq<Byte>)
    requires Idle(s) && |data| > CAPACITY
    ensures WriteFrom(s, data, true, true) == WriteFrom(Loaded(s, data[..256]), data[256..], true, true)
  {
    hide Started;
    var u, rest := s.(ring := data[..256]), data[256..];
    assert s.ring + data[..256] == data[..256];
    assert WriteFrom(s, data, true, true) == WriteFrom(u, rest, true, true);
    LoadedRing(s, data[..256]);
    assert Unblocked(u, true, true) == (Loaded(s, data[..256]), 0);
  }

  /** A full ring with its first run in the air and the semaphore taken. */
  function Loaded(s: Tx, front: seq<Byte>): Tx
    requires |front| == CAPACITY
  {
    s.(ring := front, claimed := BeforeWrap(s, 256), flight := Some(front[..BeforeWrap(s, 256)]), sem := false)
  }

  lemma LoadedRing(s: Tx, front: seq<Byte>)
    requires Idle(s) && |front| == CAPACITY
    ensures Started(s.(ring := front, sem := false), true, true) == (Loaded(s, front), 0)
  {
    assert front[0..BeforeWrap(s, 256)] == front[..BeforeWrap(s, 256)];
  }

  /** If that part is not all of it, TX_DONE chains the rest, and the writer it wakes finds the driver busy. */
  lemma WokenUnderChain(s: Tx, rest: seq<Byte>)
    requires s.writer.Quiet? && !s.sem && |s.ring| == CAPACITY && rest != []
    requires s.flight.Some? && s.flight.value <= s.ring && |s.flight.value| == s.claimed < CAPACITY
    requires (s.tail + s.claimed) % 256 == 0
    ensures var left := s.ring[s.claimed..];
            WriteFrom(s, rest, true, true) ==
            Outcome(Tx(left, s.tail + s.claimed, 0, Some(left), true, Quiet, s.wire + s.flight.value), -1, |rest|)
  {
    var left := s.ring[s.claimed..];
    assert left[0..|left|] == left;
    assert s.ring + rest[..0] == s.ring;
    var c := Completed(s, true, true);
    assert c == Tx(left, s.tail + s.claimed, |left|, Some(left), true, Quiet, s.wire + s.flight.value);
    assert Unblocked(s, true, true) == (c.(sem := false, claimed := 0), -1);
  }

  /** If it is, TX_DONE empties the ring and the writer goes on, with an empty transfer in the air. */
  lemma WokenWhenEmpty(s: Tx, rest: seq<Byte>)
    requires s.writer.Quiet? && !s.sem && |s.ring| == CAPACITY && rest != []
    requires s.flight == Some(s.ring) && s.claimed == CAPACITY
    ensures WriteFrom(s, rest, true, true) ==
            WriteFrom(Tx([], s.tail + 256, 0, Some([]), false, Quiet, s.wire + s.ring), rest, true, true)
  {
    var c := Completed(s, true, true);
    assert c == Tx([], s.tail + 256, 0, None, true, Quiet, s.wire + s.ring);
    assert Unblocked(s, true, true) == (c.(sem := false, flight := Some([])), 0);
  }

  lemma SecondBlock(s: Tx, rest: seq<Byte>)
    requires s.writer.Quiet? && !s.sem && s.ring == [] && s.flight == Some([]) && s.claimed == 0
    requires s.tail % 256 == 0 && rest != []
    ensures WriteFrom(s, rest, true, true) ==
            if |rest| <= 256 then Outcome(s.(ring := rest), 0, 0)
            else Outcome(s.(ring := rest[..256], flight := Some(rest[..256]), sem := true), -1, |rest| - 256)
  {
    var n := Min(|rest|, 256);
    var t, left := s.(ring := rest[..n]), rest[n..];
    assert s.ring + rest[..n] == rest[..n];
    assert WriteFrom(s, rest, true, true) == WriteFrom(t, left, true, true);
    if |rest| > 256 {
      assert t.ring[0..256] == t.ring;
      assert s.wire + [] == s.wire;
      var c := Completed(t, true, true);
      assert c == t.(claimed := 256, flight := Some(t.ring), sem := true);
      assert Unblocked(t, true, true) == (c.(sem := false, claimed := 0), -1);
    } else {
      assert rest[..n] == rest;
    }
  }

  /** A call that put the first kept bytes in the ring, gave up the rest, and left so many bytes to go out
      once more. */
  predicate Puts(s: Tx, data: seq<Byte>, r: Outcome, kept: nat, due: nat) {
    && kept <= |data| && r.lost == |data| - kept && (r.code == 0 <==> kept == |data|)
    && r.tx.wire + r.tx.ring == s.wire + data[..kept]
    && Due(r.tx) == due
  }

  lemma ShortWritePuts(s: Tx, data: seq<Byte>)
    requires Idle(s) && 0 < |data| <= CAPACITY
    ensures Puts(s, data, WriteFrom(s, data, true, true), |data|, 0)
  {
    hide WriteFrom;
    ShortWrite(s, data);
    assert data[..|data|] == data;
  }

  lemma WrappedLongWrite(s: Tx, data: seq<Byte>)
    requires Idle(s) && |data| > CAPACITY && s.tail % 256 != 0
    ensures var k := BeforeWrap(s, 256);
            var left := data[..256][k..];
            WriteFrom(s, data, true, true) ==
            Outcome(Tx(left, s.tail + k, 0, Some(left), true, Quiet, s.wire + data[..256][..k]), -1, |data| - 256)
  {
    hide WriteFrom;
    FirstBlock(s, data);
    WokenUnderChain(Loaded(s, data[..256]), data[256..]);
  }

  lemma WrappedWritePuts(s: Tx, data: seq<Byte>)
    requires Idle(s) && |data| > CAPACITY && s.tail % 256 != 0
    ensures Puts(s, data, WriteFrom(s, data, true, true), 256, s.tail % 256)
  {
    hide WriteFrom;
    var front, k := data[..256], BeforeWrap(s, 256);
    WrappedLongWrite(s, data);
    assert front[..k] + front[k..] == front;
    Associative(s.wire, front[..k], front[k..]);
  }

  lemma AlignedWrite(s: Tx, data: seq<Byte>)
    requires Idle(s) && |data| > CAPACITY && s.tail % 256 == 0
    ensures WriteFrom(s, data, true, true) ==
            WriteFrom(Tx([], s.tail + 256, 0, Some([]), false, Quiet, s.wire + data[..256]), data[256..], true, true)
  {
    hide WriteFrom;
    var front := data[..256];
    FirstBlock(s, data);
    assert front[..256] == front;
    WokenWhenEmpty(Loaded(s, front), data[256..]);
  }

  lemma AlignedWritePuts(s: Tx, data: seq<Byte>)
    requires Idle(s) && |data| > CAPACITY && s.tail % 256 == 0
    ensures Puts(s, data, WriteFrom(s, data, true, true), Min(|data|, 512), if |data| <= 512 then 0 else 256)
  {
    hide WriteFrom;
    var front, rest := data[..256], data[256..];
    AlignedWrite(s, data);
    SecondBlock(Tx([], s.tail + 256, 0, Some([]), false, Quiet, s.wire + front), rest);
    var m := Min(|rest|, 256);
    Associative(s.wire, front, rest[..m]);
    assert front + rest[..m] == data[..256 + m];
    assert |rest| <= 256 ==> rest[..m] == rest;
  }

  /** A write to an idle transmitter succeeds exactly when it has at most 256 bytes, or at most 512 and
      the ring stands at its start. Then its bytes follow what went out before. Otherwise the rest of it
      is lost, behind the first 256 or 512 bytes, and the transfer in the air will go out twice. */
  lemma WriteToIdle(s: Tx, data: seq<Byte>)
    requires Idle(s) && data != []
    ensures var r, aligned := WriteFrom(s, data, true, true), s.tail % 256 == 0;
            var whole := |data| <= 256 || (aligned && |data| <= 512);
            && (r.code == 0 <==> whole)
            && (if whole then Puts(s, data, r, |data|, 0)
                else if aligned then Puts(s, data, r, 512, 256)
                else Puts(s, data, r, 256, s.tail % 256))
  {
    hide WriteFrom;
    if |data| <= CAPACITY {
      ShortWritePuts(s, data);
    } else if s.tail % 256 == 0 {
      AlignedWritePuts(s, data);
    } else {
      WrappedWritePuts(s, data);
    }
  }

  // --------------------------------------------------- the echo, uart_send_data

  const UART_SLIP_MTU := 512

  /** A frame stays inside uart_send_data's buffer exactly when the bytes, one more for each special byte
      and the END do; only up to 255 bytes does it do so whatever they are. */
  lemma EchoFits(p: seq<Byte>, n: nat)
    ensures |Slip.Encode(p)| <= UART_SLIP_MTU <==> |p| + Slip.Specials(p) + 1 <= UART_SLIP_MTU
    ensures (forall q: seq<Byte> :: |q| == n ==> |Slip.Encode(q)| <= UART_SLIP_MTU) <==> n <= 255
  {
    hide Slip.Encode;
    Slip.FrameShape(p);
    if n <= 255 {
      forall q: seq<Byte> | |q| == n ensures |Slip.Encode(q)| <= UART_SLIP_MTU {
        Slip.FrameShape(q);
      }
    } else {
      var worst: seq<Byte> := seq(n, _ => Slip.END);
      AllSpecial(worst);
      Slip.FrameShape(worst);
      assert |worst| == n && |Slip.Encode(worst)| == 2 * n + 1;
    }
  }

  lemma {:induction false} AllSpecial(p: seq<Byte>)
    requires forall k :: 0 <= k < |p| ==> p[k] == Slip.END
    ensures Slip.Specials(p) == |p|
  {
    if p != [] {
      AllSpecial(p[1..]);
    }
  }

  // --------------------------------------------- the write that repeats a transfer

  /** TX_DONE of the first part of a wrapped write chains the second and gives the semaphore. */
  lemma ChainedDone(s: Tx, first: seq<Byte>, second: seq<Byte>)
    requires s.ring == first + second && s.flight == Some(first) && s.claimed == |first|
    requires (s.tail + |first|) % 256 == 0 && second != [] && |first| + |second| <= CAPACITY
    ensures Completed(s, true, true) ==
            Tx(second, s.tail + |first|, |second|, Some(second), true, s.writer, s.wire + first)
  {
    assert s.ring[|first|..] == second && second[0..|second|] == second;
  }

  /** A write under a chained transfer takes the semaphore, calls tx_start and rewinds the claim. */
  lemma WriteUnderChain(s: Tx, d: seq<Byte>)
    requires Shape(s) && s.sem && s.flight == Some(s.ring) && s.claimed == |s.ring|
    requires d != [] && |s.ring| + |d| <= CAPACITY
    ensures WriteFrom(s, d, true, true) == Outcome(s.(ring := s.ring + d, claimed := 0), -1, 0)
  {
    assert d[..|d|] == d && d[|d|..] == [];
    var t := s.(ring := s.ring + d);
    assert WriteFrom(s, d, true, true) == WriteFrom(t, [], true, true);
    assert Started(t.(sem := false), true, true) == (t.(sem := false, claimed := 0), -1);
  }

  /** A rewound transfer completes without releasing anything, and the whole ring goes out after it. */
  lemma RewoundDone(s: Tx)
    requires Shape(s) && s.writer.Quiet? && s.sem && s.flight.Some? && s.flight.value != [] && s.claimed == 0
    requires s.ring != [] && s.tail % 256 == 0
    ensures var t := s.(ring := [], tail := s.tail + |s.ring|, flight := None, wire := (s.wire + s.flight.value) + s.ring);
            Leads(s, t, [], 0, true, true)
  {
    hide Leads;
    var done := Done(true, true);
    var s1 := s.(claimed := |s.ring|, flight := Some(s.ring), wire := s.wire + s.flight.value);
    var t := s.(ring := [], tail := s.tail + |s.ring|, flight := None, wire := (s.wire + s.flight.value) + s.ring);
    assert s.ring[0..|s.ring|] == s.ring;
    assert Next(s, done) == s1;
    assert s.ring[|s.ring|..] == [];
    Nowhere(t, true, true);
    First(s1, done, t, [], 0, true, true);
    First(s, done, t, [], 0, true, true);
  }

  /** So a write that arrives while the second part of a wrapped write is in the air makes that part go
      out twice. */
  lemma WriteDuringChainRepeats(s: Tx, first: seq<Byte>, second: seq<Byte>, d: seq<Byte>)
    requires s.writer.Quiet? && s.ring == first + second && s.flight == Some(first) && s.claimed == |first|
    requires (s.tail + |first|) % 256 == 0 && second != [] && d != [] && |first| + |second| + |d| <= CAPACITY
    ensures var t := Tx([], s.tail + |first| + |second + d|, 0, None, true, Quiet, ((s.wire + first) + second) + (second + d));
            Leads(s, t, d, 0, true, true)
  {
    hide Completed, Leads, WriteFrom;
    var s1 := Tx(second, s.tail + |first|, |second|, Some(second), true, Quiet, s.wire + first);
    var s2 := s1.(ring := second + d, claimed := 0);
    var t := Tx([], s.tail + |first| + |second + d|, 0, None, true, Quiet, ((s.wire + first) + second) + (second + d));
    ChainedDone(s, first, second);
    WriteUnderChain(s1, d);
    WriteLeads(s1, d, true, true);
    RewoundDone(s2);
    Then(s1, s2, t, d, [], 0, 0, true, true);
    NothingAppended(d);
    First(s, Done(true, true), t, d, 0, true, true);
  }

  lemma IdleWriteDrains(s: Tx, data: seq<Byte>)
    requires Idle(s) && data != [] && s.tail + |data| <= 256
    ensures Leads(s, s.(tail := s.tail + |data|, wire := s.wire + data), data, 0, true, true)
  {
    hide Leads, WriteFrom;
    var t, u := WriteFrom(s, data, true, true).tx, s.(tail := s.tail + |data|, wire := s.wire + data);
    ShortWrite(s, data);
    assert data[..|data|] == data && data[|data|..] == [];
    assert Next(t, Done(true, true)) == u;
    WriteLeads(s, data, true, true);
    Nowhere(u, true, true);
    First(t, Done(true, true), u, [], 0, true, true);
    Then(s, t, u, data, [], 0, 0, true, true);
    NothingAppended(data);
  }

  /** The failing side is real: from power-on, with a driver that accepts everything, 200 bytes, then 100
      that wrap, then one more during the chained transfer - nothing is lost and 44 bytes go out twice. */
  lemma CollisionHappens()
    ensures exists es :: ValidRun(START, es) && Answered(es, true, true) && Drained(Final(START, es))
                         && Collides(START, es) && Lost(START, es) == 0 && |Final(START, es).wire| == |Requested(es)| + 44
  {
    hide Leads, WriteFrom;
    var a, b, d := Zeros(200), Zeros(100), Zeros(1);
    var s1 := START.(tail := 200, wire := [] + a);
    IdleWriteDrains(START, a);
    var s2 := s1.(ring := b, claimed := 56, flight := Some(b[..56]), sem := false);
    ShortWrite(s1, b);
    WriteLeads(s1, b, true, true);
    Then(START, s1, s2, a, b, 0, 0, true, true);
    assert b == b[..56] + b[56..];
    WriteDuringChainRepeats(s2, b[..56], b[56..], d);
    var t := Tx([], 256 + |b[56..] + d|, 0, None, true, Quiet, ((s1.wire + b[..56]) + b[56..]) + (b[56..] + d));
    Then(START, s2, t, a + b, d, 0, 0, true, true);
    CollisionFromLength(t, (a + b) + d);
  }

  lemma CollisionFromLength(t: Tx, data: seq<Byte>)
    requires Leads(START, t, data, 0, true, true) && Drained(t) && |t.wire| == |data| + 44
    ensures exists es :: ValidRun(START, es) && Answered(es, true, true) && Drained(Final(START, es))
                         && Collides(START, es) && Lost(START, es) == 0 && |Final(START, es).wire| == |Requested(es)| + 44
  {
    var es :| ValidRun(START, es) && Answered(es, true, true) && Final(START, es) == t
              && Requested(es) == data && Lost(START, es) == 0;
    WireAccounting(es);
  }

  /** With both a loss and a repetition the content can decide: 258 zeros, of which one was lost and another
      went out twice. So no condition on the run alone tells whether the wire is exact in that case. */
  lemma LossCanHideRepetition()
    ensures exists es :: ValidRun(START, es) && Drained(Final(START, es)) && Collides(START, es)
                         && Lost(START, es) == 1 && Final(START, es).wire == Requested(es)
  {
    hide Leads, WriteFrom;
    var a, data := Zeros(1), Zeros(257);
    var s1 := START.(tail := 1, wire := [] + a);
    IdleWriteDrains(START, a);
    var left := data[..256][255..];
    var s2 := Tx(left, 256, 0, Some(left), true, Quiet, s1.wire + data[..256][..255]);
    WrappedLongWrite(s1, data);
    WriteLeads(s1, data, true, true);
    Then(START, s1, s2, a, data, 0, 1, true, true);
    RewoundDone(s2);
    var t := s2.(ring := [], tail := 257, flight := None, wire := (s2.wire + left) + left);
    Then(START, s2, t, a + data, [], 1, 0, true, true);
    NothingAppended(a + data);
    assert t.wire == a + data by {
      assert |t.wire| == 258 && forall k :: 0 <= k < 258 ==> t.wire[k] == 0;
    }
    HiddenRepetition(t, a + data);
  }

  lemma HiddenRepetition(t: Tx, data: seq<Byte>)
    requires Leads(START, t, data, 1, true, true) && Drained(t) && t.wire == data
    ensures exists es :: ValidRun(START, es) && Drained(Final(START, es)) && Collides(START, es)
                         && Lost(START, es) == 1 && Final(START, es).wire == Requested(es)
  {
    var es :| ValidRun(START, es) && Answered(es, true, true) && Final(START, es) == t
              && Requested(es) == data && Lost(START, es) == 1;
    WireAccounting(es);
  }

  // ------------------------------------------------------------- the C functions

  /** The ring, the semaphore, the driver's current transfer and uart_send_data's static buffer; as a ghost
      what has gone out. */
  class Transmitter {
    var ring: seq<Byte>
    var tail: nat
    var claimed: nat
    var sem: bool
    var flight: Option<seq<Byte>>
    const sendBuffer: array<Byte>
    ghost var wire: seq<Byte>

    ghost function View(): Tx
      reads this
    {
      Tx(ring, tail, claimed, flight, sem, Quiet, wire)
    }

    /** What holds outside tx_start. */
    ghost predicate Valid()
      reads this
    {
      Ready(View()) && sendBuffer.Length == UART_SLIP_MTU
    }

    constructor ()
      ensures Valid() && View() == START && fresh(sendBuffer)
    {
      ring, tail, claimed, sem := [], 0, 0, true;
      flight, wire := None, [];
      sendBuffer := new Byte[512](_ => 0);
    }

    /** tx_start */
    method TxStart(active: bool, ok: bool) returns (code: int)
      requires claimed <= |ring|
      modifies this`claimed, this`flight
      ensures (View(), code) == Started(old(View()), active, ok)
    {
      if !active {
        return 1;
      }
      var run := Min(|ring| - claimed, 256 - (tail + claimed) % 256);
      var bytes := ring[claimed..claimed + run];
      claimed := claimed + run;
      if flight.Some? || !ok {
        claimed := 0;
        return -1;
      }
      flight := Some(bytes);
      return 0;
    }

    /** The UART_TX_DONE case of uart_callback. */
    method OnTxDone(active: bool, ok: bool)
      requires Valid() && flight.Some?
      modifies this`ring, this`tail, this`claimed, this`flight, this`sem, this`wire
      ensures Valid() && View() == Completed(old(View()), active, ok)
    {
      hide Started;
      ghost var s := View();
      DoneShape(s, active, ok);
      var len := |flight.value|;
      wire := wire + flight.value;
      flight := None;
      if len <= claimed {
        ring := ring[len..];
        tail := tail + len;
        claimed := 0;
      }
      if claimed < |ring| {
        var _ := TxStart(active, ok);
      }
      sem := true;
    }

    /** uart_tx_write. Where it would block on the semaphore, the one thing that can wake it happens:
        the transfer in the air completes. active and ok hold for the length of the call. */
    method UartTxWrite(data: seq<Byte>, active: bool, ok: bool) returns (code: int)
      requires Valid()
      modifies this
      ensures Valid()
      ensures var r := WriteFrom(old(View()), data, active, ok); View() == r.tx && code == r.code
    {
      hide Unblocked, Tried;
      ghost var r := WriteFrom(View(), data, active, ok);
      var sent := 0;
      while sent < |data|
        invariant 0 <= sent <= |data| && Valid()
        invariant var t := WriteFrom(View(), data[sent..], active, ok); t.tx == r.tx && t.code == r.code
        decreases |data| - sent, if |ring| < CAPACITY then 0 else if sem then 2 else 1
      {
        var n := Min(|data| - sent, CAPACITY - |ring|);
        if n > 0 {
          ring := ring + data[sent..sent + n];
          assert data[sent..][..n] == data[sent..sent + n] && data[sent..][n..] == data[sent + n..];
          sent := sent + n;
        } else {
          code := BlockAndStart(active, ok);
          if code != 0 {
            sem := true;
            return code;
          }
        }
      }
      assert data[sent..] == [];
      code := TryStart(active, ok);
    }

    /** Ring full: take the semaphore, waiting for it if need be, and start the transmitter. */
    method BlockAndStart(active: bool, ok: bool) returns (code: int)
      requires Valid() && |ring| == CAPACITY
      modifies this
      ensures (View(), code) == Unblocked(old(View()), active, ok)
      ensures Shape(View()) && (code == 0 ==> Valid() && !sem && (old(sem) || |ring| < CAPACITY))
    {
      hide Completed, Started;
      ghost var s := View();
      if Unblocked(s, active, ok).1 == 0 {
        LetThrough(s, active, ok);
      }
      if !sem {
        OnTxDone(active, ok);
      }
      sem := false;
      StartedShape(View(), active, ok);
      code := TxStart(active, ok);
    }

    /** Everything put: start the transmitter if the semaphore is free. The return code 1 of an inactive
        device is not an error. */
    method TryStart(active: bool, ok: bool) returns (code: int)
      requires Valid()
      modifies this
      ensures Valid() && View() == Tried(old(View()), active, ok).tx && code == Tried(old(View()), active, ok).code
    {
      if !sem {
        return 0;
      }
      sem := false;
      StartedShape(View(), active, ok);
      code := TxStart(active, ok);
      if code != 0 {
        sem := true;
        if code == 1 {
          return 0;
        }
      }
    }

    /** uart_send_data, for bytes whose frame fits its buffer: the frame is written to the ring. */
    method UartSendData(buffer: array<Byte>, length: nat, active: bool, ok: bool)
      requires Valid() && buffer != sendBuffer && length <= buffer.Length
      requires |Slip.Encode(buffer[..length])| <= UART_SLIP_MTU
      modifies this, sendBuffer
      ensures Valid()
      ensures View() == WriteFrom(old(View()), Slip.Encode(old(buffer[..length])), active, ok).tx
    {
      hide WriteFrom;
      var ret, sendLength := Slip.SlipEncode(sendBuffer, buffer, length);
      var _ := UartTxWrite(sendBuffer[..sendLength], active, ok);
    }
  }
}
