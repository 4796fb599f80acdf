// The upgrade protocol running on the real receive pipeline: the machine of UartRx, with its blocks,
// counters and recovery, carries the bytes between the host and the device of SerialUpgrade. Every
// run of the combination is a run of SerialUpgrade's abstract system.
module Composition {
  import opened Bytes
  import Upgrade
  import R = UartRx
  import S = SerialUpgrade

  datatype Whole = Whole(rx: R.Rx, host: S.Host, wire: seq<Byte>, busy: Option<seq<Byte>>, dev: Upgrade.Device, read: nat)

  datatype Step =
    | Pipe(e: R.Step)   // a driver callback or an atomic operation of the worker
    | HostReads
    | RunFota

  /** Forget the memory behind the queued events. */
  function Abs(w: Whole): S.System
    requires R.Shape(w.rx)
  {
    S.System(w.host, w.wire, R.EventsIn(w.rx.mem, w.rx.queue), w.busy, w.dev, w.read)
  }

  predicate TakesEvent(w: Whole, e: R.Step) { e.Work? && w.rx.worker.Polling? && w.rx.queue != [] }

  predicate DropsEvent(w: Whole, e: R.Step) {
    e.Work? && w.rx.worker.Reading? && w.rx.worker.done == w.rx.worker.event.len
  }

  /** The protocol step a step amounts to, if any. */
  function Effect(w: Whole, step: Step): Option<S.Step> {
    match step
    case HostReads => Some(S.Read)
    case RunFota => Some(S.RunFota)
    case Pipe(e) =>
      if e.RxRdy? then Some(if |w.rx.queue| < R.QUEUE_SIZE then S.Deliver(|e.bytes|) else S.Drop(|e.bytes|))
      else if TakesEvent(w, e) then Some(S.Begin)
      else if DropsEvent(w, e) && w.busy.Some? then Some(S.End)
      else None
  }

  /** Events carry the next bytes on the wire; one that finds the queue full is dropped, which the protocol
      allows for once the transfer has begun. The work queue does not run fota_work_cb inside rx_process. */
  predicate Enabled(file: seq<Byte>, w: Whole, step: Step) {
    && R.Shape(w.rx) && !w.dev.rebooted
    && (match step
        case Pipe(e) => R.Enabled(w.rx, e) && (e.RxRdy? ==> e.bytes <= w.wire)
        case HostReads => true
        case RunFota => w.rx.worker.Asleep?)
    && (Effect(w, step).Some? ==> S.Enabled(file, Abs(w), Effect(w, step).value))
  }

  function Next(file: seq<Byte>, env: Upgrade.Env, w: Whole, step: Step): Whole
    requires Enabled(file, w, step)
  {
    var rx := if step.Pipe? then R.Next(w.rx, step.e) else w.rx;
    match Effect(w, step)
    case None => w.(rx := rx)
    case Some(effect) =>
      var a := S.Next(file, env, Abs(w), effect);
      Whole(rx, a.host, a.wire, a.busy, a.dev, a.read)
  }

  predicate ValidRun(file: seq<Byte>, env: Upgrade.Env, w: Whole, steps: seq<Step>)
    decreases |steps|
  {
    steps == [] || (Enabled(file, w, steps[0]) && ValidRun(file, env, Next(file, env, w, steps[0]), steps[1..]))
  }

  function Final(file: seq<Byte>, env: Upgrade.Env, w: Whole, steps: seq<Step>): Whole
    requires ValidRun(file, env, w, steps)
    decreases |steps|
  {
    if steps == [] then w else Final(file, env, Next(file, env, w, steps[0]), steps[1..])
  }

  /** An image event in work is the event the worker is reading, still intact in memory. */
  predicate Coupled(w: Whole) {
    && R.Inv(w.rx) && R.LeaksOk(w.rx)
    && (w.busy.Some? ==> w.rx.worker.Reading? && R.Content(w.rx.mem, w.rx.worker.event) == w.busy.value)
  }

  /** What a pipeline step does to the queued events and to the event in work. */
  lemma PipeStep(w: Whole, e: R.Step)
    requires Coupled(w) && R.Enabled(w.rx, e)
    ensures var t := R.Next(w.rx, e);
            var q := R.EventsIn(w.rx.mem, w.rx.queue);
            && R.Inv(t) && R.LeaksOk(t)
            && R.EventsIn(t.mem, t.queue) ==
               (if e.RxRdy? then (if |w.rx.queue| < R.QUEUE_SIZE then q + [e.bytes] else q) else if TakesEvent(w, e) then q[1..] else q)
            && (TakesEvent(w, e) ==> q != [] && t.worker.Reading? && R.Content(t.mem, t.worker.event) == q[0])
            && (w.busy.Some? && !DropsEvent(w, e) ==>
                  t.worker.Reading? && R.Content(t.mem, t.worker.event) == w.busy.value)
            && (w.busy.Some? ==> !TakesEvent(w, e))
  {
    hide R.Counted, R.Stable, R.Control, R.LeaksOk;
    R.StepKeepsInv(w.rx, e);
    R.StepKeepsLeaksOk(w.rx, e);
    R.EventQueueStep(w.rx, e);
  }

  lemma StepSimulates(file: seq<Byte>, env: Upgrade.Env, w: Whole, step: Step)
    requires Coupled(w) && Enabled(file, w, step)
    ensures Coupled(Next(file, env, w, step))
    ensures Abs(Next(file, env, w, step)) ==
            (match Effect(w, step) case None => Abs(w) case Some(effect) => S.Next(file, env, Abs(w), effect))
  {
    hide R.Inv, R.LeaksOk, R.Shape, R.Next, R.EventsIn, Upgrade.ProcessEvent, Upgrade.EndImageEvent;
    if step.Pipe? {
      PipeStep(w, step.e);
      if step.e.RxRdy? {
        assert step.e.bytes == w.wire[..|step.e.bytes|];
      }
    }
  }

  /** The pipeline never makes the protocol wait: a worker that may take or drop an event finds the
      protocol ready for it. */
  lemma WorkerIsNeverRefused(file: seq<Byte>, w: Whole, e: R.Step)
    requires Coupled(w) && (S.Inv(file, Abs(w)) || S.Short(file, Abs(w))) && !w.dev.rebooted && e.Work? && R.Enabled(w.rx, e)
    ensures Enabled(file, w, Pipe(e))
  {
    if TakesEvent(w, e) {
      R.FirstEvent(w.rx.mem, w.rx.queue);
    }
  }

  ghost predicate Simulated(file: seq<Byte>, env: Upgrade.Env, w: Whole, t: Whole)
    requires R.Shape(w.rx) && R.Shape(t.rx)
  {
    exists es :: S.ValidRun(file, env, Abs(w), es) && S.Final(file, env, Abs(w), es) == Abs(t)
  }

  lemma {:induction false} RunSimulates(file: seq<Byte>, env: Upgrade.Env, w: Whole, steps: seq<Step>)
    requires Coupled(w) && ValidRun(file, env, w, steps)
    ensures Coupled(Final(file, env, w, steps)) && Simulated(file, env, w, Final(file, env, w, steps))
    decreases |steps|
  {
    if steps == [] {
      assert S.ValidRun(file, env, Abs(w), []) && S.Final(file, env, Abs(w), []) == Abs(w);
    } else {
      var v := Next(file, env, w, steps[0]);
      StepSimulates(file, env, w, steps[0]);
      RunSimulates(file, env, v, steps[1..]);
      var t := Final(file, env, w, steps);
      var es :| S.ValidRun(file, env, Abs(v), es) && S.Final(file, env, Abs(v), es) == Abs(t);
      match Effect(w, steps[0]) {
        case None => assert Abs(v) == Abs(w);
        case Some(effect) =>
          var fs := [effect] + es;
          assert fs[1..] == es;
          assert S.ValidRun(file, env, Abs(w), fs) && S.Final(file, env, Abs(w), fs) == Abs(t);
      }
    }
  }

  /** The upgrade over the block pool: for every file an int can measure and every interleaving of the
      host with buffer requests, receptions, drops, releases, shutdowns, recoveries and the worker's atomic
      operations, if stores succeed, a reboot finds the file in the image and exactly one boot request made
      if and only if the file is longer than 1024 bytes. */
  lemma EndToEnd(file: seq<Byte>, env: Upgrade.Env, w: Whole, steps: seq<Step>, block: nat)
    requires |file| < 0x8000_0000 && Upgrade.Cooperative(env)
    requires R.Init(w.rx, block) && R.Shape(w.rx) && S.Start(file, Abs(w)) && ValidRun(file, env, w, steps)
    ensures var t := Final(file, env, w, steps);
            && R.Inv(t.rx)
            && t.dev.flash.strays == 0
            && (t.dev.rebooted ==>
                  && file != []
                  && (t.dev.flash.stream == file && t.dev.flash.requests == 1 <==> |file| > 1024)
                  && (|file| <= 1024 ==> t.dev.flash.requests == 0 && |t.dev.flash.stream| < |file|))
  {
    R.InitEstablishesInv(w.rx, block);
    RunSimulates(file, env, w, steps);
    var t := Final(file, env, w, steps);
    var es :| S.ValidRun(file, env, Abs(w), es) && S.Final(file, env, Abs(w), es) == Abs(t);
    S.EndToEnd(file, env, Abs(w), es);
  }

  // ------------------------------------------------- when the reboot can be reached

  predicate Loses(w: Whole, step: Step) { step.Pipe? && step.e.RxRdy? && |w.rx.queue| >= R.QUEUE_SIZE }

  /** No event is dropped. */
  predicate Lossless(file: seq<Byte>, env: Upgrade.Env, w: Whole, steps: seq<Step>)
    requires ValidRun(file, env, w, steps)
    decreases |steps|
  {
    steps == [] || (!Loses(w, steps[0]) && Lossless(file, env, Next(file, env, w, steps[0]), steps[1..]))
  }

  predicate Safe(file: seq<Byte>, w: Whole) {
    Coupled(w) && (S.Inv(file, Abs(w)) || S.Short(file, Abs(w)))
  }

  lemma StepKeepsSafe(file: seq<Byte>, env: Upgrade.Env, w: Whole, step: Step)
    requires Safe(file, w) && Enabled(file, w, step) && Upgrade.Cooperative(env)
    ensures var v := Next(file, env, w, step);
            && Safe(file, v)
            && (if S.Inv(file, Abs(w)) && !Loses(w, step) then S.Inv(file, Abs(v)) else S.Short(file, Abs(v)))
            && (if Effect(w, step).Some? then 0 <= S.Work(file, Abs(v)) < S.Work(file, Abs(w)) else Abs(v) == Abs(w))
  {
    hide S.Inv, S.Short, S.Work, S.Next, S.Enabled, R.Inv;
    StepSimulates(file, env, w, step);
    if Effect(w, step).Some? {
      S.AnyStep(file, env, Abs(w), Effect(w, step).value);
    }
  }

  lemma {:induction false} RunKeepsSafe(file: seq<Byte>, env: Upgrade.Env, w: Whole, steps: seq<Step>)
    requires Safe(file, w) && ValidRun(file, env, w, steps) && Upgrade.Cooperative(env)
    ensures var t := Final(file, env, w, steps);
            && Safe(file, t)
            && (if S.Inv(file, Abs(w)) && Lossless(file, env, w, steps) then S.Inv(file, Abs(t)) else S.Short(file, Abs(t)))
    decreases |steps|
  {
    hide S.Inv, S.Short, Next, Enabled, Loses, R.Counted, R.Stable, R.Control;
    if steps != [] {
      var v := Next(file, env, w, steps[0]);
      StepKeepsSafe(file, env, w, steps[0]);
      S.NotBoth(file, Abs(v));
      RunKeepsSafe(file, env, v, steps[1..]);
    }
  }

  /** Some continuation ends in the reboot. */
  ghost predicate CanReboot(file: seq<Byte>, env: Upgrade.Env, w: Whole) {
    exists steps :: ValidRun(file, env, w, steps) && Final(file, env, w, steps).dev.rebooted
  }

  /** Reception works or can be restored. */
  predicate Healthy(s: R.Rx) { !R.Forgotten(s) && s.lost != R.ALL_BLOCKS }

  predicate HasRoom(s: R.Rx) { exists b :: b in s.owned && s.owned[b] < R.BUF_SIZE }

  /** How far the pipeline is from the next step that the protocol sees. */
  function Rank(s: R.Rx): int {
    if s.worker.Asleep? && s.queue == [] && (s.on || !Healthy(s)) then
      if !s.on || HasRoom(s) then 0 else if s.free != {} then 1 else 2
    else
      R.Distance(s)
  }

  /** A worker step of a cooperating driver keeps reception healthy and, unless it takes an event, comes
      closer to the next event or to rest. */
  lemma WorkerComesCloser(s: R.Rx)
    requires R.Inv(s) && (s.worker.Asleep? ==> s.queued && (s.queue != [] || (!s.on && Healthy(s))))
    ensures var e := R.WorkStep(s, R.Pick(s));
            && R.Enabled(s, e) && (Healthy(s) ==> Healthy(R.Next(s, e)))
            && (!(s.worker.Polling? && s.queue != []) ==> 0 <= Rank(R.Next(s, e)) < Rank(s))
  {
    var e := R.WorkStep(s, R.Pick(s));
    hide R.Counted, R.Stable, R.LeaksOk, HasRoom;
    R.ForgottenStep(s, e);
    R.StepLeak(s, e);
    if s.worker.Allocating? && s.queue == [] {
      R.DrainedFreeBlocks(s);
    }
  }

  /** The reboot has not happened, nothing has been dropped, and either reception is healthy or there is
      nothing left to receive. */
  predicate Progressing(file: seq<Byte>, w: Whole) {
    && Coupled(w) && S.Inv(file, Abs(w)) && file != [] && !w.dev.rebooted
    && (Healthy(w.rx) || (w.wire == [] && w.host.sent == |file|))
  }

  /** A step that brings the reboot closer. */
  predicate Helps(file: seq<Byte>, env: Upgrade.Env, w: Whole, step: Step) {
    && Enabled(file, w, step)
    && var v := Next(file, env, w, step);
       || v.dev.rebooted
       || (&& Progressing(file, v)
           && 0 <= S.Work(file, Abs(v)) <= S.Work(file, Abs(w))
           && (S.Work(file, Abs(v)) == S.Work(file, Abs(w)) ==> 0 <= Rank(v.rx) < Rank(w.rx)))
  }

  lemma WorkerHelps(file: seq<Byte>, env: Upgrade.Env, w: Whole)
    requires Progressing(file, w) && Upgrade.Cooperative(env)
    requires w.rx.worker.Asleep? ==> w.rx.queued && (w.rx.queue != [] || (!w.rx.on && Healthy(w.rx)))
    ensures Helps(file, env, w, Pipe(R.WorkStep(w.rx, R.Pick(w.rx))))
  {
    hide S.Inv, S.Work, S.Short, R.Inv, R.LeaksOk, R.EventsIn, Rank, Healthy;
    var e := R.WorkStep(w.rx, R.Pick(w.rx));
    assert R.Inv(w.rx);
    WorkerComesCloser(w.rx);
    WorkerIsNeverRefused(file, w, e);
    StepKeepsSafe(file, env, w, Pipe(e));
    S.WorkIsNatural(file, Abs(w));
  }

  lemma HostHelps(file: seq<Byte>, env: Upgrade.Env, w: Whole)
    requires Progressing(file, w) && Upgrade.Cooperative(env) && w.read < |w.dev.log|
    ensures Helps(file, env, w, HostReads)
  {
    S.InvBounds(file, Abs(w));
    assert S.Enabled(file, Abs(w), S.Read);
    hide S.Inv, S.Work, S.Short, S.Enabled, R.Inv, R.LeaksOk, R.EventsIn, Rank, Healthy;
    StepKeepsSafe(file, env, w, HostReads);
    S.ReadWrites(file, env, Abs(w));
    hide S.Next;
    S.WorkIsNatural(file, Abs(w));
  }

  lemma FotaHelps(file: seq<Byte>, env: Upgrade.Env, w: Whole)
    requires Progressing(file, w) && Upgrade.Cooperative(env) && w.rx.worker.Asleep? && w.dev.workQueued
    ensures Helps(file, env, w, RunFota)
  {
    S.InvBounds(file, Abs(w));
    S.FotaKeepsInv(file, env, Abs(w));
  }

  lemma ReceptionHelps(file: seq<Byte>, env: Upgrade.Env, w: Whole, step: Step)
    requires Progressing(file, w) && Upgrade.Cooperative(env)
    requires Healthy(w.rx) && w.rx.on && w.rx.worker.Asleep? && w.rx.queue == [] && w.wire != []
    requires step.Pipe? && R.Enabled(w.rx, step.e)
    requires match step.e
             case RxRdy(_, _, bytes, _) => bytes == w.wire[..1]
             case BufRequest(_, ok, _) => ok && w.rx.free != {} && !HasRoom(w.rx)
             case BufReleased(_, _) => w.rx.free == {} && !HasRoom(w.rx)
             case _ => false
    ensures Helps(file, env, w, step)
  {
    S.InvBounds(file, Abs(w));
    hide S.Inv, S.Work, S.Short, R.LeaksOk, R.EventsIn, Rank;
    assert Enabled(file, w, step);
    StepKeepsSafe(file, env, w, step);
    R.ForgottenStep(w.rx, step.e);
    R.StepLeak(w.rx, step.e);
    S.WorkIsNatural(file, Abs(w));
    PoolComesCloser(w.rx, step.e);
  }

  /** Asked for a buffer the driver gets one with room; without a free one it can release a full one. */
  lemma PoolComesCloser(s: R.Rx, e: R.Step)
    requires R.Inv(s) && R.LeaksOk(s) && s.on && s.worker.Asleep? && s.queue == [] && R.Enabled(s, e)
    ensures var t := R.Next(s, e);
            && (e.BufRequest? && e.ok && s.free != {} && !HasRoom(s) ==> 0 <= Rank(t) < Rank(s))
            && (e.BufReleased? && s.free == {} && !HasRoom(s) ==> 0 <= Rank(t) < Rank(s))
  {
    var t := R.Next(s, e);
    if e.BufRequest? && e.ok && s.free != {} {
      assert e.pick in t.owned && t.owned[e.pick] == 0;
      assert HasRoom(t);
    }
    if e.BufReleased? && s.free == {} {
      assert R.Total(s, e.block) == 1;
      assert e.block in t.free;
    }
  }

  /** With the queue drained and the worker at rest, a healthy receiver that is on has a buffer with room,
      a free block, or a full buffer the driver can release. */
  lemma SomeReception(s: R.Rx)
    requires R.Inv(s) && s.on && s.worker.Asleep? && s.queue == [] && s.lost != R.ALL_BLOCKS
    ensures s.free != {} || exists b :: b in s.owned
  {
    R.AllOrSome(s.lost);
    var b :| b in R.ALL_BLOCKS - s.lost;
    assert b in s.free || R.Total(s, b) > 0;
  }

  lemma SomeStepHelps(file: seq<Byte>, env: Upgrade.Env, w: Whole)
    requires Progressing(file, w) && Upgrade.Cooperative(env)
    ensures exists step :: Helps(file, env, w, step)
  {
    hide Helps, Rank, S.Inv;
    if !w.rx.worker.Asleep? || w.rx.queue != [] {
      WorkerHelps(file, env, w);
    } else if w.read < |w.dev.log| {
      HostHelps(file, env, w);
    } else if w.dev.workQueued {
      FotaHelps(file, env, w);
    } else {
      S.InvBounds(file, Abs(w));
      S.BytesToDeliver(file, Abs(w));
      if !w.rx.on {
        WorkerHelps(file, env, w);
      } else {
        ReceptionStep(file, env, w);
      }
    }
  }

  lemma ReceptionStep(file: seq<Byte>, env: Upgrade.Env, w: Whole)
    requires Progressing(file, w) && Upgrade.Cooperative(env)
    requires Healthy(w.rx) && w.rx.on && w.rx.worker.Asleep? && w.rx.queue == [] && w.wire != []
    ensures exists step :: Helps(file, env, w, step)
  {
    hide Helps, Rank, S.Inv, R.Counted, R.Stable;
    if HasRoom(w.rx) {
      var b :| b in w.rx.owned && w.rx.owned[b] < R.BUF_SIZE;
      ReceptionHelps(file, env, w, Pipe(R.RxRdy(b, w.rx.owned[b], w.wire[..1], 0)));
    } else if w.rx.free != {} {
      ReceptionHelps(file, env, w, Pipe(R.BufRequest(R.Pick(w.rx), true, 0)));
    } else {
      SomeReception(w.rx);
      var b :| b in w.rx.owned;
      ReceptionHelps(file, env, w, Pipe(R.BufReleased(b, 0)));
    }
  }

  lemma {:induction false} RebootIsReachable(file: seq<Byte>, env: Upgrade.Env, w: Whole)
    requires Progressing(file, w) && Upgrade.Cooperative(env)
    ensures CanReboot(file, env, w)
    decreases S.Work(file, Abs(w)), Rank(w.rx)
  {
    hide S.Inv, S.Work, Rank, Next, Enabled, Coupled, Healthy;
    SomeStepHelps(file, env, w);
    var step :| Helps(file, env, w, step);
    var v := Next(file, env, w, step);
    if v.dev.rebooted {
      assert ValidRun(file, env, v, []) && Final(file, env, v, []).dev.rebooted;
    } else {
      RebootIsReachable(file, env, v);
    }
    var steps :| ValidRun(file, env, v, steps) && Final(file, env, v, steps).dev.rebooted;
    var more := [step] + steps;
    assert more[0] == step && more[1..] == steps;
    assert ValidRun(file, env, w, more) && Final(file, env, w, more) == Final(file, env, v, steps);
  }

  /** Reception is gone with bytes of the file still to be received. */
  predicate Stranded(file: seq<Byte>, w: Whole) {
    && Coupled(w) && S.Inv(file, Abs(w)) && (R.Forgotten(w.rx) || R.Exhausted(w.rx))
    && (w.wire != [] || w.host.sent < |file|)
  }

  lemma StrandedStep(file: seq<Byte>, env: Upgrade.Env, w: Whole, step: Step)
    requires Stranded(file, w) && Enabled(file, w, step) && Upgrade.Cooperative(env)
    ensures Stranded(file, Next(file, env, w, step))
  {
    hide S.Inv, S.Work, S.Short, S.HostReads, R.Inv, R.LeaksOk, R.EventsIn, R.Forgotten, R.Exhausted;
    StepKeepsSafe(file, env, w, step);
    match step
    case HostReads => S.ReadWrites(file, env, Abs(w));
    case RunFota =>
    case Pipe(e) =>
      assert R.Inv(w.rx);
      StrandedPipe(w.rx, e);
  }

  lemma StrandedPipe(s: R.Rx, e: R.Step)
    requires R.Inv(s) && R.Enabled(s, e) && (R.Forgotten(s) || R.Exhausted(s))
    ensures !e.RxRdy? && (R.Forgotten(R.Next(s, e)) || R.Exhausted(R.Next(s, e)))
  {
    if R.Forgotten(s) {
      R.ForgottenStep(s, e);
    } else {
      R.ExhaustedStep(s, e);
    }
  }

  lemma {:induction false} StrandedNeverReboots(file: seq<Byte>, env: Upgrade.Env, w: Whole, steps: seq<Step>)
    requires Stranded(file, w) && ValidRun(file, env, w, steps) && Upgrade.Cooperative(env)
    ensures !Final(file, env, w, steps).dev.rebooted
    decreases |steps|
  {
    hide S.Inv, Next, Enabled;
    if steps == [] {
      if w.dev.rebooted {
        S.AllTaken(file, Abs(w));
      }
    } else {
      StrandedStep(file, env, w, steps[0]);
      StrandedNeverReboots(file, env, Next(file, env, w, steps[0]), steps[1..]);
    }
  }

  lemma DroppedNeverReboots(file: seq<Byte>, env: Upgrade.Env, w: Whole, steps: seq<Step>)
    requires Coupled(w) && S.Short(file, Abs(w)) && ValidRun(file, env, w, steps) && Upgrade.Cooperative(env)
    ensures !Final(file, env, w, steps).dev.rebooted
  {
    S.NotBoth(file, Abs(w));
    RunKeepsSafe(file, env, w, steps);
  }

  /** From every reachable state, some continuation reaches the reboot if and only if nothing has been
      dropped and either reception is not off for good or nothing of the file is left to receive. */
  lemma RebootReachableIff(file: seq<Byte>, env: Upgrade.Env, w: Whole, steps: seq<Step>, block: nat)
    requires |file| < 0x8000_0000 && file != [] && Upgrade.Cooperative(env)
    requires R.Init(w.rx, block) && R.Shape(w.rx) && S.Start(file, Abs(w)) && ValidRun(file, env, w, steps)
    requires !Final(file, env, w, steps).dev.rebooted
    ensures var t := Final(file, env, w, steps);
            CanReboot(file, env, t) <==>
            && Lossless(file, env, w, steps)
            && (!R.OffForGood(t.rx) || (t.wire == [] && t.host.sent == |file|))
  {
    hide S.Inv, S.Short, Next, Enabled;
    R.InitEstablishesInv(w.rx, block);
    S.StartEstablishesInv(file, Abs(w));
    RunKeepsSafe(file, env, w, steps);
    var t := Final(file, env, w, steps);
    R.OffForGoodIff(t.rx);
    if !Lossless(file, env, w, steps) {
      forall more | ValidRun(file, env, t, more) ensures !Final(file, env, t, more).dev.rebooted {
        DroppedNeverReboots(file, env, t, more);
      }
    } else if !R.OffForGood(t.rx) || (t.wire == [] && t.host.sent == |file|) {
      RebootIsReachable(file, env, t);
    } else {
      SentAtMostAll(file, Abs(t));
      forall more | ValidRun(file, env, t, more) ensures !Final(file, env, t, more).dev.rebooted {
        StrandedNeverReboots(file, env, t, more);
      }
    }
  }

  lemma SentAtMostAll(file: seq<Byte>, s: S.System)
    requires S.Inv(file, s)
    ensures s.host.sent <= |file|
  {
  }
}
