/** The sidecar core: lifecycle flags, peer counters and the event queue, driven by
    `initialize`, accepted gossip messages, the periodic flush and `shutdown`. Calls
    into the native library are recorded, in order, rather than performed. */
module Sidecar {
  import opened Wrappers
  import opened JavaNumbers
  import opened Events
  import opened Batching
  import JsonTree
  import RuntimeConfig

  /** A call into the native library, with the data handed to it. */
  datatype NativeCall =
    | NativeInit(config: RuntimeConfig.Config)
    | NativeSendEventBatch(events: seq<Event>)
    | NativeShutdown

  /** The single-thread scheduler: nothing scheduled yet, running the one-second
      periodic flush, or shut down (it then refuses new tasks). */
  datatype Scheduler = Idle | FlushingPeriodically | Stopped

  datatype Core = Core(
    initialized: bool,
    shutdown: bool,
    scheduler: Scheduler,
    queue: seq<Event>,
    transportPeerPresentCount: Long,
    transportPeerMissingCount: Long,
    nativeCalls: seq<NativeCall>)

  /** A newly constructed core. */
  const Fresh: Core := Core(false, false, Idle, [], 0, 0, [])

  /** What `initialize` reads besides the core: the parsed user configuration (`None`
      when reading or parsing the file throws), the `XATU_LOG_LEVEL` environment
      variable, the chain parameters and the node's version. */
  datatype InitInputs = InitInputs(
    userConfig: Option<JsonTree.Json>,
    logLevelEnv: Option<string>,
    chain: RuntimeConfig.ChainParams,
    version: string)

  datatype InitOutcome = InitOutcome(core: Core, succeeded: bool)

  /** `initialize` reaches the native `Init` call: the core is not yet initialized and
      the user configuration was read and is enabled. */
  predicate AttemptsInit(c: Core, inputs: InitInputs) {
    !c.initialized && inputs.userConfig.Some? && RuntimeConfig.Enabled(inputs.userConfig.value)
  }

  /** The configuration `initialize` passes to the native `Init`. */
  function InitConfig(inputs: InitInputs): RuntimeConfig.Config
    requires inputs.userConfig.Some?
  {
    RuntimeConfig.Resolve(inputs.userConfig.value, inputs.logLevelEnv, inputs.chain, inputs.version)
  }

  /** `initialize`, with `initCode` the native `Init` result. An initialized core answers
      true and changes nothing. Otherwise it succeeds only when the configuration was
      read, is enabled, `Init` returns 0 and the scheduler still accepts the periodic
      flush; on every other path it stays uninitialized and answers false. */
  function Initialize(c: Core, inputs: InitInputs, initCode: Int): (r: InitOutcome)
    ensures c.initialized ==> r == InitOutcome(c, true)
    ensures !c.initialized ==> (r.succeeded <==> r.core.initialized)
    ensures !c.initialized ==>
      (r.succeeded <==> AttemptsInit(c, inputs) && initCode == 0 && c.scheduler != Stopped)
    ensures !c.initialized && r.succeeded ==> r.core.scheduler == FlushingPeriodically
    ensures !r.succeeded ==> r.core.scheduler == c.scheduler
    ensures r.core.nativeCalls ==
      c.nativeCalls + (if AttemptsInit(c, inputs) then [NativeInit(InitConfig(inputs))] else [])
    ensures r.core.shutdown == c.shutdown && r.core.queue == c.queue
    ensures r.core.transportPeerPresentCount == c.transportPeerPresentCount
    ensures r.core.transportPeerMissingCount == c.transportPeerMissingCount
  {
    if c.initialized then InitOutcome(c, true)
    else match inputs.userConfig
      case None => InitOutcome(c, false)
      case Some(user) =>
        if !RuntimeConfig.Enabled(user) then InitOutcome(c, false)
        else
          var called := c.(nativeCalls := c.nativeCalls + [NativeInit(InitConfig(inputs))]);
          if initCode != 0 then InitOutcome(called, false)
          else if c.scheduler == Stopped then InitOutcome(called, false)
          else InitOutcome(called.(initialized := true, scheduler := FlushingPeriodically), true)
  }

  /** `flushBatch`: nothing happens when the queue is empty or the core is not
      initialized; otherwise the first `min(n, 100)` queued events go to the native
      library in one batch, `min(n, 101)` leave the queue, and the rest stay in order. */
  function FlushBatch(c: Core): (r: Core)
    ensures |c.queue| == 0 || !c.initialized ==> r == c
    ensures |c.queue| > 0 && c.initialized ==>
      && r.queue == c.queue[Min(|c.queue|, BatchSize + 1)..]
      && r.nativeCalls == c.nativeCalls + [NativeSendEventBatch(c.queue[..Min(|c.queue|, BatchSize)])]
    ensures r.initialized == c.initialized && r.shutdown == c.shutdown && r.scheduler == c.scheduler
    ensures r.transportPeerPresentCount == c.transportPeerPresentCount
    ensures r.transportPeerMissingCount == c.transportPeerMissingCount
  {
    if |c.queue| == 0 || !c.initialized then c
    else
      var (batch, rest) := Drain(c.queue);
      if |batch| == 0 then c.(queue := rest)
      else c.(queue := rest, nativeCalls := c.nativeCalls + [NativeSendEventBatch(batch)])
  }

  /** One tick of the periodic flush; a scheduler without the task does nothing. In a
      reachable core the task runs exactly from a successful `initialize` until `shutdown`. */
  function ScheduledFlush(c: Core): (r: Core)
    ensures c.scheduler != FlushingPeriodically ==> r == c
    ensures c.scheduler == FlushingPeriodically ==> r == FlushBatch(c)
    ensures Valid(c) ==> r == if c.initialized && !c.shutdown then FlushBatch(c) else c
  {
    if c.scheduler == FlushingPeriodically then FlushBatch(c) else c
  }

  /** The queue after an accepted message: its event appended, if it converts to one. */
  function Enqueue(queue: seq<Event>, ev: GossipEvent): seq<Event> {
    match ConvertToXatuEvent(ev)
    case Some(e) => queue + [e]
    case None => queue
  }

  /** `onGossipMessageAccepted`: ignored unless the core is initialized and not shut
      down. Otherwise exactly one of the two peer counters goes up by one (wrapping as an
      `AtomicLong` does), the converted event is queued, and a queue of `BATCH_SIZE` or
      more is flushed at once. */
  function OnGossipMessageAccepted(c: Core, ev: GossipEvent): (r: Core)
    ensures !c.initialized || c.shutdown ==> r == c
    ensures c.initialized && !c.shutdown ==>
      if ev.transportPeerId.Some? then
        r.transportPeerPresentCount == LongInc(c.transportPeerPresentCount)
        && r.transportPeerMissingCount == c.transportPeerMissingCount
      else
        r.transportPeerMissingCount == LongInc(c.transportPeerMissingCount)
        && r.transportPeerPresentCount == c.transportPeerPresentCount
    ensures c.initialized && !c.shutdown ==>
      var queued := Enqueue(c.queue, ev);
      if |queued| >= BatchSize then
        r.queue == queued[Min(|queued|, BatchSize + 1)..]
        && r.nativeCalls == c.nativeCalls + [NativeSendEventBatch(queued[..BatchSize])]
      else
        r.queue == queued && r.nativeCalls == c.nativeCalls
    ensures r.initialized == c.initialized && r.shutdown == c.shutdown && r.scheduler == c.scheduler
  {
    if !c.initialized || c.shutdown then c
    else
      var counted :=
        if ev.transportPeerId.Some? then
          c.(transportPeerPresentCount := LongInc(c.transportPeerPresentCount))
        else
          c.(transportPeerMissingCount := LongInc(c.transportPeerMissingCount));
      var queued := counted.(queue := Enqueue(c.queue, ev));
      if |queued.queue| >= BatchSize then FlushBatch(queued) else queued
  }

  /** `shutdown`: a second call does nothing. The first stops the scheduler, flushes
      once, and calls the native `Shutdown` only if the core is initialized. */
  function Shutdown(c: Core): (r: Core)
    ensures c.shutdown ==> r == c
    ensures !c.shutdown ==> r.shutdown && r.scheduler == Stopped
    ensures !c.shutdown ==>
      var flushed := FlushBatch(c);
      && r.queue == flushed.queue
      && r.nativeCalls == flushed.nativeCalls + (if c.initialized then [NativeShutdown] else [])
    ensures r.initialized == c.initialized
    ensures r.transportPeerPresentCount == c.transportPeerPresentCount
    ensures r.transportPeerMissingCount == c.transportPeerMissingCount
  {
    if c.shutdown then c
    else
      var flushed := FlushBatch(c.(shutdown := true, scheduler := Stopped));
      if flushed.initialized then flushed.(nativeCalls := flushed.nativeCalls + [NativeShutdown])
      else flushed
  }

  /** The states a single caller can reach: the queue stays below a full batch and is
      only non-empty once initialized, the periodic flush runs exactly while initialized
      and not shut down, and shutdown stops the scheduler for good. */
  ghost predicate Valid(c: Core) {
    && |c.queue| < BatchSize
    && (|c.queue| > 0 ==> c.initialized)
    && (c.scheduler == FlushingPeriodically <==> c.initialized && !c.shutdown)
    && (c.shutdown ==> c.scheduler == Stopped)
  }

  /** Calling `shutdown` twice is the same as calling it once. */
  lemma ShutdownIsIdempotent(c: Core)
    ensures Shutdown(Shutdown(c)) == Shutdown(c)
  {
  }

  /** After `shutdown`, accepted messages and scheduler ticks change nothing. */
  lemma ShutdownSilencesCore(c: Core, ev: GossipEvent)
    requires Valid(c)
    ensures OnGossipMessageAccepted(Shutdown(c), ev) == Shutdown(c)
    ensures ScheduledFlush(Shutdown(c)) == Shutdown(c)
  {
  }

  /** A core shut down before it was ever initialized cannot be started by `initialize`:
      the scheduler refuses the periodic flush, although the native `Init` may already
      have been called. */
  lemma InitializeAfterShutdownFails(c: Core, inputs: InitInputs, initCode: Int)
    requires Valid(c) && !c.initialized
    ensures !Initialize(Shutdown(c), inputs, initCode).succeeded
  {
  }

  /** A core shut down after a successful start still answers true to `initialize`, which
      then changes nothing and calls nothing. */
  lemma InitializeAfterShutdownOfStartedCore(c: Core, inputs: InitInputs, initCode: Int)
    requires c.initialized
    ensures Initialize(Shutdown(c), inputs, initCode) == InitOutcome(Shutdown(c), true)
  {
  }

  // ---------------------------------------------------------------------------
  // Sequential runs

  /** One action of a single sequential caller. */
  datatype Step =
    | Init(inputs: InitInputs, initCode: Int)
    | Gossip(event: GossipEvent)
    | Tick
    | Stop

  function Apply(c: Core, step: Step): Core {
    match step
    case Init(inputs, code) => Initialize(c, inputs, code).core
    case Gossip(ev) => OnGossipMessageAccepted(c, ev)
    case Tick => ScheduledFlush(c)
    case Stop => Shutdown(c)
  }

  function Run(c: Core, steps: seq<Step>): Core
    decreases |steps|
  {
    if |steps| == 0 then c else Run(Apply(c, steps[0]), steps[1..])
  }

  /** Every event handed to the native library, in call order. */
  function SentEvents(calls: seq<NativeCall>): seq<Event>
    decreases |calls|
  {
    if |calls| == 0 then []
    else
      var last := calls[|calls| - 1];
      SentEvents(calls[..|calls| - 1]) + (if last.NativeSendEventBatch? then last.events else [])
  }

  /** The events a step puts into the sidecar. */
  function Accepted(c: Core, step: Step): seq<Event> {
    if step.Gossip? && c.initialized && !c.shutdown then Enqueue([], step.event) else []
  }

  /** The events a run puts into the sidecar, in order. */
  function AcceptedInRun(c: Core, steps: seq<Step>): seq<Event>
    decreases |steps|
  {
    if |steps| == 0 then [] else Accepted(c, steps[0]) + AcceptedInRun(Apply(c, steps[0]), steps[1..])
  }

  lemma SentEventsOfAppend(calls: seq<NativeCall>, call: NativeCall)
    ensures SentEvents(calls + [call]) ==
      SentEvents(calls) + (if call.NativeSendEventBatch? then call.events else [])
  {
    assert (calls + [call])[..|calls|] == calls;
  }

  /** A flush of a queue shorter than a full batch hands over all of it. */
  lemma FlushOfValidSendsWholeQueue(c: Core)
    requires |c.queue| <= BatchSize && (|c.queue| > 0 ==> c.initialized)
    ensures FlushBatch(c).queue == []
    ensures SentEvents(FlushBatch(c).nativeCalls) == SentEvents(c.nativeCalls) + c.queue
  {
    if |c.queue| > 0 {
      SentEventsOfAppend(c.nativeCalls, NativeSendEventBatch(c.queue));
      assert c.queue[..|c.queue|] == c.queue;
    }
  }

  /** A flush that finds more than a full batch queued (which takes producers running
      alongside the flush) hands the first hundred events over, keeps the tail, and loses
      the hundred-and-first: sent events, that one event and the queue make up the whole. */
  lemma FlushOfOverfullQueueLosesOne(c: Core)
    requires c.initialized && |c.queue| > BatchSize
    ensures |FlushBatch(c).queue| == |c.queue| - BatchSize - 1
    ensures SentEvents(FlushBatch(c).nativeCalls) + [c.queue[BatchSize]] + FlushBatch(c).queue
      == SentEvents(c.nativeCalls) + c.queue
  {
    var q := c.queue;
    SentEventsOfAppend(c.nativeCalls, NativeSendEventBatch(q[..BatchSize]));
    assert q[..BatchSize] + [q[BatchSize]] + q[BatchSize + 1..] == q;
  }

  /** Every step of a single caller keeps the core valid. */
  lemma StepKeepsValid(c: Core, step: Step)
    requires Valid(c)
    ensures Valid(Apply(c, step))
  {
    match step
    case Init(inputs, code) =>
    case Gossip(ev) =>
      if c.initialized && !c.shutdown {
        var queued := Enqueue(c.queue, ev);
        assert |queued| <= |c.queue| + 1;
        if |queued| >= BatchSize {
          assert Min(|queued|, BatchSize + 1) == |queued|;
        }
      }
    case Tick =>
    case Stop =>
  }

  /** Every step of a single caller keeps the core valid and loses no event: what has
      been sent followed by what is queued grows by exactly the events the step accepts. */
  lemma StepKeepsValidAndLosesNothing(c: Core, step: Step)
    requires Valid(c)
    ensures Valid(Apply(c, step))
    ensures SentEvents(Apply(c, step).nativeCalls) + Apply(c, step).queue
      == SentEvents(c.nativeCalls) + c.queue + Accepted(c, step)
  {
    StepKeepsValid(c, step);
    match step
    case Init(inputs, code) =>
      if AttemptsInit(c, inputs) {
        SentEventsOfAppend(c.nativeCalls, NativeInit(InitConfig(inputs)));
      }
    case Gossip(ev) =>
      if c.initialized && !c.shutdown {
        var counted :=
          if ev.transportPeerId.Some? then
            c.(transportPeerPresentCount := LongInc(c.transportPeerPresentCount))
          else
            c.(transportPeerMissingCount := LongInc(c.transportPeerMissingCount));
        var queued := counted.(queue := Enqueue(c.queue, ev));
        assert Enqueue(c.queue, ev) == c.queue + Enqueue([], ev);
        if |queued.queue| >= BatchSize {
          FlushOfValidSendsWholeQueue(queued);
        }
      }
    case Tick =>
      if c.scheduler == FlushingPeriodically {
        FlushOfValidSendsWholeQueue(c);
      }
    case Stop =>
      if !c.shutdown {
        var stopped := c.(shutdown := true, scheduler := Stopped);
        FlushOfValidSendsWholeQueue(stopped);
        var flushed := FlushBatch(stopped);
        if flushed.initialized {
          SentEventsOfAppend(flushed.nativeCalls, NativeShutdown);
        }
      }
  }

  /** Driven by a single caller, the sidecar never drops an event: everything it
      accepted has been sent, in order, or is still queued. The loss the drain allows
      needs a queue beyond a full batch, which only concurrent producers can build. */
  lemma {:induction false} RunLosesNothing(c: Core, steps: seq<Step>)
    requires Valid(c)
    ensures Valid(Run(c, steps))
    ensures SentEvents(Run(c, steps).nativeCalls) + Run(c, steps).queue
      == SentEvents(c.nativeCalls) + c.queue + AcceptedInRun(c, steps)
    decreases |steps|
  {
    if |steps| > 0 {
      var next := Apply(c, steps[0]);
      StepKeepsValidAndLosesNothing(c, steps[0]);
      RunLosesNothing(next, steps[1..]);
    }
  }

  /** From a fresh core, every accepted event is sent or queued, in acceptance order. */
  lemma FreshRunLosesNothing(steps: seq<Step>)
    ensures Valid(Run(Fresh, steps))
    ensures SentEvents(Run(Fresh, steps).nativeCalls) + Run(Fresh, steps).queue
      == AcceptedInRun(Fresh, steps)
  {
    RunLosesNothing(Fresh, steps);
  }

  // ---------------------------------------------------------------------------
  // Peer counters

  /** How many of the events name the peer that relayed them. */
  function CountWithPeer(evs: seq<GossipEvent>): (n: nat)
    ensures n <= |evs|
    decreases |evs|
  {
    if |evs| == 0 then 0
    else CountWithPeer(evs[..|evs| - 1]) + (if evs[|evs| - 1].transportPeerId.Some? then 1 else 0)
  }

  /** Feeds the events to `onGossipMessageAccepted` one after the other. */
  function AcceptAll(c: Core, evs: seq<GossipEvent>): Core
    decreases |evs|
  {
    if |evs| == 0 then c else OnGossipMessageAccepted(AcceptAll(c, evs[..|evs| - 1]), evs[|evs| - 1])
  }

  /** While the sidecar runs, the two counters tally the accepted messages that did and
      did not carry a transport peer (short of wrapping past `Long.MAX_VALUE`). */
  lemma {:induction false} CountersTallyPeers(c: Core, evs: seq<GossipEvent>)
    requires c.initialized && !c.shutdown
    requires c.transportPeerPresentCount + |evs| <= LongMax
    requires c.transportPeerMissingCount + |evs| <= LongMax
    ensures AcceptAll(c, evs).initialized && !AcceptAll(c, evs).shutdown
    ensures AcceptAll(c, evs).transportPeerPresentCount == c.transportPeerPresentCount + CountWithPeer(evs)
    ensures AcceptAll(c, evs).transportPeerMissingCount
      == c.transportPeerMissingCount + (|evs| - CountWithPeer(evs))
    decreases |evs|
  {
    if |evs| > 0 {
      CountersTallyPeers(c, evs[..|evs| - 1]);
    }
  }
}
