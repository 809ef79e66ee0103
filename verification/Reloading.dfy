/**
 Reloads under load: whom the locks keep apart, what a posted reload is answered,
 and that nothing in the process waits for ever (web/handler.go, main.go).
 */
module Reloading {
  import opened Wrappers
  import opened Bytes
  import opened CarbonClient
  import opened Process
  import opened WriteHistory

  // -------------------------------------------------- requests and configuration

  /** A request in a client is in the current client, built from the current configuration. */
  lemma RequestsSeeTheCurrentClient(cfg: Config, steps: seq<Step>)
    requires Schedule(Init(cfg), steps)
    ensures
      var s := Run(Init(cfg), steps);
      && (s.current.Some? <==> s.cfg.carbonAddress != [] || s.cfg.readUrl != [])
      && forall r: nat | r < |s.requests| && InClient(s.requests[r].pc) ::
           && r in s.readers && !s.writing
           && s.current == Some(s.requests[r].pc.client)
           && s.requests[r].pc.client < |s.built|
           && s.built[s.requests[r].pc.client].cfg == s.cfg
  {
    InitHistory(cfg);
    RunKeepsInv(Init(cfg), steps);
    ReadersExclude(Run(Init(cfg), steps));
  }

  lemma ReadersExclude(s: State)
    requires ControlInv(s)
    ensures forall r: nat | r < |s.requests| && InClient(s.requests[r].pc) ::
              r in s.readers && !s.writing && s.current == Some(s.requests[r].pc.client)
    ensures s.current.Some? ==> s.current.value < |s.built| && s.built[s.current.value].cfg == s.cfg
  {
    forall r: nat | r < |s.requests| && InClient(s.requests[r].pc) ensures r in s.readers {
      assert InRead(s.requests[r].pc);
    }
  }

  /**
   Only the build at the end of a reload, whatever asked for it, changes the
   configuration or the clients, under the write lock, to what was loaded.
   */
  lemma ConfigurationChangesAlone(s: State, step: Step)
    requires ControlInv(s) && Enabled(s, step)
    ensures
      var t := Next(s, step);
      t.cfg != s.cfg || t.current != s.current ==>
        && s.writing && s.readers == {}
        && step.LoopStep? && s.loop.Building? && t.cfg == s.loop.cfg
  {
    if step.RequestStep? {
      RequestLeavesTheLoop(s, step.r, step.ok, step.buffers);
    }
  }

  /** A load that fails changes neither, for a signal as for a posted reload. */
  lemma FailedLoadChangesNothing(s: State)
    requires s.loop.Loading?
    ensures
      var t := LoopNext(s, None);
      && t.cfg == s.cfg && t.current == s.current && t.built == s.built && t.world == s.world
      && t.loop == (if s.loop.origin.Posted? then Answering(s.loop.origin.reload, None) else Idle)
  {
  }

  /** No load of the run succeeds. */
  predicate LoadsFail(steps: seq<Step>) {
    forall i | 0 <= i < |steps| :: steps[i].LoopStep? ==> steps[i].load.None?
  }

  /** The loop has a configuration in hand that it has loaded and not yet built. */
  predicate Carries(loop: Loop) {
    loop.Loaded? || loop.Waiting? || loop.ShuttingWriters? || loop.ShuttingReaders? || loop.Building?
  }

  lemma FailedLoadStep(s: State, step: Step)
    requires ControlInv(s) && Enabled(s, step) && !Carries(s.loop) && (step.LoopStep? ==> step.load.None?)
    ensures
      var t := Next(s, step);
      !Carries(t.loop) && t.cfg == s.cfg && t.current == s.current
  {
    ConfigurationChangesAlone(s, step);
    if step.RequestStep? {
      RequestLeavesTheLoop(s, step.r, step.ok, step.buffers);
    }
  }

  /** In a run in which every load fails the configuration and the clients stay as they are. */
  lemma {:induction false} FailedLoadsChangeNothing(s: State, steps: seq<Step>)
    requires ControlInv(s) && Schedule(s, steps) && !Carries(s.loop) && LoadsFail(steps)
    ensures Run(s, steps).cfg == s.cfg && Run(s, steps).current == s.current
    decreases |steps|
  {
    if steps != [] {
      FailedLoadStep(s, steps[0]);
      StepKeepsControl(s, steps[0]);
      assert forall i | 0 <= i < |steps[1..]| :: steps[1..][i] == steps[i + 1];
      FailedLoadsChangeNothing(Next(s, steps[0]), steps[1..]);
    }
  }

  /** The request holds the read lock in every state of the run. */
  ghost predicate ReadsThroughout(s: State, steps: seq<Step>, r: nat)
    requires Schedule(s, steps)
    decreases |steps|
  {
    r in s.readers && (steps == [] || ReadsThroughout(Next(s, steps[0]), steps[1..], r))
  }

  /** While it does, it sees one configuration and one client. */
  lemma {:induction false} OneConfigurationPerRequest(s: State, steps: seq<Step>, r: nat)
    requires ControlInv(s) && Schedule(s, steps) && ReadsThroughout(s, steps, r)
    ensures Run(s, steps).cfg == s.cfg && Run(s, steps).current == s.current
    decreases |steps|
  {
    if steps != [] {
      ConfigurationChangesAlone(s, steps[0]);
      StepKeepsControl(s, steps[0]);
      OneConfigurationPerRequest(Next(s, steps[0]), steps[1..], r);
    }
  }

  lemma RetiredLoopStep(s: State, load: Option<Config>, g: nat)
    requires LoopEnabled(s) && g < |s.built| && s.current != Some(g)
    ensures
      var t := LoopNext(s, load);
      g < |t.built| && t.current != Some(g)
  {
  }

  lemma RetiredStep(s: State, step: Step, g: nat)
    requires Enabled(s, step) && g < |s.built| && s.current != Some(g)
    ensures
      var t := Next(s, step);
      g < |t.built| && t.current != Some(g)
  {
    match step {
      case RequestStep(r, ok, buffers) =>
        RequestLeavesTheLoop(s, r, ok, buffers);
        ConfigsStay(s, r, ok, buffers);
      case LoopStep(load) => RetiredLoopStep(s, load, g);
      case _ =>
    }
  }

  /** A client that has been replaced never holds a connection again. */
  lemma {:induction false} RetiredForEver(s: State, steps: seq<Step>, g: nat)
    requires ControlInv(s) && Schedule(s, steps) && g < |s.built| && s.current != Some(g)
    ensures
      var t := Run(s, steps);
      && g < |t.built| == |t.world.links| && t.current != Some(g)
      && t.world.links[g].carbonCon.None?
    decreases |steps|
  {
    if steps != [] {
      RetiredStep(s, steps[0], g);
      StepKeepsControl(s, steps[0]);
      RetiredForEver(Next(s, steps[0]), steps[1..], g);
    }
  }

  // -------------------------------------------------------------- the answers

  /** The posted reload that the loop is working on. */
  function Served(loop: Loop): Option<nat> {
    match loop
    case Idle => None
    case Answering(k, _) => Some(k)
    case _ => if loop.origin.Posted? then Some(loop.origin.reload) else None
  }

  predicate Installed(loop: Loop) {
    loop.Unlocking? || (loop.Answering? && loop.result.Some?)
  }

  predicate ServedInv(s: State) {
    && (forall k | 0 <= k < |s.reloads| :: s.reloads[k].Awaiting? <==> Served(s.loop) == Some(k))
    && (Served(s.loop).Some? ==> Served(s.loop).value < |s.reloads|)
    && (Served(s.loop).Some? && !Installed(s.loop) ==>
          s.reloads[Served(s.loop).value].before == Snapshot(s.cfg, s.current))
    && (s.loop.Unlocking? ==> s.cfg == s.loop.cfg)
    && (s.loop.Answering? && s.loop.result.Some? ==> s.cfg == s.loop.result.value)
  }

  /** A failed load has changed nothing; a successful one is in force. */
  predicate Honest(r: Reload) {
    r.Answered? ==>
      match r.result
      case None => r.after == r.before
      case Some(cfg) => r.after.cfg == cfg && (r.after.current.Some? <==> HasClient(cfg))
  }

  predicate ReloadInv(s: State) {
    ServedInv(s) && forall k | 0 <= k < |s.reloads| :: Honest(s.reloads[k])
  }

  lemma RequestLeavesTheLoop(s: State, r: nat, ok: bool, buffers: seq<bytes>)
    requires RequestEnabled(s, r)
    ensures
      var t := RequestNext(s, r, ok, buffers);
      t.loop == s.loop && t.reloads == s.reloads && t.cfg == s.cfg && t.current == s.current
  {
  }

  lemma ConcludeKeepsServed(s: State, writing: bool, result: Option<Config>)
    requires ServedInv(s) && (s.loop.Loading? || s.loop.Unlocking?)
    requires result == if s.loop.Loading? then None else Some(s.loop.cfg)
    ensures ServedInv(Conclude(s.(writing := writing), s.loop.origin, result))
  {
  }

  lemma ServesOn(s: State, t: State)
    requires ServedInv(s) && t.reloads == s.reloads && Served(t.loop) == Served(s.loop)
    requires !t.loop.Idle? && !t.loop.Answering? && !Installed(s.loop)
    requires if t.loop.Unlocking? then t.cfg == t.loop.cfg else t.cfg == s.cfg && t.current == s.current
    ensures ServedInv(t)
  {
  }

  lemma LoopKeepsServed(s: State, load: Option<Config>)
    requires ServedInv(s) && LoopEnabled(s)
    ensures ServedInv(LoopNext(s, load))
  {
    var t := LoopNext(s, load);
    if s.loop.Unlocking? || (s.loop.Loading? && load.None?) {
      ConcludeKeepsServed(s, t.writing, if s.loop.Loading? then None else Some(s.loop.cfg));
    } else if !s.loop.Answering? {
      ServesOn(s, t);
    }
  }

  lemma AnswerIsHonest(s: State, k: nat, result: Option<Config>)
    requires ControlInv(s) && ServedInv(s) && s.loop == Answering(k, result)
    ensures s.reloads[k].Awaiting?
    ensures Honest(Answered(result, s.reloads[k].before, Snapshot(s.cfg, s.current)))
  {
  }

  lemma LoopKeepsReloads(s: State, load: Option<Config>)
    requires ControlInv(s) && ReloadInv(s) && LoopEnabled(s)
    ensures ReloadInv(LoopNext(s, load))
  {
    LoopKeepsServed(s, load);
    if s.loop.Answering? {
      AnswerIsHonest(s, s.loop.reload, s.loop.result);
    }
  }

  lemma StepKeepsReloads(s: State, step: Step)
    requires ControlInv(s) && ReloadInv(s) && Enabled(s, step)
    ensures ReloadInv(Next(s, step))
  {
    match step {
      case RequestStep(r, ok, buffers) => RequestLeavesTheLoop(s, r, ok, buffers);
      case LoopStep(load) => LoopKeepsReloads(s, load);
      case _ =>
    }
  }

  lemma {:induction false} RunKeepsReloads(s: State, steps: seq<Step>)
    requires Inv(s) && ReloadInv(s) && Schedule(s, steps)
    ensures Inv(Run(s, steps)) && ReloadInv(Run(s, steps))
    decreases |steps|
  {
    if steps != [] {
      StepKeepsInv(s, steps[0]);
      StepKeepsReloads(s, steps[0]);
      RunKeepsReloads(Next(s, steps[0]), steps[1..]);
    }
  }

  /**
   In every run a posted reload answered with an error left the configuration and
   the clients as they were when it was taken, and one answered without is in force
   at that moment. The loop works on at most one at a time.
   */
  lemma AnswersAreHonest(cfg: Config, steps: seq<Step>)
    requires Schedule(Init(cfg), steps)
    ensures
      var s := Run(Init(cfg), steps);
      && (forall k | 0 <= k < |s.reloads| :: Honest(s.reloads[k]))
      && (forall k | 0 <= k < |s.reloads| :: s.reloads[k].Awaiting? <==> Served(s.loop) == Some(k))
  {
    InitHistory(cfg);
    RunKeepsReloads(Init(cfg), steps);
  }

  lemma AnswerStep(s: State, step: Step, k: nat)
    requires Enabled(s, step) && k < |s.reloads| && s.reloads[k].Answered?
    ensures
      var t := Next(s, step);
      k < |t.reloads| && t.reloads[k] == s.reloads[k]
  {
    if step.RequestStep? {
      RequestLeavesTheLoop(s, step.r, step.ok, step.buffers);
    }
  }

  /** It is answered once. */
  lemma {:induction false} AnsweredOnce(s: State, steps: seq<Step>, k: nat)
    requires Schedule(s, steps) && k < |s.reloads| && s.reloads[k].Answered?
    ensures k < |Run(s, steps).reloads| && Run(s, steps).reloads[k] == s.reloads[k]
    decreases |steps|
  {
    if steps != [] {
      AnswerStep(s, steps[0], k);
      AnsweredOnce(Next(s, steps[0]), steps[1..], k);
    }
  }

  // ------------------------------------------------------- what is done of a load

  function OriginOf(loop: Loop): Option<Origin> {
    match loop
    case Idle => None
    case Answering(k, _) => Some(Posted(k))
    case _ => Some(loop.origin)
  }

  /** The load of a reload of this origin gives cfg, or fails. */
  function Loads(o: Origin, load: Option<Config>): (State, Step) -> bool {
    (s: State, step: Step) => s.loop == Loading(o) && step == LoopStep(load)
  }

  function LoadsSomehow(o: Origin): (State, Step) -> bool {
    (s: State, step: Step) => s.loop == Loading(o) && step.LoopStep?
  }

  /** cfg becomes the configuration, with clients for it. */
  predicate InstallsNow(s: State, step: Step, o: Origin, cfg: Config) {
    && step.LoopStep? && s.loop == Building(o, cfg) && LoopEnabled(s)
    && var t := LoopNext(s, step.load);
    && t.cfg == cfg
    && (HasClient(cfg) ==> t.current == Some(|s.built|) && t.built == s.built + [Built(cfg, None)])
    && (!HasClient(cfg) ==> t.current.None?)
  }

  function Installs(o: Origin, cfg: Config): (State, Step) -> bool {
    (s: State, step: Step) => InstallsNow(s, step, o, cfg)
  }

  /** The loop stays where it is unless it steps, or takes up something when idle. */
  lemma LoopWaits(s: State, step: Step)
    requires Enabled(s, step) && !step.LoopStep? && !s.loop.Idle?
    ensures Next(s, step).loop == s.loop
  {
    if step.RequestStep? {
      RequestLeavesTheLoop(s, step.r, step.ok, step.buffers);
    }
  }

  /** What has been loaded is built, whatever asked for it. */
  lemma {:induction false} CarriedIsInstalled(s: State, steps: seq<Step>)
    requires Schedule(s, steps) && Carries(s.loop)
    ensures
      var t := Run(s, steps);
      || (Carries(t.loop) && t.loop.origin == s.loop.origin && t.loop.cfg == s.loop.cfg)
      || Happened(s, steps, Installs(s.loop.origin, s.loop.cfg))
    decreases |steps|
  {
    if steps != [] {
      var t := Next(s, steps[0]);
      if !steps[0].LoopStep? {
        LoopWaits(s, steps[0]);
      }
      if s.loop.Building? && steps[0].LoopStep? {
        assert InstallsNow(s, steps[0], s.loop.origin, s.loop.cfg);
      } else {
        CarriedIsInstalled(t, steps[1..]);
      }
    }
  }

  /**
   From any state on: a load that gives a configuration, for a signal as for a posted
   reload, is followed by its installation, unless the run ends before.
   */
  lemma LoadsAreInstalled(s: State, steps: seq<Step>, o: Origin, cfg: Config)
    requires s.loop == Loading(o) && steps != [] && steps[0] == LoopStep(Some(cfg)) && Schedule(s, steps)
    ensures
      || (Carries(Run(s, steps).loop) && Run(s, steps).loop.origin == o && Run(s, steps).loop.cfg == cfg)
      || Happened(Next(s, steps[0]), steps[1..], Installs(o, cfg))
  {
    CarriedIsInstalled(Next(s, steps[0]), steps[1..]);
  }

  /** A reload that is taken up, or a signal, is followed by its load, unless the run ends before. */
  lemma {:induction false} LoadFollows(s: State, steps: seq<Step>, o: Origin)
    requires Schedule(s, steps) && s.loop == Loading(o)
    ensures Run(s, steps).loop == Loading(o) || Happened(s, steps, LoadsSomehow(o))
    decreases |steps|
  {
    if steps != [] && !steps[0].LoopStep? {
      LoopWaits(s, steps[0]);
      LoadFollows(Next(s, steps[0]), steps[1..], o);
    }
  }

  lemma SignalsAreServed(s: State, steps: seq<Step>)
    requires Schedule(s, steps) && steps != [] && (steps[0].Hup? || steps[0].Take?)
    ensures
      var o := if steps[0].Hup? then Hangup else Posted(steps[0].k);
      Run(s, steps).loop == Loading(o) || Happened(Next(s, steps[0]), steps[1..], LoadsSomehow(o))
  {
    LoadFollows(Next(s, steps[0]), steps[1..], if steps[0].Hup? then Hangup else Posted(steps[0].k));
  }

  /** What the loop owes the reload that it serves: the configuration in its hands. */
  function Owed(loop: Loop): Option<Config> {
    match loop
    case Answering(_, result) => result
    case Unlocking(_, cfg) => Some(cfg)
    case _ => if Carries(loop) then Some(loop.cfg) else None
  }

  /** Once loaded, for better or worse, a posted reload is answered accordingly. */
  lemma {:induction false} OwedIsAnswered(s: State, steps: seq<Step>, k: nat)
    requires Schedule(s, steps) && k < |s.reloads| && s.reloads[k].Awaiting?
    requires OriginOf(s.loop) == Some(Posted(k)) && !s.loop.Loading?
    ensures k < |Run(s, steps).reloads|
    ensures
      var reload := Run(s, steps).reloads[k];
      reload.Awaiting? || (reload.Answered? && reload.result == Owed(s.loop))
    decreases |steps|
  {
    if steps != [] {
      var t := Next(s, steps[0]);
      if !steps[0].LoopStep? {
        LoopWaits(s, steps[0]);
        ReloadWaits(s, steps[0], k);
        OwedIsAnswered(t, steps[1..], k);
      } else if s.loop.Answering? {
        AnsweredOnce(t, steps[1..], k);
      } else {
        OwedIsAnswered(t, steps[1..], k);
      }
    }
  }

  lemma ReloadWaits(s: State, step: Step, k: nat)
    requires Enabled(s, step) && !step.LoopStep? && k < |s.reloads| && s.reloads[k].Awaiting?
    ensures k < |Next(s, step).reloads| && Next(s, step).reloads[k] == s.reloads[k]
  {
    if step.RequestStep? {
      RequestLeavesTheLoop(s, step.r, step.ok, step.buffers);
    }
  }

  /**
   From any state on: the answer to a posted reload is the result of its load. A load
   that gave a configuration is never answered with an error, nor the other way round.
   */
  lemma LoadsAreAnswered(s: State, steps: seq<Step>, k: nat, load: Option<Config>)
    requires ReloadInv(s) && Schedule(s, steps) && steps != []
    requires s.loop == Loading(Posted(k)) && steps[0] == LoopStep(load)
    ensures k < |Run(s, steps).reloads|
    ensures
      var reload := Run(s, steps).reloads[k];
      reload.Awaiting? || (reload.Answered? && reload.result == load)
  {
    OwedIsAnswered(Next(s, steps[0]), steps[1..], k);
  }

  /** The load of the reload k still has to come. */
  predicate Unloaded(s: State, k: nat) {
    k >= |s.reloads| || s.reloads[k].Offering? || (s.reloads[k].Awaiting? && s.loop == Loading(Posted(k)))
  }

  lemma UnloadedStep(s: State, step: Step, k: nat)
    requires ControlInv(s) && ReloadInv(s) && Enabled(s, step) && Unloaded(s, k)
    requires !(s.loop == Loading(Posted(k)) && step.LoopStep?)
    ensures Unloaded(Next(s, step), k)
  {
    if step.RequestStep? {
      RequestLeavesTheLoop(s, step.r, step.ok, step.buffers);
    } else if step.LoopStep? && k < |s.reloads| {
      assert s.reloads[k].Offering?;
    }
  }

  lemma {:induction false} AnswerHappened(s: State, steps: seq<Step>, k: nat)
    requires Inv(s) && ReloadInv(s) && Schedule(s, steps) && Unloaded(s, k)
    requires k < |Run(s, steps).reloads| && Run(s, steps).reloads[k].Answered?
    ensures Happened(s, steps, Loads(Posted(k), Run(s, steps).reloads[k].result))
    decreases |steps|
  {
    if steps != [] {
      if s.loop == Loading(Posted(k)) && steps[0].LoopStep? {
        LoadsAreAnswered(s, steps, k, steps[0].load);
      } else {
        UnloadedStep(s, steps[0], k);
        StepKeepsInv(s, steps[0]);
        StepKeepsReloads(s, steps[0]);
        AnswerHappened(Next(s, steps[0]), steps[1..], k);
      }
    }
  }

  /**
   In every run a posted reload answered with an error had a load that failed, and one
   answered without had a load that gave the configuration now in force. So a run whose
   loads all succeed answers none with an error.
   */
  lemma AnswersAreOfLoads(cfg: Config, steps: seq<Step>, k: nat)
    requires Schedule(Init(cfg), steps)
    requires k < |Run(Init(cfg), steps).reloads| && Run(Init(cfg), steps).reloads[k].Answered?
    ensures Happened(Init(cfg), steps, Loads(Posted(k), Run(Init(cfg), steps).reloads[k].result))
  {
    InitHistory(cfg);
    AnswerHappened(Init(cfg), steps, k);
  }

  // ---------------------------------------------------------------- no deadlock

  /** Something the process owes: a request, a reload, or the loop's work. */
  predicate Owes(s: State) {
    || !s.loop.Idle?
    || (exists r | 0 <= r < |s.requests| :: !s.requests[r].pc.Finished?)
    || (exists k | 0 <= k < |s.reloads| :: !s.reloads[k].Answered?)
  }

  predicate Internal(step: Step) {
    step.LoopStep? || step.RequestStep? || step.Take?
  }

  ghost predicate CanMove(s: State) {
    exists step: Step :: Internal(step) && Enabled(s, step)
  }

  lemma RequestCanMove(s: State, r: nat)
    requires RequestEnabled(s, r)
    ensures CanMove(s)
  {
    var step := RequestStep(r, true, []);
    assert Internal(step) && Enabled(s, step);
  }

  /** Whoever holds the mutex can go on. */
  lemma HolderCanMove(s: State, r: nat)
    requires Inv(s) && r < |s.requests| && InMutex(s.requests[r].pc)
    ensures RequestEnabled(s, r)
    ensures s.requests[r].pc.Copying? || s.requests[r].pc.Dialling? ==>
              |s.requests[r].tries| < |s.requests[r].buffers|
  {
    var req, g := s.requests[r], s.requests[r].pc.client;
    assert Holds(s, r, g) && Holder(s) == Some(r);
    if req.pc.Copying? || req.pc.Dialling? {
      SendMore(View(After(s.log), g), s.built[g].cfg.reconnectInterval, req.buffers, req.tries,
               Attempt(0, None, false));
    }
  }

  /** Nobody waits for the read lock in vain, nor for the mutex. */
  lemma ReaderCanMove(s: State, r: nat)
    requires Inv(s) && r in s.readers
    ensures CanMove(s)
  {
    var pc := s.requests[r].pc;
    if InMutex(pc) {
      HolderCanMove(s, r);
      RequestCanMove(s, r);
    } else if pc.Prepared? && s.built[pc.client].mutex.Some? {
      var q := s.built[pc.client].mutex.value;
      assert Holds(s, q, pc.client);
      HolderCanMove(s, q);
      RequestCanMove(s, q);
    } else {
      RequestCanMove(s, r);
    }
  }

  lemma LoopCanMove(s: State)
    requires Inv(s) && ReloadInv(s) && s.readers == {} && !s.loop.Idle?
    ensures CanMove(s)
  {
    if s.loop.ShuttingWriters? || s.loop.ShuttingReaders? {
      NoHolder(s);
    }
    var step := LoopStep(None);
    assert Internal(step) && Enabled(s, step);
  }

  /** The loop has asked for the write lock, or has it. */
  predicate Reserved(loop: Loop) {
    loop.Waiting? || loop.ShuttingWriters? || loop.ShuttingReaders? || loop.Building? || loop.Unlocking?
  }

  /**
   Requests that arrive cannot hold a reload up: none takes the read lock from the time
   the loop asks for the write lock until it gives that back; at any other time they can.
   */
  lemma WriterGoesFirst(s: State, step: Step)
    requires ControlInv(s) && Enabled(s, step)
    ensures Reserved(s.loop) ==> Next(s, step).readers <= s.readers
    ensures forall r: nat | r < |s.requests| && s.requests[r].pc == Arrived ::
              RequestEnabled(s, r) <==> !Reserved(s.loop)
  {
    match step {
      case RequestStep(r, ok, buffers) => ReadersOf(s, r, ok, buffers);
      case _ =>
    }
  }

  lemma ReadersOf(s: State, r: nat, ok: bool, buffers: seq<bytes>)
    requires RequestEnabled(s, r)
    ensures s.requests[r].pc != Arrived ==> RequestNext(s, r, ok, buffers).readers <= s.readers
  {
  }

  /** No reachable state is deadlocked. */
  lemma NeverStuck(s: State)
    requires Inv(s) && ReloadInv(s)
    ensures Owes(s) ==> CanMove(s)
  {
    if s.readers != {} {
      var r :| r in s.readers;
      ReaderCanMove(s, r);
    } else if !s.loop.Idle? {
      LoopCanMove(s);
    } else if r :| 0 <= r < |s.requests| && !s.requests[r].pc.Finished? {
      assert r !in s.readers;
      RequestCanMove(s, r);
    } else if k :| 0 <= k < |s.reloads| && !s.reloads[k].Answered? {
      var step := Take(k);
      assert Internal(step) && Enabled(s, step);
    }
  }

  // --------------------------------------------------------------- termination

  function Rank(req: Request): int {
    var left := |req.buffers| - |req.tries|;
    match req.pc
    case Arrived => 7
    case Entered => 6
    case Started(_) => 5
    case Prepared(_) => 4 + 3 * |req.buffers|
    case Holding(_) => 3 + 3 * |req.buffers|
    case Choosing(_) => 2 + 3 * left
    case Dialling(_, _) => 1 + 3 * left
    case Copying(_, _, _) => 3 * left
    case Replying => 1
    case Finished => 0
  }

  function LoopRank(loop: Loop): nat {
    match loop
    case Idle => 0
    case Answering(_, _) => 1
    case Unlocking(_, _) => 2
    case Building(_, _) => 3
    case ShuttingReaders(_, _) => 4
    case ShuttingWriters(_, _) => 5
    case Waiting(_, _) => 6
    case Loaded(_, _) => 7
    case Loading(_) => 8
  }

  function RequestRanks(requests: seq<Request>): int
    decreases |requests|
  {
    if requests == [] then 0
    else RequestRanks(requests[..|requests| - 1]) + Rank(requests[|requests| - 1])
  }

  function ReloadRanks(reloads: seq<Reload>): nat
    decreases |reloads|
  {
    if reloads == [] then 0
    else ReloadRanks(reloads[..|reloads| - 1]) + if reloads[|reloads| - 1].Offering? then 9 else 0
  }

  /** The internal steps that the process may still take. */
  function Measure(s: State): int {
    RequestRanks(s.requests) + ReloadRanks(s.reloads) + LoopRank(s.loop)
  }

  /** What a step may add to it. */
  function Grant(step: Step): nat {
    match step
    case Arrive(_) => 7
    case Post => 9
    case Hup => 8
    case RequestStep(_, _, buffers) => 3 * |buffers|
    case _ => 0
  }

  lemma {:induction false} RequestRanksUpdate(requests: seq<Request>, r: nat, req: Request)
    requires r < |requests|
    ensures RequestRanks(requests[r := req]) == RequestRanks(requests) - Rank(requests[r]) + Rank(req)
    decreases |requests|
  {
    var n := |requests| - 1;
    if r < n {
      RequestRanksUpdate(requests[..n], r, req);
      assert requests[r := req][..n] == requests[..n][r := req];
    } else {
      assert requests[r := req][..n] == requests[..n];
    }
  }

  lemma {:induction false} ReloadRanksUpdate(reloads: seq<Reload>, k: nat, reload: Reload)
    requires k < |reloads| && !reload.Offering?
    ensures ReloadRanks(reloads[k := reload]) ==
              ReloadRanks(reloads) - if reloads[k].Offering? then 9 else 0
    decreases |reloads|
  {
    var n := |reloads| - 1;
    if k < n {
      ReloadRanksUpdate(reloads[..n], k, reload);
      assert reloads[k := reload][..n] == reloads[..n][k := reload];
    } else {
      assert reloads[k := reload][..n] == reloads[..n];
    }
  }

  lemma OutsideDescends(s: State, r: nat, ok: bool, buffers: seq<bytes>)
    requires RequestEnabled(s, r) && !InMutex(s.requests[r].pc)
    ensures Rank(RequestNext(s, r, ok, buffers).requests[r]) < Rank(s.requests[r]) + 3 * |buffers|
  {
  }

  lemma InsideDescends(s: State, r: nat, ok: bool, buffers: seq<bytes>)
    requires RequestEnabled(s, r) && InMutex(s.requests[r].pc)
    requires
      var left := |s.requests[r].buffers| - |s.requests[r].tries|;
      match s.requests[r].pc
      case Holding(_) => s.requests[r].tries == []
      case Choosing(_) => left >= 0
      case _ => left > 0
    ensures Rank(RequestNext(s, r, ok, buffers).requests[r]) < Rank(s.requests[r])
  {
    var req, t := s.requests[r], RequestNext(s, r, ok, buffers).requests[r];
    assert t.buffers == req.buffers;
    assert |t.tries| == |req.tries| || (|t.tries| == |req.tries| + 1 && (t.pc.Choosing? || t.pc.Replying?));
  }

  lemma RequestDescends(s: State, r: nat, ok: bool, buffers: seq<bytes>)
    requires Inv(s) && RequestEnabled(s, r)
    ensures Rank(RequestNext(s, r, ok, buffers).requests[r]) < Rank(s.requests[r]) + 3 * |buffers|
  {
    if InMutex(s.requests[r].pc) {
      HolderCanMove(s, r);
      CallIsWithinBuffers(s, r);
      InsideDescends(s, r, ok, buffers);
    } else {
      OutsideDescends(s, r, ok, buffers);
    }
  }

  /** At the top of the loop there is at most one attempt a buffer. */
  lemma CallIsWithinBuffers(s: State, r: nat)
    requires Inv(s) && r < |s.requests|
    ensures s.requests[r].pc.Choosing? ==> |s.requests[r].tries| <= |s.requests[r].buffers|
    ensures s.requests[r].pc.Holding? ==> s.requests[r].tries == []
  {
    if InMutex(s.requests[r].pc) {
      assert Holds(s, r, s.requests[r].pc.client) && Holder(s) == Some(r);
    }
  }

  lemma RequestStepDescends(s: State, r: nat, ok: bool, buffers: seq<bytes>)
    requires Inv(s) && RequestEnabled(s, r)
    ensures Measure(RequestNext(s, r, ok, buffers)) < Measure(s) + 3 * |buffers|
  {
    OneRequestMoves(s, r, ok, buffers);
    RequestLeavesTheLoop(s, r, ok, buffers);
    RequestDescends(s, r, ok, buffers);
    RequestRanksUpdate(s.requests, r, RequestNext(s, r, ok, buffers).requests[r]);
  }

  lemma ArrivalRanks(s: State, kind: Kind)
    ensures RequestRanks(s.requests + [Request(kind, Arrived, [], [], Pending)]) == RequestRanks(s.requests) + 7
    ensures ReloadRanks(s.reloads + [Offering]) == ReloadRanks(s.reloads) + 9
  {
    assert (s.requests + [Request(kind, Arrived, [], [], Pending)])[..|s.requests|] == s.requests;
    assert (s.reloads + [Offering])[..|s.reloads|] == s.reloads;
  }

  lemma TakeDescends(s: State, k: nat)
    requires Enabled(s, Take(k))
    ensures Measure(Next(s, Take(k))) < Measure(s)
  {
    ReloadRanksUpdate(s.reloads, k, Awaiting(Snapshot(s.cfg, s.current)));
  }

  lemma OtherStepDescends(s: State, step: Step)
    requires Enabled(s, step) && !step.RequestStep? && !step.LoopStep?
    ensures Measure(Next(s, step)) + (if step.Take? then 1 else 0) <= Measure(s) + Grant(step)
  {
    match step {
      case Take(k) => TakeDescends(s, k);
      case Arrive(kind) => ArrivalRanks(s, kind);
      case Post => ArrivalRanks(s, ReadRequest);
      case _ =>
    }
  }

  lemma StepDescends(s: State, step: Step)
    requires Inv(s) && Enabled(s, step)
    ensures Measure(Next(s, step)) + (if Internal(step) then 1 else 0) <= Measure(s) + Grant(step)
  {
    if step.RequestStep? {
      RequestStepDescends(s, step.r, step.ok, step.buffers);
    } else if step.LoopStep? {
      LoopDescends(s, step.load);
    } else {
      OtherStepDescends(s, step);
    }
  }

  lemma LoopDescends(s: State, load: Option<Config>)
    requires LoopEnabled(s)
    ensures Measure(LoopNext(s, load)) < Measure(s)
  {
    if s.loop.Answering? {
      ReloadRanksUpdate(s.reloads, s.loop.reload, LoopNext(s, load).reloads[s.loop.reload]);
    }
  }

  function Grants(steps: seq<Step>): nat
    decreases |steps|
  {
    if steps == [] then 0 else Grant(steps[0]) + Grants(steps[1..])
  }

  function InternalSteps(steps: seq<Step>): nat
    decreases |steps|
  {
    if steps == [] then 0 else (if Internal(steps[0]) then 1 else 0) + InternalSteps(steps[1..])
  }

  lemma {:induction false} RunDescends(s: State, steps: seq<Step>)
    requires Inv(s) && Schedule(s, steps)
    ensures Measure(Run(s, steps)) + InternalSteps(steps) <= Measure(s) + Grants(steps)
    decreases |steps|
  {
    if steps != [] {
      StepKeepsInv(s, steps[0]);
      StepDescends(s, steps[0]);
      RunDescends(Next(s, steps[0]), steps[1..]);
    }
  }

  lemma RankIsNatural(s: State, r: nat)
    requires Inv(s) && r < |s.requests|
    ensures Rank(s.requests[r]) >= 0
  {
    CallIsWithinBuffers(s, r);
    if InMutex(s.requests[r].pc) {
      HolderCanMove(s, r);
    }
  }

  lemma {:induction false} RanksAreNatural(requests: seq<Request>)
    requires forall r | 0 <= r < |requests| :: Rank(requests[r]) >= 0
    ensures RequestRanks(requests) >= 0
    decreases |requests|
  {
    if requests != [] {
      RanksAreNatural(requests[..|requests| - 1]);
    }
  }

  lemma MeasureIsNatural(s: State)
    requires Inv(s)
    ensures Measure(s) >= 0
  {
    forall r | 0 <= r < |s.requests| ensures Rank(s.requests[r]) >= 0 {
      RankIsNatural(s, r);
    }
    RanksAreNatural(s.requests);
  }

  lemma InitMeasure(cfg: Config)
    ensures Measure(Init(cfg)) == 7 && ReloadInv(Init(cfg))
  {
  }

  /**
   In every run the process takes at most 7 steps for startup, 7 for a request and
   3 more for each of its buffers, 9 for a posted reload and 8 for a signal; and as
   long as it owes an answer it can take one.
   */
  lemma EverythingIsAnswered(cfg: Config, steps: seq<Step>)
    requires Schedule(Init(cfg), steps)
    ensures InternalSteps(steps) <= 7 + Grants(steps)
    ensures Owes(Run(Init(cfg), steps)) ==> CanMove(Run(Init(cfg), steps))
  {
    InitHistory(cfg);
    InitMeasure(cfg);
    RunKeepsReloads(Init(cfg), steps);
    RunDescends(Init(cfg), steps);
    MeasureIsNatural(Run(Init(cfg), steps));
    NeverStuck(Run(Init(cfg), steps));
  }
}
