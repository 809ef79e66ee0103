/**
 The adapter's process (web/handler.go, web/write.go, web/read.go, main.go): write
 and read requests under the read lock of the handler, each write's call of the
 client under the client's mutex, and the event loop that reloads the configuration
 and swaps the clients under the write lock.

 A state and a step determine the next state. What the environment decides - which
 goroutine moves, whether a request parses, a context is cancelled, a dial or a copy
 succeeds, a configuration loads - is in the step. `log` records the operations on
 connections in the order in which they gave the connection up; nothing reads it.

 Besides the reload loop any goroutine may call Shutdown of any client at any time:
 only the client's mutex keeps it apart from the writes.
 */
module Process {
  import opened Wrappers
  import opened Bytes
  import opened CarbonClient

  /** `version` stands for the rest of the configuration. */
  datatype Config = Config(carbonAddress: bytes, readUrl: bytes, reconnectInterval: int, version: nat)

  /** NewClient returns nil when there is nothing to write to or to read from. */
  predicate HasClient(cfg: Config) {
    cfg.carbonAddress != [] || cfg.readUrl != []
  }

  /** A client, current or retired: its configuration and the holder of its mutex. */
  datatype Built = Built(cfg: Config, mutex: Option<nat>)

  /** The connection fields of every client, and the network. */
  datatype World = World(links: seq<Link>, net: Net)

  datatype Kind = ReadRequest | WriteRequest(dryRun: bool)

  datatype Pc =
    | Arrived
    | Entered                                               // the read lock is held
    | Started(client: nat)                                  // in the client's Write or Read
    | Prepared(client: nat)                                 // waits for the mutex
    | Holding(client: nat)                                  // holds the mutex
    | Choosing(client: nat)                                 // top of the loop over the buffers
    | Dialling(client: nat, now: int)
    | Copying(client: nat, now: int, dial: Option<int>)
    | Replying                                              // the mutex is free again
    | Finished

  datatype Answer = Pending | Untouched | Cancelled | Ended(outcome: Outcome)

  /** `tries` has one attempt for each buffer copied so far. */
  datatype Request = Request(kind: Kind, pc: Pc, buffers: seq<bytes>, tries: seq<Attempt>, answer: Answer)

  datatype Origin = Startup | Hangup | Posted(reload: nat)

  datatype Loop =
    | Idle
    | Loading(origin: Origin)
    | Loaded(origin: Origin, cfg: Config)
    | Waiting(origin: Origin, cfg: Config)                  // asked for the write lock
    | ShuttingWriters(origin: Origin, cfg: Config)
    | ShuttingReaders(origin: Origin, cfg: Config)
    | Building(origin: Origin, cfg: Config)
    | Unlocking(origin: Origin, cfg: Config)
    | Answering(reload: nat, result: Option<Config>)

  datatype Snapshot = Snapshot(cfg: Config, current: Option<nat>)

  /** A posted reload; the snapshots are taken when the loop takes and answers it. */
  datatype Reload =
    | Offering
    | Awaiting(before: Snapshot)
    | Answered(result: Option<Config>, before: Snapshot, after: Snapshot)

  datatype Op =
    | Build
    | Shut(client: nat)
    | Call(request: nat, client: nat, interval: int, buffers: seq<bytes>, tries: seq<Attempt>)

  /** `current` is the one client in both the writers and the readers of the handler. */
  datatype State = State(
    clock: int,
    cfg: Config, current: Option<nat>, built: seq<Built>, world: World,
    readers: set<nat>, writing: bool,
    requests: seq<Request>, reloads: seq<Reload>, loop: Loop, serving: bool,
    log: seq<Op>)

  datatype Step =
    | Tick(d: nat)
    | Arrive(kind: Kind)
    | Hup
    | Post
    | Take(k: nat)
    | ShutdownStep(g: nat)                                  // by any goroutine, at any time
    | LoopStep(load: Option<Config>)
    | RequestStep(r: nat, ok: bool, buffers: seq<bytes>)

  // --------------------------------------------------------------- the clients

  function View(w: World, g: nat): Ends
    requires g < |w.links|
  {
    Ends(w.links[g], w.net)
  }

  function Put(w: World, g: nat, x: Ends): World
    requires g < |w.links|
  {
    World(w.links[g := x.link], x.net)
  }

  const NEW_LINK := Link(None, 0)

  /** buildClients */
  function Rebuilt(s: State, cfg: Config): State {
    if HasClient(cfg) then
      s.(cfg := cfg, current := Some(|s.built|), built := s.built + [Built(cfg, None)],
         world := s.world.(links := s.world.links + [NEW_LINK]), log := s.log + [Build])
    else s.(cfg := cfg, current := None)
  }

  /** A call of Shutdown goes on once it has the client's mutex. */
  predicate CanShutDown(s: State, g: nat) {
    g < |s.built| == |s.world.links| && s.built[g].mutex.None?
  }

  /** Shutdown of a client: lock, disconnect, unlock. */
  function ShutdownOf(s: State, g: nat): State
    requires CanShutDown(s, g)
  {
    s.(world := Put(s.world, g, Disconnected(View(s.world, g))), log := s.log + [Shut(g)])
  }

  predicate CanShut(s: State) {
    s.current.Some? ==> CanShutDown(s, s.current.value)
  }

  /** Shutdown of the current client, if there is one, by the reload loop. */
  function Shutdown(s: State): State
    requires CanShut(s)
  {
    match s.current
    case None => s
    case Some(g) => ShutdownOf(s, g)
  }

  // -------------------------------------------------------------------- requests

  predicate InRead(pc: Pc) {
    !pc.Arrived? && !pc.Finished?
  }

  predicate InMutex(pc: Pc) {
    pc.Holding? || pc.Choosing? || pc.Dialling? || pc.Copying?
  }

  predicate InClient(pc: Pc) {
    pc.Started? || pc.Prepared? || InMutex(pc)
  }

  function Move(s: State, r: nat, pc: Pc): State
    requires r < |s.requests|
  {
    s.(requests := s.requests[r := s.requests[r].(pc := pc)])
  }

  function Reply(s: State, r: nat, answer: Answer): State
    requires r < |s.requests|
  {
    s.(requests := s.requests[r := s.requests[r].(pc := Replying, answer := answer)])
  }

  function Lock(s: State, r: nat, g: nat): State
    requires r < |s.requests| && g < |s.built|
  {
    Move(s, r, Holding(g)).(built := s.built[g := s.built[g].(mutex := Some(r))])
  }

  function Unlock(s: State, r: nat, g: nat, answer: Answer): State
    requires r < |s.requests| && g < |s.built|
  {
    Reply(s, r, answer).(built := s.built[g := s.built[g].(mutex := None)])
  }

  /** The end of a call that used the connection. */
  function EndCall(s: State, r: nat, g: nat, x: Ends, tries: seq<Attempt>, outcome: Outcome): State
    requires r < |s.requests| && g < |s.built| == |s.world.links|
  {
    var req := s.requests[r].(pc := Replying, tries := tries, answer := Ended(outcome));
    s.(requests := s.requests[r := req],
       built := s.built[g := s.built[g].(mutex := None)],
       world := Put(s.world, g, x),
       log := s.log + [Call(r, g, s.built[g].cfg.reconnectInterval, req.buffers, tries)])
  }

  /** A request takes the read lock unless the loop has it or waits for it. */
  predicate RequestEnabled(s: State, r: nat) {
    r < |s.requests| &&
    var pc := s.requests[r].pc;
    && (InClient(pc) ==> pc.client < |s.built| == |s.world.links|)
    && match pc
       case Arrived => !s.writing && !s.loop.Waiting?
       case Prepared(g) => s.built[g].mutex.None?
       case Copying(g, _, _) =>
         s.world.links[g].carbonCon.Some? && |s.requests[r].tries| < |s.requests[r].buffers|
       case Finished => false
       case _ => true
  }

  function ChooseNext(s: State, r: nat, g: nat): State
    requires r < |s.requests| && g < |s.built| == |s.world.links|
  {
    var req, x, interval := s.requests[r], View(s.world, g), s.built[g].cfg.reconnectInterval;
    if |req.tries| >= |req.buffers| then EndCall(s, r, g, x, req.tries, Done)
    else if Reusable(x.link, s.clock, interval) then Move(s, r, Copying(g, s.clock, None))
    else Move(s, r, Dialling(g, s.clock)).(world := Put(s.world, g, Disconnected(x)))
  }

  function DialNext(s: State, r: nat, g: nat, now: int, ok: bool): State
    requires r < |s.requests| && g < |s.built| == |s.world.links|
  {
    var req, x := s.requests[r], View(s.world, g);
    if ok then
      Move(s, r, Copying(g, now, Some(s.clock))).(world := Put(s.world, g, Dialled(x, Some(s.clock))))
    else EndCall(s, r, g, Dialled(x, None), req.tries + [Attempt(now, None, false)], Refused)
  }

  function CopyNext(s: State, r: nat, g: nat, now: int, dial: Option<int>, ok: bool): State
    requires r < |s.requests| && g < |s.built| == |s.world.links|
    requires s.world.links[g].carbonCon.Some? && |s.requests[r].tries| < |s.requests[r].buffers|
  {
    var req := s.requests[r];
    var tries := req.tries + [Attempt(now, dial, ok)];
    var chosen := if dial.Some? then dial.value else now;
    var x := Copied(View(s.world, g), req.buffers[|req.tries|], chosen, ok);
    if Succeeds(req.buffers[|req.tries|], ok) then
      s.(requests := s.requests[r := req.(pc := Choosing(g), tries := tries)], world := Put(s.world, g, x))
    else EndCall(s, r, g, x, tries, Lost)
  }

  function RequestNext(s: State, r: nat, ok: bool, buffers: seq<bytes>): State
    requires RequestEnabled(s, r)
  {
    var req := s.requests[r];
    match req.pc
    case Arrived => Move(s, r, Entered).(readers := s.readers + {r})
    case Entered =>
      if ok && s.current.Some? then Move(s, r, Started(s.current.value)) else Reply(s, r, Untouched)
    case Started(g) =>
      if req.kind.ReadRequest? || req.kind.dryRun || s.built[g].cfg.carbonAddress == [] then
        Reply(s, r, Untouched)
      else
        s.(requests := s.requests[r := req.(pc := Prepared(g), buffers := buffers)])
    case Prepared(g) => Lock(s, r, g)
    case Holding(g) => if ok then Move(s, r, Choosing(g)) else Unlock(s, r, g, Cancelled)
    case Choosing(g) => ChooseNext(s, r, g)
    case Dialling(g, now) => DialNext(s, r, g, now, ok)
    case Copying(g, now, dial) => CopyNext(s, r, g, now, dial, ok)
    case Replying => Move(s, r, Finished).(readers := s.readers - {r})
    case Finished => s
  }

  // -------------------------------------------------------------------- the loop

  predicate LoopEnabled(s: State) {
    match s.loop
    case Idle => false
    case Waiting(_, _) => s.readers == {}
    case ShuttingWriters(_, _) => CanShut(s)
    case ShuttingReaders(_, _) => CanShut(s)
    case Answering(k, _) => k < |s.reloads| && s.reloads[k].Awaiting?
    case _ => true
  }

  /** After a load or after ApplyConfig: a posted reload is owed an answer. */
  function Conclude(s: State, origin: Origin, result: Option<Config>): State {
    match origin
    case Posted(k) => s.(loop := Answering(k, result))
    case _ => s.(loop := Idle, serving := s.serving || origin.Startup?)
  }

  function LoopNext(s: State, load: Option<Config>): State
    requires LoopEnabled(s)
  {
    match s.loop
    case Idle => s
    case Loading(o) =>
      (match load
       case None => Conclude(s, o, None)
       case Some(cfg) => s.(loop := Loaded(o, cfg)))
    case Loaded(o, cfg) => s.(loop := Waiting(o, cfg))
    case Waiting(o, cfg) => s.(writing := true, loop := ShuttingWriters(o, cfg))
    case ShuttingWriters(o, cfg) => Shutdown(s).(loop := ShuttingReaders(o, cfg))
    case ShuttingReaders(o, cfg) => Shutdown(s).(loop := Building(o, cfg))
    case Building(o, cfg) => Rebuilt(s, cfg).(loop := Unlocking(o, cfg))
    case Unlocking(o, cfg) => Conclude(s.(writing := false), o, Some(cfg))
    case Answering(k, result) =>
      s.(loop := Idle,
         reloads := s.reloads[k := Answered(result, s.reloads[k].before, Snapshot(s.cfg, s.current))])
  }

  // ------------------------------------------------------------------------ runs

  predicate Enabled(s: State, step: Step) {
    match step
    case Tick(_) => true
    case Arrive(_) => s.serving
    case Post => s.serving
    case Hup => s.loop.Idle?
    case Take(k) => s.loop.Idle? && k < |s.reloads| && s.reloads[k].Offering?
    case ShutdownStep(g) => CanShutDown(s, g)
    case LoopStep(_) => LoopEnabled(s)
    case RequestStep(r, _, _) => RequestEnabled(s, r)
  }

  function Next(s: State, step: Step): State
    requires Enabled(s, step)
  {
    match step
    case Tick(d) => s.(clock := s.clock + d)
    case Arrive(kind) => s.(requests := s.requests + [Request(kind, Arrived, [], [], Pending)])
    case Post => s.(reloads := s.reloads + [Offering])
    case Hup => s.(loop := Loading(Hangup))
    case Take(k) =>
      s.(loop := Loading(Posted(k)), reloads := s.reloads[k := Awaiting(Snapshot(s.cfg, s.current))])
    case ShutdownStep(g) => ShutdownOf(s, g)
    case LoopStep(load) => LoopNext(s, load)
    case RequestStep(r, ok, buffers) => RequestNext(s, r, ok, buffers)
  }

  /** web.New builds the clients; main then applies the same configuration once more. */
  function Init(cfg: Config): State {
    Rebuilt(State(0, cfg, None, [], World([], Net([], {}, [])), {}, false,
                  [], [], Loaded(Startup, cfg), false, []), cfg)
  }

  predicate Schedule(s: State, steps: seq<Step>)
    decreases |steps|
  {
    steps == [] || (Enabled(s, steps[0]) && Schedule(Next(s, steps[0]), steps[1..]))
  }

  function Run(s: State, steps: seq<Step>): State
    requires Schedule(s, steps)
    decreases |steps|
  {
    if steps == [] then s else Run(Next(s, steps[0]), steps[1..])
  }

  /** Some step of the run is such an event. */
  ghost predicate Happened(s: State, steps: seq<Step>, event: (State, Step) -> bool)
    requires Schedule(s, steps)
    decreases |steps|
  {
    steps != [] && (event(s, steps[0]) || Happened(Next(s, steps[0]), steps[1..], event))
  }

  // ------------------------------------------------------------- the two locks

  /** The read-write lock of the handler. */
  ghost predicate LockInv(s: State) {
    && (forall r: nat :: r in s.readers <==> r < |s.requests| && InRead(s.requests[r].pc))
    && (s.writing <==>
          s.loop.ShuttingWriters? || s.loop.ShuttingReaders? || s.loop.Building? || s.loop.Unlocking?)
    && (s.writing ==> s.readers == {})
  }

  /** Whoever is inside a client is inside the current one, built from the current configuration. */
  predicate ClientInv(s: State) {
    && |s.world.links| == |s.built|
    && (s.current.Some? <==> HasClient(s.cfg))
    && (s.current.Some? ==> s.current.value + 1 == |s.built| && s.built[s.current.value].cfg == s.cfg)
    && (forall r | 0 <= r < |s.requests| && InClient(s.requests[r].pc) ::
          s.current == Some(s.requests[r].pc.client))
  }

  /** The mutexes of the clients. */
  predicate MutexInv(s: State) {
    && (forall r | 0 <= r < |s.requests| && InMutex(s.requests[r].pc) ::
          s.requests[r].pc.client < |s.built| && s.built[s.requests[r].pc.client].mutex == Some(r))
    && (forall g | 0 <= g < |s.built| && s.built[g].mutex.Some? ::
          Holds(s, s.built[g].mutex.value, g))
  }

  predicate Holds(s: State, r: nat, g: int) {
    r < |s.requests| && InMutex(s.requests[r].pc) && s.requests[r].pc.client == g
  }

  /** Only the current client can hold a connection, and not once it is shut down. */
  predicate RetiredInv(s: State) {
    |s.world.links| == |s.built| &&
    forall g | 0 <= g < |s.built| && s.world.links[g].carbonCon.Some? ::
      s.current == Some(g) && !s.loop.ShuttingReaders? && !s.loop.Building?
  }

  ghost predicate ControlInv(s: State) {
    LockInv(s) && ClientInv(s) && MutexInv(s) && RetiredInv(s)
  }

  lemma InitControl(cfg: Config)
    ensures ControlInv(Init(cfg))
  {
  }

  lemma EndCallKeepsControl(s: State, r: nat, g: nat, x: Ends, tries: seq<Attempt>, outcome: Outcome)
    requires ControlInv(s) && Holds(s, r, g) && g < |s.built|
    ensures ControlInv(EndCall(s, r, g, x, tries, outcome))
  {
  }

  /** The holder of the mutex goes on. */
  lemma StayKeepsControl(s: State, r: nat, g: nat, req: Request, x: Ends)
    requires ControlInv(s) && Holds(s, r, g) && g < |s.built|
    requires InMutex(req.pc) && req.pc.client == g
    ensures ControlInv(s.(requests := s.requests[r := req], world := Put(s.world, g, x)))
    ensures ControlInv(s.(requests := s.requests[r := req]))
  {
  }

  lemma MutexKeepsControl(s: State, r: nat, ok: bool, buffers: seq<bytes>)
    requires ControlInv(s) && RequestEnabled(s, r) && InMutex(s.requests[r].pc)
    ensures ControlInv(RequestNext(s, r, ok, buffers))
  {
    var req, g := s.requests[r], s.requests[r].pc.client;
    assert Holds(s, r, g);
    var x := View(s.world, g);
    match req.pc {
      case Holding(_) =>
        StayKeepsControl(s, r, g, req.(pc := Choosing(g)), x);
        UnlockKeepsControl(s, r, g, Cancelled);
      case Choosing(_) =>
        EndCallKeepsControl(s, r, g, x, req.tries, Done);
        StayKeepsControl(s, r, g, req.(pc := Copying(g, s.clock, None)), x);
        StayKeepsControl(s, r, g, req.(pc := Dialling(g, s.clock)), Disconnected(x));
      case Dialling(_, now) =>
        EndCallKeepsControl(s, r, g, Dialled(x, None), req.tries + [Attempt(now, None, false)], Refused);
        StayKeepsControl(s, r, g, req.(pc := Copying(g, now, Some(s.clock))), Dialled(x, Some(s.clock)));
      case Copying(_, now, dial) =>
        var tries := req.tries + [Attempt(now, dial, ok)];
        var chosen := if dial.Some? then dial.value else now;
        var y := Copied(x, req.buffers[|req.tries|], chosen, ok);
        EndCallKeepsControl(s, r, g, y, tries, Lost);
        StayKeepsControl(s, r, g, req.(pc := Choosing(g), tries := tries), y);
    }
  }

  lemma UnlockKeepsControl(s: State, r: nat, g: nat, answer: Answer)
    requires ControlInv(s) && Holds(s, r, g) && g < |s.built|
    ensures ControlInv(Unlock(s, r, g, answer))
  {
  }

  lemma LockKeepsControl(s: State, r: nat, g: nat)
    requires ControlInv(s) && r < |s.requests| && s.requests[r].pc == Prepared(g)
    requires g < |s.built| && s.built[g].mutex.None?
    ensures ControlInv(Lock(s, r, g))
  {
  }

  /** A request that has the read lock and not the mutex goes on so. */
  lemma OutsideKeepsControl(s: State, r: nat, req: Request)
    requires ControlInv(s) && r < |s.requests|
    requires InRead(s.requests[r].pc) && !InMutex(s.requests[r].pc)
    requires InRead(req.pc) && !InMutex(req.pc)
    requires InClient(req.pc) ==> s.current == Some(req.pc.client)
    ensures ControlInv(s.(requests := s.requests[r := req]))
  {
  }

  lemma ReadLockKeepsControl(s: State, r: nat)
    requires ControlInv(s) && r < |s.requests|
    ensures s.requests[r].pc.Arrived? && !s.writing ==>
              ControlInv(Move(s, r, Entered).(readers := s.readers + {r}))
    ensures s.requests[r].pc.Replying? ==>
              ControlInv(Move(s, r, Finished).(readers := s.readers - {r}))
  {
  }

  lemma RequestKeepsControl(s: State, r: nat, ok: bool, buffers: seq<bytes>)
    requires ControlInv(s) && RequestEnabled(s, r)
    ensures ControlInv(RequestNext(s, r, ok, buffers))
  {
    var pc := s.requests[r].pc;
    if InMutex(pc) {
      MutexKeepsControl(s, r, ok, buffers);
    } else if pc.Prepared? {
      LockKeepsControl(s, r, pc.client);
    } else if pc.Arrived? || pc.Replying? {
      ReadLockKeepsControl(s, r);
    } else {
      OutsideKeepsControl(s, r, RequestNext(s, r, ok, buffers).requests[r]);
    }
  }

  lemma ShutdownKeepsControl(s: State, next: Loop)
    requires ControlInv(s) && CanShut(s)
    requires s.loop.ShuttingWriters? || s.loop.ShuttingReaders?
    requires next.ShuttingReaders? || next.Building?
    ensures ControlInv(Shutdown(s).(loop := next))
  {
  }

  lemma BuildingKeepsControl(s: State, cfg: Config, next: Loop)
    requires ControlInv(s) && s.loop.Building? && next.Unlocking?
    ensures ControlInv(Rebuilt(s, cfg).(loop := next))
  {
    forall r | 0 <= r < |s.requests| ensures !InRead(s.requests[r].pc) {
      assert r !in s.readers;
    }
  }

  /** The loop moves on, and takes or gives back the write lock. */
  lemma LoopMoveKeepsControl(s: State, next: Loop, writing: bool, serving: bool)
    requires ControlInv(s)
    requires writing <==> next.ShuttingWriters? || next.Unlocking?
    requires !next.ShuttingReaders? && !next.Building?
    requires writing ==> s.readers == {}
    requires !s.loop.ShuttingReaders? && !s.loop.Building?
    ensures ControlInv(s.(loop := next, writing := writing, serving := serving))
  {
  }

  lemma LoopKeepsControl(s: State, load: Option<Config>)
    requires ControlInv(s) && LoopEnabled(s)
    ensures ControlInv(LoopNext(s, load))
  {
    var t := LoopNext(s, load);
    if s.loop.ShuttingWriters? || s.loop.ShuttingReaders? {
      ShutdownKeepsControl(s, t.loop);
    } else if s.loop.Building? {
      BuildingKeepsControl(s, s.loop.cfg, t.loop);
    } else if s.loop.Answering? {
      AnswerKeepsControl(s, t.reloads);
    } else {
      LoopMoveKeepsControl(s, t.loop, t.writing, t.serving);
    }
  }

  lemma AnswerKeepsControl(s: State, reloads: seq<Reload>)
    requires ControlInv(s) && s.loop.Answering?
    ensures ControlInv(s.(loop := Idle, reloads := reloads))
  {
  }

  /** Shutdown of any client, current or retired, while requests are in flight. */
  lemma ShutdownOfKeepsControl(s: State, g: nat)
    requires ControlInv(s) && CanShutDown(s, g)
    ensures ControlInv(ShutdownOf(s, g))
  {
  }

  lemma StepKeepsControl(s: State, step: Step)
    requires ControlInv(s) && Enabled(s, step)
    ensures ControlInv(Next(s, step))
  {
    match step {
      case RequestStep(r, ok, buffers) => RequestKeepsControl(s, r, ok, buffers);
      case LoopStep(load) => LoopKeepsControl(s, load);
      case ShutdownStep(g) => ShutdownOfKeepsControl(s, g);
      case _ =>
    }
  }
}
