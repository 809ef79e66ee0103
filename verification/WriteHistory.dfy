/**
 What the concurrent writes, shutdowns and reloads of Process do to the connections
 and to the wire is what the operations of its log do when they are performed one
 after the other, each as CarbonClient.Send and CarbonClient.Disconnected say.
 */
module WriteHistory {
  import opened Wrappers
  import opened Bytes
  import opened CarbonClient
  import opened Process

  // ------------------------------------------------------- a sequential history

  const EMPTY_WORLD := World([], Net([], {}, []))

  function Perform(w: World, op: Op): World {
    match op
    case Build => w.(links := w.links + [NEW_LINK])
    case Shut(g) => if g < |w.links| then Put(w, g, Disconnected(View(w, g))) else w
    case Call(_, g, interval, buffers, tries) =>
      if g < |w.links| then Put(w, g, Send(View(w, g), interval, buffers, tries).ends) else w
  }

  /** The world once the operations have been performed in order. */
  function After(log: seq<Op>): World
    decreases |log|
  {
    if log == [] then EMPTY_WORLD else Perform(After(log[..|log| - 1]), log[|log| - 1])
  }

  lemma AfterSnoc(log: seq<Op>, op: Op)
    ensures After(log + [op]) == Perform(After(log), op)
  {
    assert (log + [op])[..|log|] == log;
  }

  /** Writes are of the last client built; it is shut before the next is built. */
  predicate Fits(w: World, op: Op) {
    match op
    case Build => forall g | 0 <= g < |w.links| :: w.links[g].carbonCon.None?
    case Shut(g) => g < |w.links|
    case Call(_, g, _, _, _) => g + 1 == |w.links|
  }

  predicate Orderly(log: seq<Op>)
    decreases |log|
  {
    log == [] || (Orderly(log[..|log| - 1]) && Fits(After(log[..|log| - 1]), log[|log| - 1]))
  }

  lemma OrderlySnoc(log: seq<Op>, op: Op)
    requires Orderly(log) && Fits(After(log), op)
    ensures Orderly(log + [op])
  {
    assert (log + [op])[..|log|] == log;
  }

  /** The last client's connection is the only open one. */
  predicate WorldSound(w: World) {
    && (forall g | 0 <= g < |w.links| - 1 :: w.links[g].carbonCon.None?)
    && Sound(if w.links == [] then Ends(NEW_LINK, w.net) else View(w, |w.links| - 1), {})
  }

  lemma PerformIsSound(w: World, op: Op)
    requires WorldSound(w) && Fits(w, op)
    ensures WorldSound(Perform(w, op))
  {
    match op {
      case Build =>
      case Shut(g) =>
        if g + 1 == |w.links| {
          DisconnectedIsSound(View(w, g), {});
        } else {
          PutTwice(w, g, View(w, g), View(w, g));
          assert Disconnected(View(w, g)) == View(w, g);
        }
      case Call(_, g, interval, buffers, tries) => SendIsSound(View(w, g), interval, buffers, tries, {});
    }
  }

  lemma {:induction false} OrderlyIsSound(log: seq<Op>)
    requires Orderly(log)
    ensures WorldSound(After(log))
    decreases |log|
  {
    if log != [] {
      OrderlyIsSound(log[..|log| - 1]);
      PerformIsSound(After(log[..|log| - 1]), log[|log| - 1]);
    }
  }

  // ---------------------------------------------------- the call in progress

  function Holder(s: State): Option<nat> {
    if s.current.Some? && s.current.value < |s.built| then s.built[s.current.value].mutex else None
  }

  function SoFar(x: Ends, interval: int, req: Request): Sending {
    Send(x, interval, req.buffers, req.tries)
  }

  /** Where a call that began at x has got to. */
  function Reached(x: Ends, interval: int, req: Request): Ends {
    var y := SoFar(x, interval, req).ends;
    match req.pc
    case Choosing(_) => y
    case Dialling(_, _) => Disconnected(y)
    case Copying(_, now, dial) => Connected(y, interval, now, dial)
    case _ => x
  }

  predicate CallOk(x: Ends, interval: int, req: Request) {
    var y := SoFar(x, interval, req);
    match req.pc
    case Choosing(_) => |req.tries| <= |req.buffers| && y.outcome in {Unfinished, Done}
    case Dialling(_, now) => y.outcome.Unfinished? && !Reusable(y.ends.link, now, interval)
    case Copying(_, now, dial) =>
      && y.outcome.Unfinished?
      && (dial.None? <==> Reusable(y.ends.link, now, interval))
    case _ => true
  }

  /** A request not answered yet has made attempts only under the mutex. */
  predicate Unanswered(req: Request) {
    req.answer.Pending? && (req.tries == [] || (InMutex(req.pc) && !req.pc.Holding?))
  }

  predicate BeforeReply(pc: Pc) {
    !pc.Replying? && !pc.Finished?
  }

  /** Only writes that are not dry runs, of clients with a carbon address, wait for the mutex. */
  predicate MaySend(s: State, req: Request) {
    req.pc.Prepared? || InMutex(req.pc) ==>
      && req.kind == WriteRequest(false)
      && req.pc.client < |s.built| && s.built[req.pc.client].cfg.carbonAddress != []
  }

  predicate FreshInv(s: State) {
    forall r | 0 <= r < |s.requests| && BeforeReply(s.requests[r].pc) ::
      Unanswered(s.requests[r]) && MaySend(s, s.requests[r])
  }

  /** The log, followed by the call in progress, explains the connections and the wire. */
  predicate HistoryInv(s: State) {
    var w := After(s.log);
    && |w.links| == |s.built|
    && match Holder(s)
       case None => s.world == w
       case Some(r) => r < |s.requests| && InProgress(s, w, s.requests[r])
  }

  predicate InProgress(s: State, w: World, req: Request)
    requires s.current.Some? && s.current.value < |s.built| == |w.links|
  {
    var g := s.current.value;
    var interval := s.built[g].cfg.reconnectInterval;
    && CallOk(View(w, g), interval, req)
    && s.world == Put(w, g, Reached(View(w, g), interval, req))
  }

  ghost predicate Inv(s: State) {
    ControlInv(s) && FreshInv(s) && HistoryInv(s) && Orderly(s.log)
  }

  lemma PutTwice(w: World, g: nat, x: Ends, y: Ends)
    requires g < |w.links|
    ensures Put(Put(w, g, x), g, y) == Put(w, g, y)
    ensures View(Put(w, g, x), g) == x
    ensures Put(w, g, View(w, g)) == w
  {
  }

  lemma InitHistory(cfg: Config)
    ensures Inv(Init(cfg))
  {
    InitControl(cfg);
    AfterSnoc([], Build);
    OrderlySnoc([], Build);
    assert [] + [Build] == [Build];
  }

  // ----------------------------------------------------------- steps of a call

  /** A step of request r either ends its call, logged with its outcome, or logs nothing. */
  predicate Logs(s: State, t: State, r: nat) {
    && r < |s.requests| == |t.requests|
    && if t.log == s.log then
         t.requests[r].answer == s.requests[r].answer || t.requests[r].answer in {Untouched, Cancelled}
       else
         && |t.log| == |s.log| + 1
         && t.log == s.log + [t.log[|s.log|]]
         && IsLogged(s, t, r, t.log[|s.log|])
  }

  predicate IsLogged(s: State, t: State, r: nat, op: Op)
    requires r < |t.requests|
  {
    && op.Call? && op.request == r && op.client < |After(s.log).links| == |s.built|
    && op.interval == s.built[op.client].cfg.reconnectInterval
    && op.buffers == t.requests[r].buffers
    && t.requests[r].kind == WriteRequest(false) && s.built[op.client].cfg.carbonAddress != []
    && t.requests[r].pc.Replying?
    && t.requests[r].answer ==
         Ended(Send(View(After(s.log), op.client), op.interval, op.buffers, op.tries).outcome)
  }

  /** The holder of the mutex ends its call. */
  lemma EndCallHistory(s: State, r: nat, g: nat, x: Ends, tries: seq<Attempt>, outcome: Outcome)
    requires Inv(s) && Holds(s, r, g) && g < |s.built|
    requires
      var y := Send(View(After(s.log), g), s.built[g].cfg.reconnectInterval, s.requests[r].buffers, tries);
      y.ends == x && y.outcome == outcome
    ensures
      var t := EndCall(s, r, g, x, tries, outcome);
      HistoryInv(t) && Orderly(t.log) && Logs(s, t, r)
  {
    var w := After(s.log);
    var op := Call(r, g, s.built[g].cfg.reconnectInterval, s.requests[r].buffers, tries);
    assert Holder(s) == Some(r);
    AfterSnoc(s.log, op);
    OrderlySnoc(s.log, op);
    PutTwice(w, g, Reached(View(w, g), s.built[g].cfg.reconnectInterval, s.requests[r]), x);
  }

  /** The holder of the mutex goes on with its call. */
  lemma StayHistory(s: State, r: nat, g: nat, req: Request, world: World)
    requires Inv(s) && Holds(s, r, g) && g < |s.built|
    requires InProgress(s.(world := world), After(s.log), req)
    ensures HistoryInv(s.(requests := s.requests[r := req], world := world))
  {
    assert Holder(s) == Some(r);
  }

  lemma ChooseHistory(s: State, r: nat, g: nat)
    requires Inv(s) && Holds(s, r, g) && g < |s.built| && s.requests[r].pc == Choosing(g)
    ensures
      var t := ChooseNext(s, r, g);
      HistoryInv(t) && Orderly(t.log) && Logs(s, t, r)
  {
    var req, w, interval := s.requests[r], After(s.log), s.built[g].cfg.reconnectInterval;
    assert Holder(s) == Some(r);
    var y := SoFar(View(w, g), interval, req);
    SendGoesOn(View(w, g), interval, req.buffers, req.tries);
    PutTwice(w, g, y.ends, Disconnected(y.ends));
    if |req.tries| >= |req.buffers| {
      EndCallHistory(s, r, g, y.ends, req.tries, Done);
    } else if Reusable(y.ends.link, s.clock, interval) {
      StayHistory(s, r, g, req.(pc := Copying(g, s.clock, None)), s.world);
    } else {
      StayHistory(s, r, g, req.(pc := Dialling(g, s.clock)), Put(s.world, g, Disconnected(y.ends)));
    }
  }

  lemma DialHistory(s: State, r: nat, g: nat, now: int, ok: bool)
    requires Inv(s) && Holds(s, r, g) && g < |s.built| && s.requests[r].pc == Dialling(g, now)
    ensures
      var t := DialNext(s, r, g, now, ok);
      HistoryInv(t) && Orderly(t.log) && Logs(s, t, r)
  {
    var req, w, interval := s.requests[r], After(s.log), s.built[g].cfg.reconnectInterval;
    assert Holder(s) == Some(r);
    var y := SoFar(View(w, g), interval, req).ends;
    var dial := if ok then Some(s.clock) else None;
    PutTwice(w, g, Disconnected(y), Dialled(Disconnected(y), dial));
    if ok {
      StayHistory(s, r, g, req.(pc := Copying(g, now, dial)), Put(s.world, g, Dialled(Disconnected(y), dial)));
    } else {
      var a := Attempt(now, None, false);
      SendMore(View(w, g), interval, req.buffers, req.tries, a);
      EndCallHistory(s, r, g, Dialled(Disconnected(y), None), req.tries + [a], Refused);
    }
  }

  lemma CopyHistory(s: State, r: nat, g: nat, now: int, dial: Option<int>, ok: bool)
    requires Inv(s) && Holds(s, r, g) && g < |s.built| && s.requests[r].pc == Copying(g, now, dial)
    requires s.world.links[g].carbonCon.Some? && |s.requests[r].tries| < |s.requests[r].buffers|
    ensures
      var t := CopyNext(s, r, g, now, dial, ok);
      HistoryInv(t) && Orderly(t.log) && Logs(s, t, r)
  {
    var req, w, interval := s.requests[r], After(s.log), s.built[g].cfg.reconnectInterval;
    assert Holder(s) == Some(r);
    var y := SoFar(View(w, g), interval, req).ends;
    var a := Attempt(now, dial, ok);
    var x := Turn(y, interval, req.buffers[|req.tries|], a).ends;
    PutTwice(w, g, Connected(y, interval, now, dial), x);
    SendMore(View(w, g), interval, req.buffers, req.tries, a);
    if Succeeds(req.buffers[|req.tries|], ok) {
      StayHistory(s, r, g, req.(pc := Choosing(g), tries := req.tries + [a]), Put(s.world, g, x));
    } else {
      EndCallHistory(s, r, g, x, req.tries + [a], Lost);
    }
  }

  // ------------------------------------------------------------ the other steps

  lemma LockHistory(s: State, r: nat, g: nat)
    requires Inv(s) && r < |s.requests| && s.requests[r].pc == Prepared(g)
    requires g < |s.built| && s.built[g].mutex.None?
    ensures HistoryInv(Lock(s, r, g))
  {
    assert Holder(s) == None;
    PutTwice(s.world, g, View(s.world, g), View(s.world, g));
  }

  lemma HoldingHistory(s: State, r: nat, g: nat)
    requires Inv(s) && Holds(s, r, g) && g < |s.built| && s.requests[r].pc == Holding(g)
    ensures HistoryInv(Unlock(s, r, g, Cancelled))
    ensures HistoryInv(Move(s, r, Choosing(g)))
  {
    var w, req := After(s.log), s.requests[r];
    assert Holder(s) == Some(r);
    PutTwice(w, g, View(w, g), View(w, g));
    assert s.world == w;
    StayHistory(s, r, g, req.(pc := Choosing(g)), s.world);
  }

  /** A request that does not hold the mutex moves. */
  lemma OutsideHistory(s: State, r: nat, req: Request, readers: set<nat>)
    requires Inv(s) && r < |s.requests| && !InMutex(s.requests[r].pc)
    ensures HistoryInv(s.(requests := s.requests[r := req], readers := readers))
  {
  }

  lemma RequestKeepsHistory(s: State, r: nat, ok: bool, buffers: seq<bytes>)
    requires Inv(s) && RequestEnabled(s, r)
    ensures
      var t := RequestNext(s, r, ok, buffers);
      HistoryInv(t) && Orderly(t.log) && Logs(s, t, r)
  {
    var pc := s.requests[r].pc;
    if InMutex(pc) {
      CallKeepsHistory(s, r, ok);
    } else if pc.Prepared? {
      LockHistory(s, r, pc.client);
    } else {
      var t := RequestNext(s, r, ok, buffers);
      OutsideHistory(s, r, t.requests[r], t.readers);
    }
  }

  lemma CallKeepsHistory(s: State, r: nat, ok: bool)
    requires Inv(s) && RequestEnabled(s, r) && InMutex(s.requests[r].pc)
    ensures
      var t := RequestNext(s, r, ok, []);
      HistoryInv(t) && Orderly(t.log) && Logs(s, t, r)
  {
    var pc, g := s.requests[r].pc, s.requests[r].pc.client;
    assert Holds(s, r, g);
    if pc.Holding? {
      HoldingHistory(s, r, g);
    } else if pc.Choosing? {
      ChooseHistory(s, r, g);
    } else if pc.Dialling? {
      DialHistory(s, r, g, pc.now, ok);
    } else {
      CopyHistory(s, r, g, pc.now, pc.dial, ok);
    }
  }

  /** A request step changes that request only. */
  lemma OneRequestMoves(s: State, r: nat, ok: bool, buffers: seq<bytes>)
    requires RequestEnabled(s, r)
    ensures
      var t := RequestNext(s, r, ok, buffers);
      && |t.requests| == |s.requests|
      && t.requests == s.requests[r := t.requests[r]]
  {
  }

  /** A request step changes no client's configuration. */
  lemma ConfigsStay(s: State, r: nat, ok: bool, buffers: seq<bytes>)
    requires RequestEnabled(s, r)
    ensures
      var t := RequestNext(s, r, ok, buffers);
      |t.built| == |s.built| && forall g | 0 <= g < |s.built| :: t.built[g].cfg == s.built[g].cfg
  {
  }

  lemma RequestStaysFresh(s: State, r: nat, ok: bool, buffers: seq<bytes>)
    requires Inv(s) && RequestEnabled(s, r)
    ensures
      var t := RequestNext(s, r, ok, buffers);
      && |t.requests| == |s.requests|
      && (BeforeReply(t.requests[r].pc) ==> Unanswered(t.requests[r]) && MaySend(t, t.requests[r]))
  {
    ConfigsStay(s, r, ok, buffers);
    assert BeforeReply(s.requests[r].pc) ==> Unanswered(s.requests[r]) && MaySend(s, s.requests[r]);
    if InMutex(s.requests[r].pc) {
      CallStaysFresh(s, r, ok);
    }
  }

  lemma CallStaysFresh(s: State, r: nat, ok: bool)
    requires RequestEnabled(s, r) && InMutex(s.requests[r].pc)
    ensures
      var req, t := s.requests[r], RequestNext(s, r, ok, []);
      && |t.requests| == |s.requests|
      && (t.requests[r].pc.Replying? || (
            && InMutex(t.requests[r].pc) && !t.requests[r].pc.Holding?
            && t.requests[r].pc.client == req.pc.client
            && t.requests[r].kind == req.kind && t.requests[r].answer == req.answer))
  {
  }

  lemma RequestKeepsFresh(s: State, r: nat, ok: bool, buffers: seq<bytes>)
    requires Inv(s) && RequestEnabled(s, r)
    ensures FreshInv(RequestNext(s, r, ok, buffers))
  {
    OneRequestMoves(s, r, ok, buffers);
    var t := RequestNext(s, r, ok, buffers);
    ConfigsStay(s, r, ok, buffers);
    RequestStaysFresh(s, r, ok, buffers);
    forall q | 0 <= q < |t.requests| && BeforeReply(t.requests[q].pc)
      ensures Unanswered(t.requests[q]) && MaySend(t, t.requests[q])
    {
      if q != r {
        assert t.requests[q] == s.requests[q] && MaySend(s, s.requests[q]);
      }
    }
  }

  /** Nobody holds a mutex while the loop has the write lock. */
  lemma NoHolder(s: State)
    requires ControlInv(s) && s.writing
    ensures Holder(s) == None
  {
  }

  /** A shutdown that has the mutex comes between two calls, never within one. */
  lemma ShutdownOfHistory(s: State, g: nat)
    requires Inv(s) && CanShutDown(s, g)
    ensures
      var t := ShutdownOf(s, g);
      FreshInv(t) && HistoryInv(t) && Orderly(t.log)
  {
    AfterSnoc(s.log, Shut(g));
    OrderlySnoc(s.log, Shut(g));
    if Holder(s).Some? {
      var w, c := After(s.log), s.current.value;
      var x := Reached(View(w, c), s.built[c].cfg.reconnectInterval, s.requests[Holder(s).value]);
      assert g != c;
      OrderlyIsSound(s.log);
      assert w.links[g].carbonCon.None? && s.world.links[g] == w.links[g];
      PutTwice(w, g, View(w, g), View(w, g));
      PutTwice(s.world, g, View(s.world, g), View(s.world, g));
      assert Disconnected(View(w, g)) == View(w, g);
      assert Disconnected(View(s.world, g)) == View(s.world, g);
    }
  }

  lemma ShutdownHistory(s: State, next: Loop)
    requires Inv(s) && CanShut(s) && s.writing
    ensures
      var t := Shutdown(s).(loop := next);
      FreshInv(t) && HistoryInv(t) && Orderly(t.log)
  {
    NoHolder(s);
    if s.current.Some? {
      AfterSnoc(s.log, Shut(s.current.value));
      OrderlySnoc(s.log, Shut(s.current.value));
    }
  }

  lemma BuildHistory(s: State, cfg: Config, next: Loop)
    requires Inv(s) && s.loop.Building?
    ensures
      var t := Rebuilt(s, cfg).(loop := next);
      FreshInv(t) && HistoryInv(t) && Orderly(t.log)
  {
    NoHolder(s);
    AfterSnoc(s.log, Build);
    OrderlySnoc(s.log, Build);
  }

  /** Only the loop, the write lock and the posted reloads change. */
  lemma LoopMoveHistory(s: State, next: Loop, writing: bool, serving: bool, reloads: seq<Reload>)
    requires Inv(s)
    ensures
      var t := s.(loop := next, writing := writing, serving := serving, reloads := reloads);
      FreshInv(t) && HistoryInv(t) && Orderly(t.log)
  {
  }

  lemma LoopKeepsHistory(s: State, load: Option<Config>)
    requires Inv(s) && LoopEnabled(s)
    ensures
      var t := LoopNext(s, load);
      FreshInv(t) && HistoryInv(t) && Orderly(t.log)
  {
    var t := LoopNext(s, load);
    if s.loop.ShuttingWriters? || s.loop.ShuttingReaders? {
      ShutdownHistory(s, t.loop);
    } else if s.loop.Building? {
      BuildHistory(s, s.loop.cfg, t.loop);
    } else {
      LoopMoveHistory(s, t.loop, t.writing, t.serving, t.reloads);
    }
  }

  lemma StepKeepsInv(s: State, step: Step)
    requires Inv(s) && Enabled(s, step)
    ensures Inv(Next(s, step))
  {
    StepKeepsControl(s, step);
    match step {
      case RequestStep(r, ok, buffers) =>
        RequestKeepsHistory(s, r, ok, buffers);
        RequestKeepsFresh(s, r, ok, buffers);
      case LoopStep(load) => LoopKeepsHistory(s, load);
      case ShutdownStep(g) => ShutdownOfHistory(s, g);
      case _ =>
    }
  }

  lemma {:induction false} RunKeepsInv(s: State, steps: seq<Step>)
    requires Inv(s) && Schedule(s, steps)
    ensures Inv(Run(s, steps))
    decreases |steps|
  {
    if steps != [] {
      StepKeepsInv(s, steps[0]);
      RunKeepsInv(Next(s, steps[0]), steps[1..]);
    }
  }
}
