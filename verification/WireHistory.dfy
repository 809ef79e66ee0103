/**
 What the sequential history of WriteHistory gives for every run of the process: the
 wire is a sequence of prefixes of the calls' buffers, every copy goes on a young
 connection, one connection at most is open, and the answers tell what arrived.
 */
module WireHistory {
  import opened Wrappers
  import opened Bytes
  import opened CarbonClient
  import opened Process
  import opened WriteHistory

  // --------------------------------------------------------- the wire as blocks

  /** The copies that an operation puts on the wire. */
  function BlockOf(w: World, op: Op): seq<Entry> {
    match op
    case Call(_, g, interval, buffers, tries) =>
      if g < |w.links| then Block(View(w, g), interval, buffers, tries) else []
    case _ => []
  }

  /** The block of each operation of the log. */
  function Blocks(log: seq<Op>): seq<seq<Entry>> {
    seq(|log|, k requires 0 <= k < |log| => BlockOf(After(log[..k]), log[k]))
  }

  function Joined(blocks: seq<seq<Entry>>): seq<Entry>
    decreases |blocks|
  {
    if blocks == [] then [] else Joined(blocks[..|blocks| - 1]) + blocks[|blocks| - 1]
  }

  function OutcomeAt(log: seq<Op>, k: nat): Outcome
    requires k < |log| && log[k].Call?
  {
    var w, op := After(log[..k]), log[k];
    if op.client < |w.links| then Send(View(w, op.client), op.interval, op.buffers, op.tries).outcome
    else Unfinished
  }

  lemma PerformAddsBlock(w: World, op: Op)
    ensures Perform(w, op).net.wire == w.net.wire + BlockOf(w, op)
  {
    match op {
      case Call(_, g, interval, buffers, tries) =>
        if g < |w.links| {
          SendBlock(View(w, g), interval, buffers, tries);
        }
      case _ =>
    }
  }

  /** The wire is the blocks of the calls, one after the other. */
  lemma {:induction false} WireIsBlocks(log: seq<Op>)
    ensures After(log).net.wire == Joined(Blocks(log))
    decreases |log|
  {
    if log != [] {
      var n := |log| - 1;
      WireIsBlocks(log[..n]);
      PerformAddsBlock(After(log[..n]), log[n]);
      BlocksOfFront(log);
    }
  }

  lemma BlocksOfFront(log: seq<Op>)
    requires log != []
    ensures Blocks(log)[..|log| - 1] == Blocks(log[..|log| - 1])
  {
    var n := |log| - 1;
    forall k | 0 <= k < n ensures Blocks(log)[k] == Blocks(log[..n])[k] {
      assert log[..n][..k] == log[..k];
    }
  }

  /** Each is a prefix of the buffers of its call, and the outcome tells which. */
  lemma {:induction false} BlocksArePrefixes(log: seq<Op>)
    requires Orderly(log)
    ensures forall k | 0 <= k < |log| && log[k].Call? ::
              IsPrefixOf(Blocks(log)[k], Payloads(log[k].buffers)) &&
              Tells(OutcomeAt(log, k), Blocks(log)[k], log[k].buffers)
    ensures forall k | 0 <= k < |log| && !log[k].Call? :: Blocks(log)[k] == []
  {
    forall k | 0 <= k < |log| && log[k].Call?
      ensures IsPrefixOf(Blocks(log)[k], Payloads(log[k].buffers))
      ensures Tells(OutcomeAt(log, k), Blocks(log)[k], log[k].buffers)
    {
      FitsAt(log, k);
      SendBlock(View(After(log[..k]), log[k].client), log[k].interval, log[k].buffers, log[k].tries);
    }
  }

  lemma {:induction false} FitsAt(log: seq<Op>, k: nat)
    requires Orderly(log) && k < |log|
    ensures Orderly(log[..k]) && Fits(After(log[..k]), log[k])
    decreases |log|
  {
    var n := |log| - 1;
    if k < n {
      FitsAt(log[..n], k);
      assert log[..n][..k] == log[..k];
    }
  }

  // --------------------------------------------------------- young connections

  lemma PerformExtends(w: World, op: Op)
    requires WorldSound(w) && Fits(w, op)
    ensures Extends(w.net, Perform(w, op).net)
    ensures op.Call? ==> AllOnYoung(Perform(w, op).net, op.interval, |w.net.wire|)
  {
    if op.Call? {
      SendIsYoung(View(w, op.client), op.interval, op.buffers, op.tries, {});
    }
  }

  predicate IsYoung(net: Net, interval: int, p: nat) {
    p < |net.wire| && OnYoungConnection(net, interval, p)
  }

  /** The copies of the operation number k, in a network that came later. */
  ghost predicate BlockOnYoung(log: seq<Op>, k: nat, net: Net)
    requires k < |log| && log[k].Call?
  {
    forall p: nat | |After(log[..k]).net.wire| <= p < |After(log[..k + 1]).net.wire| ::
      IsYoung(net, log[k].interval, p)
  }

  lemma YoungPoint(a: Net, b: Net, interval: int, p: nat)
    requires Extends(a, b) && IsYoung(a, interval, p)
    ensures IsYoung(b, interval, p)
  {
    forall j | 0 <= j <= p ensures b.wire[j] == a.wire[j] {
    }
  }

  lemma BlockOnYoungKept(log: seq<Op>, k: nat, a: Net, b: Net)
    requires k < |log| && log[k].Call? && Extends(a, b) && BlockOnYoung(log, k, a)
    ensures BlockOnYoung(log, k, b)
  {
    forall p: nat | |After(log[..k]).net.wire| <= p < |After(log[..k + 1]).net.wire|
      ensures IsYoung(b, log[k].interval, p)
    {
      assert IsYoung(a, log[k].interval, p);
      YoungPoint(a, b, log[k].interval, p);
    }
  }

  lemma {:induction false} CallsOnYoung(log: seq<Op>, k: nat)
    requires Orderly(log) && k < |log| && log[k].Call?
    ensures BlockOnYoung(log, k, After(log).net)
    decreases |log|
  {
    var n := |log| - 1;
    OrderlyIsSound(log[..n]);
    PerformExtends(After(log[..n]), log[n]);
    if k < n {
      CallsOnYoung(log[..n], k);
      assert log[..n][..k] == log[..k] && log[..n][..k + 1] == log[..k + 1];
      BlockOnYoungKept(log[..n], k, After(log[..n]).net, After(log).net);
    } else {
      assert log[..k + 1] == log;
    }
  }

  // ------------------------------------------------------- the answers recorded

  /** Entry k of the log is the call of a request that has been answered accordingly. */
  predicate Recorded(s: State, k: nat)
    requires k < |s.log| && s.log[k].Call?
  {
    var op := s.log[k];
    && op.request < |s.requests| && op.client < |s.built|
    && !BeforeReply(s.requests[op.request].pc)
    && s.requests[op.request].answer == Ended(OutcomeAt(s.log, k))
    && op.buffers == s.requests[op.request].buffers
    && s.requests[op.request].kind == WriteRequest(false) && s.built[op.client].cfg.carbonAddress != []
    && op.interval == s.built[op.client].cfg.reconnectInterval
  }

  /**
   Exactly the requests whose call used the connection are in the log, once each:
   writes that were no dry runs, of clients with a carbon address.
   */
  ghost predicate RecordInv(s: State) {
    && (forall k | 0 <= k < |s.log| && s.log[k].Call? :: Recorded(s, k))
    && (forall j, k | 0 <= j < k < |s.log| && s.log[j].Call? && s.log[k].Call? ::
          s.log[j].request != s.log[k].request)
    && (forall r | 0 <= r < |s.requests| && s.requests[r].answer.Ended? :: InLog(s.log, r))
  }

  ghost predicate InLog(log: seq<Op>, r: int) {
    exists k | 0 <= k < |log| :: log[k].Call? && log[k].request == r
  }

  lemma InLogSnoc(log: seq<Op>, op: Op, r: int)
    requires InLog(log, r) || (op.Call? && op.request == r)
    ensures InLog(log + [op], r)
  {
    if InLog(log, r) {
      var k :| 0 <= k < |log| && log[k].Call? && log[k].request == r;
      assert (log + [op])[k] == log[k];
    } else {
      assert (log + [op])[|log|] == op;
    }
  }

  lemma OutcomeSnoc(log: seq<Op>, op: Op, k: nat)
    requires k < |log| && log[k].Call?
    ensures OutcomeAt(log + [op], k) == OutcomeAt(log, k)
  {
    assert (log + [op])[..k] == log[..k];
  }

  /** What a step must keep of requests and clients for the records to stand. */
  predicate Keeps(s: State, t: State) {
    && |s.requests| <= |t.requests| && |s.built| <= |t.built|
    && (forall g | 0 <= g < |s.built| :: t.built[g].cfg == s.built[g].cfg)
    && (forall r | 0 <= r < |s.requests| && !BeforeReply(s.requests[r].pc) ::
          && !BeforeReply(t.requests[r].pc)
          && t.requests[r].kind == s.requests[r].kind
          && t.requests[r].answer == s.requests[r].answer
          && t.requests[r].buffers == s.requests[r].buffers)
  }

  lemma RecordsKept(s: State, t: State)
    requires RecordInv(s) && Keeps(s, t) && t.log == s.log
    ensures forall k | 0 <= k < |t.log| && t.log[k].Call? :: Recorded(t, k)
  {
    forall k | 0 <= k < |t.log| && t.log[k].Call? ensures Recorded(t, k) {
      assert Recorded(s, k);
    }
  }

  lemma RecordsKeptSnoc(s: State, t: State, op: Op)
    requires RecordInv(s) && Keeps(s, t) && t.log == s.log + [op]
    ensures forall k | 0 <= k < |s.log| && s.log[k].Call? :: Recorded(t, k)
  {
    forall k | 0 <= k < |s.log| && s.log[k].Call? ensures Recorded(t, k) {
      assert Recorded(s, k);
      OutcomeSnoc(s.log, op, k);
    }
  }

  lemma RequestKeeps(s: State, r: nat, ok: bool, buffers: seq<bytes>)
    requires Inv(s) && RequestEnabled(s, r)
    ensures Keeps(s, RequestNext(s, r, ok, buffers))
  {
    OneRequestMoves(s, r, ok, buffers);
    ConfigsStay(s, r, ok, buffers);
  }

  lemma RequestKeepsRecords(s: State, r: nat, ok: bool, buffers: seq<bytes>)
    requires Inv(s) && RecordInv(s) && RequestEnabled(s, r)
    ensures RecordInv(RequestNext(s, r, ok, buffers))
  {
    var t := RequestNext(s, r, ok, buffers);
    OneRequestMoves(s, r, ok, buffers);
    RequestKeeps(s, r, ok, buffers);
    RequestKeepsHistory(s, r, ok, buffers);
    if t.log == s.log {
      RecordsKept(s, t);
    } else {
      NewRecord(s, t, r);
    }
  }

  lemma NewRecord(s: State, t: State, r: nat)
    requires RecordInv(s) && Keeps(s, t) && Logs(s, t, r) && t.log != s.log
    requires BeforeReply(s.requests[r].pc)
    requires t.requests == s.requests[r := t.requests[r]]
    ensures RecordInv(t)
  {
    var n := |s.log|;
    var op := t.log[n];
    RecordsKeptSnoc(s, t, op);
    assert t.log[..n] == s.log;
    assert Recorded(t, n);
    forall j | 0 <= j < n && s.log[j].Call? ensures s.log[j].request != r {
      assert Recorded(s, j);
    }
    forall q | 0 <= q < |t.requests| && t.requests[q].answer.Ended? ensures InLog(t.log, q) {
      InLogSnoc(s.log, op, q);
    }
  }

  lemma LoopKeeps(s: State, load: Option<Config>)
    requires LoopEnabled(s)
    ensures
      var t := LoopNext(s, load);
      && t.requests == s.requests && Keeps(s, t)
      && (t.log == s.log || (t.log == s.log + [t.log[|t.log| - 1]] && !t.log[|t.log| - 1].Call?))
  {
  }

  lemma LoopKeepsRecords(s: State, load: Option<Config>)
    requires RecordInv(s) && LoopEnabled(s)
    ensures RecordInv(LoopNext(s, load))
  {
    var t := LoopNext(s, load);
    LoopKeeps(s, load);
    if t.log == s.log {
      RecordsKept(s, t);
    } else {
      OtherRecord(s, t, t.log[|t.log| - 1]);
    }
  }

  lemma OtherRecord(s: State, t: State, op: Op)
    requires RecordInv(s) && Keeps(s, t) && t.requests == s.requests
    requires t.log == s.log + [op] && !op.Call?
    ensures RecordInv(t)
  {
    RecordsKeptSnoc(s, t, op);
    forall q | 0 <= q < |t.requests| && t.requests[q].answer.Ended? ensures InLog(t.log, q) {
      InLogSnoc(s.log, op, q);
    }
  }

  lemma StepKeepsRecords(s: State, step: Step)
    requires Inv(s) && RecordInv(s) && Enabled(s, step)
    ensures RecordInv(Next(s, step))
  {
    match step {
      case RequestStep(r, ok, buffers) => RequestKeepsRecords(s, r, ok, buffers);
      case LoopStep(load) => LoopKeepsRecords(s, load);
      case ShutdownStep(g) => OtherRecord(s, Next(s, step), Shut(g));
      case _ => RecordsKept(s, Next(s, step));
    }
  }

  lemma {:induction false} RunKeepsRecords(s: State, steps: seq<Step>)
    requires Inv(s) && RecordInv(s) && Schedule(s, steps)
    ensures Inv(Run(s, steps)) && RecordInv(Run(s, steps))
    decreases |steps|
  {
    if steps != [] {
      StepKeepsInv(s, steps[0]);
      StepKeepsRecords(s, steps[0]);
      RunKeepsRecords(Next(s, steps[0]), steps[1..]);
    }
  }

  // ------------------------------------------------------------- for every run

  /** The copies of the call in progress. */
  function Partial(s: State): seq<Entry> {
    var w := After(s.log);
    match Holder(s)
    case None => []
    case Some(r) =>
      if s.current.Some? && s.current.value < |s.built| && s.current.value < |w.links| && r < |s.requests| then
        var g := s.current.value;
        Block(View(w, g), s.built[g].cfg.reconnectInterval, s.requests[r].buffers, s.requests[r].tries)
      else []
  }

  lemma PartialIsPrefix(s: State)
    requires Inv(s)
    ensures s.world.net.wire == After(s.log).net.wire + Partial(s)
    ensures Holder(s).None? ==> Partial(s) == []
    ensures Holder(s).Some? ==>
              && Holder(s).value < |s.requests|
              && IsPrefixOf(Partial(s), Payloads(s.requests[Holder(s).value].buffers)) && AllWhole(Partial(s))
  {
    if Holder(s).Some? {
      var g, req, w := s.current.value, s.requests[Holder(s).value], After(s.log);
      var interval := s.built[g].cfg.reconnectInterval;
      assert Holds(s, Holder(s).value, g);
      SendBlock(View(w, g), interval, req.buffers, req.tries);
    }
  }

  /**
   In every run the wire is, call after call in the order of the log, a prefix of
   each call's buffers and then the copies of the call in progress. Nothing is
   interleaved, and nothing of a call follows a copy that was cut short.
   */
  lemma WireIsUninterleaved(cfg: Config, steps: seq<Step>)
    requires Schedule(Init(cfg), steps)
    ensures
      var s := Run(Init(cfg), steps);
      && s.world.net.wire == Joined(Blocks(s.log)) + Partial(s)
      && (forall k | 0 <= k < |s.log| && s.log[k].Call? ::
            IsPrefixOf(Blocks(s.log)[k], Payloads(s.log[k].buffers)) &&
            Tells(OutcomeAt(s.log, k), Blocks(s.log)[k], s.log[k].buffers))
      && (forall k | 0 <= k < |s.log| && !s.log[k].Call? :: Blocks(s.log)[k] == [])
      && match Holder(s)
         case None => Partial(s) == []
         case Some(r) =>
           r < |s.requests| && IsPrefixOf(Partial(s), Payloads(s.requests[r].buffers)) && AllWhole(Partial(s))
  {
    InitHistory(cfg);
    RunKeepsInv(Init(cfg), steps);
    var s := Run(Init(cfg), steps);
    PartialIsPrefix(s);
    WireIsBlocks(s.log);
    BlocksArePrefixes(s.log);
  }

  /** The log has each request whose call used the connection, once, with its answer. */
  lemma AnswersAreRecorded(cfg: Config, steps: seq<Step>)
    requires Schedule(Init(cfg), steps)
    ensures RecordInv(Run(Init(cfg), steps))
  {
    InitHistory(cfg);
    RunKeepsRecords(Init(cfg), steps);
  }

  lemma WorldIsSound(s: State)
    requires Inv(s)
    ensures WorldSound(s.world)
  {
    OrderlyIsSound(s.log);
    var w := After(s.log);
    if Holder(s).Some? {
      var g := s.current.value;
      ReachedIsSound(View(w, g), s.built[g].cfg.reconnectInterval, s.requests[Holder(s).value]);
    }
  }

  lemma ReachedIsSound(x: Ends, interval: int, req: Request)
    requires Sound(x, {})
    ensures Sound(Reached(x, interval, req), {})
  {
    SendIsSound(x, interval, req.buffers, req.tries, {});
    var y := SoFar(x, interval, req).ends;
    DisconnectedIsSound(y, {});
    if req.pc.Copying? {
      ConnectedIsSound(y, interval, req.pc.now, req.pc.dial, {});
    }
  }

  /** Only the current client can have a connection, and no other is open. */
  predicate OneOpen(s: State) {
    && |s.world.links| == |s.built|
    && (forall g | 0 <= g < |s.built| && s.world.links[g].carbonCon.Some? ::
          s.current == Some(g) && !s.loop.ShuttingReaders? && !s.loop.Building?)
    && match s.current
       case None => s.world.net.open == {}
       case Some(g) =>
         g < |s.built| &&
         match s.world.links[g].carbonCon
         case None => s.world.net.open == {}
         case Some(c) =>
           && s.world.net.open == {c} && c < |s.world.net.dialled|
           && s.world.net.dialled[c] == s.world.links[g].carbonLastReconnectTime
  }

  /**
   In every run at most one connection is open in the whole process. It is the
   current client's, and that client remembers when it was dialled; every other
   client has none, nor has the current one after its shutdown.
   */
  lemma OneConnection(cfg: Config, steps: seq<Step>)
    requires Schedule(Init(cfg), steps)
    ensures OneOpen(Run(Init(cfg), steps))
  {
    InitHistory(cfg);
    RunKeepsInv(Init(cfg), steps);
    InvIsOneOpen(Run(Init(cfg), steps));
  }

  lemma InvIsOneOpen(s: State)
    requires Inv(s)
    ensures OneOpen(s)
  {
    WorldIsSound(s);
  }

  lemma PartialOnYoung(s: State)
    requires Inv(s)
    ensures Extends(After(s.log).net, s.world.net)
    ensures Holder(s).Some? ==>
              AllOnYoung(s.world.net, s.built[s.current.value].cfg.reconnectInterval, |After(s.log).net.wire|)
  {
    OrderlyIsSound(s.log);
    var w := After(s.log);
    if Holder(s).Some? {
      var g, req := s.current.value, s.requests[Holder(s).value];
      assert Holds(s, Holder(s).value, g);
      ReachedIsYoung(View(w, g), s.built[g].cfg.reconnectInterval, req);
    }
  }

  /** What a call has copied so far, with or without a connection chosen for the next copy. */
  lemma ReachedIsYoung(x: Ends, interval: int, req: Request)
    requires Sound(x, {}) && InMutex(req.pc)
    ensures
      var net := Reached(x, interval, req).net;
      Extends(x.net, net) && AllOnYoung(net, interval, |x.net.wire|)
  {
    SendIsYoung(x, interval, req.buffers, req.tries, {});
    var y := SoFar(x, interval, req).ends.net;
    if !req.pc.Holding? {
      YoungKept(y, Reached(x, interval, req).net, interval, |x.net.wire|);
    }
  }

  /**
   In every run each copy, of a finished call or of the one in progress, goes on a
   connection younger than the client's reconnect interval when it was chosen, or
   on one dialled for that copy.
   */
  lemma CopiesOnYoungConnections(cfg: Config, steps: seq<Step>)
    requires Schedule(Init(cfg), steps)
    ensures
      var s := Run(Init(cfg), steps);
      && (forall k: nat | k < |s.log| && s.log[k].Call? ::
            BlockOnYoung(s.log, k, s.world.net) &&
            s.log[k].client < |s.built| &&
            s.log[k].interval == s.built[s.log[k].client].cfg.reconnectInterval)
      && (Holder(s).Some? ==>
            AllOnYoung(s.world.net, s.built[s.current.value].cfg.reconnectInterval, |After(s.log).net.wire|))
  {
    InitHistory(cfg);
    RunKeepsRecords(Init(cfg), steps);
    var s := Run(Init(cfg), steps);
    PartialOnYoung(s);
    forall k: nat | k < |s.log| && s.log[k].Call?
      ensures BlockOnYoung(s.log, k, s.world.net)
      ensures s.log[k].client < |s.built|
      ensures s.log[k].interval == s.built[s.log[k].client].cfg.reconnectInterval
    {
      assert Recorded(s, k);
      CallsOnYoung(s.log, k);
      BlockOnYoungKept(s.log, k, After(s.log).net, s.world.net);
    }
  }
}
