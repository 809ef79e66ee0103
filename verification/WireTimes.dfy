/**
 The times in the history of the wire are those of the process's clock: connections
 are dialled and chosen in the order in which they were, none in the future. This is
 what makes "younger than the reconnect interval" a statement about real ages.
 */
module WireTimes {
  import opened Wrappers
  import opened Bytes
  import opened CarbonClient
  import opened Process

  predicate NonDecreasing(times: seq<int>) {
    forall i, j | 0 <= i < j < |times| :: times[i] <= times[j]
  }

  predicate UpTo(times: seq<int>, t: int) {
    forall i | 0 <= i < |times| :: times[i] <= t
  }

  function ChosenTimes(wire: seq<Entry>): seq<int> {
    seq(|wire|, i requires 0 <= i < |wire| => wire[i].chosen)
  }

  /** When the request that is about to copy chose its connection. */
  function PendingTime(pc: Pc): Option<int> {
    match pc
    case Copying(_, now, dial) => if dial.Some? then dial else Some(now)
    case _ => None
  }

  predicate PendingInv(s: State) {
    forall r | 0 <= r < |s.requests| && PendingTime(s.requests[r].pc).Some? ::
      var t := PendingTime(s.requests[r].pc).value;
      t <= s.clock && UpTo(ChosenTimes(s.world.net.wire), t)
  }

  predicate TimeInv(s: State) {
    && NonDecreasing(s.world.net.dialled) && UpTo(s.world.net.dialled, s.clock)
    && NonDecreasing(ChosenTimes(s.world.net.wire)) && UpTo(ChosenTimes(s.world.net.wire), s.clock)
    && PendingInv(s)
  }

  lemma LaterIsFine(times: seq<int>, t: int)
    requires NonDecreasing(times) && UpTo(times, t)
    ensures NonDecreasing(times + [t]) && UpTo(times + [t], t)
  {
  }

  lemma ChosenSnoc(wire: seq<Entry>, e: Entry)
    ensures ChosenTimes(wire + [e]) == ChosenTimes(wire) + [e.chosen]
  {
  }

  /** There is one holder of the mutex at most. */
  lemma OneHolder(s: State, q: nat, r: nat)
    requires ControlInv(s) && q < |s.requests| && r < |s.requests|
    requires InMutex(s.requests[q].pc) && InMutex(s.requests[r].pc)
    ensures q == r
  {
  }

  lemma CopyKeepsTimes(s: State, r: nat, ok: bool)
    requires ControlInv(s) && TimeInv(s) && RequestEnabled(s, r) && s.requests[r].pc.Copying?
    ensures TimeInv(RequestNext(s, r, ok, []))
  {
    var pc := s.requests[r].pc;
    var t := RequestNext(s, r, ok, []);
    var chosen := PendingTime(pc).value;
    if t.world.net.wire != s.world.net.wire {
      var e := t.world.net.wire[|s.world.net.wire|];
      assert t.world.net.wire == s.world.net.wire + [e] && e.chosen == chosen;
      ChosenSnoc(s.world.net.wire, e);
      LaterIsFine(ChosenTimes(s.world.net.wire), chosen);
    }
    forall q | 0 <= q < |t.requests| ensures PendingTime(t.requests[q].pc).None? {
      if q != r && InMutex(s.requests[q].pc) {
        OneHolder(s, q, r);
      }
    }
  }

  lemma DialKeepsTimes(s: State, r: nat, ok: bool)
    requires ControlInv(s) && TimeInv(s) && RequestEnabled(s, r) && s.requests[r].pc.Dialling?
    ensures TimeInv(RequestNext(s, r, ok, []))
  {
    LaterIsFine(s.world.net.dialled, s.clock);
  }

  lemma ChooseKeepsTimes(s: State, r: nat)
    requires ControlInv(s) && TimeInv(s) && RequestEnabled(s, r) && s.requests[r].pc.Choosing?
    ensures TimeInv(RequestNext(s, r, true, []))
  {
  }

  lemma OtherKeepsTimes(s: State, r: nat, ok: bool, buffers: seq<bytes>)
    requires TimeInv(s) && RequestEnabled(s, r)
    requires !s.requests[r].pc.Copying? && !s.requests[r].pc.Dialling? && !s.requests[r].pc.Choosing?
    ensures TimeInv(RequestNext(s, r, ok, buffers))
  {
    var t := RequestNext(s, r, ok, buffers);
    assert t.world == s.world && t.clock == s.clock;
    assert PendingTime(t.requests[r].pc).None?;
  }

  lemma LoopKeepsTimes(s: State, load: Option<Config>)
    requires TimeInv(s) && LoopEnabled(s)
    ensures TimeInv(LoopNext(s, load))
  {
    var t := LoopNext(s, load);
    assert t.world.net.wire == s.world.net.wire && t.world.net.dialled == s.world.net.dialled;
    assert t.requests == s.requests && t.clock == s.clock;
  }

  lemma StepKeepsTimes(s: State, step: Step)
    requires ControlInv(s) && TimeInv(s) && Enabled(s, step)
    ensures TimeInv(Next(s, step))
  {
    match step {
      case RequestStep(r, ok, buffers) =>
        var pc := s.requests[r].pc;
        if pc.Copying? {
          CopyKeepsTimes(s, r, ok);
        } else if pc.Dialling? {
          DialKeepsTimes(s, r, ok);
        } else if pc.Choosing? {
          ChooseKeepsTimes(s, r);
        } else {
          OtherKeepsTimes(s, r, ok, buffers);
        }
      case LoopStep(load) => LoopKeepsTimes(s, load);
      case _ =>
    }
  }

  /** A dial, and a choice of a connection to copy to, are dated by the clock of their step. */
  lemma ClockIsRead(s: State, r: nat, ok: bool, buffers: seq<bytes>)
    requires RequestEnabled(s, r)
    ensures
      var t := RequestNext(s, r, ok, buffers);
      && r < |t.requests|
      && t.world.net.dialled in {s.world.net.dialled, s.world.net.dialled + [s.clock]}
      && PendingTime(t.requests[r].pc) in {None, Some(s.clock)}
      && (t.world.net.wire != s.world.net.wire ==>
            |t.world.net.wire| == |s.world.net.wire| + 1 &&
            PendingTime(s.requests[r].pc) == Some(t.world.net.wire[|s.world.net.wire|].chosen))
  {
    if s.requests[r].pc.Choosing? {
      ChooseReadsClock(s, r, s.requests[r].pc.client);
    }
  }

  lemma ChooseReadsClock(s: State, r: nat, g: nat)
    requires r < |s.requests| && g < |s.built| == |s.world.links|
    ensures
      var t := ChooseNext(s, r, g);
      && r < |t.requests|
      && t.world.net.dialled == s.world.net.dialled && t.world.net.wire == s.world.net.wire
      && PendingTime(t.requests[r].pc) in {None, Some(s.clock)}
  {
  }

  lemma {:induction false} RunKeepsTimes(s: State, steps: seq<Step>)
    requires ControlInv(s) && TimeInv(s) && Schedule(s, steps)
    ensures TimeInv(Run(s, steps))
    decreases |steps|
  {
    if steps != [] {
      StepKeepsControl(s, steps[0]);
      StepKeepsTimes(s, steps[0]);
      RunKeepsTimes(Next(s, steps[0]), steps[1..]);
    }
  }

  /**
   In every run connections are dialled in the order of their numbers and copies
   chosen in the order of the wire, each at a time the clock has shown.
   */
  lemma TimesAreInOrder(cfg: Config, steps: seq<Step>)
    requires Schedule(Init(cfg), steps)
    ensures
      var s := Run(Init(cfg), steps);
      && NonDecreasing(s.world.net.dialled) && UpTo(s.world.net.dialled, s.clock)
      && NonDecreasing(ChosenTimes(s.world.net.wire)) && UpTo(ChosenTimes(s.world.net.wire), s.clock)
  {
    InitControl(cfg);
    RunKeepsTimes(Init(cfg), steps);
  }

  // ----------------------------------------------------- when a connection ends

  predicate Owns(s: State, g: nat, c: nat) {
    g < |s.world.links| && s.world.links[g].carbonCon == Some(c)
  }

  /** The client has a connection that was dialled less than the interval ago. */
  predicate HasYoung(s: State, g: nat) {
    && g < |s.built| == |s.world.links|
    && s.world.links[g].carbonCon != None
    && s.clock < s.world.links[g].carbonLastReconnectTime + s.built[g].cfg.reconnectInterval
  }

  /**
   What ends a connection: its client's shutdown, a call that finds it old and still has
   a buffer to send, or a failed copy of a buffer that is not empty.
   */
  predicate Closes(s: State, step: Step, c: nat) {
    match step
    case ShutdownStep(g) => Owns(s, g, c)
    case LoopStep(_) =>
      && (s.loop.ShuttingWriters? || s.loop.ShuttingReaders?)
      && s.current.Some? && Owns(s, s.current.value, c)
    case RequestStep(r, ok, _) =>
      && r < |s.requests|
      && var req := s.requests[r];
      (match req.pc
       case Choosing(g) => Owns(s, g, c) && |req.tries| < |req.buffers| && !HasYoung(s, g)
       case Copying(g, _, _) =>
         Owns(s, g, c) && |req.tries| < |req.buffers| && req.buffers[|req.tries|] != [] && !ok
       case _ => false)
    case _ => false
  }

  /** An open connection is closed by these steps and by no others. */
  lemma ConnectionsAreKept(s: State, step: Step, c: nat)
    requires Enabled(s, step) && c in s.world.net.open
    ensures c !in Next(s, step).world.net.open <==> Closes(s, step, c)
  {
    match step {
      case RequestStep(r, ok, buffers) => RequestsKeepConnections(s, r, ok, buffers, c);
      case _ =>
    }
  }

  lemma RequestsKeepConnections(s: State, r: nat, ok: bool, buffers: seq<bytes>, c: nat)
    requires RequestEnabled(s, r) && c in s.world.net.open
    ensures c !in RequestNext(s, r, ok, buffers).world.net.open <==> Closes(s, RequestStep(r, ok, buffers), c)
  {
    match s.requests[r].pc {
      case Choosing(g) => ChooseKeepsConnections(s, r, g, c);
      case Copying(g, now, dial) => CopyKeepsConnections(s, r, g, now, dial, ok, c);
      case _ =>
    }
  }

  lemma ChooseKeepsConnections(s: State, r: nat, g: nat, c: nat)
    requires r < |s.requests| && g < |s.built| == |s.world.links| && c in s.world.net.open
    ensures c !in ChooseNext(s, r, g).world.net.open <==>
              Owns(s, g, c) && |s.requests[r].tries| < |s.requests[r].buffers| && !HasYoung(s, g)
  {
  }

  lemma CopyKeepsConnections(s: State, r: nat, g: nat, now: int, dial: Option<int>, ok: bool, c: nat)
    requires r < |s.requests| && g < |s.built| == |s.world.links| && c in s.world.net.open
    requires s.world.links[g].carbonCon.Some? && |s.requests[r].tries| < |s.requests[r].buffers|
    ensures c !in CopyNext(s, r, g, now, dial, ok).world.net.open <==>
              Owns(s, g, c) && s.requests[r].buffers[|s.requests[r].tries|] != [] && !ok
  {
  }

  /** Time passes: a connection stays young until its interval is over. */
  lemma ConnectionsAge(s: State, g: nat, d: nat)
    requires g < |s.built| == |s.world.links|
    ensures HasYoung(Next(s, Tick(d)), g) <==>
              && s.world.links[g].carbonCon.Some?
              && s.clock + d < s.world.links[g].carbonLastReconnectTime + s.built[g].cfg.reconnectInterval
  {
  }

  /** The next buffer of a call goes to a young connection if there is one; else a dial comes first. */
  lemma YoungGoesOn(s: State, r: nat, ok: bool, buffers: seq<bytes>)
    requires RequestEnabled(s, r) && s.requests[r].pc.Choosing?
    requires |s.requests[r].tries| < |s.requests[r].buffers|
    ensures
      var g := s.requests[r].pc.client;
      var t := RequestNext(s, r, ok, buffers);
      && r < |t.requests|
      && if HasYoung(s, g) then t.requests[r].pc == Copying(g, s.clock, None) && t.world == s.world
         else t.requests[r].pc == Dialling(g, s.clock)
  {
    ChooseGoesOn(s, r, s.requests[r].pc.client);
  }

  lemma ChooseGoesOn(s: State, r: nat, g: nat)
    requires r < |s.requests| && g < |s.built| == |s.world.links|
    requires |s.requests[r].tries| < |s.requests[r].buffers|
    ensures
      var t := ChooseNext(s, r, g);
      && r < |t.requests|
      && if HasYoung(s, g) then t.requests[r].pc == Copying(g, s.clock, None) && t.world == s.world
         else t.requests[r].pc == Dialling(g, s.clock)
  {
  }
}
