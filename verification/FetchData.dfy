/**
 The fan-out of a read request (client/graphite/read.go, fetchData): a feeder, a
 pool of workers, a closer and a reader over two bounded channels.

 Every goroutine is deterministic once the outcome of each fetch is given, so a
 state and a choice of goroutine determine the next state; a run is a schedule.
 The feeder and the reader are one goroutine, the caller's.
 */
module FetchData {

  const MAX_FETCH_WORKERS := 10

  /** What one call of TargetToTimeseries gives: an error, or pointers to series. */
  datatype Outcome = Failed | Fetched(series: seq<int>)

  /** What the output channel carries. The job number is only for the proofs. */
  datatype Message = Nil | Series(job: nat, ptr: int)

  datatype Main =
    | Spawning(next: nat)  // starts worker `next`
    | Feeding(next: nat)   // sends target `next`, or closes the input after the last
    | SpawningCloser
    | Reading
    | Returned

  datatype Worker =
    | Absent
    | Receiving
    | Fetching(job: nat)
    | Sending(job: nat, next: nat)
    | Exited

  datatype Closer = Unborn | Waiting | SendingNil | ClosingOutput | Finished

  datatype State = State(
    main: Main, workers: seq<Worker>, closer: Closer,
    input: seq<nat>, inputClosed: bool,
    output: seq<Message>, outputClosed: bool,
    wg: int, result: seq<Message>,
    panicked: bool)

  datatype Step = MainStep | WorkerStep(i: nat) | CloserStep

  /** The outcome of fetching each target, in the order of the target list. */
  type Targets = seq<Outcome>

  function Full(c: Targets, j: nat): seq<int> {
    if j < |c| && c[j].Fetched? then c[j].series else []
  }

  // --------------------------------------------------------------- the steps

  function Init(): State {
    State(Spawning(0), seq(MAX_FETCH_WORKERS, _ => Absent), Unborn,
          [], false, [], false, 0, [], false)
  }

  /** A send waits for room; a closed channel does not block it. */
  predicate CanFeed(c: Targets, s: State) {
    s.inputClosed || |s.input| < |c|
  }

  predicate CanEmit(c: Targets, s: State) {
    s.outputClosed || |s.output| < |c| + 1
  }

  predicate Enabled(c: Targets, s: State, step: Step) {
    && !s.panicked
    && match step {
      case MainStep =>
        (match s.main
         case Spawning(_) => true
         case Feeding(k) => k >= |c| || CanFeed(c, s)
         case SpawningCloser => true
         case Reading => s.output != [] || s.outputClosed
         case Returned => false)
      case WorkerStep(i) =>
        i < |s.workers| &&
        (match s.workers[i]
         case Absent => false
         case Receiving => s.input != [] || s.inputClosed
         case Fetching(_) => true
         case Sending(j, k) => k >= |Full(c, j)| || CanEmit(c, s)
         case Exited => false)
      case CloserStep =>
        (match s.closer
         case Unborn => false
         case Waiting => s.wg == 0
         case SendingNil => CanEmit(c, s)
         case ClosingOutput => true
         case Finished => false)
    }
  }

  /** Sending on a closed channel panics. */
  function Emit(s: State, m: Message): State {
    if s.outputClosed then s.(panicked := true)
    else s.(output := s.output + [m])
  }

  function MainNext(c: Targets, s: State): State
    requires Enabled(c, s, MainStep)
  {
    match s.main
    case Spawning(i) =>
      var s' := s.(main := if i + 1 < MAX_FETCH_WORKERS then Spawning(i + 1) else Feeding(0),
                   wg := s.wg + 1);
      if i < |s.workers| then s'.(workers := s.workers[i := Receiving]) else s'
    case Feeding(k) =>
      if k < |c| then
        if s.inputClosed then s.(panicked := true)
        else s.(main := Feeding(k + 1), input := s.input + [k])
      else if s.inputClosed then s.(panicked := true)
      else s.(main := SpawningCloser, inputClosed := true)
    case SpawningCloser => s.(main := Reading, closer := Waiting)
    case Reading =>
      if s.output != [] then
        if s.output[0] == Nil then s.(main := Returned, output := s.output[1..])
        else s.(result := s.result + [s.output[0]], output := s.output[1..])
      else s.(main := Returned)  // receiving from a closed channel gives nil
  }

  function WorkerNext(c: Targets, s: State, i: nat): State
    requires Enabled(c, s, WorkerStep(i))
  {
    match s.workers[i]
    case Receiving =>
      if s.input != [] then
        s.(workers := s.workers[i := Fetching(s.input[0])], input := s.input[1..])
      else  // the range loop ends and the deferred Done runs
        s.(workers := s.workers[i := Exited], wg := s.wg - 1, panicked := s.wg <= 0)
    case Fetching(j) =>
      if j < |c| && c[j].Fetched? then s.(workers := s.workers[i := Sending(j, 0)])
      else s.(workers := s.workers[i := Receiving])
    case Sending(j, k) =>
      if k < |Full(c, j)| then
        Emit(s.(workers := s.workers[i := Sending(j, k + 1)]), Series(j, Full(c, j)[k]))
      else s.(workers := s.workers[i := Receiving])
  }

  function CloserNext(c: Targets, s: State): State
    requires Enabled(c, s, CloserStep)
  {
    match s.closer
    case Waiting => s.(closer := SendingNil)
    case SendingNil => Emit(s.(closer := ClosingOutput), Nil)
    case ClosingOutput => s.(closer := Finished, outputClosed := true, panicked := s.outputClosed)
  }

  function Next(c: Targets, s: State, step: Step): State
    requires Enabled(c, s, step)
  {
    match step
    case MainStep => MainNext(c, s)
    case WorkerStep(i) => WorkerNext(c, s, i)
    case CloserStep => CloserNext(c, s)
  }

  /** Can the goroutines be scheduled in this order from s? */
  predicate Schedule(c: Targets, s: State, steps: seq<Step>)
    decreases |steps|
  {
    steps == [] || (Enabled(c, s, steps[0]) && Schedule(c, Next(c, s, steps[0]), steps[1..]))
  }

  function Run(c: Targets, s: State, steps: seq<Step>): State
    requires Schedule(c, s, steps)
    decreases |steps|
  {
    if steps == [] then s else Run(c, Next(c, s, steps[0]), steps[1..])
  }

  /** Every goroutine has ended. */
  predicate AllEnded(s: State) {
    && s.main.Returned?
    && s.closer.Finished?
    && forall i | 0 <= i < |s.workers| :: s.workers[i].Exited?
  }

  // ------------------------------------------------------- what was delivered

  /** The series of job j among the messages, in their order. */
  function Project(ms: seq<Message>, j: nat): seq<int> {
    if ms == [] then []
    else (if ms[0].Series? && ms[0].job == j then [ms[0].ptr] else []) + Project(ms[1..], j)
  }

  lemma {:induction false} ProjectAppend(a: seq<Message>, b: seq<Message>, j: nat)
    ensures Project(a + b, j) == Project(a, j) + Project(b, j)
    decreases |a|
  {
    if a == [] {
      assert a + b == b;
    } else {
      ProjectAppend(a[1..], b, j);
      ProjectCons(a[0], a[1..] + b, j);
      assert a + b == [a[0]] + (a[1..] + b);
      var head := if a[0].Series? && a[0].job == j then [a[0].ptr] else [];
      Associates(head, Project(a[1..], j), Project(b, j));
    }
  }

  lemma Associates(a: seq<int>, b: seq<int>, c: seq<int>)
    ensures a + (b + c) == a + b + c
  {
  }

  lemma ProjectCons(m: Message, ms: seq<Message>, j: nat)
    ensures Project([m] + ms, j) == (if m.Series? && m.job == j then [m.ptr] else []) + Project(ms, j)
  {
    assert ([m] + ms)[1..] == ms;
  }

  lemma ProjectOne(a: seq<Message>, m: Message, j: nat)
    ensures Project(a + [m], j) == Project(a, j) + if m.Series? && m.job == j then [m.ptr] else []
  {
    ProjectAppend(a, [m], j);
    assert [m][1..] == [];
    assert Project([m][1..], j) == [];
  }

  function Pointers(ms: seq<Message>): seq<int> {
    if ms == [] then []
    else (if ms[0].Series? then [ms[0].ptr] else []) + Pointers(ms[1..])
  }

  /** The series of the first n targets, errors contributing nothing. */
  function AllSeries(c: Targets, n: nat): seq<int>
    requires n <= |c|
  {
    if n == 0 then []
    else AllSeries(c, n - 1) + match c[n - 1] case Fetched(series) => series case Failed => []
  }

  // -------------------------------------------------------------- invariants

  predicate IsActive(w: Worker) {
    !w.Absent? && !w.Exited?
  }

  function Active(ws: seq<Worker>): nat {
    if ws == [] then 0 else (if IsActive(ws[0]) then 1 else 0) + Active(ws[1..])
  }

  lemma {:induction false} ActiveUpdate(ws: seq<Worker>, i: nat, w: Worker)
    requires i < |ws|
    ensures Active(ws[i := w]) ==
            Active(ws) - (if IsActive(ws[i]) then 1 else 0) + (if IsActive(w) then 1 else 0)
    decreases |ws|
  {
    if i == 0 {
      assert ws[i := w][1..] == ws[1..];
    } else {
      ActiveUpdate(ws[1..], i - 1, w);
      assert ws[i := w][1..] == ws[1..][i - 1 := w];
    }
  }

  lemma {:induction false} ActiveMember(ws: seq<Worker>, i: nat)
    requires i < |ws| && IsActive(ws[i])
    ensures Active(ws) > 0
    decreases |ws|
  {
    if i > 0 {
      ActiveMember(ws[1..], i - 1);
    }
  }

  lemma {:induction false} ActiveNone(ws: seq<Worker>)
    requires forall i :: 0 <= i < |ws| ==> !IsActive(ws[i])
    ensures Active(ws) == 0
    decreases |ws|
  {
    if ws != [] {
      ActiveNone(ws[1..]);
    }
  }

  predicate MainInv(c: Targets, s: State) {
    && |s.workers| == MAX_FETCH_WORKERS
    && !s.panicked
    && (s.main.Spawning? ==> s.main.next < MAX_FETCH_WORKERS)
    && (s.main.Feeding? ==> s.main.next <= |c|)
    && (s.inputClosed <==> s.main.SpawningCloser? || s.main.Reading? || s.main.Returned?)
    && (s.closer.Unborn? <==> !s.main.Reading? && !s.main.Returned?)
  }

  predicate PoolInv(s: State) {
    && s.wg == Active(s.workers)
    && (forall i | 0 <= i < |s.workers| ::
          s.workers[i].Absent? <==> s.main.Spawning? && s.main.next <= i)
    && (forall i | 0 <= i < |s.workers| ::
          s.workers[i].Exited? ==> s.inputClosed && s.input == [])
    && (s.closer.SendingNil? || s.closer.ClosingOutput? || s.closer.Finished? ==>
          forall i | 0 <= i < |s.workers| :: s.workers[i].Exited?)
  }

  predicate NoNil(ms: seq<Message>) {
    forall i | 0 <= i < |ms| :: ms[i].Series?
  }

  /** The nil sentinel is queued after every worker has exited, and is the last. */
  predicate SentinelInv(s: State) {
    && (s.outputClosed <==> s.closer.Finished?)
    && NoNil(s.result)
    && if s.closer.ClosingOutput? || s.closer.Finished? then
         if s.main.Returned? then s.output == []
         else
           && s.output != [] && s.output[|s.output| - 1] == Nil
           && forall k | 0 <= k < |s.output| - 1 :: s.output[k].Series?
       else
         !s.main.Returned? && NoNil(s.output)
  }

  function Fed(c: Targets, s: State): nat {
    match s.main
    case Spawning(_) => 0
    case Feeding(k) => k
    case _ => |c|
  }

  /** The number of targets the workers have taken from the input. */
  function Taken(c: Targets, s: State): int {
    Fed(c, s) - |s.input|
  }

  predicate Busy(w: Worker) {
    w.Fetching? || w.Sending?
  }

  function SentBy(w: Worker): nat {
    if w.Sending? then w.next else 0
  }

  predicate InputInv(c: Targets, s: State) {
    && 0 <= Taken(c, s) && Fed(c, s) <= |c|
    && (forall i | 0 <= i < |s.input| :: s.input[i] == Taken(c, s) + i)
    && |s.output| <= |c| + 1
    && (forall i | 0 <= i < |s.workers| && Busy(s.workers[i]) ::
          && s.workers[i].job < Taken(c, s)
          && SentBy(s.workers[i]) <= |Full(c, s.workers[i].job)|)
    && (forall i, k | 0 <= i < k < |s.workers| && Busy(s.workers[i]) && Busy(s.workers[k]) ::
          s.workers[i].job != s.workers[k].job)
  }

  /** All messages sent so far, received or not, in order. */
  function Stream(s: State): seq<Message> {
    s.result + s.output
  }

  predicate Holds(w: Worker, j: nat) {
    Busy(w) && w.job == j
  }

  ghost predicate Held(ws: seq<Worker>, j: nat) {
    exists i :: 0 <= i < |ws| && Holds(ws[i], j)
  }

  /** Each job has sent nothing yet, a prefix of its series, or all of them. */
  ghost predicate Delivered(c: Targets, sent: seq<Message>, ws: seq<Worker>, taken: int) {
    && (forall j: nat :: j >= taken ==> Project(sent, j) == [])
    && (forall i | 0 <= i < |ws| && Busy(ws[i]) ::
          && SentBy(ws[i]) <= |Full(c, ws[i].job)|
          && Project(sent, ws[i].job) == Full(c, ws[i].job)[..SentBy(ws[i])])
    && (forall j: nat :: j < taken && !Held(ws, j) ==> Project(sent, j) == Full(c, j))
  }

  ghost predicate DeliveryInv(c: Targets, s: State) {
    Delivered(c, Stream(s), s.workers, Taken(c, s))
  }

  ghost predicate Inv(c: Targets, s: State) {
    MainInv(c, s) && PoolInv(s) && SentinelInv(s) && InputInv(c, s) && DeliveryInv(c, s)
  }

  lemma InitInv(c: Targets)
    ensures Inv(c, Init())
  {
    ActiveNone(Init().workers);
  }

  predicate ControlInv(c: Targets, s: State) {
    MainInv(c, s) && PoolInv(s) && SentinelInv(s) && InputInv(c, s)
  }

  lemma SpawnKeepsInv(c: Targets, s: State)
    requires Inv(c, s) && Enabled(c, s, MainStep) && s.main.Spawning?
    ensures Inv(c, MainNext(c, s))
  {
    var s' := MainNext(c, s);
    ActiveUpdate(s.workers, s.main.next, Receiving);
    IdleChange(c, Stream(s), s.workers, s.main.next, Receiving, Taken(c, s));
    assert Stream(s') == Stream(s);
  }

  lemma FeedKeepsInv(c: Targets, s: State)
    requires Inv(c, s) && Enabled(c, s, MainStep) && s.main.Feeding?
    ensures Inv(c, MainNext(c, s))
  {
    var s' := MainNext(c, s);
    assert Stream(s') == Stream(s);
    assert Taken(c, s') == Taken(c, s);
  }

  lemma ReceiveKeepsControl(c: Targets, s: State)
    requires Inv(c, s) && Enabled(c, s, MainStep) && s.main.Reading?
    ensures ControlInv(c, MainNext(c, s))
  {
    var s' := MainNext(c, s);
    assert Taken(c, s') == Taken(c, s);
  }

  lemma MainKeepsInv(c: Targets, s: State)
    requires Inv(c, s) && Enabled(c, s, MainStep)
    ensures Inv(c, MainNext(c, s))
  {
    match s.main
    case Spawning(_) => SpawnKeepsInv(c, s);
    case Feeding(_) => FeedKeepsInv(c, s);
    case SpawningCloser => assert Stream(MainNext(c, s)) == Stream(s);
    case Reading =>
      ReceiveKeepsControl(c, s);
      ReceiveKeepsDelivery(c, s);
  }

  lemma ReceiveKeepsDelivery(c: Targets, s: State)
    requires Inv(c, s) && Enabled(c, s, MainStep) && s.main.Reading?
    ensures DeliveryInv(c, MainNext(c, s))
  {
    var s' := MainNext(c, s);
    if s.output != [] && s.output[0] == Nil {
      assert |s.output| == 1;
      assert Stream(s) == Stream(s') + [Nil];
      NilChangesNothing(Stream(s'));
    } else {
      assert Stream(s') == Stream(s);
    }
  }

  lemma NilChangesNothing(ms: seq<Message>)
    ensures forall j: nat :: Project(ms + [Nil], j) == Project(ms, j)
  {
    forall j: nat ensures Project(ms + [Nil], j) == Project(ms, j) {
      ProjectOne(ms, Nil, j);
    }
  }

  /** A worker that holds no job before or after matters to no job. */
  lemma IdleChange(c: Targets, sent: seq<Message>, ws: seq<Worker>, i: nat, w: Worker, taken: int)
    requires Delivered(c, sent, ws, taken)
    requires i < |ws| && !Busy(ws[i]) && !Busy(w)
    ensures Delivered(c, sent, ws[i := w], taken)
  {
    forall j: nat | !Held(ws[i := w], j) ensures !Held(ws, j) {
      HeldElsewhere(ws, i, w, j);
    }
  }

  lemma HeldElsewhere(ws: seq<Worker>, i: nat, w: Worker, j: nat)
    requires i < |ws| && !Holds(ws[i], j)
    ensures Held(ws, j) ==> Held(ws[i := w], j)
  {
    if Held(ws, j) {
      var k :| 0 <= k < |ws| && Holds(ws[k], j);
      assert Holds(ws[i := w][k], j);
    }
  }

  /** A worker takes the next job, of which nothing has been sent. */
  lemma TakeJob(c: Targets, sent: seq<Message>, ws: seq<Worker>, i: nat, taken: nat)
    requires Delivered(c, sent, ws, taken)
    requires i < |ws| && !Busy(ws[i])
    ensures Delivered(c, sent, ws[i := Fetching(taken)], taken + 1)
  {
    var ws' := ws[i := Fetching(taken)];
    assert Holds(ws'[i], taken);
    forall j: nat | !Held(ws', j) ensures !Held(ws, j) && j != taken {
      HeldElsewhere(ws, i, Fetching(taken), j);
    }
  }

  /** A worker that has sent all of its job lets go of it. */
  lemma FinishJob(c: Targets, sent: seq<Message>, ws: seq<Worker>, i: nat, w: Worker, taken: int)
    requires Delivered(c, sent, ws, taken)
    requires i < |ws| && Busy(ws[i]) && !Busy(w)
    requires SentBy(ws[i]) == |Full(c, ws[i].job)|
    ensures Delivered(c, sent, ws[i := w], taken)
  {
    forall j: nat | !Held(ws[i := w], j) ensures !Held(ws, j) || j == ws[i].job {
      if j != ws[i].job {
        HeldElsewhere(ws, i, w, j);
      }
    }
  }

  /** A worker keeps its job and may have sent one more of its series. */
  lemma AdvanceJob(c: Targets, sent: seq<Message>, sent': seq<Message>,
                   ws: seq<Worker>, i: nat, w: Worker, taken: int)
    requires Delivered(c, sent, ws, taken)
    requires i < |ws| && Busy(ws[i]) && Busy(w) && w.job == ws[i].job < taken
    requires forall k | 0 <= k < |ws| && k != i && Busy(ws[k]) :: ws[k].job != w.job
    requires forall j: nat :: j != w.job ==> Project(sent', j) == Project(sent, j)
    requires SentBy(w) <= |Full(c, w.job)| && Project(sent', w.job) == Full(c, w.job)[..SentBy(w)]
    ensures Delivered(c, sent', ws[i := w], taken)
  {
    assert Holds(ws[i := w][i], w.job);
    forall j: nat | !Held(ws[i := w], j) ensures !Held(ws, j) && j != w.job {
      if j != w.job {
        HeldElsewhere(ws, i, w, j);
      }
    }
  }

  lemma TakeKeepsControl(c: Targets, s: State, i: nat)
    requires Inv(c, s) && Enabled(c, s, WorkerStep(i)) && s.workers[i].Receiving?
    ensures ControlInv(c, WorkerNext(c, s, i))
  {
    var s' := WorkerNext(c, s, i);
    ActiveMember(s.workers, i);
    ActiveUpdate(s.workers, i, s'.workers[i]);
    if s.input != [] {
      assert Taken(c, s') == Taken(c, s) + 1;
      assert s.input[0] == Taken(c, s);
      assert forall k :: 0 <= k < |s'.input| ==> s'.input[k] == s.input[k + 1];
    } else {
      assert Taken(c, s') == Taken(c, s);
    }
  }

  /** One busy worker moves on within its job or lets go of it. */
  lemma WorkKeepsControl(c: Targets, s: State, i: nat, w: Worker)
    requires ControlInv(c, s) && i < |s.workers| && Busy(s.workers[i])
    requires IsActive(w)
    requires Busy(w) ==> w.job == s.workers[i].job && SentBy(w) <= |Full(c, w.job)|
    ensures ControlInv(c, s.(workers := s.workers[i := w]))
    ensures !s.closer.SendingNil? && !s.closer.ClosingOutput? && !s.closer.Finished?
  {
    ActiveUpdate(s.workers, i, w);
    assert !s.workers[i].Exited?;
    var s' := s.(workers := s.workers[i := w]);
    assert Taken(c, s') == Taken(c, s);
    forall k, l | 0 <= k < l < |s'.workers| && Busy(s'.workers[k]) && Busy(s'.workers[l])
      ensures s'.workers[k].job != s'.workers[l].job
    {
      assert Busy(s.workers[k]) && Busy(s.workers[l]);
    }
  }

  lemma EmitKeepsControl(c: Targets, s: State, m: Message)
    requires ControlInv(c, s) && CanEmit(c, s) && m.Series?
    requires !s.closer.SendingNil? && !s.closer.ClosingOutput? && !s.closer.Finished?
    ensures ControlInv(c, Emit(s, m))
  {
    assert Taken(c, Emit(s, m)) == Taken(c, s);
  }

  lemma BusyKeepsControl(c: Targets, s: State, i: nat)
    requires Inv(c, s) && Enabled(c, s, WorkerStep(i)) && Busy(s.workers[i])
    ensures ControlInv(c, WorkerNext(c, s, i))
  {
    var w := WorkerNext(c, s, i).workers[i];
    WorkKeepsControl(c, s, i, w);
    if s.workers[i].Sending? && s.workers[i].next < |Full(c, s.workers[i].job)| {
      var Sending(j, k) := s.workers[i];
      EmitKeepsControl(c, s.(workers := s.workers[i := w]), Series(j, Full(c, j)[k]));
    }
  }

  lemma ProjectEach(sent: seq<Message>, m: Message)
    requires m.Series?
    ensures forall j: nat ::
              Project(sent + [m], j) == Project(sent, j) + if j == m.job then [m.ptr] else []
  {
    forall j: nat ensures Project(sent + [m], j) == Project(sent, j) + if j == m.job then [m.ptr] else [] {
      ProjectOne(sent, m, j);
    }
  }

  lemma WorkerKeepsDelivery(c: Targets, s: State, i: nat)
    requires Inv(c, s) && Enabled(c, s, WorkerStep(i))
    ensures DeliveryInv(c, WorkerNext(c, s, i))
  {
    var s' := WorkerNext(c, s, i);
    var w' := s'.workers[i];
    match s.workers[i]
    case Receiving =>
      assert Stream(s') == Stream(s);
      if s.input != [] {
        TakeJob(c, Stream(s), s.workers, i, s.input[0]);
      } else {
        IdleChange(c, Stream(s), s.workers, i, Exited, Taken(c, s));
      }
    case Fetching(j) =>
      assert Stream(s') == Stream(s);
      if w'.Sending? {
        AdvanceJob(c, Stream(s), Stream(s), s.workers, i, w', Taken(c, s));
      } else {
        FinishJob(c, Stream(s), s.workers, i, w', Taken(c, s));
      }
    case Sending(j, k) =>
      SenderKeepsDelivery(c, s, i);
  }

  lemma SenderKeepsDelivery(c: Targets, s: State, i: nat)
    requires Inv(c, s) && Enabled(c, s, WorkerStep(i)) && s.workers[i].Sending?
    ensures DeliveryInv(c, WorkerNext(c, s, i))
  {
    var s' := WorkerNext(c, s, i);
    var w', j, k := s'.workers[i], s.workers[i].job, s.workers[i].next;
    if k < |Full(c, j)| {
      var m := Series(j, Full(c, j)[k]);
      assert Stream(s') == Stream(s) + [m];
      ProjectEach(Stream(s), m);
      assert Full(c, j)[..k] + [Full(c, j)[k]] == Full(c, j)[..k + 1];
      AdvanceJob(c, Stream(s), Stream(s'), s.workers, i, w', Taken(c, s));
    } else {
      assert Stream(s') == Stream(s);
      FinishJob(c, Stream(s), s.workers, i, w', Taken(c, s));
    }
  }

  lemma CloserKeepsInv(c: Targets, s: State)
    requires Inv(c, s) && Enabled(c, s, CloserStep)
    ensures Inv(c, CloserNext(c, s))
  {
    var s' := CloserNext(c, s);
    if s.closer.SendingNil? {
      assert Stream(s') == Stream(s) + [Nil];
      NilChangesNothing(Stream(s));
    } else {
      assert Stream(s') == Stream(s);
      if s.closer.Waiting? {
        NobodyActive(s);
      }
    }
  }

  lemma NobodyActive(s: State)
    requires s.wg == 0 == Active(s.workers)
    ensures forall i | 0 <= i < |s.workers| :: !IsActive(s.workers[i])
  {
    forall i | 0 <= i < |s.workers| ensures !IsActive(s.workers[i]) {
      if IsActive(s.workers[i]) {
        ActiveMember(s.workers, i);
      }
    }
  }

  lemma StepKeepsInv(c: Targets, s: State, step: Step)
    requires Inv(c, s) && Enabled(c, s, step)
    ensures Inv(c, Next(c, s, step))
  {
    match step
    case MainStep => MainKeepsInv(c, s);
    case WorkerStep(i) =>
      if s.workers[i].Receiving? {
        TakeKeepsControl(c, s, i);
      } else {
        BusyKeepsControl(c, s, i);
      }
      WorkerKeepsDelivery(c, s, i);
    case CloserStep => CloserKeepsInv(c, s);
  }

  // ------------------------------------------------------------- termination

  function MainRank(c: Targets, m: Main): int {
    match m
    case Spawning(i) => MAX_FETCH_WORKERS - i + |c| + 3
    case Feeding(k) => |c| - k + 3
    case SpawningCloser => 2
    case Reading => 1
    case Returned => 0
  }

  function WorkerRank(c: Targets, w: Worker): int {
    match w
    case Absent => 2
    case Receiving => 1
    case Fetching(j) => 3 + 2 * |Full(c, j)|
    case Sending(j, k) => 2 + 2 * (|Full(c, j)| - k)
    case Exited => 0
  }

  function PoolRank(c: Targets, ws: seq<Worker>): int {
    if ws == [] then 0 else WorkerRank(c, ws[0]) + PoolRank(c, ws[1..])
  }

  lemma {:induction false} PoolRankUpdate(c: Targets, ws: seq<Worker>, i: nat, w: Worker)
    requires i < |ws|
    ensures PoolRank(c, ws[i := w]) == PoolRank(c, ws) - WorkerRank(c, ws[i]) + WorkerRank(c, w)
    decreases |ws|
  {
    if i == 0 {
      assert ws[i := w][1..] == ws[1..];
    } else {
      PoolRankUpdate(c, ws[1..], i - 1, w);
      assert ws[i := w][1..] == ws[1..][i - 1 := w];
    }
  }

  function CloserRank(k: Closer): int {
    match k
    case Unborn => 5
    case Waiting => 4
    case SendingNil => 3
    case ClosingOutput => 1
    case Finished => 0
  }

  /** The steps the jobs that no worker has taken yet may still cost. */
  function JobsRank(c: Targets, taken: int): int
    decreases |c| - taken
  {
    if taken >= |c| || taken < 0 then 0 else 3 + 2 * |Full(c, taken)| + JobsRank(c, taken + 1)
  }

  function Measure(c: Targets, s: State): int {
    MainRank(c, s.main) + PoolRank(c, s.workers) + CloserRank(s.closer)
    + JobsRank(c, Taken(c, s)) + |s.output|
  }

  lemma {:induction false} PoolRankNonNegative(c: Targets, ws: seq<Worker>)
    requires forall i | 0 <= i < |ws| && Busy(ws[i]) :: SentBy(ws[i]) <= |Full(c, ws[i].job)|
    ensures PoolRank(c, ws) >= 0
    decreases |ws|
  {
    if ws != [] {
      PoolRankNonNegative(c, ws[1..]);
      assert Busy(ws[0]) ==> SentBy(ws[0]) <= |Full(c, ws[0].job)|;
    }
  }

  lemma {:induction false} JobsRankNonNegative(c: Targets, taken: int)
    ensures JobsRank(c, taken) >= 0
    decreases |c| - taken
  {
    if 0 <= taken < |c| {
      JobsRankNonNegative(c, taken + 1);
    }
  }

  lemma MeasureNonNegative(c: Targets, s: State)
    requires Inv(c, s)
    ensures Measure(c, s) >= 0
  {
    PoolRankNonNegative(c, s.workers);
    JobsRankNonNegative(c, Taken(c, s));
  }

  lemma MainDecreases(c: Targets, s: State)
    requires Inv(c, s) && Enabled(c, s, MainStep)
    ensures Measure(c, MainNext(c, s)) < Measure(c, s)
  {
    assert Taken(c, MainNext(c, s)) == Taken(c, s);
    if s.main.Spawning? {
      PoolRankUpdate(c, s.workers, s.main.next, Receiving);
    }
  }

  lemma WorkerDecreases(c: Targets, s: State, i: nat)
    requires Inv(c, s) && Enabled(c, s, WorkerStep(i))
    ensures Measure(c, WorkerNext(c, s, i)) < Measure(c, s)
  {
    var s' := WorkerNext(c, s, i);
    PoolRankUpdate(c, s.workers, i, s'.workers[i]);
    if s.workers[i].Receiving? && s.input != [] {
      assert s.input[0] == Taken(c, s) && Taken(c, s') == Taken(c, s) + 1;
    } else {
      assert Taken(c, s') == Taken(c, s);
    }
  }

  lemma StepDecreases(c: Targets, s: State, step: Step)
    requires Inv(c, s) && Enabled(c, s, step)
    ensures Measure(c, Next(c, s, step)) < Measure(c, s)
  {
    match step
    case MainStep => MainDecreases(c, s);
    case WorkerStep(i) => WorkerDecreases(c, s, i);
    case CloserStep => assert Taken(c, CloserNext(c, s)) == Taken(c, s);
  }

  // ------------------------------------------------------ no reachable deadlock

  lemma NoDeadlock(c: Targets, s: State)
    requires Inv(c, s) && !AllEnded(s)
    ensures exists step :: Enabled(c, s, step)
  {
    if !Enabled(c, s, MainStep) {
      if i :| 0 <= i < |s.workers| && !s.workers[i].Exited? {
        assert s.main.Reading?;
        assert Enabled(c, s, WorkerStep(i));
      } else {
        ActiveNone(s.workers);
        assert Enabled(c, s, CloserStep);
      }
    }
  }

  // -------------------------------------------------------------- whole runs

  lemma {:induction false} RunKeepsInv(c: Targets, s: State, steps: seq<Step>)
    requires Inv(c, s) && Schedule(c, s, steps)
    ensures Inv(c, Run(c, s, steps))
    ensures |steps| + Measure(c, Run(c, s, steps)) <= Measure(c, s)
    decreases |steps|
  {
    if steps != [] {
      StepKeepsInv(c, s, steps[0]);
      StepDecreases(c, s, steps[0]);
      RunKeepsInv(c, Next(c, s, steps[0]), steps[1..]);
    }
  }

  lemma {:induction false} AbsentRank(c: Targets, ws: seq<Worker>)
    requires forall i :: 0 <= i < |ws| ==> ws[i] == Absent
    ensures PoolRank(c, ws) == 2 * |ws|
    decreases |ws|
  {
    if ws != [] {
      AbsentRank(c, ws[1..]);
    }
  }

  lemma {:induction false} JobsRankTotal(c: Targets, taken: nat)
    requires taken <= |c|
    ensures JobsRank(c, taken) == 3 * (|c| - taken) + 2 * (|AllSeries(c, |c|)| - |AllSeries(c, taken)|)
    decreases |c| - taken
  {
    if taken < |c| {
      JobsRankTotal(c, taken + 1);
    }
  }

  lemma InitialMeasure(c: Targets)
    ensures Measure(c, Init()) <= 38 + 4 * |c| + 2 * |AllSeries(c, |c|)|
  {
    AbsentRank(c, Init().workers);
    JobsRankTotal(c, 0);
  }

  /**
   Termination: no schedule of the goroutines is longer than this, whatever the
   targets and the outcomes.
   */
  lemma RunsAreBounded(c: Targets, steps: seq<Step>)
    requires Schedule(c, Init(), steps)
    ensures |steps| <= 38 + 4 * |c| + 2 * |AllSeries(c, |c|)|
  {
    InitInv(c);
    InitialMeasure(c);
    RunKeepsInv(c, Init(), steps);
    MeasureNonNegative(c, Run(c, Init(), steps));
  }

  /**
   Channel discipline in every reachable state: nothing panics (no send on a
   closed channel, no channel closed twice, no negative wait group), the channels
   stay within their capacities, and a nil in the output is the last message and
   means that every worker has exited.
   */
  lemma ChannelsAreSafe(c: Targets, steps: seq<Step>)
    requires Schedule(c, Init(), steps)
    ensures
      var s := Run(c, Init(), steps);
      && !s.panicked
      && |s.input| <= |c| && |s.output| <= |c| + 1
      && (s.outputClosed ==> forall i | 0 <= i < |s.workers| :: s.workers[i].Exited?)
      && forall k | 0 <= k < |s.output| && s.output[k] == Nil ::
           k == |s.output| - 1 && forall i | 0 <= i < |s.workers| :: s.workers[i].Exited?
  {
    InitInv(c);
    RunKeepsInv(c, Init(), steps);
  }

  /**
   No deadlock and no leak: a run that cannot go on has ended every goroutine.
   */
  lemma StuckMeansEnded(c: Targets, steps: seq<Step>)
    requires Schedule(c, Init(), steps)
    requires forall step :: !Enabled(c, Run(c, Init(), steps), step)
    ensures AllEnded(Run(c, Init(), steps))
  {
    InitInv(c);
    RunKeepsInv(c, Init(), steps);
    if !AllEnded(Run(c, Init(), steps)) {
      NoDeadlock(c, Run(c, Init(), steps));
    }
  }

  /** The worker has a series to send, of the response it fetched. */
  predicate HasMore(c: Targets, w: Worker) {
    w.Sending? && w.job < |c| && match c[w.job] case Fetched(series) => w.next < |series| case Failed => false
  }

  /**
   Who waits, and for what, in every reachable state: there are ten workers, all started
   before the first target is fed; the feeder never waits; a worker waits for a target or
   for the input's end, or, to send a series, for room among the output's |c| + 1 places;
   the reader for a message or the output's end; the closer for the workers, or for room.
   */
  lemma WaitsExactly(c: Targets, steps: seq<Step>, i: nat)
    requires Schedule(c, Init(), steps) && i < 10
    ensures
      var s := Run(c, Init(), steps);
      && |s.workers| == 10
      && (s.workers[i].Absent? ==> s.main.Spawning?)
      && (!Enabled(c, s, MainStep) <==>
            s.main == Returned || (s.main == Reading && s.output == [] && !s.outputClosed))
      && (!Enabled(c, s, WorkerStep(i)) <==>
            || s.workers[i] == Absent || s.workers[i] == Exited
            || (s.workers[i] == Receiving && s.input == [] && !s.inputClosed)
            || (HasMore(c, s.workers[i]) && |s.output| == |c| + 1))
      && (!Enabled(c, s, CloserStep) <==>
            || s.closer == Unborn || s.closer == Finished
            || (s.closer == Waiting && exists k | 0 <= k < 10 :: s.workers[k] != Exited)
            || (s.closer == SendingNil && |s.output| == |c| + 1))
  {
    InitInv(c);
    RunKeepsInv(c, Init(), steps);
    WaitsInv(c, Run(c, Init(), steps), i);
  }

  lemma WaitsInv(c: Targets, s: State, i: nat)
    requires Inv(c, s) && i < 10
    ensures
      && (s.workers[i].Absent? ==> s.main.Spawning?)
      && (!Enabled(c, s, MainStep) <==>
            s.main == Returned || (s.main == Reading && s.output == [] && !s.outputClosed))
      && (!Enabled(c, s, WorkerStep(i)) <==>
            || s.workers[i] == Absent || s.workers[i] == Exited
            || (s.workers[i] == Receiving && s.input == [] && !s.inputClosed)
            || (HasMore(c, s.workers[i]) && |s.output| == |c| + 1))
      && (!Enabled(c, s, CloserStep) <==>
            || s.closer == Unborn || s.closer == Finished
            || (s.closer == Waiting && exists k | 0 <= k < 10 :: s.workers[k] != Exited)
            || (s.closer == SendingNil && |s.output| == |c| + 1))
  {
    FeederHasRoom(c, s);
    if s.closer == Waiting {
      if k :| 0 <= k < 10 && s.workers[k] != Exited {
        assert IsActive(s.workers[k]);
        ActiveMember(s.workers, k);
      } else {
        ActiveNone(s.workers);
      }
    }
  }

  lemma FeederHasRoom(c: Targets, s: State)
    requires Inv(c, s)
    ensures s.main.Feeding? && s.main.next < |c| ==> |s.input| < |c|
  {
  }

  // ------------------------------------------------------ exactly-once delivery

  function FirstJobs(ms: seq<Message>, n: nat): seq<int> {
    if ms == [] then []
    else (if ms[0].Series? && ms[0].job < n then [ms[0].ptr] else []) + FirstJobs(ms[1..], n)
  }

  lemma {:induction false} FirstJobsStep(ms: seq<Message>, n: nat)
    ensures multiset(FirstJobs(ms, n + 1)) == multiset(FirstJobs(ms, n)) + multiset(Project(ms, n))
    decreases |ms|
  {
    if ms != [] {
      FirstJobsStep(ms[1..], n);
    }
  }

  lemma {:induction false} FirstJobsNone(ms: seq<Message>)
    ensures FirstJobs(ms, 0) == []
    decreases |ms|
  {
    if ms != [] {
      FirstJobsNone(ms[1..]);
    }
  }

  lemma {:induction false} FirstJobsAll(ms: seq<Message>, n: nat)
    requires forall j: nat :: n <= j ==> Project(ms, j) == []
    ensures FirstJobs(ms, n) == Pointers(ms)
    decreases |ms|
  {
    if ms != [] {
      forall j: nat | n <= j ensures Project(ms[1..], j) == [] {
        assert Project(ms, j) == [];
      }
      FirstJobsAll(ms[1..], n);
      assert ms[0].Series? ==> Project(ms, ms[0].job) != [];
    }
  }

  /** Of each target exactly the series it was fetched, in their order, and of one that failed none. */
  ghost predicate ExactlyDelivered(c: Targets, ms: seq<Message>) {
    && (forall j: nat | j < |c| ::
          match c[j]
          case Fetched(series) => Project(ms, j) == series
          case Failed => Project(ms, j) == [])
    && (forall j: nat | j >= |c| :: Project(ms, j) == [])
  }

  ghost predicate SamePointers(a: seq<int>, b: seq<int>) {
    multiset(a) == multiset(b)
  }

  lemma FirstJobsDelivered(c: Targets, ms: seq<Message>, n: nat)
    requires ExactlyDelivered(c, ms) && n <= |c|
    ensures SamePointers(FirstJobs(ms, n), AllSeries(c, n))
  {
    FirstJobsNone(ms);
    for k := 0 to n
      invariant SamePointers(FirstJobs(ms, k), AllSeries(c, k))
    {
      DeliveredStep(c, ms, k);
    }
  }

  lemma DeliveredStep(c: Targets, ms: seq<Message>, n: nat)
    requires n < |c| && SamePointers(FirstJobs(ms, n), AllSeries(c, n))
    requires ExactlyDelivered(c, ms)
    ensures SamePointers(FirstJobs(ms, n + 1), AllSeries(c, n + 1))
  {
    FirstJobsStep(ms, n);
    assert AllSeries(c, n + 1) == AllSeries(c, n) + Project(ms, n);
  }

  /**
   Exactly-once delivery: whenever the caller returns, in any interleaving, it has
   collected exactly the series of the successful targets, as often as they were
   fetched, and those of each target in the order of its response.
   */
  lemma FetchDelivers(c: Targets, steps: seq<Step>)
    requires Schedule(c, Init(), steps) && Run(c, Init(), steps).main.Returned?
    ensures
      var result := Run(c, Init(), steps).result;
      && ExactlyDelivered(c, result)
      && multiset(Pointers(result)) == multiset(AllSeries(c, |c|))
  {
    InitInv(c);
    RunKeepsInv(c, Init(), steps);
    var s := Run(c, Init(), steps);
    ReturnedDelivered(c, s);
    FirstJobsDelivered(c, s.result, |c|);
    FirstJobsAll(s.result, |c|);
  }

  lemma ReturnedDelivered(c: Targets, s: State)
    requires Inv(c, s) && s.main.Returned?
    ensures ExactlyDelivered(c, s.result) && forall j: nat | |c| <= j :: Project(s.result, j) == []
  {
    assert s.output == [] && Stream(s) == s.result;
    assert Taken(c, s) == |c|;
    forall j: nat ensures j < |c| ==> Project(s.result, j) == Full(c, j) {
      assert !Held(s.workers, j);
    }
  }
}
