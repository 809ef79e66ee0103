/**
 What a request's answer says of the steps of the run: a write that reaches a client
 with a carbon address is carried out, with the buffers it was given, unless its
 context is cancelled (client/graphite/write.go, web/write.go).
 */
module Answers {
  import opened Bytes
  import opened Process
  import opened WriteHistory
  import opened WireHistory

  // --------------------------------------------------------- what may have happened

  /** The request did not parse, found no client, or is none to send anything for. */
  predicate ExcusedBy(s: State, step: Step, r: nat) {
    step.RequestStep? && step.r == r && r < |s.requests| &&
    match s.requests[r].pc
    case Entered => !step.ok || s.current.None?
    case Started(g) =>
      || s.requests[r].kind == ReadRequest
      || s.requests[r].kind == WriteRequest(true)
      || (g < |s.built| && s.built[g].cfg.carbonAddress == [])
    case _ => false
  }

  /** The context of the write is found cancelled under the mutex. */
  predicate CancelledBy(s: State, step: Step, r: nat) {
    && step.RequestStep? && step.r == r && !step.ok
    && r < |s.requests| && s.requests[r].pc.Holding? && s.requests[r].kind == WriteRequest(false)
  }

  /** These are the buffers prepared for the write. */
  predicate PreparedBy(s: State, step: Step, r: nat, buffers: seq<bytes>) {
    && step.RequestStep? && step.r == r && step.buffers == buffers
    && r < |s.requests| && s.requests[r].pc.Started? && s.requests[r].kind == WriteRequest(false)
  }

  function Excuses(r: nat): (State, Step) -> bool {
    (s: State, step: Step) => ExcusedBy(s, step, r)
  }

  function Cancels(r: nat): (State, Step) -> bool {
    (s: State, step: Step) => CancelledBy(s, step, r)
  }

  function Prepares(r: nat, buffers: seq<bytes>): (State, Step) -> bool {
    (s: State, step: Step) => PreparedBy(s, step, r, buffers)
  }

  // ------------------------------------------------------------ what a step does

  predicate HasAnswer(s: State, r: nat) {
    r < |s.requests| && !BeforeReply(s.requests[r].pc)
  }

  predicate AnsweredInv(s: State) {
    forall r | 0 <= r < |s.requests| && !BeforeReply(s.requests[r].pc) :: !s.requests[r].answer.Pending?
  }

  predicate AnswerChanges(s: State, r: nat, ok: bool, buffers: seq<bytes>)
    requires RequestEnabled(s, r)
  {
    var was, t := s.requests[r], RequestNext(s, r, ok, buffers);
    && r < |t.requests|
    && var req := t.requests[r];
    && req.kind == was.kind
    && (req.answer.Untouched? && !was.answer.Untouched? ==> ExcusedBy(s, RequestStep(r, ok, buffers), r))
    && (req.answer.Cancelled? && !was.answer.Cancelled? ==> !ok && was.pc.Holding?)
    && (!BeforeReply(req.pc) && BeforeReply(was.pc) ==> !req.answer.Pending?)
    && (!BeforeReply(was.pc) ==> req.answer == was.answer && !BeforeReply(req.pc))
  }

  /** A step under the mutex changes the request to one of these. */
  lemma CallGoesOn(s: State, r: nat, ok: bool, buffers: seq<bytes>)
    requires RequestEnabled(s, r) && InMutex(s.requests[r].pc)
    ensures
      var was, t := s.requests[r], RequestNext(s, r, ok, buffers);
      && |t.requests| == |s.requests|
      && var req := t.requests[r];
      && req.kind == was.kind && req.buffers == was.buffers
      && (|| (InMutex(req.pc) && req.answer == was.answer)
          || (req.pc == Replying && req.answer.Ended?)
          || (req.pc == Replying && req.answer == Cancelled && !ok && was.pc.Holding?))
  {
  }

  lemma CallAnswers(s: State, r: nat, ok: bool, buffers: seq<bytes>)
    requires RequestEnabled(s, r) && InMutex(s.requests[r].pc)
    ensures AnswerChanges(s, r, ok, buffers)
  {
    CallGoesOn(s, r, ok, buffers);
  }

  /** How the answer of a request changes. */
  lemma RequestAnswers(s: State, r: nat, ok: bool, buffers: seq<bytes>)
    requires RequestEnabled(s, r)
    ensures AnswerChanges(s, r, ok, buffers)
  {
    if InMutex(s.requests[r].pc) {
      CallAnswers(s, r, ok, buffers);
    }
  }

  predicate BuffersChange(s: State, r: nat, ok: bool, buffers: seq<bytes>)
    requires RequestEnabled(s, r)
  {
    var was, t := s.requests[r], RequestNext(s, r, ok, buffers);
    && r < |t.requests|
    && var req := t.requests[r];
    && (req.buffers == was.buffers || req.pc.Prepared?)
    && (req.pc.Prepared? ==> was.pc.Started? && req.buffers == buffers && was.kind == WriteRequest(false))
    && (Underway(req) && !req.pc.Prepared? ==> Underway(was))
    && (was.pc.Prepared? || InMutex(was.pc) ==> Underway(req))
    && (!BeforeReply(was.pc) ==> req.answer == was.answer)
  }

  lemma CallBuffers(s: State, r: nat, ok: bool, buffers: seq<bytes>)
    requires RequestEnabled(s, r) && InMutex(s.requests[r].pc)
    ensures BuffersChange(s, r, ok, buffers)
  {
    CallGoesOn(s, r, ok, buffers);
  }

  /** Its buffers are those of the step that prepares it. */
  lemma RequestBuffers(s: State, r: nat, ok: bool, buffers: seq<bytes>)
    requires RequestEnabled(s, r)
    ensures BuffersChange(s, r, ok, buffers)
  {
    if InMutex(s.requests[r].pc) {
      CallBuffers(s, r, ok, buffers);
    }
  }

  lemma OthersStay(s: State, step: Step, r: nat)
    requires Enabled(s, step) && r < |s.requests| && !(step.RequestStep? && step.r == r)
    ensures r < |Next(s, step).requests| && Next(s, step).requests[r] == s.requests[r]
  {
    match step {
      case RequestStep(q, ok, buffers) => OneRequestMoves(s, q, ok, buffers);
      case LoopStep(load) => LoopKeeps(s, load);
      case _ =>
    }
  }

  lemma NewRequest(s: State, step: Step, r: nat)
    requires Enabled(s, step) && |s.requests| <= r < |Next(s, step).requests|
    ensures Next(s, step).requests[r].pc.Arrived? && Next(s, step).requests[r].answer.Pending?
  {
    match step {
      case RequestStep(q, ok, buffers) => OneRequestMoves(s, q, ok, buffers);
      case LoopStep(load) => LoopKeeps(s, load);
      case _ =>
    }
  }

  lemma StepKeepsAnswered(s: State, step: Step)
    requires AnsweredInv(s) && Enabled(s, step)
    ensures AnsweredInv(Next(s, step))
  {
    var t := Next(s, step);
    forall r | 0 <= r < |t.requests| && !BeforeReply(t.requests[r].pc) ensures !t.requests[r].answer.Pending? {
      if r >= |s.requests| {
        NewRequest(s, step, r);
      } else if step.RequestStep? && step.r == r {
        RequestAnswers(s, r, step.ok, step.buffers);
      } else {
        OthersStay(s, step, r);
      }
    }
  }

  lemma {:induction false} RunKeepsAnswered(s: State, steps: seq<Step>)
    requires AnsweredInv(s) && Schedule(s, steps)
    ensures AnsweredInv(Run(s, steps))
    decreases |steps|
  {
    if steps != [] {
      StepKeepsAnswered(s, steps[0]);
      RunKeepsAnswered(Next(s, steps[0]), steps[1..]);
    }
  }

  // --------------------------------------------------------- what the run has done

  lemma {:induction false} UntouchedHappened(s: State, steps: seq<Step>, r: nat)
    requires Schedule(s, steps) && r < |Run(s, steps).requests|
    requires r < |s.requests| ==> !s.requests[r].answer.Untouched?
    requires Run(s, steps).requests[r].answer.Untouched?
    ensures Happened(s, steps, Excuses(r))
    decreases |steps|
  {
    if steps != [] && !ExcusedBy(s, steps[0], r) {
      var t := Next(s, steps[0]);
      if r < |t.requests| {
        if r >= |s.requests| {
          NewRequest(s, steps[0], r);
        } else if steps[0].RequestStep? && steps[0].r == r {
          RequestAnswers(s, r, steps[0].ok, steps[0].buffers);
        } else {
          OthersStay(s, steps[0], r);
        }
      }
      UntouchedHappened(t, steps[1..], r);
    }
  }

  /** The steps of a write up to the mutex keep it a write that is to be sent. */
  lemma CancelStep(s: State, step: Step, r: nat)
    requires Inv(s) && Enabled(s, step) && r < |s.requests| && !s.requests[r].answer.Cancelled?
    requires r < |Next(s, step).requests| && Next(s, step).requests[r].answer.Cancelled?
    ensures CancelledBy(s, step, r)
  {
    if step.RequestStep? && step.r == r {
      RequestAnswers(s, r, step.ok, step.buffers);
      assert MaySend(s, s.requests[r]);
    } else {
      OthersStay(s, step, r);
    }
  }

  lemma {:induction false} CancelledHappened(s: State, steps: seq<Step>, r: nat)
    requires Inv(s) && Schedule(s, steps) && r < |Run(s, steps).requests|
    requires r < |s.requests| ==> !s.requests[r].answer.Cancelled?
    requires Run(s, steps).requests[r].answer.Cancelled?
    ensures Happened(s, steps, Cancels(r))
    decreases |steps|
  {
    if steps != [] && !CancelledBy(s, steps[0], r) {
      var t := Next(s, steps[0]);
      if r < |t.requests| {
        if r >= |s.requests| {
          NewRequest(s, steps[0], r);
        } else if t.requests[r].answer.Cancelled? {
          CancelStep(s, steps[0], r);
        }
      }
      StepKeepsInv(s, steps[0]);
      CancelledHappened(t, steps[1..], r);
    }
  }

  /** Past its preparation, in progress or answered. */
  predicate Underway(req: Request) {
    req.pc.Prepared? || InMutex(req.pc) || req.answer.Ended? || req.answer.Cancelled?
  }

  lemma UnderwayStep(s: State, step: Step, r: nat)
    requires Inv(s) && Enabled(s, step) && r < |s.requests|
    ensures
      var was, t := s.requests[r], Next(s, step);
      && r < |t.requests|
      && (Underway(was) ==> Underway(t.requests[r]) && t.requests[r].buffers == was.buffers)
      && (Underway(t.requests[r]) && !Underway(was) ==> PreparedBy(s, step, r, t.requests[r].buffers))
  {
    if step.RequestStep? && step.r == r {
      OneRequestMoves(s, r, step.ok, step.buffers);
      RequestBuffers(s, r, step.ok, step.buffers);
    } else {
      OthersStay(s, step, r);
    }
  }

  lemma UnderwayBegins(s: State, step: Step, r: nat)
    requires Inv(s) && Enabled(s, step) && (r < |s.requests| ==> !Underway(s.requests[r]))
    requires r < |Next(s, step).requests| && Underway(Next(s, step).requests[r])
    ensures PreparedBy(s, step, r, Next(s, step).requests[r].buffers)
  {
    if r < |s.requests| {
      UnderwayStep(s, step, r);
    } else {
      NewRequest(s, step, r);
    }
  }

  lemma {:induction false} UnderwayStays(s: State, steps: seq<Step>, r: nat)
    requires Inv(s) && Schedule(s, steps) && r < |s.requests| && Underway(s.requests[r])
    ensures r < |Run(s, steps).requests| && Run(s, steps).requests[r].buffers == s.requests[r].buffers
    decreases |steps|
  {
    if steps != [] {
      UnderwayStep(s, steps[0], r);
      StepKeepsInv(s, steps[0]);
      UnderwayStays(Next(s, steps[0]), steps[1..], r);
    }
  }

  lemma {:induction false} PreparedHappened(s: State, steps: seq<Step>, r: nat)
    requires Inv(s) && Schedule(s, steps) && r < |Run(s, steps).requests|
    requires r < |s.requests| ==> !Underway(s.requests[r])
    requires Underway(Run(s, steps).requests[r])
    ensures Happened(s, steps, Prepares(r, Run(s, steps).requests[r].buffers))
    decreases |steps|
  {
    if steps != [] {
      var t := Next(s, steps[0]);
      StepKeepsInv(s, steps[0]);
      if r < |t.requests| && Underway(t.requests[r]) {
        UnderwayBegins(s, steps[0], r);
        UnderwayStays(t, steps[1..], r);
      } else {
        PreparedHappened(t, steps[1..], r);
      }
    }
  }

  // ------------------------------------------------------- what a step decides stays

  lemma AnswerStaysStep(s: State, step: Step, r: nat)
    requires Enabled(s, step) && HasAnswer(s, r)
    ensures HasAnswer(Next(s, step), r) && Next(s, step).requests[r].answer == s.requests[r].answer
  {
    if step.RequestStep? && step.r == r {
      RequestAnswers(s, r, step.ok, step.buffers);
    } else {
      OthersStay(s, step, r);
    }
  }

  lemma {:induction false} AnswerStays(s: State, steps: seq<Step>, r: nat)
    requires Schedule(s, steps) && HasAnswer(s, r)
    ensures HasAnswer(Run(s, steps), r) && Run(s, steps).requests[r].answer == s.requests[r].answer
    decreases |steps|
  {
    if steps != [] {
      AnswerStaysStep(s, steps[0], r);
      AnswerStays(Next(s, steps[0]), steps[1..], r);
    }
  }

  /** A step of this kind answers the request so. */
  ghost predicate Decides(event: (State, Step) -> bool, r: nat, answer: Answer) {
    forall s, step | Enabled(s, step) && event(s, step) ::
      HasAnswer(Next(s, step), r) && Next(s, step).requests[r].answer == answer
  }

  lemma {:induction false} DecidedForGood(
    s: State, steps: seq<Step>, event: (State, Step) -> bool, r: nat, answer: Answer)
    requires Schedule(s, steps) && Decides(event, r, answer) && Happened(s, steps, event)
    ensures HasAnswer(Run(s, steps), r) && Run(s, steps).requests[r].answer == answer
    decreases |steps|
  {
    var t := Next(s, steps[0]);
    if event(s, steps[0]) {
      AnswerStays(t, steps[1..], r);
    } else {
      DecidedForGood(t, steps[1..], event, r, answer);
    }
  }

  lemma ExcuseDecides(s: State, step: Step, r: nat)
    requires Enabled(s, step) && ExcusedBy(s, step, r)
    ensures HasAnswer(Next(s, step), r) && Next(s, step).requests[r].answer == Untouched
  {
  }

  lemma CancelDecides(s: State, step: Step, r: nat)
    requires Enabled(s, step) && CancelledBy(s, step, r)
    ensures HasAnswer(Next(s, step), r) && Next(s, step).requests[r].answer == Cancelled
  {
  }

  /** An excuse or a cancelled context that comes up decides the answer. */
  lemma ReasonsDecide(s: State, steps: seq<Step>, r: nat)
    requires Schedule(s, steps)
    ensures Happened(s, steps, Excuses(r)) ==>
              HasAnswer(Run(s, steps), r) && Run(s, steps).requests[r].answer == Untouched
    ensures Happened(s, steps, Cancels(r)) ==>
              HasAnswer(Run(s, steps), r) && Run(s, steps).requests[r].answer == Cancelled
  {
    if Happened(s, steps, Excuses(r)) {
      forall s', step | Enabled(s', step) && Excuses(r)(s', step)
        ensures HasAnswer(Next(s', step), r) && Next(s', step).requests[r].answer == Untouched
      {
        ExcuseDecides(s', step, r);
      }
      DecidedForGood(s, steps, Excuses(r), r, Untouched);
    }
    if Happened(s, steps, Cancels(r)) {
      forall s', step | Enabled(s', step) && Cancels(r)(s', step)
        ensures HasAnswer(Next(s', step), r) && Next(s', step).requests[r].answer == Cancelled
      {
        CancelDecides(s', step, r);
      }
      DecidedForGood(s, steps, Cancels(r), r, Cancelled);
    }
  }

  // ------------------------------------------------------------------ for every run

  /**
   What an answer means, in every run. An answered request has one; it is "untouched"
   exactly if one of the five reasons came up, and "cancelled" exactly if its context
   was found cancelled; every other used the connection: its call is in the log with the
   buffers it was prepared with.
   */
  lemma AnswersMean(cfg: Config, steps: seq<Step>, r: nat)
    requires Schedule(Init(cfg), steps) && HasAnswer(Run(Init(cfg), steps), r)
    ensures
      var s := Run(Init(cfg), steps);
      var req := s.requests[r];
      && (req.answer == Untouched <==> Happened(Init(cfg), steps, Excuses(r)))
      && (req.answer == Cancelled <==> Happened(Init(cfg), steps, Cancels(r)))
      && (req.answer.Ended? <==>
            !Happened(Init(cfg), steps, Excuses(r)) && !Happened(Init(cfg), steps, Cancels(r)))
      && (!req.answer.Untouched? ==> Happened(Init(cfg), steps, Prepares(r, req.buffers)))
      && (req.answer.Ended? ==> InLog(s.log, r))
  {
    var s := Run(Init(cfg), steps);
    InitHistory(cfg);
    RunKeepsAnswered(Init(cfg), steps);
    ReasonsDecide(Init(cfg), steps, r);
    match s.requests[r].answer {
      case Pending =>
      case Untouched => UntouchedHappened(Init(cfg), steps, r);
      case Cancelled =>
        CancelledHappened(Init(cfg), steps, r);
        PreparedHappened(Init(cfg), steps, r);
      case Ended(_) =>
        PreparedHappened(Init(cfg), steps, r);
        AnswersAreRecorded(cfg, steps);
    }
  }

  /** Entry k of the log is the call of request r, with buffers that were prepared for it. */
  ghost predicate CarriedOut(cfg: Config, steps: seq<Step>, r: nat, k: nat)
    requires Schedule(Init(cfg), steps)
  {
    var s := Run(Init(cfg), steps);
    && k < |s.log| && s.log[k].Call? && s.log[k].request == r
    && Happened(Init(cfg), steps, Prepares(r, s.log[k].buffers))
    && r < |s.requests| && s.requests[r].answer == Ended(OutcomeAt(s.log, k))
  }

  /**
   In every run an answered request for which none of the five reasons came up, and
   which was not found cancelled, has had its call carried out.
   */
  lemma WritesAreCarriedOut(cfg: Config, steps: seq<Step>, r: nat)
    requires Schedule(Init(cfg), steps) && HasAnswer(Run(Init(cfg), steps), r)
    requires !Happened(Init(cfg), steps, Excuses(r)) && !Happened(Init(cfg), steps, Cancels(r))
    ensures exists k: nat :: CarriedOut(cfg, steps, r, k)
  {
    AnswersMean(cfg, steps, r);
    AnswersAreRecorded(cfg, steps);
    var s := Run(Init(cfg), steps);
    var k :| 0 <= k < |s.log| && s.log[k].Call? && s.log[k].request == r;
    assert Recorded(s, k);
    assert CarriedOut(cfg, steps, r, k);
  }

  // --------------------------------------------------------------- nothing is dropped

  function KindsOf(requests: seq<Request>): seq<Kind> {
    seq(|requests|, r requires 0 <= r < |requests| => requests[r].kind)
  }

  /** The requests that arrive in these steps, in order. */
  function Arriving(steps: seq<Step>): seq<Kind>
    decreases |steps|
  {
    if steps == [] then []
    else (match steps[0] case Arrive(kind) => [kind] case _ => []) + Arriving(steps[1..])
  }

  function Posts(steps: seq<Step>): nat
    decreases |steps|
  {
    if steps == [] then 0 else (if steps[0].Post? then 1 else 0) + Posts(steps[1..])
  }

  lemma ReloadsStay(s: State, step: Step)
    requires Enabled(s, step) && (step.RequestStep? || step.LoopStep?)
    ensures |Next(s, step).reloads| == |s.reloads|
  {
  }

  lemma StepDropsNothing(s: State, step: Step)
    requires Enabled(s, step)
    ensures KindsOf(Next(s, step).requests)
            == KindsOf(s.requests) + match step case Arrive(kind) => [kind] case _ => []
    ensures |Next(s, step).reloads| == |s.reloads| + if step.Post? then 1 else 0
  {
    match step {
      case RequestStep(r, ok, buffers) =>
        OneRequestMoves(s, r, ok, buffers);
        RequestAnswers(s, r, ok, buffers);
        ReloadsStay(s, step);
      case LoopStep(load) =>
        LoopKeeps(s, load);
        ReloadsStay(s, step);
      case _ =>
    }
  }

  /** In every run the process has exactly the requests that arrived, in order, and the reloads posted. */
  lemma {:induction false} NothingIsDropped(s: State, steps: seq<Step>)
    requires Schedule(s, steps)
    ensures KindsOf(Run(s, steps).requests) == KindsOf(s.requests) + Arriving(steps)
    ensures |Run(s, steps).reloads| == |s.reloads| + Posts(steps)
    decreases |steps|
  {
    if steps != [] {
      StepDropsNothing(s, steps[0]);
      NothingIsDropped(Next(s, steps[0]), steps[1..]);
    }
  }
}
