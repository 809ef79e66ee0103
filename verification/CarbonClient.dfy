/**
 The carbon connection of a client (client/graphite/write.go, client.go).

 The class holds the two fields the source updates in place; the network they act
 on is an object of its own, which the clients of the process share. What the
 environment decides - the time, whether a dial succeeds, whether a copy succeeds -
 is an argument.
 */
module CarbonClient {
  import opened Wrappers
  import opened Bytes

  /** One copy of a buffer to a connection; `whole` tells whether it succeeded. */
  datatype Entry = Entry(conn: nat, buffer: bytes, whole: bool, chosen: int)

  /** Connection number k was dialled at dialled[k]. */
  datatype Net = Net(dialled: seq<int>, open: set<nat>, wire: seq<Entry>)

  datatype Link = Link(carbonCon: Option<nat>, carbonLastReconnectTime: int)

  /** A client's end and the network. */
  datatype Ends = Ends(link: Link, net: Net)

  /**
   What the environment answers for one buffer: the time at which the age of the
   connection is read, the time at which a dial succeeded (None: it failed), and
   whether the copy succeeded.
   */
  datatype Attempt = Attempt(now: int, dial: Option<int>, copied: bool)

  datatype Outcome = Unfinished | Done | Refused | Lost

  datatype Sending = Sending(ends: Ends, outcome: Outcome)

  // ------------------------------------------------------------ the operations

  predicate Reusable(link: Link, now: int, interval: int) {
    link.carbonCon.Some? && now - link.carbonLastReconnectTime < interval
  }

  function Disconnected(x: Ends): Ends {
    match x.link.carbonCon
    case None => x
    case Some(c) => Ends(x.link.(carbonCon := None), x.net.(open := x.net.open - {c}))
  }

  function Dialled(x: Ends, dial: Option<int>): Ends {
    match dial
    case None => x.(link := x.link.(carbonCon := None))
    case Some(t) =>
      var c := |x.net.dialled|;
      Ends(Link(Some(c), t), x.net.(dialled := x.net.dialled + [t], open := x.net.open + {c}))
  }

  function Connected(x: Ends, interval: int, now: int, dial: Option<int>): Ends {
    if Reusable(x.link, now, interval) then x else Dialled(Disconnected(x), dial)
  }

  /** When the connection was chosen: at the age check, or when it was dialled. */
  function Chosen(x: Ends, interval: int, a: Attempt): int {
    if Reusable(x.link, a.now, interval) || a.dial.None? then a.now else a.dial.value
  }

  /** Copying an empty buffer reads the end of the pipe at once: nothing is sent, nothing can fail. */
  predicate Succeeds(buffer: bytes, copied: bool) {
    copied || buffer == []
  }

  function Copied(x: Ends, buffer: bytes, chosen: int, whole: bool): Ends
    requires x.link.carbonCon.Some?
  {
    if buffer == [] then x else
    var y := x.(net := x.net.(wire := x.net.wire + [Entry(x.link.carbonCon.value, buffer, whole, chosen)]));
    if whole then y else Disconnected(y)
  }

  /** One turn of the loop over the buffers. */
  function Turn(x: Ends, interval: int, buffer: bytes, a: Attempt): Sending {
    var y := Connected(x, interval, a.now, a.dial);
    if y.link.carbonCon.None? then Sending(y, Refused)
    else
      Sending(Copied(y, buffer, Chosen(x, interval, a), a.copied), if Succeeds(buffer, a.copied) then Done else Lost)
  }

  /** The loop, as far as the attempts go. */
  function Send(x: Ends, interval: int, buffers: seq<bytes>, tries: seq<Attempt>): Sending
    decreases |buffers|
  {
    if buffers == [] then Sending(x, Done)
    else if tries == [] then Sending(x, Unfinished)
    else
      var turn := Turn(x, interval, buffers[0], tries[0]);
      if turn.outcome.Done? then Send(turn.ends, interval, buffers[1..], tries[1..])
      else turn
  }

  /** One more attempt. */
  lemma {:induction false} SendMore(x: Ends, interval: int, buffers: seq<bytes>, tries: seq<Attempt>, a: Attempt)
    requires Send(x, interval, buffers, tries).outcome.Unfinished?
    ensures |tries| < |buffers|
    ensures
      var turn := Turn(Send(x, interval, buffers, tries).ends, interval, buffers[|tries|], a);
      var more := Send(x, interval, buffers, tries + [a]);
      && more.ends == turn.ends
      && more.outcome == if !turn.outcome.Done? then turn.outcome
                         else if |tries| + 1 == |buffers| then Done else Unfinished
    decreases |buffers|
  {
    if tries == [] {
      assert tries + [a] == [a];
    } else {
      var turn := Turn(x, interval, buffers[0], tries[0]);
      SendMore(turn.ends, interval, buffers[1..], tries[1..], a);
      assert (tries + [a])[1..] == tries[1..] + [a];
    }
  }

  /** As long as the loop goes on, it has taken one attempt a buffer. */
  lemma {:induction false} SendGoesOn(x: Ends, interval: int, buffers: seq<bytes>, tries: seq<Attempt>)
    requires |tries| <= |buffers|
    requires Send(x, interval, buffers, tries).outcome in {Unfinished, Done}
    ensures Send(x, interval, buffers, tries).outcome.Done? <==> |tries| == |buffers|
    decreases |buffers|
  {
    if buffers != [] && tries != [] {
      SendGoesOn(Turn(x, interval, buffers[0], tries[0]).ends, interval, buffers[1..], tries[1..]);
    }
  }

  // ------------------------------------------------- what is kept, over any writes

  /**
   This client's connection is the only open one besides `others`, and the time it
   was dialled at is the time remembered.
   */
  predicate Sound(x: Ends, others: set<nat>) {
    && (forall c | c in others :: c < |x.net.dialled|)
    && (forall e | e in x.net.wire :: e.conn < |x.net.dialled|)
    && match x.link.carbonCon
       case None => x.net.open == others
       case Some(c) =>
         && c < |x.net.dialled| && c !in others
         && x.net.open == others + {c}
         && x.net.dialled[c] == x.link.carbonLastReconnectTime
  }

  lemma DisconnectedIsSound(x: Ends, others: set<nat>)
    requires Sound(x, others)
    ensures Sound(Disconnected(x), others) && Disconnected(x).link.carbonCon.None?
    ensures Disconnected(x).net.open == others
  {
  }

  lemma DialledIsSound(x: Ends, dial: Option<int>, others: set<nat>)
    requires Sound(x, others) && x.link.carbonCon.None?
    ensures Sound(Dialled(x, dial), others)
  {
  }

  lemma ConnectedIsSound(x: Ends, interval: int, now: int, dial: Option<int>, others: set<nat>)
    requires Sound(x, others)
    ensures Sound(Connected(x, interval, now, dial), others)
  {
    DisconnectedIsSound(x, others);
    DialledIsSound(Disconnected(x), dial, others);
  }

  lemma TurnIsSound(x: Ends, interval: int, buffer: bytes, a: Attempt, others: set<nat>)
    requires Sound(x, others)
    ensures Sound(Turn(x, interval, buffer, a).ends, others)
  {
    ConnectedIsSound(x, interval, a.now, a.dial, others);
  }

  lemma {:induction false} SendIsSound(
    x: Ends, interval: int, buffers: seq<bytes>, tries: seq<Attempt>, others: set<nat>)
    requires Sound(x, others)
    ensures Sound(Send(x, interval, buffers, tries).ends, others)
    decreases |buffers|
  {
    if buffers != [] && tries != [] {
      TurnIsSound(x, interval, buffers[0], tries[0], others);
      var turn := Turn(x, interval, buffers[0], tries[0]);
      if turn.outcome.Done? {
        SendIsSound(turn.ends, interval, buffers[1..], tries[1..], others);
      }
    }
  }

  // ------------------------------------------------------- what goes on the wire

  /** The copies of one call: its first buffers, in order, only the last possibly cut short. */
  predicate IsPrefixOf(block: seq<Entry>, buffers: seq<bytes>) {
    && |block| <= |buffers|
    && (forall i | 0 <= i < |block| :: block[i].buffer == buffers[i])
    && (forall i | 0 <= i < |block| - 1 :: block[i].whole)
  }

  predicate AllWhole(block: seq<Entry>) {
    forall i | 0 <= i < |block| :: block[i].whole
  }

  /** The buffers that have anything to send. */
  function Payloads(buffers: seq<bytes>): seq<bytes> {
    if buffers == [] then []
    else (if buffers[0] == [] then [] else [buffers[0]]) + Payloads(buffers[1..])
  }

  predicate EndsWithPayload(buffers: seq<bytes>) {
    buffers != [] && buffers[|buffers| - 1] != []
  }

  /** What the outcome says of the call's copies. */
  predicate Tells(outcome: Outcome, block: seq<Entry>, buffers: seq<bytes>) {
    match outcome
    case Done => |block| == |Payloads(buffers)| && AllWhole(block)
    case Lost => block != [] && !block[|block| - 1].whole
    case _ =>
      && |block| <= |Payloads(buffers)| && AllWhole(block)
      && (EndsWithPayload(buffers) ==> |block| < |Payloads(buffers)|)
  }

  /** The copies of one call. */
  function Block(x: Ends, interval: int, buffers: seq<bytes>, tries: seq<Attempt>): seq<Entry>
    decreases |buffers|
  {
    if buffers == [] || tries == [] then []
    else
      var turn := Turn(x, interval, buffers[0], tries[0]);
      if turn.outcome.Refused? then []
      else
        var c := Connected(x, interval, tries[0].now, tries[0].dial).link.carbonCon.value;
        (if buffers[0] == [] then [] else [Entry(c, buffers[0], tries[0].copied, Chosen(x, interval, tries[0]))]) +
        if turn.outcome.Done? then Block(turn.ends, interval, buffers[1..], tries[1..]) else []
  }

  lemma PrefixCons(e: Entry, rest: seq<Entry>, buffers: seq<bytes>)
    requires buffers != [] && e.buffer == buffers[0] && e.whole && IsPrefixOf(rest, buffers[1..])
    ensures IsPrefixOf([e] + rest, buffers)
    ensures AllWhole([e] + rest) <==> AllWhole(rest)
  {
    var block := [e] + rest;
    forall i | 0 <= i < |block| ensures block[i].buffer == buffers[i] {
      assert i > 0 ==> block[i] == rest[i - 1];
    }
    forall i | 0 <= i < |block| - 1 ensures block[i].whole {
      assert i > 0 ==> block[i] == rest[i - 1];
    }
    if AllWhole(block) {
      forall i | 0 <= i < |rest| ensures rest[i].whole { assert block[i + 1] == rest[i]; }
    }
  }

  lemma {:induction false} SendWire(x: Ends, interval: int, buffers: seq<bytes>, tries: seq<Attempt>)
    ensures Send(x, interval, buffers, tries).ends.net.wire == x.net.wire + Block(x, interval, buffers, tries)
    decreases |buffers|
  {
    if buffers != [] && tries != [] {
      var turn := Turn(x, interval, buffers[0], tries[0]);
      if turn.outcome.Done? {
        var rest := Block(turn.ends, interval, buffers[1..], tries[1..]);
        SendWire(turn.ends, interval, buffers[1..], tries[1..]);
        if buffers[0] == [] {
          assert [] + rest == rest;
        } else {
          assert turn.ends.net.wire == x.net.wire + [Block(x, interval, buffers, tries)[0]];
        }
      }
    }
  }

  lemma {:induction false} SendTells(x: Ends, interval: int, buffers: seq<bytes>, tries: seq<Attempt>)
    ensures
      var block := Block(x, interval, buffers, tries);
      IsPrefixOf(block, Payloads(buffers)) && Tells(Send(x, interval, buffers, tries).outcome, block, buffers)
    decreases |buffers|
  {
    if buffers != [] && tries != [] {
      var turn := Turn(x, interval, buffers[0], tries[0]);
      if turn.outcome.Done? {
        var rest := Block(turn.ends, interval, buffers[1..], tries[1..]);
        SendTells(turn.ends, interval, buffers[1..], tries[1..]);
        var outcome := Send(turn.ends, interval, buffers[1..], tries[1..]).outcome;
        if buffers[0] == [] {
          assert [] + rest == rest;
          TellsEmpty(outcome, rest, buffers);
        } else {
          TellsCopy(outcome, Block(x, interval, buffers, tries)[0], rest, buffers);
        }
      } else {
        SomePayload(buffers);
      }
    } else {
      SomePayload(buffers);
    }
  }

  lemma {:induction false} SomePayload(buffers: seq<bytes>)
    ensures EndsWithPayload(buffers) ==> Payloads(buffers) != []
    decreases |buffers|
  {
    if |buffers| > 1 {
      SomePayload(buffers[1..]);
    }
  }

  lemma PayloadsCons(buffer: bytes, rest: seq<bytes>)
    requires buffer != []
    ensures Payloads([buffer] + rest) == [buffer] + Payloads(rest)
    ensures ([buffer] + Payloads(rest))[0] == buffer && ([buffer] + Payloads(rest))[1..] == Payloads(rest)
  {
    assert ([buffer] + rest)[1..] == rest;
  }

  /** A successful copy before the rest. */
  lemma TellsCopy(outcome: Outcome, e: Entry, rest: seq<Entry>, buffers: seq<bytes>)
    requires buffers != [] && e.whole && e.buffer == buffers[0] != []
    requires IsPrefixOf(rest, Payloads(buffers[1..])) && Tells(outcome, rest, buffers[1..])
    requires outcome.Unfinished? || outcome.Refused? ==> |buffers| > 1
    ensures IsPrefixOf([e] + rest, Payloads(buffers)) && Tells(outcome, [e] + rest, buffers)
  {
    assert buffers == [buffers[0]] + buffers[1..];
    PayloadsCons(buffers[0], buffers[1..]);
    PrefixCons(e, rest, Payloads(buffers));
    if |buffers| > 1 {
      assert buffers[1..][|buffers| - 2] == buffers[|buffers| - 1];
    }
  }

  /** The turn of an empty buffer before the rest. */
  lemma TellsEmpty(outcome: Outcome, rest: seq<Entry>, buffers: seq<bytes>)
    requires buffers != [] && buffers[0] == [] && Tells(outcome, rest, buffers[1..])
    ensures Payloads(buffers) == Payloads(buffers[1..]) && Tells(outcome, rest, buffers)
  {
    assert [] + Payloads(buffers[1..]) == Payloads(buffers[1..]);
    if |buffers| > 1 {
      assert buffers[1..][|buffers| - 2] == buffers[|buffers| - 1];
    }
  }

  /** The call adds its block to the wire, and the outcome tells which buffers arrived. */
  lemma SendBlock(x: Ends, interval: int, buffers: seq<bytes>, tries: seq<Attempt>)
    ensures
      var sending := Send(x, interval, buffers, tries);
      var block := Block(x, interval, buffers, tries);
      && sending.ends.net.wire == x.net.wire + block
      && IsPrefixOf(block, Payloads(buffers))
      && Tells(sending.outcome, block, buffers)
  {
    SendWire(x, interval, buffers, tries);
    SendTells(x, interval, buffers, tries);
  }

  /**
   Copy number k went on a connection that was younger than the interval when it
   was chosen, or that was dialled for it and had carried nothing before.
   */
  predicate OnYoungConnection(net: Net, interval: int, k: nat)
    requires k < |net.wire|
  {
    var e := net.wire[k];
    && e.conn < |net.dialled|
    && (|| e.chosen - net.dialled[e.conn] < interval
        || (e.chosen == net.dialled[e.conn] && forall j | 0 <= j < k :: net.wire[j].conn != e.conn))
  }

  predicate AllOnYoung(net: Net, interval: int, start: nat) {
    forall k: nat | start <= k < |net.wire| :: OnYoungConnection(net, interval, k)
  }

  /** The history only grows. */
  predicate Extends(old_: Net, new_: Net) {
    old_.dialled <= new_.dialled && old_.wire <= new_.wire
  }

  lemma YoungKept(a: Net, b: Net, interval: int, start: nat)
    requires Extends(a, b) && AllOnYoung(a, interval, start)
    ensures forall k: nat | start <= k < |a.wire| :: OnYoungConnection(b, interval, k)
  {
    forall k: nat | start <= k < |a.wire| ensures OnYoungConnection(b, interval, k) {
      assert OnYoungConnection(a, interval, k);
      forall j | 0 <= j < k ensures b.wire[j] == a.wire[j] {
      }
    }
  }

  lemma TurnIsYoung(x: Ends, interval: int, buffer: bytes, a: Attempt, others: set<nat>)
    requires Sound(x, others)
    ensures
      var net := Turn(x, interval, buffer, a).ends.net;
      Extends(x.net, net) && AllOnYoung(net, interval, |x.net.wire|)
  {
    var y := Connected(x, interval, a.now, a.dial);
    ConnectedIsSound(x, interval, a.now, a.dial, others);
    if y.link.carbonCon.Some? && buffer != [] {
      var net := Turn(x, interval, buffer, a).ends.net;
      var k := |x.net.wire|;
      assert net.wire == x.net.wire + [Entry(y.link.carbonCon.value, buffer, a.copied, Chosen(x, interval, a))];
      if !Reusable(x.link, a.now, interval) {
        forall j | 0 <= j < k ensures net.wire[j].conn < |x.net.dialled| {
          assert net.wire[j] == x.net.wire[j];
          assert x.net.wire[j] in x.net.wire;
        }
      }
      assert OnYoungConnection(net, interval, k);
    }
  }

  lemma {:induction false} SendIsYoung(
    x: Ends, interval: int, buffers: seq<bytes>, tries: seq<Attempt>, others: set<nat>)
    requires Sound(x, others)
    ensures
      var net := Send(x, interval, buffers, tries).ends.net;
      Extends(x.net, net) && AllOnYoung(net, interval, |x.net.wire|)
    decreases |buffers|
  {
    if buffers != [] && tries != [] {
      var turn := Turn(x, interval, buffers[0], tries[0]);
      TurnIsYoung(x, interval, buffers[0], tries[0], others);
      if turn.outcome.Done? {
        TurnIsSound(x, interval, buffers[0], tries[0], others);
        SendIsYoung(turn.ends, interval, buffers[1..], tries[1..], others);
        YoungKept(turn.ends.net, Send(x, interval, buffers, tries).ends.net, interval, |x.net.wire|);
      }
    }
  }

  // ------------------------------------------------------ when a connection is kept

  /**
   A call whose attempts all come within the interval of its connection's dial uses that
   connection and no other: nothing is dialled, and it stays open unless a copy fails.
   */
  lemma {:induction false} YoungIsReused(
    x: Ends, interval: int, buffers: seq<bytes>, tries: seq<Attempt>, c: nat)
    requires x.link.carbonCon == Some(c)
    requires forall i | 0 <= i < |tries| :: tries[i].now < x.link.carbonLastReconnectTime + interval
    ensures
      var sending := Send(x, interval, buffers, tries);
      && sending.ends.net.dialled == x.net.dialled && !sending.outcome.Refused?
      && sending.ends.link == Link(if sending.outcome.Lost? then None else Some(c), x.link.carbonLastReconnectTime)
      && sending.ends.net.open == if sending.outcome.Lost? then x.net.open - {c} else x.net.open
    ensures forall i | 0 <= i < |Block(x, interval, buffers, tries)| ::
              Block(x, interval, buffers, tries)[i].conn == c
    decreases |buffers|
  {
    if buffers != [] && tries != [] {
      var turn := Turn(x, interval, buffers[0], tries[0]);
      if turn.outcome.Done? {
        YoungIsReused(turn.ends, interval, buffers[1..], tries[1..], c);
      }
    }
  }

  /** A call that finds no connection, or one as old as the interval, closes it and dials. */
  lemma OldIsReplaced(x: Ends, interval: int, buffers: seq<bytes>, tries: seq<Attempt>)
    requires buffers != [] && tries != []
    requires x.link.carbonCon.Some? ==> x.link.carbonLastReconnectTime + interval <= tries[0].now
    requires x.link.carbonCon.Some? ==> x.link.carbonCon.value < |x.net.dialled|
    ensures
      var sending := Send(x, interval, buffers, tries);
      && (x.link.carbonCon.Some? ==> x.link.carbonCon.value !in sending.ends.net.open)
      && match tries[0].dial
         case None =>
           && sending.outcome == Refused && sending.ends.link.carbonCon == None
           && sending.ends.net.dialled == x.net.dialled && sending.ends.net.wire == x.net.wire
         case Some(t) => x.net.dialled + [t] <= sending.ends.net.dialled
  {
    var turn := Turn(x, interval, buffers[0], tries[0]);
    if turn.outcome.Done? {
      SendKeepsClosed(turn.ends, interval, buffers[1..], tries[1..]);
    }
  }

  /** What was closed stays closed. */
  lemma {:induction false} SendKeepsClosed(x: Ends, interval: int, buffers: seq<bytes>, tries: seq<Attempt>)
    ensures
      var net := Send(x, interval, buffers, tries).ends.net;
      && x.net.dialled <= net.dialled
      && forall c: nat | c < |x.net.dialled| && c in net.open :: c in x.net.open
    decreases |buffers|
  {
    if buffers != [] && tries != [] {
      var turn := Turn(x, interval, buffers[0], tries[0]);
      if turn.outcome.Done? {
        SendKeepsClosed(turn.ends, interval, buffers[1..], tries[1..]);
      }
    }
  }

  /**
   What a call that had something to do leaves: a connection after "done", and none after
   a failed dial or copy.
   */
  lemma {:induction false} SendLeaves(x: Ends, interval: int, buffers: seq<bytes>, tries: seq<Attempt>)
    requires buffers != [] && tries != []
    ensures
      var sending := Send(x, interval, buffers, tries);
      sending.ends.link.carbonCon.Some? <==> sending.outcome.Done? || sending.outcome.Unfinished?
    decreases |buffers|
  {
    var turn := Turn(x, interval, buffers[0], tries[0]);
    if turn.outcome.Done? && |buffers| > 1 && |tries| > 1 {
      SendLeaves(turn.ends, interval, buffers[1..], tries[1..]);
    }
  }

  // --------------------------------------------------------------- the replies

  datatype Reply = Skipped | DryRun(text: bytes) | Sent | Nothing

  datatype Failure = ContextCancelled | DialFailed | PipeClosed

  /**
   After a failed copy the result of closing the pipe, which is no error, replaces the
   error of the copy. `late`: the goroutine that writes to the pipe then still stores
   its own error in the shared variable before that is returned.
   */
  function ReplyTo(outcome: Outcome, late: bool): Result<Reply, Failure>
    requires !outcome.Unfinished?
  {
    match outcome
    case Done => Ok(Sent)
    case Refused => Err(DialFailed)
    case Lost => if late then Err(PipeClosed) else Ok(Nothing)
  }

  /**
   What a caller can tell from the reply about the buffers that are not empty: "sent"
   means that all of them arrived; a dial error that the first ones did and no more was
   tried, of which there were more unless the last buffer is empty; the empty reply or,
   if the goroutine is late, the closed pipe, that one was cut short.
   */
  lemma RepliesMean(x: Ends, interval: int, buffers: seq<bytes>, tries: seq<Attempt>, late: bool)
    requires |tries| == |buffers|
    ensures
      var outcome := Send(x, interval, buffers, tries).outcome;
      var block := Block(x, interval, buffers, tries);
      && !outcome.Unfinished?
      && (ReplyTo(outcome, late) == Ok(Sent) ==> |block| == |Payloads(buffers)| && AllWhole(block))
      && (ReplyTo(outcome, late) == Err(DialFailed) ==> AllWhole(block))
      && (buffers == [] || EndsWithPayload(buffers) ==>
            && (ReplyTo(outcome, late) == Ok(Sent) <==> |block| == |Payloads(buffers)| && AllWhole(block))
            && (ReplyTo(outcome, late) == Err(DialFailed) <==> |block| < |Payloads(buffers)| && AllWhole(block)))
      && (ReplyTo(outcome, late) == Ok(Nothing) <==> !AllWhole(block) && !late)
      && (ReplyTo(outcome, late) == Err(PipeClosed) <==> !AllWhole(block) && late)
  {
    SendBlock(x, interval, buffers, tries);
    if Send(x, interval, buffers, tries).outcome.Unfinished? {
      SendGoesOn(x, interval, buffers, tries);
    }
  }

  /** An empty buffer costs a connection check or a dial, and sends nothing. */
  lemma EmptyBufferSendsNothing(x: Ends, interval: int, a: Attempt, buffers: seq<bytes>, tries: seq<Attempt>)
    ensures
      var turn := Turn(x, interval, [], a);
      && turn.ends == Connected(x, interval, a.now, a.dial) && turn.ends.net.wire == x.net.wire
      && turn.outcome == (if turn.ends.link.carbonCon.Some? then Done else Refused)
      && Block(x, interval, [[]] + buffers, [a] + tries)
         == if turn.outcome.Done? then Block(turn.ends, interval, buffers, tries) else []
  {
    assert ([[]] + buffers)[1..] == buffers && ([a] + tries)[1..] == tries;
    var rest := Block(Turn(x, interval, [], a).ends, interval, buffers, tries);
    assert [] + rest == rest;
  }

  /** A failed copy loses the remaining buffers; unless the goroutine is late, the reply is not an error. */
  lemma LossIsSilent()
    ensures
      var x := Ends(Link(None, 0), Net([], {}, []));
      var buffers := [[1], [2]];
      var tries := [Attempt(5, Some(6), false), Attempt(7, Some(8), true)];
      && ReplyTo(Send(x, 10, buffers, tries).outcome, false) == Ok(Nothing)
      && Block(x, 10, buffers, tries) == [Entry(0, [1], false, 6)]
  {
  }

  // ------------------------------------------------------------------ the class

  /** The connections of the whole process. */
  class Network {
    var dialled: seq<int>
    var open: set<nat>
    var wire: seq<Entry>

    constructor ()
      ensures dialled == [] && open == {} && wire == []
    {
      dialled, open, wire := [], {}, [];
    }
  }

  class Client {
    const carbonAddress: bytes
    const carbonReconnectInterval: int
    const network: Network
    var carbonCon: Option<nat>
    var carbonLastReconnectTime: int

    constructor (carbonAddress: bytes, carbonReconnectInterval: int, network: Network)
      ensures this.carbonAddress == carbonAddress && this.carbonReconnectInterval == carbonReconnectInterval
      ensures this.network == network && View().link == Link(None, 0)
    {
      this.carbonAddress, this.carbonReconnectInterval := carbonAddress, carbonReconnectInterval;
      this.network := network;
      carbonCon, carbonLastReconnectTime := None, 0;
    }

    function View(): Ends
      reads this, network
    {
      Ends(Link(carbonCon, carbonLastReconnectTime), Net(network.dialled, network.open, network.wire))
    }

    method DisconnectFromCarbon()
      modifies this, network
      ensures View() == Disconnected(old(View()))
    {
      match carbonCon {
        case Some(c) => network.open := network.open - {c};
        case None =>
      }
      carbonCon := None;
    }

    /** `chosen` is not in the source: it dates the choice, for the wire's record. */
    method ConnectToCarbon(now: int, dial: Option<int>) returns (conn: Option<nat>, chosen: int)
      modifies this, network
      ensures View() == Connected(old(View()), carbonReconnectInterval, now, dial)
      ensures conn == carbonCon
      ensures old(carbonCon).Some? && now - old(carbonLastReconnectTime) < carbonReconnectInterval ==>
                View() == old(View())
      ensures old(carbonCon).None? || now - old(carbonLastReconnectTime) >= carbonReconnectInterval ==>
                && network.wire == old(network.wire)
                && var kept := old(match carbonCon case None => network.open case Some(c) => network.open - {c});
                   match dial
                   case None =>
                     && conn == None && carbonLastReconnectTime == old(carbonLastReconnectTime)
                     && network.open == kept && network.dialled == old(network.dialled)
                   case Some(t) =>
                     && conn == Some(|old(network.dialled)|) && carbonLastReconnectTime == t
                     && network.open == kept + {conn.value} && network.dialled == old(network.dialled) + [t]
      ensures conn.Some? ==> forall copied ::
                chosen == Chosen(old(View()), carbonReconnectInterval, Attempt(now, dial, copied))
    {
      chosen := now;
      if carbonCon.Some? {
        if now - carbonLastReconnectTime < carbonReconnectInterval {
          return carbonCon, chosen;
        }
        DisconnectFromCarbon();
      }
      match dial {
        case None =>
          carbonCon := None;
        case Some(t) =>
          var c := |network.dialled|;
          network.dialled := network.dialled + [t];
          network.open := network.open + {c};
          carbonLastReconnectTime := t;
          carbonCon := Some(c);
          chosen := t;
      }
      return carbonCon, chosen;
    }

    /** The buffers are those that Packing.PrepareWrite builds. */
    method Write(buffers: seq<bytes>, dryRun: bool, cancelled: bool, tries: seq<Attempt>, late: bool)
      returns (reply: Result<Reply, Failure>)
      requires |tries| == |buffers|
      modifies this, network
      ensures carbonAddress == [] ==> reply == Ok(Skipped) && View() == old(View())
      ensures carbonAddress != [] && dryRun ==> reply == Ok(DryRun(Concat(buffers))) && View() == old(View())
      ensures carbonAddress != [] && !dryRun && cancelled ==>
                reply == Err(ContextCancelled) && View() == old(View())
      ensures carbonAddress != [] && !dryRun && !cancelled ==>
                var sending := Send(old(View()), carbonReconnectInterval, buffers, tries);
                && View() == sending.ends
                && !sending.outcome.Unfinished?
                && reply == ReplyTo(sending.outcome, late)
    {
      if carbonAddress == [] {
        return Ok(Skipped);
      }
      if dryRun {
        var text := Joined(buffers);
        return Ok(DryRun(text));
      }
      if cancelled {
        return Err(ContextCancelled);
      }
      ghost var whole := Send(View(), carbonReconnectInterval, buffers, tries);
      var left, answers := buffers, tries;
      while left != []
        invariant |answers| == |left|
        invariant Send(View(), carbonReconnectInterval, left, answers) == whole
        decreases |left|
      {
        ghost var x, turn := View(), Turn(View(), carbonReconnectInterval, left[0], answers[0]);
        var conn, chosen := ConnectToCarbon(answers[0].now, answers[0].dial);
        if conn.None? {
          return Err(DialFailed);
        }
        assert chosen == Chosen(x, carbonReconnectInterval, answers[0]);
        if left[0] != [] {
          network.wire := network.wire + [Entry(conn.value, left[0], answers[0].copied, chosen)];
          if !answers[0].copied {
            DisconnectFromCarbon();
            return if late then Err(PipeClosed) else Ok(Nothing);
          }
        }
        left, answers := left[1..], answers[1..];
      }
      return Ok(Sent);
    }

    method Shutdown()
      modifies this, network
      ensures View() == Disconnected(old(View()))
    {
      DisconnectFromCarbon();
    }
  }

  method Joined(buffers: seq<bytes>) returns (text: bytes)
    ensures text == Concat(buffers)
  {
    text := [];
    var left := buffers;
    while left != []
      invariant text + Concat(left) == Concat(buffers)
      decreases |left|
    {
      ConcatAssociates(text, left[0], Concat(left[1..]));
      text := text + left[0];
      left := left[1..];
    }
  }
}
