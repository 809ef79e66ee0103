/**
 Packing the lines of a request into buffers (client/graphite/write.go, prepareWrite).
 */
module Packing {
  import opened Bytes
  import opened Wrappers
  import opened Rules
  import opened PathsCache
  import opened Lines

  const UDP_MAX_BYTES := 1024

  // --------------------------------------------------------- greedy packing

  function Size(group: seq<bytes>): nat {
    |Concat(group)|
  }

  /** The lines that go into each buffer, given the groups built so far. */
  function Pack(udp: bool, groups: seq<seq<bytes>>, lines: seq<bytes>): (r: seq<seq<bytes>>)
    requires groups != []
    ensures r != []
    decreases |lines|
  {
    if lines == [] then groups
    else Pack(udp, PackOne(udp, groups, lines[0]), lines[1..])
  }

  function PackOne(udp: bool, groups: seq<seq<bytes>>, line: bytes): (r: seq<seq<bytes>>)
    requires groups != []
    ensures r != []
  {
    var n := |groups| - 1;
    if udp && Size(groups[n]) + |line| > UDP_MAX_BYTES then groups + [[line]]
    else groups[..n] + [groups[n] + [line]]
  }

  /** The source starts from one empty buffer. */
  function Packed(udp: bool, lines: seq<bytes>): seq<seq<bytes>> {
    Pack(udp, [[]], lines)
  }

  function Buffers(groups: seq<seq<bytes>>): seq<bytes> {
    seq(|groups|, i requires 0 <= i < |groups| => Concat(groups[i]))
  }

  function Flatten(groups: seq<seq<bytes>>): seq<bytes> {
    if groups == [] then [] else groups[0] + Flatten(groups[1..])
  }

  // ------------------------------------------------------------- conservation

  lemma {:induction false} FlattenAppend(a: seq<seq<bytes>>, b: seq<seq<bytes>>)
    ensures Flatten(a + b) == Flatten(a) + Flatten(b)
    decreases |a|
  {
    if a == [] {
      assert a + b == b;
    } else {
      FlattenAppend(a[1..], b);
      assert (a + b)[1..] == a[1..] + b;
    }
  }

  lemma FlattenOne(g: seq<bytes>)
    ensures Flatten([g]) == g
  {
    assert [g][1..] == [];
    assert Flatten([g][1..]) == [] && g + [] == g;
  }

  lemma PackOneFlattens(udp: bool, groups: seq<seq<bytes>>, line: bytes)
    requires groups != []
    ensures Flatten(PackOne(udp, groups, line)) == Flatten(groups) + [line]
  {
    var n := |groups| - 1;
    FlattenOne([line]);
    FlattenAppend(groups, [[line]]);
    FlattenOne(groups[n]);
    FlattenOne(groups[n] + [line]);
    FlattenAppend(groups[..n], [groups[n]]);
    FlattenAppend(groups[..n], [groups[n] + [line]]);
    assert groups == groups[..n] + [groups[n]];
  }

  lemma {:induction false} PackFlattens(udp: bool, groups: seq<seq<bytes>>, lines: seq<bytes>)
    requires groups != []
    ensures Flatten(Pack(udp, groups, lines)) == Flatten(groups) + lines
    decreases |lines|
  {
    if lines != [] {
      PackOneFlattens(udp, groups, lines[0]);
      PackFlattens(udp, PackOne(udp, groups, lines[0]), lines[1..]);
      assert Flatten(groups) + [lines[0]] + lines[1..] == Flatten(groups) + lines;
    }
  }

  lemma {:induction false} ConcatBuffers(groups: seq<seq<bytes>>)
    ensures Concat(Buffers(groups)) == Concat(Flatten(groups))
    decreases |groups|
  {
    if groups != [] {
      ConcatBuffers(groups[1..]);
      ConcatAppend(groups[0], Flatten(groups[1..]));
      assert Buffers(groups)[1..] == Buffers(groups[1..]);
    }
  }

  /**
   For either transport the buffers hold all lines, whole and in order, and their
   contents one after another are the lines one after another.
   */
  lemma PackingConserves(udp: bool, lines: seq<bytes>)
    ensures Flatten(Packed(udp, lines)) == lines
    ensures Concat(Buffers(Packed(udp, lines))) == Concat(lines)
  {
    PackFlattens(udp, [[]], lines);
    FlattenOne([]);
    assert [] + lines == lines;
    ConcatBuffers(Packed(udp, lines));
  }

  lemma {:induction false} PackStream(groups: seq<seq<bytes>>, lines: seq<bytes>)
    requires |groups| == 1
    ensures |Pack(false, groups, lines)| == 1
    decreases |lines|
  {
    if lines != [] {
      PackStream(PackOne(false, groups, lines[0]), lines[1..]);
    }
  }

  /** Without UDP there is one buffer, holding everything. */
  lemma StreamIsOneBuffer(lines: seq<bytes>)
    ensures Packed(false, lines) == [lines]
  {
    PackStream([[]], lines);
    PackingConserves(false, lines);
    var groups := Packed(false, lines);
    FlattenOne(groups[0]);
    assert groups == [groups[0]];
  }

  // ------------------------------------------------------------- full buffers

  predicate IsFull(group: seq<bytes>, next: seq<bytes>) {
    next != [] && Size(group) + |next[0]| > UDP_MAX_BYTES
  }

  /** No buffer has room for the first line of the next one. */
  predicate Tight(groups: seq<seq<bytes>>) {
    forall i: nat | i < |groups| - 1 :: IsFull(groups[i], groups[i + 1])
  }

  /** A buffer over the limit holds a single line. */
  predicate OversizeAlone(groups: seq<seq<bytes>>) {
    forall i | 0 <= i < |groups| :: Size(groups[i]) > UDP_MAX_BYTES ==> |groups[i]| == 1
  }

  lemma SizeOfMore(group: seq<bytes>, line: bytes)
    ensures Size(group + [line]) == Size(group) + |line|
    ensures Size([line]) == |line|
  {
    ConcatSnoc(group, line);
    ConcatSnoc([], line);
    assert [] + [line] == [line];
  }

  lemma NewGroupKeeps(groups: seq<seq<bytes>>, line: bytes)
    requires groups != [] && Tight(groups) && OversizeAlone(groups)
    requires Size(groups[|groups| - 1]) + |line| > UDP_MAX_BYTES
    ensures Tight(groups + [[line]]) && OversizeAlone(groups + [[line]])
  {
    SizeOfMore([], line);
  }

  lemma LastGroupKeeps(front: seq<seq<bytes>>, last: seq<bytes>, line: bytes)
    requires Tight(front + [last]) && OversizeAlone(front + [last])
    requires Size(last) + |line| <= UDP_MAX_BYTES
    ensures Tight(front + [last + [line]]) && OversizeAlone(front + [last + [line]])
  {
    SizeOfMore(last, line);
    var before, after := front + [last], front + [last + [line]];
    forall i: nat | i < |after| - 1
      ensures IsFull(after[i], after[i + 1])
    {
      assert IsFull(before[i], before[i + 1]);
    }
    forall i | 0 <= i < |after| && Size(after[i]) > UDP_MAX_BYTES ensures |after[i]| == 1 {
      assert before[i] == after[i];
    }
  }

  lemma PackOneKeeps(groups: seq<seq<bytes>>, line: bytes)
    requires groups != [] && Tight(groups) && OversizeAlone(groups)
    ensures Tight(PackOne(true, groups, line)) && OversizeAlone(PackOne(true, groups, line))
  {
    var n := |groups| - 1;
    if Size(groups[n]) + |line| > UDP_MAX_BYTES {
      NewGroupKeeps(groups, line);
    } else {
      assert groups == groups[..n] + [groups[n]];
      LastGroupKeeps(groups[..n], groups[n], line);
    }
  }

  lemma {:induction false} PackKeeps(groups: seq<seq<bytes>>, lines: seq<bytes>)
    requires groups != [] && Tight(groups) && OversizeAlone(groups)
    ensures Tight(Pack(true, groups, lines)) && OversizeAlone(Pack(true, groups, lines))
    decreases |lines|
  {
    if lines != [] {
      PackOneKeeps(groups, lines[0]);
      PackKeeps(PackOne(true, groups, lines[0]), lines[1..]);
    }
  }

  /** Under UDP no line would have fitted the buffer before its own. */
  lemma UdpBuffersAreTight(lines: seq<bytes>)
    ensures Tight(Packed(true, lines)) && OversizeAlone(Packed(true, lines))
  {
    assert Concat([]) == [];
    PackKeeps([[]], lines);
  }

  lemma {:induction false} PackKeepsFirst(groups: seq<seq<bytes>>, lines: seq<bytes>)
    requires |groups| > 1 || (groups != [] && groups[0] != [])
    ensures Pack(true, groups, lines)[0] == [] <==> groups[0] == []
    decreases |lines|
  {
    if lines != [] {
      PackKeepsFirst(PackOne(true, groups, lines[0]), lines[1..]);
    }
  }

  /** The first buffer is empty exactly when the first line is missing or too long. */
  lemma EmptyFirstBuffer(lines: seq<bytes>)
    ensures Packed(true, lines)[0] == [] <==> lines == [] || |lines[0]| > UDP_MAX_BYTES
  {
    assert Size([]) == 0;
    if lines != [] {
      PackKeepsFirst(PackOne(true, [[]], lines[0]), lines[1..]);
    }
  }

  /** The first group is the empty one the source starts with exactly if the first line is too long. */
  predicate StartsWell(groups: seq<seq<bytes>>, lines: seq<bytes>)
    requires groups != []
  {
    groups[0] == [] <==> lines == [] || |lines[0]| > UDP_MAX_BYTES
  }

  predicate IsGreedy(groups: seq<seq<bytes>>, lines: seq<bytes>) {
    && groups != [] && Flatten(groups) == lines
    && Tight(groups) && OversizeAlone(groups) && StartsWell(groups, lines)
  }

  lemma FlattenSnoc(front: seq<seq<bytes>>, g: seq<bytes>)
    ensures Flatten(front + [g]) == Flatten(front) + g
  {
    FlattenAppend(front, [g]);
    FlattenOne(g);
  }

  /** Taking the last line away: from a group of several, or with its group. */
  lemma GreedyFront(groups: seq<seq<bytes>>, lines: seq<bytes>) returns (before: seq<seq<bytes>>)
    requires lines != [] && IsGreedy(groups, lines)
    ensures IsGreedy(before, lines[..|lines| - 1])
    ensures PackOne(true, before, lines[|lines| - 1]) == groups
  {
    var n := |groups| - 1;
    var rest, line := LastLine(groups, lines);
    assert rest == [] ==> rest + [line] == [line];
    if rest != [] {
      before := groups[..n] + [rest];
      LongerLast(groups[..n], rest, line, lines);
    } else if n > 0 {
      before := groups[..n];
      assert groups == before + [[line]];
      OwnGroup(before, line, lines);
    } else {
      before := [[]];
      assert groups == [[line]];
      OnlyLine(line, lines);
    }
  }

  lemma OnlyLine(line: bytes, lines: seq<bytes>)
    requires IsGreedy([[line]], lines)
    ensures lines == [line] && IsGreedy([[]], lines[..|lines| - 1])
    ensures PackOne(true, [[]], line) == [[line]]
  {
    FlattenOne([line]);
    FlattenOne([]);
    assert Size([]) == 0;
    var groups: seq<seq<bytes>> := [[]];
    assert groups[0] + [line] == [line];
    assert groups[..0] + [[line]] == [[line]];
  }

  lemma LastLine(groups: seq<seq<bytes>>, lines: seq<bytes>) returns (rest: seq<bytes>, line: bytes)
    requires lines != [] && IsGreedy(groups, lines)
    ensures groups == groups[..|groups| - 1] + [rest + [line]] && line == lines[|lines| - 1]
  {
    var n := |groups| - 1;
    var g := groups[n];
    assert groups == groups[..n] + [g];
    FlattenSnoc(groups[..n], g);
    if n == 0 {
      assert groups[..n] == [] && [] + g == g;
    } else {
      assert IsFull(groups[n - 1], groups[n]);
    }
    rest, line := g[..|g| - 1], g[|g| - 1];
    assert g == rest + [line];
  }

  lemma LongerLast(front: seq<seq<bytes>>, rest: seq<bytes>, line: bytes, lines: seq<bytes>)
    requires rest != [] && lines != [] && IsGreedy(front + [rest + [line]], lines)
    requires line == lines[|lines| - 1]
    ensures IsGreedy(front + [rest], lines[..|lines| - 1])
    ensures PackOne(true, front + [rest], line) == front + [rest + [line]]
  {
    ShorterLast(front, rest, line);
    FlattenSnoc(front, rest);
    FlattenSnoc(front, rest + [line]);
    assert lines == (Flatten(front) + rest) + [line];
    assert lines[..|lines| - 1] == Flatten(front) + rest;
    assert front != [] ==> (front + [rest])[0] == front[0] == (front + [rest + [line]])[0];
  }

  lemma OwnGroup(before: seq<seq<bytes>>, line: bytes, lines: seq<bytes>)
    requires before != [] && lines != [] && line == lines[|lines| - 1]
    requires IsGreedy(before + [[line]], lines)
    ensures IsGreedy(before, lines[..|lines| - 1])
    ensures PackOne(true, before, line) == before + [[line]]
  {
    var groups := before + [[line]];
    FlattenSnoc(before, [line]);
    var front := lines[..|lines| - 1];
    assert Flatten(before) == front;
    assert groups[|before|] == [line] && groups[|before| - 1] == before[|before| - 1];
    FrontStartsWell(before, front);
    assert groups[0] == before[0];
    assert front != [] ==> front[0] == lines[0];
    FrontKeeps(before, [line]);
  }

  lemma FrontStartsWell(before: seq<seq<bytes>>, front: seq<bytes>)
    requires before != [] && Flatten(before) == front
    ensures front == [] ==> before[0] == []
  {
    if before[0] != [] {
      MemberOfFlatten(before, 0, before[0][0]);
    }
  }

  lemma FrontKeeps(front: seq<seq<bytes>>, g: seq<bytes>)
    requires Tight(front + [g]) && OversizeAlone(front + [g])
    ensures Tight(front) && OversizeAlone(front)
  {
    var groups := front + [g];
    assert forall i | 0 <= i < |front| :: groups[i] == front[i];
    forall i: nat | i < |front| - 1
      ensures IsFull(front[i], front[i + 1])
    {
      assert groups[i] == front[i] && groups[i + 1] == front[i + 1];
    }
  }

  lemma ShorterLast(front: seq<seq<bytes>>, last: seq<bytes>, line: bytes)
    requires last != [] && Tight(front + [last + [line]]) && OversizeAlone(front + [last + [line]])
    ensures Tight(front + [last]) && OversizeAlone(front + [last])
    ensures Size(last) + |line| <= UDP_MAX_BYTES
  {
    SizeOfMore(last, line);
    var before, after := front + [last], front + [last + [line]];
    forall i: nat | i < |before| - 1
      ensures IsFull(before[i], before[i + 1])
    {
      assert IsFull(after[i], after[i + 1]);
    }
    assert Size(after[|front|]) <= UDP_MAX_BYTES;
    forall i | 0 <= i < |before| && Size(before[i]) > UDP_MAX_BYTES ensures |before[i]| == 1 {
      assert i < |front| ==> after[i] == before[i];
    }
  }

  /**
   These properties say exactly which line goes into which buffer: there is one way to
   cut the lines that has them, and the packing is it.
   */
  lemma {:induction false} GreedyIsPacked(groups: seq<seq<bytes>>, lines: seq<bytes>)
    ensures IsGreedy(groups, lines) <==> groups == Packed(true, lines)
    decreases |lines|
  {
    if groups == Packed(true, lines) {
      PackingConserves(true, lines);
      UdpBuffersAreTight(lines);
      EmptyFirstBuffer(lines);
    }
    if IsGreedy(groups, lines) && lines == [] {
      EmptyIsAlone(groups);
    }
    if IsGreedy(groups, lines) && lines != [] {
      var before := GreedyFront(groups, lines);
      var front, line := lines[..|lines| - 1], lines[|lines| - 1];
      GreedyIsPacked(before, front);
      PackSnoc(front, line);
      assert lines == front + [line];
    }
  }

  lemma PackSnoc(front: seq<bytes>, line: bytes)
    ensures Packed(true, front + [line]) == PackOne(true, Packed(true, front), line)
  {
    PackAppend(true, [[]], front, [line]);
    assert [line][1..] == [];
  }

  lemma EmptyIsAlone(groups: seq<seq<bytes>>)
    requires groups != [] && Flatten(groups) == [] && Tight(groups) && StartsWell(groups, [])
    ensures groups == [[]]
  {
    if |groups| > 1 {
      assert IsFull(groups[0], groups[1]);
      MemberOfFlatten(groups, 1, groups[1][0]);
      assert false;
    }
  }

  /** The limit is 1024 bytes: two lines share a buffer exactly if they have no more together. */
  lemma TwoLines(a: bytes, b: bytes)
    requires |a| <= 1024
    ensures Packed(true, [a, b]) == if |a| + |b| <= 1024 then [[a, b]] else [[a], [b]]
  {
    var groups := if |a| + |b| <= 1024 then [[a, b]] else [[a], [b]];
    SizeOfMore([], a);
    SizeOfMore([], b);
    SizeOfMore([a], b);
    assert [a] + [b] == [a, b] && [] + [a] == [a];
    FlattenOne([b]);
    assert Flatten([[a], [b]]) == [a] + Flatten([[b]]);
    FlattenOne([a, b]);
    GreedyIsPacked(groups, [a, b]);
  }

  // --------------------------------------------------------------- optimality

  /** The number of buffers from the current one on, when it holds `used` bytes. */
  function Count(used: nat, lines: seq<bytes>): nat
    decreases |lines|
  {
    if lines == [] then 1
    else if used + |lines[0]| > UDP_MAX_BYTES then 1 + Count(|lines[0]|, lines[1..])
    else Count(used + |lines[0]|, lines[1..])
  }

  lemma {:induction false} PackCounts(groups: seq<seq<bytes>>, lines: seq<bytes>)
    requires groups != []
    ensures |Pack(true, groups, lines)| == |groups| - 1 + Count(Size(groups[|groups| - 1]), lines)
    decreases |lines|
  {
    if lines != [] {
      var n := |groups| - 1;
      ConcatSnoc(groups[n], lines[0]);
      ConcatSnoc([], lines[0]);
      assert [] + [lines[0]] == [lines[0]];
      PackCounts(PackOne(true, groups, lines[0]), lines[1..]);
    }
  }

  /** A fuller buffer never helps, and costs at most one more buffer. */
  lemma {:induction false} CountMonotone(x: nat, y: nat, lines: seq<bytes>)
    ensures x <= y ==> Count(x, lines) <= Count(y, lines)
    ensures Count(x, lines) <= 1 + Count(y, lines)
    decreases |lines|
  {
    if lines != [] {
      var l, rest := |lines[0]|, lines[1..];
      CountMonotone(x + l, y + l, rest);
      CountMonotone(l, y + l, rest);
      CountMonotone(x + l, l, rest);
    }
  }

  /** A way to cut the lines, in order, into groups within the limit. */
  predicate IsCut(cut: seq<seq<bytes>>, lines: seq<bytes>) {
    && cut != []
    && Flatten(cut) == lines
    && forall i | 0 <= i < |cut| :: Size(cut[i]) <= UDP_MAX_BYTES
  }

  lemma {:induction false} GreedyStaysAhead(used: nat, cut: seq<seq<bytes>>)
    requires cut != [] && used + Size(cut[0]) <= UDP_MAX_BYTES
    requires forall i | 1 <= i < |cut| :: Size(cut[i]) <= UDP_MAX_BYTES
    ensures Count(used, Flatten(cut)) <= |cut|
    decreases |cut|, |cut[0]|
  {
    var first, rest := cut[0], cut[1..];
    if first == [] {
      assert [] + Flatten(rest) == Flatten(rest);
      if rest != [] {
        GreedyStaysAhead(0, rest);
        CountMonotone(used, 0, Flatten(rest));
      }
    } else {
      var smaller := [first[1..]] + rest;
      assert smaller[1..] == rest && smaller[0] == first[1..];
      assert Concat(first) == first[0] + Concat(first[1..]);
      GreedyStaysAhead(used + |first[0]|, smaller);
      assert Flatten(cut) == [first[0]] + Flatten(smaller) by {
        assert first == [first[0]] + first[1..];
      }
      assert Flatten(cut)[0] == first[0] && Flatten(cut)[1..] == Flatten(smaller);
    }
  }

  /**
   Optimality: when every line fits a buffer, the greedy buffers are themselves a
   cut within the limit, and no cut of the lines in order has fewer groups.
   */
  lemma UdpPackingIsOptimal(lines: seq<bytes>)
    requires forall i | 0 <= i < |lines| :: |lines[i]| <= UDP_MAX_BYTES
    ensures IsCut(Packed(true, lines), lines)
    ensures forall cut :: IsCut(cut, lines) ==> |Packed(true, lines)| <= |cut|
    ensures lines == [] ==> Packed(true, lines) == [[]]
  {
    var groups := Packed(true, lines);
    PackingConserves(true, lines);
    UdpBuffersAreTight(lines);
    PackCounts([[]], lines);
    assert Size([]) == 0;
    forall i | 0 <= i < |groups| ensures Size(groups[i]) <= UDP_MAX_BYTES {
      if |groups[i]| == 1 {
        SizeOfMore([], groups[i][0]);
        assert groups[i] == [groups[i][0]];
        MemberOfFlatten(groups, i, groups[i][0]);
      }
    }
    forall cut | IsCut(cut, lines) ensures |groups| <= |cut| {
      GreedyStaysAhead(0, cut);
    }
  }

  lemma {:induction false} MemberOfFlatten(groups: seq<seq<bytes>>, i: nat, line: bytes)
    requires i < |groups| && line in groups[i]
    ensures line in Flatten(groups)
    decreases |groups|
  {
    if i > 0 {
      MemberOfFlatten(groups[1..], i - 1, line);
    }
  }

  // -------------------------------------------------------------- prepareWrite

  /** The lines of each sample that is kept, the ignored count, and the cache. */
  datatype Collected = Aborted | Collected(kept: seq<seq<bytes>>, ignored: nat, cache: State)

  function Collect(hash: Hash, st: State, p: Params, samples: seq<Sample>): Collected
    decreases |samples|
  {
    if samples == [] then Collected([], 0, st)
    else
      match SampleLines(samples[0], Answer(hash, st, p, samples[0].metric))
      case Panics => Aborted
      case Fails =>
        (match Collect(hash, CacheAfter(hash, st, p, samples[0]), p, samples[1..])
         case Aborted => Aborted
         case Collected(kept, ignored, st') => Collected(kept, ignored + 1, st'))
      case Points(lines) =>
        (match Collect(hash, CacheAfter(hash, st, p, samples[0]), p, samples[1..])
         case Aborted => Aborted
         case Collected(kept, ignored, st') => Collected([lines] + kept, ignored, st'))
  }

  /** What is collected already, followed by what is still to come. */
  function After(kept: seq<seq<bytes>>, ignored: nat, rest: Collected): Collected {
    match rest
    case Aborted => Aborted
    case Collected(more, n, st) => Collected(kept + more, ignored + n, st)
  }

  /** None when a rule crashes the process. */
  method PrepareWrite(samples: seq<Sample>, p: Params, udp: bool, cache: Cache, hash: Hash)
    returns (r: Option<seq<bytes>>, ignored: nat)
    modifies cache
    ensures
      match Collect(hash, old(cache.Abstract()), p, samples)
      case Aborted => r.None?
      case Collected(kept, n, st) =>
        && r == Some(Buffers(Packed(udp, Flatten(kept))))
        && ignored == n
        && cache.Abstract() == st
  {
    ghost var kept: seq<seq<bytes>> := [];
    ghost var groups: seq<seq<bytes>> := [[]];
    var bytesBuffers: seq<bytes> := [[]];
    ignored := 0;
    ghost var all := Collect(hash, cache.Abstract(), p, samples);
    var left := samples;
    AfterNothing(all);
    PackNothing(udp);
    while left != []
      invariant After(kept, ignored, Collect(hash, cache.Abstract(), p, left)) == all
      invariant groups == Packed(udp, Flatten(kept))
      invariant bytesBuffers == Buffers(groups) && groups != []
      decreases |left|
    {
      var s := left[0];
      ghost var rest := Collect(hash, CacheAfter(hash, cache.Abstract(), p, s), p, left[1..]);
      var datapoints := ToDatapoints(s, p, cache, hash);
      match datapoints {
      case Panics =>
        return None, ignored;
      case Fails =>
        AfterIgnored(kept, ignored, rest);
        ignored := ignored + 1;
      case Points(lines) =>
        AfterKept(kept, ignored, lines, rest);
        PackMore(udp, kept, lines);
        kept := kept + [lines];
        bytesBuffers := WriteLines(udp, bytesBuffers, lines, groups);
        groups := Pack(udp, groups, lines);
      }
      left := left[1..];
    }
    AfterEnd(kept, ignored, cache.Abstract());
    return Some(bytesBuffers), ignored;
  }

  lemma BuffersStep(udp: bool, groups: seq<seq<bytes>>, str: bytes)
    requires groups != []
    ensures
      var buffers, n := Buffers(groups), |groups| - 1;
      Buffers(PackOne(udp, groups, str)) ==
        if udp && |buffers[n]| + |str| > UDP_MAX_BYTES then buffers + [str]
        else buffers[..n] + [buffers[n] + str]
  {
    var n := |groups| - 1;
    SizeOfMore(groups[n], str);
    ConcatSnoc(groups[n], str);
    ConcatSnoc([], str);
    assert [] + [str] == [str] && [] + str == str;
    BuffersSnoc(groups, [str]);
    BuffersSnoc(groups[..n], groups[n] + [str]);
    assert Buffers(groups)[..n] == Buffers(groups[..n]);
  }

  lemma BuffersSnoc(front: seq<seq<bytes>>, g: seq<bytes>)
    ensures Buffers(front + [g]) == Buffers(front) + [Concat(g)]
  {
  }

  /** The inner loop: append to the current buffer, or to a new one if it is full. */
  method WriteLines(udp: bool, buffers: seq<bytes>, lines: seq<bytes>, ghost groups: seq<seq<bytes>>)
    returns (bytesBuffers: seq<bytes>)
    requires groups != [] && buffers == Buffers(groups)
    ensures bytesBuffers == Buffers(Pack(udp, groups, lines))
  {
    bytesBuffers := buffers;
    ghost var gs := groups;
    var left := lines;
    while left != []
      invariant gs != [] && bytesBuffers == Buffers(gs)
      invariant Pack(udp, gs, left) == Pack(udp, groups, lines)
      decreases |left|
    {
      var str := left[0];
      var n := |bytesBuffers| - 1;
      BuffersStep(udp, gs, str);
      if udp && |bytesBuffers[n]| + |str| > UDP_MAX_BYTES {
        bytesBuffers := bytesBuffers + [str];
      } else {
        bytesBuffers := bytesBuffers[..n] + [bytesBuffers[n] + str];
      }
      gs := PackOne(udp, gs, str);
      left := left[1..];
    }
  }

  lemma AfterNothing(rest: Collected)
    ensures After([], 0, rest) == rest
  {
    if rest.Collected? {
      assert [] + rest.kept == rest.kept;
    }
  }

  lemma AfterIgnored(kept: seq<seq<bytes>>, n: nat, rest: Collected)
    ensures After(kept, n, After([], 1, rest)) == After(kept, n + 1, rest)
    ensures rest.Collected? ==> [] + rest.kept == rest.kept
  {
    if rest.Collected? {
      assert [] + rest.kept == rest.kept;
    }
  }

  lemma AfterKept(kept: seq<seq<bytes>>, n: nat, lines: seq<bytes>, rest: Collected)
    ensures After(kept, n, After([lines], 0, rest)) == After(kept + [lines], n, rest)
  {
    if rest.Collected? {
      assert kept + ([lines] + rest.kept) == kept + [lines] + rest.kept;
    }
  }

  lemma AfterEnd(kept: seq<seq<bytes>>, n: nat, st: State)
    ensures After(kept, n, Collected([], 0, st)) == Collected(kept, n, st)
  {
    assert kept + [] == kept;
  }

  lemma PackNothing(udp: bool)
    ensures [[]] == Packed(udp, Flatten([])) && Buffers([[]]) == [[]]
  {
  }

  lemma {:induction false} PackAppend(udp: bool, groups: seq<seq<bytes>>, a: seq<bytes>, b: seq<bytes>)
    requires groups != []
    ensures Pack(udp, groups, a + b) == Pack(udp, Pack(udp, groups, a), b)
    decreases |a|
  {
    if a == [] {
      assert a + b == b;
    } else {
      assert (a + b)[0] == a[0] && (a + b)[1..] == a[1..] + b;
      PackAppend(udp, PackOne(udp, groups, a[0]), a[1..], b);
    }
  }

  lemma PackMore(udp: bool, kept: seq<seq<bytes>>, lines: seq<bytes>)
    ensures Packed(udp, Flatten(kept + [lines])) == Pack(udp, Packed(udp, Flatten(kept)), lines)
  {
    FlattenAppend(kept, [lines]);
    FlattenOne(lines);
    PackAppend(udp, [[]], Flatten(kept), lines);
  }

  /** The cache as the samples before number i leave it. */
  function CacheBefore(hash: Hash, st: State, p: Params, samples: seq<Sample>, i: nat): State
    requires i < |samples|
    decreases i
  {
    if i == 0 then st else CacheBefore(hash, CacheAfter(hash, st, p, samples[0]), p, samples[1..], i - 1)
  }

  /** What the cache or the rules give for the metric of sample i. */
  function OutcomeOf(hash: Hash, st: State, p: Params, samples: seq<Sample>, i: nat): Outcome
    requires i < |samples|
  {
    Answer(hash, CacheBefore(hash, st, p, samples, i), p, samples[i].metric)
  }

  function ResultOf(hash: Hash, st: State, p: Params, samples: seq<Sample>, i: nat): Datapoints
    requires i < |samples|
  {
    SampleLines(samples[i], OutcomeOf(hash, st, p, samples, i))
  }

  /** What the samples give, one by one. */
  function Results(hash: Hash, st: State, p: Params, samples: seq<Sample>): seq<Datapoints> {
    seq(|samples|, i requires 0 <= i < |samples| => ResultOf(hash, st, p, samples, i))
  }

  /** The lines of the valid samples, in order. */
  function LinesIn(results: seq<Datapoints>): seq<seq<bytes>> {
    if results == [] then []
    else (match results[0] case Points(lines) => [lines] case _ => []) + LinesIn(results[1..])
  }

  /** How many of these there are. */
  function Occurrences(x: Datapoints, results: seq<Datapoints>): nat {
    if results == [] then 0 else (if results[0] == x then 1 else 0) + Occurrences(x, results[1..])
  }

  predicate CrashesAt(hash: Hash, st: State, p: Params, samples: seq<Sample>, i: nat) {
    i < |samples| && samples[i].value.Finite? && OutcomeOf(hash, st, p, samples, i) == Crashed
  }

  /**
   What is collected: nothing exactly if the rules crash at some sample with a finite
   value; and otherwise the lines of the valid samples, in order, while every sample that
   is not a finite number, or whose rules fail, is ignored, and counted.
   */
  lemma CollectMeans(hash: Hash, st: State, p: Params, samples: seq<Sample>)
    ensures Collect(hash, st, p, samples).Aborted? <==> exists i: nat :: CrashesAt(hash, st, p, samples, i)
    ensures
      match Collect(hash, st, p, samples)
      case Aborted => true
      case Collected(kept, ignored, _) =>
        && kept == LinesIn(Results(hash, st, p, samples))
        && ignored == Occurrences(Fails, Results(hash, st, p, samples))
    ensures forall i | 0 <= i < |samples| ::
              Results(hash, st, p, samples)[i] == Fails <==>
              IsInvalid(samples[i], OutcomeOf(hash, st, p, samples, i))
  {
    CollectsResults(hash, st, p, samples);
    NoneOccurs(Panics, Results(hash, st, p, samples));
    forall i: nat | i < |samples|
      ensures Results(hash, st, p, samples)[i] == Fails <==>
                IsInvalid(samples[i], OutcomeOf(hash, st, p, samples, i))
      ensures CrashesAt(hash, st, p, samples, i) <==> Results(hash, st, p, samples)[i] == Panics
    {
      SampleLinesMean(samples[i], OutcomeOf(hash, st, p, samples, i));
    }
    if i: nat :| CrashesAt(hash, st, p, samples, i) {
      assert Results(hash, st, p, samples)[i] == Panics;
    }
    if Panics in Results(hash, st, p, samples) {
      var i :| 0 <= i < |samples| && Results(hash, st, p, samples)[i] == Panics;
      assert CrashesAt(hash, st, p, samples, i);
    }
  }

  lemma ResultsCons(hash: Hash, st: State, p: Params, samples: seq<Sample>)
    requires samples != []
    ensures Results(hash, st, p, samples) ==
            [SampleLines(samples[0], Answer(hash, st, p, samples[0].metric))]
            + Results(hash, CacheAfter(hash, st, p, samples[0]), p, samples[1..])
  {
    var st' := CacheAfter(hash, st, p, samples[0]);
    forall i | 0 < i < |samples|
      ensures ResultOf(hash, st, p, samples, i) == ResultOf(hash, st', p, samples[1..], i - 1)
    {
      ResultLater(hash, st, p, samples, i);
    }
  }

  lemma ResultLater(hash: Hash, st: State, p: Params, samples: seq<Sample>, i: nat)
    requires 0 < i < |samples|
    ensures ResultOf(hash, st, p, samples, i)
            == ResultOf(hash, CacheAfter(hash, st, p, samples[0]), p, samples[1..], i - 1)
  {
  }

  lemma {:induction false} NoneOccurs(x: Datapoints, results: seq<Datapoints>)
    ensures x in results <==> Occurrences(x, results) > 0
    decreases |results|
  {
    if results != [] {
      NoneOccurs(x, results[1..]);
      assert results == [results[0]] + results[1..];
    }
  }

  lemma ResultsOneBefore(first: Datapoints, rest: seq<Datapoints>)
    ensures LinesIn([first] + rest) == (match first case Points(lines) => [lines] case _ => []) + LinesIn(rest)
    ensures forall x :: Occurrences(x, [first] + rest) == (if first == x then 1 else 0) + Occurrences(x, rest)
  {
    assert ([first] + rest)[1..] == rest;
  }

  /** One more result before what is collected. */
  function Before(first: Datapoints, c: Collected): Collected {
    match c
    case Aborted => Aborted
    case Collected(kept, ignored, st) =>
      match first
      case Panics => Aborted
      case Fails => Collected(kept, ignored + 1, st)
      case Points(lines) => Collected([lines] + kept, ignored, st)
  }

  lemma CollectStep(hash: Hash, st: State, p: Params, samples: seq<Sample>)
    requires samples != []
    ensures Collect(hash, st, p, samples) ==
            Before(SampleLines(samples[0], Answer(hash, st, p, samples[0].metric)),
                   Collect(hash, CacheAfter(hash, st, p, samples[0]), p, samples[1..]))
  {
  }

  predicate Reflects(c: Collected, results: seq<Datapoints>) {
    match c
    case Aborted => Occurrences(Panics, results) > 0
    case Collected(kept, ignored, _) =>
      && Occurrences(Panics, results) == 0
      && kept == LinesIn(results) && ignored == Occurrences(Fails, results)
  }

  lemma ReflectsBefore(first: Datapoints, c: Collected, rest: seq<Datapoints>)
    requires Reflects(c, rest)
    ensures Reflects(Before(first, c), [first] + rest)
  {
    ResultsOneBefore(first, rest);
    assert [] + LinesIn(rest) == LinesIn(rest);
  }

  lemma {:induction false} CollectsResults(hash: Hash, st: State, p: Params, samples: seq<Sample>)
    ensures Reflects(Collect(hash, st, p, samples), Results(hash, st, p, samples))
    decreases |samples|
  {
    if samples != [] {
      var st', rest := CacheAfter(hash, st, p, samples[0]), samples[1..];
      CollectsResults(hash, st', p, rest);
      CollectStep(hash, st, p, samples);
      ResultsCons(hash, st, p, samples);
      ReflectsBefore(SampleLines(samples[0], Answer(hash, st, p, samples[0].metric)),
                     Collect(hash, st', p, rest), Results(hash, st', p, rest));
    }
  }

  /** Each sample is kept or counted as ignored. */
  lemma {:induction false} SamplesAreCounted(hash: Hash, st: State, p: Params, samples: seq<Sample>)
    ensures
      var c := Collect(hash, st, p, samples);
      c.Collected? ==> |c.kept| + c.ignored == |samples|
    decreases |samples|
  {
    if samples != [] {
      SamplesAreCounted(hash, CacheAfter(hash, st, p, samples[0]), p, samples[1..]);
    }
  }
}
