/**
 Building the lines of one sample in a reused buffer (client/graphite/paths/write.go,
 ToDatapoints). Every returned slice starts at the first byte of one array, and each
 line is written over the one before.
 */
module Lines {
  import opened Bytes
  import opened Paths
  import opened Rules
  import opened PathsCache

  /** Formatting a float is not modelled: a finite value comes with its text. */
  datatype SampleValue = NaN | Infinite | Finite(text: bytes)

  datatype Sample = Sample(metric: Metric, value: SampleValue, time: bytes)

  /** "path value timestamp\n" */
  function Line(path: bytes, val: bytes, tm: bytes): bytes {
    path + [SPACE] + val + [SPACE] + tm + [NEWLINE]
  }

  function LinesFor(paths: seq<bytes>, val: bytes, tm: bytes): seq<bytes> {
    seq(|paths|, i requires 0 <= i < |paths| => Line(paths[i], val, tm))
  }

  // -------------------------------------------------------- the reused buffer

  /** The array after writing the line from its first byte on. */
  function Overlay(content: bytes, line: bytes): bytes
    requires |line| <= |content|
  {
    line + content[|line|..]
  }

  predicate Fit(lines: seq<bytes>, capacity: nat) {
    forall i | 0 <= i < |lines| :: |lines[i]| <= capacity
  }

  /** The array after all lines, from zeroed memory. */
  function Final(lines: seq<bytes>, capacity: nat): (content: bytes)
    requires Fit(lines, capacity)
    ensures |content| == capacity
  {
    if lines == [] then seq(capacity, _ => 0)
    else Overlay(Final(lines[..|lines| - 1], capacity), lines[|lines| - 1])
  }

  method MaxLength(paths: seq<bytes>) returns (length: nat)
    ensures forall i | 0 <= i < |paths| :: |paths[i]| <= length
    ensures length == 0 || exists i | 0 <= i < |paths| :: |paths[i]| == length
  {
    length := 0;
    for i := 0 to |paths|
      invariant forall j | 0 <= j < i :: |paths[j]| <= length
      invariant length == 0 || exists j | 0 <= j < i :: |paths[j]| == length
    {
      var pathLength := |paths[i]|;
      if pathLength > length {
        length := pathLength;
      }
    }
  }

  /** bytes.Buffer.Write where there is room: the array is not replaced. */
  method Write(buf: array<byte>, at: nat, s: bytes) returns (end: nat)
    requires at + |s| <= buf.Length
    modifies buf
    ensures end == at + |s|
    ensures buf[..end] == old(buf[..at]) + s
    ensures forall k | end <= k < buf.Length :: buf[k] == old(buf[k])
  {
    for i := 0 to |s|
      invariant forall k | 0 <= k < at || at + i <= k < buf.Length :: buf[k] == old(buf[k])
      invariant forall k | 0 <= k < i :: buf[at + k] == s[k]
    {
      buf[at + i] := s[i];
    }
    end := at + |s|;
  }

  /**
   All paths of one sample. `buf` is allocated once, with room for the longest line;
   the slice of path i is its first `lens[i]` bytes.
   */
  method BuildLines(paths: seq<bytes>, val: bytes, tm: bytes) returns (buf: array<byte>, lens: seq<nat>)
    ensures fresh(buf)
    ensures Fit(LinesFor(paths, val, tm), buf.Length)
    ensures buf[..] == Final(LinesFor(paths, val, tm), buf.Length)
    ensures |lens| == |paths|
    ensures forall i | 0 <= i < |paths| :: lens[i] == |Line(paths[i], val, tm)|
  {
    var length := MaxLength(paths);
    var capacity := length + |val| + |tm| + 3;
    buf := new byte[capacity](_ => 0);
    lens := [];
    ghost var lines := LinesFor(paths, val, tm);
    for i := 0 to |paths|
      invariant fresh(buf) && buf.Length == capacity
      invariant Fit(lines, capacity)
      invariant buf[..] == Final(lines[..i], capacity)
      invariant |lens| == i
      invariant forall j | 0 <= j < i :: lens[j] == |lines[j]|
    {
      ghost var before := buf[..];
      var n := WriteLine(buf, paths[i], val, tm);
      assert lines[..i + 1][..i] == lines[..i];
      lens := lens + [n];
    }
    assert lines[..|paths|] == lines;
  }

  method WriteLine(buf: array<byte>, path: bytes, val: bytes, tm: bytes) returns (n: nat)
    requires |Line(path, val, tm)| <= buf.Length
    modifies buf
    ensures n == |Line(path, val, tm)|
    ensures buf[..] == Overlay(old(buf[..]), Line(path, val, tm))
  {
    n := Write(buf, 0, path);
    n := Write(buf, n, [SPACE]);
    n := Write(buf, n, val);
    n := Write(buf, n, [SPACE]);
    n := Write(buf, n, tm);
    n := Write(buf, n, [NEWLINE]);
    assert buf[..n] == Line(path, val, tm);
    assert buf[n..] == old(buf[..])[n..];
    assert buf[..] == buf[..n] + buf[n..];
  }

  // ------------------------------------------------------- what the slices hold

  /** The slice of line i once all lines are written. */
  function Slice(lines: seq<bytes>, i: nat, capacity: nat): bytes
    requires i < |lines| && Fit(lines, capacity)
  {
    Final(lines, capacity)[..|lines[i]|]
  }

  /** Each byte of the final array comes from the last line long enough. */
  lemma {:induction false} LastLongerWins(lines: seq<bytes>, capacity: nat, k: nat, p: nat)
    requires Fit(lines, capacity) && k < |lines| && p < |lines[k]|
    requires forall j | k < j < |lines| :: |lines[j]| <= p
    ensures Final(lines, capacity)[p] == lines[k][p]
    decreases |lines|
  {
    if k < |lines| - 1 {
      LastLongerWins(lines[..|lines| - 1], capacity, k, p);
    }
  }

  lemma {:induction false} LastLongerExists(lines: seq<bytes>, i: nat, p: nat) returns (k: nat)
    requires i < |lines| && p < |lines[i]|
    ensures i <= k < |lines| && p < |lines[k]|
    ensures forall j | k < j < |lines| :: |lines[j]| <= p
    decreases |lines| - i
  {
    if j :| i < j < |lines| && p < |lines[j]| {
      k := LastLongerExists(lines, j, p);
    } else {
      k := i;
    }
  }

  /** One of the two is a prefix of the other. */
  predicate Comparable(a: bytes, b: bytes) {
    a <= b || b <= a
  }

  /**
   The slices hold the lines that were written exactly when of any two lines one is
   a prefix of the other.
   */
  lemma SlicesIntact(lines: seq<bytes>, capacity: nat)
    requires Fit(lines, capacity)
    ensures (forall i | 0 <= i < |lines| :: Slice(lines, i, capacity) == lines[i])
            <==> forall i, j | 0 <= i < j < |lines| :: Comparable(lines[i], lines[j])
  {
    if forall i | 0 <= i < |lines| :: Slice(lines, i, capacity) == lines[i] {
      forall i, j | 0 <= i < j < |lines| ensures Comparable(lines[i], lines[j]) {
        assert Slice(lines, i, capacity) == lines[i] && Slice(lines, j, capacity) == lines[j];
      }
    }
    if forall i, j | 0 <= i < j < |lines| :: Comparable(lines[i], lines[j]) {
      forall i | 0 <= i < |lines| ensures Slice(lines, i, capacity) == lines[i] {
        forall p | 0 <= p < |lines[i]| ensures Final(lines, capacity)[p] == lines[i][p] {
          var k := LastLongerExists(lines, i, p);
          LastLongerWins(lines, capacity, k, p);
          assert k > i ==> Comparable(lines[i], lines[k]);
        }
      }
    }
  }

  /** A text with a newline at its end and nowhere else. */
  predicate IsLine(l: bytes) {
    l != [] && l[|l| - 1] == NEWLINE && forall p | 0 <= p < |l| - 1 :: l[p] != NEWLINE
  }

  lemma LinesAreLines(path: bytes, val: bytes, tm: bytes)
    requires NEWLINE !in path && NEWLINE !in val && NEWLINE !in tm
    ensures IsLine(Line(path, val, tm))
  {
  }

  lemma ComparableLines(a: bytes, b: bytes)
    requires IsLine(a) && IsLine(b)
    ensures Comparable(a, b) <==> a == b
  {
    assert a <= b ==> b[|a| - 1] == NEWLINE;
    assert b <= a ==> a[|b| - 1] == NEWLINE;
  }

  lemma SameLine(p: bytes, q: bytes, val: bytes, tm: bytes)
    ensures Line(p, val, tm) == Line(q, val, tm) <==> p == q
  {
    var a, b := Line(p, val, tm), Line(q, val, tm);
    if a == b {
      assert |p| == |q|;
      assert a[..|p|] == p && b[..|q|] == q;
    }
  }

  /**
   For paths without newlines the slices are right exactly when all paths of the
   sample are equal: two different paths for one sample damage a line.
   */
  lemma SeveralPathsDamageLines(paths: seq<bytes>, val: bytes, tm: bytes, capacity: nat)
    requires Fit(LinesFor(paths, val, tm), capacity)
    requires NEWLINE !in val && NEWLINE !in tm && forall i | 0 <= i < |paths| :: NEWLINE !in paths[i]
    ensures
      var lines := LinesFor(paths, val, tm);
      (forall i | 0 <= i < |paths| :: Slice(lines, i, capacity) == lines[i])
      <==> forall i, j | 0 <= i < j < |paths| :: paths[i] == paths[j]
  {
    var lines := LinesFor(paths, val, tm);
    SlicesIntact(lines, capacity);
    forall i, j | 0 <= i < j < |paths|
      ensures Comparable(lines[i], lines[j]) <==> paths[i] == paths[j]
    {
      LinesAreLines(paths[i], val, tm);
      LinesAreLines(paths[j], val, tm);
      ComparableLines(lines[i], lines[j]);
      SameLine(paths[i], paths[j], val, tm);
    }
  }

  /** Two paths of one length: both slices hold the second line. */
  lemma FirstLineLost(p: bytes, q: bytes, val: bytes, tm: bytes, capacity: nat)
    requires |p| == |q| && Fit(LinesFor([p, q], val, tm), capacity)
    ensures
      var lines := LinesFor([p, q], val, tm);
      Slice(lines, 0, capacity) == Slice(lines, 1, capacity) == Line(q, val, tm)
  {
    var lines := LinesFor([p, q], val, tm);
    assert lines[0] == Line(p, val, tm) && lines[1] == Line(q, val, tm);
    assert Final(lines, capacity)[..|lines[1]|] == lines[1];
  }

  // ------------------------------------------------------------ one whole sample

  /** What the caller gets to write: an error, a crash, or the slices of one array. */
  datatype Datapoints = Panics | Fails | Points(lines: seq<bytes>)

  function Capacity(paths: seq<bytes>, val: bytes, tm: bytes): nat {
    if paths == [] then |val| + |tm| + 3
    else
      var rest := Capacity(paths[1..], val, tm);
      if |paths[0]| + |val| + |tm| + 3 > rest then |paths[0]| + |val| + |tm| + 3 else rest
  }

  lemma {:induction false} CapacityFits(paths: seq<bytes>, val: bytes, tm: bytes)
    ensures Fit(LinesFor(paths, val, tm), Capacity(paths, val, tm))
    decreases |paths|
  {
    if paths != [] {
      CapacityFits(paths[1..], val, tm);
      forall i | 0 <= i < |paths| ensures |LinesFor(paths, val, tm)[i]| <= Capacity(paths, val, tm) {
        assert i > 0 ==> LinesFor(paths, val, tm)[i] == LinesFor(paths[1..], val, tm)[i - 1];
      }
    }
  }

  function Slices(lines: seq<bytes>, capacity: nat): seq<bytes>
    requires Fit(lines, capacity)
  {
    seq(|lines|, i requires 0 <= i < |lines| => Slice(lines, i, capacity))
  }

  lemma {:induction false} FinalPrefix(lines: seq<bytes>, c: nat, c': nat)
    requires Fit(lines, c) && c <= c'
    ensures Fit(lines, c') && Final(lines, c')[..c] == Final(lines, c)
    decreases |lines|
  {
    if lines != [] {
      var before, l := lines[..|lines| - 1], lines[|lines| - 1];
      FinalPrefix(before, c, c');
      assert Final(before, c')[..c] == Final(before, c);
      forall p | 0 <= p < c ensures Final(lines, c')[p] == Final(lines, c)[p] {
        assert p >= |l| ==> Final(before, c')[..c][p] == Final(before, c)[p];
      }
    }
  }

  /** How much room there is beyond the longest line makes no difference. */
  lemma SlicesAnyCapacity(lines: seq<bytes>, c: nat, c': nat)
    requires Fit(lines, c) && Fit(lines, c')
    ensures Slices(lines, c) == Slices(lines, c')
  {
    var lo, hi := if c <= c' then c else c', if c <= c' then c' else c;
    FinalPrefix(lines, lo, hi);
    forall i | 0 <= i < |lines| ensures Slice(lines, i, lo) == Slice(lines, i, hi) {
      assert Final(lines, hi)[..lo][..|lines[i]|] == Final(lines, hi)[..|lines[i]|];
    }
  }

  function SampleLines(s: Sample, outcome: Outcome): Datapoints {
    if !s.value.Finite? then Fails
    else
      match outcome
      case Crashed => Panics
      case Computed(paths, failed) =>
        if failed then Fails
        else
          CapacityFits(paths, s.value.text, s.time);
          Points(Slices(LinesFor(paths, s.value.text, s.time), Capacity(paths, s.value.text, s.time)))
  }

  /** The value is no finite number, or a template of the rules failed. */
  predicate IsInvalid(s: Sample, outcome: Outcome) {
    || s.value == NaN || s.value == Infinite
    || match outcome case Crashed => false case Computed(_, failed) => failed
  }

  /** "path value timestamp\n", in characters. */
  predicate IsLineFor(line: bytes, path: bytes, val: bytes, tm: bytes) {
    Text(line) == Text(path) + " " + Text(val) + " " + Text(tm) + "\n"
  }

  lemma LineIsSpelt(path: bytes, val: bytes, tm: bytes)
    ensures IsLineFor(Line(path, val, tm), path, val, tm)
  {
    assert Text([SPACE]) == " " && Text([NEWLINE]) == "\n";
    TextsJoin(path, [SPACE], val, [SPACE], tm);
    TextConcat(path + [SPACE] + val + [SPACE] + tm, [NEWLINE]);
  }

  /**
   What a sample gives: an error exactly if it is invalid; a crash exactly if its value
   is finite and the rules crash; and otherwise a slice for each path, of which the last
   is its line always, and all are exactly if of any two lines one is a prefix of the other.
   */
  lemma SampleLinesMean(s: Sample, outcome: Outcome)
    ensures SampleLines(s, outcome) == Fails <==> IsInvalid(s, outcome)
    ensures SampleLines(s, outcome) == Panics <==> s.value.Finite? && outcome == Crashed
    ensures
      match SampleLines(s, outcome)
      case Points(slices) =>
        && s.value.Finite? && outcome.Computed? && |slices| == |outcome.paths|
        && var lines := LinesFor(outcome.paths, s.value.text, s.time);
        && (forall i | 0 <= i < |lines| :: IsLineFor(lines[i], outcome.paths[i], s.value.text, s.time))
        && (slices == lines <==> forall i, j | 0 <= i < j < |lines| :: Comparable(lines[i], lines[j]))
        && (lines != [] ==> slices[|lines| - 1] == lines[|lines| - 1])
      case _ => true
  {
    if SampleLines(s, outcome).Points? {
      CapacityFits(outcome.paths, s.value.text, s.time);
      SlicesMean(outcome.paths, s.value.text, s.time, Capacity(outcome.paths, s.value.text, s.time));
    }
  }

  lemma SlicesMean(paths: seq<bytes>, val: bytes, tm: bytes, capacity: nat)
    requires Fit(LinesFor(paths, val, tm), capacity)
    ensures
      var lines := LinesFor(paths, val, tm);
      var slices := Slices(lines, capacity);
      && (forall i | 0 <= i < |lines| :: IsLineFor(lines[i], paths[i], val, tm))
      && (slices == lines <==> forall i, j | 0 <= i < j < |lines| :: Comparable(lines[i], lines[j]))
      && (lines != [] ==> slices[|lines| - 1] == lines[|lines| - 1])
  {
    var lines := LinesFor(paths, val, tm);
    var slices := Slices(lines, capacity);
    SlicesIntact(lines, capacity);
    forall i | 0 <= i < |lines| ensures IsLineFor(lines[i], paths[i], val, tm) {
      LineIsSpelt(paths[i], val, tm);
    }
    assert slices == lines <==> forall i | 0 <= i < |lines| :: Slice(lines, i, capacity) == lines[i];
  }

  /** The cache after the sample: an invalid value does not reach it. */
  function CacheAfter(hash: Hash, st: State, p: Params, s: Sample): State {
    if s.value.Finite? then Call(hash, st, p, s.metric) else st
  }

  method ToDatapoints(s: Sample, p: Params, cache: Cache, hash: Hash) returns (r: Datapoints)
    modifies cache
    ensures r == SampleLines(s, Answer(hash, old(cache.Abstract()), p, s.metric))
    ensures cache.Abstract() == CacheAfter(hash, old(cache.Abstract()), p, s)
  {
    if !s.value.Finite? {
      return Fails;
    }
    var computed := cache.PathsFromMetric(s.metric, p, hash);
    if computed.Crashed? {
      return Panics;
    }
    if computed.failed {
      return Fails;
    }
    var buf, lens := BuildLines(computed.paths, s.value.text, s.time);
    ghost var lines := LinesFor(computed.paths, s.value.text, s.time);
    CapacityFits(computed.paths, s.value.text, s.time);
    SlicesAnyCapacity(lines, buf.Length, Capacity(computed.paths, s.value.text, s.time));
    var slices := TakeSlices(buf, lens, lines);
    return Points(slices);
  }

  /** The contents of the slices once `buf` is complete. */
  method TakeSlices(buf: array<byte>, lens: seq<nat>, ghost lines: seq<bytes>) returns (slices: seq<bytes>)
    requires Fit(lines, buf.Length) && buf[..] == Final(lines, buf.Length)
    requires |lens| == |lines| && forall i | 0 <= i < |lens| :: lens[i] == |lines[i]|
    ensures slices == Slices(lines, buf.Length)
  {
    slices := [];
    for i := 0 to |lens|
      invariant |slices| == i
      invariant forall j | 0 <= j < i :: slices[j] == Slice(lines, j, buf.Length)
    {
      assert buf[..lens[i]] == buf[..][..lens[i]];
      slices := slices + [buf[..lens[i]]];
    }
  }

  /** A sample with one path keeps its line. */
  lemma OnePath(path: bytes, val: bytes, tm: bytes, capacity: nat)
    requires Fit(LinesFor([path], val, tm), capacity)
    ensures Slices(LinesFor([path], val, tm), capacity) == [Line(path, val, tm)]
  {
    var lines := LinesFor([path], val, tm);
    assert lines == [Line(path, val, tm)];
    SlicesIntact(lines, capacity);
    assert Slice(lines, 0, capacity) == lines[0];
  }
}
