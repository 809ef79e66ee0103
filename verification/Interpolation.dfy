/**
 Linear interpolation of datapoints (client/graphite/read.go, samplesFromDatapoints).
 Values are real numbers; timestamps and intervals are integers as in the source.
 */
module Interpolation {
  import opened Wrappers

  /** A value that is missing is a null in Graphite's response. Seconds. */
  datatype Datapoint = Datapoint(value: Option<real>, timestamp: int)

  /** Milliseconds. */
  datatype Sample = Sample(value: real, timestamp: int)

  const SECOND := 1_000_000_000

  /** Go's integer division truncates towards zero. */
  function TruncDiv(a: int, b: int): int
    requires b != 0
  {
    if a >= 0 then (if b > 0 then a / b else -(a / -b))
    else if b > 0 then -(-a / b) else -a / -b
  }

  // ------------------------------------------------------------- one gap

  function Variation(d: Datapoint, next: Datapoint): real
    requires d.value.Some? && next.value.Some?
  {
    var delta := next.timestamp - d.timestamp;
    if delta == 0 then 0.0  // never used: no sample is inserted
    else (next.value.value - d.value.value) / delta as real
  }

  function Between(d: Datapoint, next: Datapoint, t: int): Sample
    requires d.value.Some? && next.value.Some?
  {
    Sample(d.value.value + (t - d.timestamp) as real * Variation(d, next), t * 1000)
  }

  /** The inserted sample number j. */
  function Nth(d: Datapoint, next: Datapoint, interval: int, j: int): Sample
    requires d.value.Some? && next.value.Some?
  {
    Between(d, next, d.timestamp + j * interval)
  }

  /** The inserted samples numbered j, j + 1, ..., n - 1. */
  function Fill(d: Datapoint, next: Datapoint, interval: int, j: int, n: int): seq<Sample>
    requires d.value.Some? && next.value.Some?
    decreases n - j
  {
    if j >= n then []
    else [Nth(d, next, interval, j)] + Fill(d, next, interval, j + 1, n)
  }

  function SampleOf(d: Datapoint): Sample
    requires d.value.Some?
  {
    Sample(d.value.value, d.timestamp * 1000)
  }

  // ---------------------------------------------------------- the whole pass

  /** None: the integer division by an interval below one second panics. */
  function Interpolate(ds: seq<Datapoint>, maxPointDelta: int): Option<seq<Sample>>
    decreases |ds|
  {
    if ds == [] then Some([])
    else if ds[0].value.None? then Interpolate(ds[1..], maxPointDelta)
    else
      var interval := TruncDiv(maxPointDelta, SECOND);
      var fills := |ds| > 1 && maxPointDelta != 0 && ds[1].value.Some?;
      if fills && interval == 0 then None
      else
        match Interpolate(ds[1..], maxPointDelta)
        case None => None
        case Some(rest) =>
          var inserted :=
            if fills then
              Fill(ds[0], ds[1], interval, 1, TruncDiv(ds[1].timestamp - ds[0].timestamp, interval))
            else [];
          Some([SampleOf(ds[0])] + inserted + rest)
  }

  function Then(samples: seq<Sample>, rest: Option<seq<Sample>>): Option<seq<Sample>> {
    match rest
    case None => None
    case Some(more) => Some(samples + more)
  }

  lemma ThenAppend(a: seq<Sample>, b: seq<Sample>, rest: Option<seq<Sample>>)
    ensures Then(a, Then(b, rest)) == Then(a + b, rest)
    ensures Then([], rest) == rest
  {
    if rest.Some? {
      assert a + (b + rest.value) == a + b + rest.value;
      assert [] + rest.value == rest.value;
    }
  }

  method SamplesFromDatapoints(datapoints: seq<Datapoint>, maxPointDelta: int)
    returns (r: Option<seq<Sample>>)
    ensures r == Interpolate(datapoints, maxPointDelta)
  {
    var samples: seq<Sample> := [];
    var left := datapoints;
    ThenAppend([], [], Interpolate(datapoints, maxPointDelta));
    while left != []
      invariant Then(samples, Interpolate(left, maxPointDelta)) == Interpolate(datapoints, maxPointDelta)
      decreases |left|
    {
      var datapoint := left[0];
      ghost var rest := Interpolate(left[1..], maxPointDelta);
      if datapoint.value.Some? {
        var added := [Sample(datapoint.value.value, datapoint.timestamp * 1000)];
        if |left| > 1 && maxPointDelta != 0 {
          var intervalSecond := TruncDiv(maxPointDelta, SECOND);
          var nextDatapoint := left[1];
          if nextDatapoint.value.Some? {
            if intervalSecond == 0 {
              return None;
            }
            var inserted := FillGap(datapoint, nextDatapoint, intervalSecond);
            added := added + inserted;
          }
        }
        assert added + [] == added;
        ThenAppend(samples, added, rest);
        samples := samples + added;
      }
      left := left[1..];
    }
    assert samples + [] == samples;
    return Some(samples);
  }

  /** The inner loop. */
  method FillGap(datapoint: Datapoint, nextDatapoint: Datapoint, intervalSecond: int)
    returns (samples: seq<Sample>)
    requires datapoint.value.Some? && nextDatapoint.value.Some? && intervalSecond != 0
    ensures samples == Fill(datapoint, nextDatapoint, intervalSecond, 1,
                            TruncDiv(nextDatapoint.timestamp - datapoint.timestamp, intervalSecond))
  {
    var deltaSecond := nextDatapoint.timestamp - datapoint.timestamp;
    var n := TruncDiv(deltaSecond, intervalSecond);
    var variation := Variation(datapoint, nextDatapoint);
    samples := [];
    var j := 1;
    while j < n
      invariant samples + Fill(datapoint, nextDatapoint, intervalSecond, j, n)
                == Fill(datapoint, nextDatapoint, intervalSecond, 1, n)
    {
      var timestamp := datapoint.timestamp + j * intervalSecond;
      var sample := OnePoint(datapoint, nextDatapoint, variation, timestamp);
      FillMore(datapoint, nextDatapoint, intervalSecond, j, n, samples);
      samples := samples + [sample];
      j := j + 1;
    }
  }

  method OnePoint(datapoint: Datapoint, nextDatapoint: Datapoint, variation: real, timestamp: int)
    returns (sample: Sample)
    requires datapoint.value.Some? && nextDatapoint.value.Some?
    requires variation == Variation(datapoint, nextDatapoint)
    ensures sample == Between(datapoint, nextDatapoint, timestamp)
  {
    var value := datapoint.value.value + (timestamp - datapoint.timestamp) as real * variation;
    return Sample(value, timestamp * 1000);
  }

  lemma FillMore(d: Datapoint, next: Datapoint, interval: int, j: int, n: int, samples: seq<Sample>)
    requires d.value.Some? && next.value.Some? && j < n
    ensures samples + Fill(d, next, interval, j, n)
            == samples + [Between(d, next, d.timestamp + j * interval)] + Fill(d, next, interval, j + 1, n)
  {
    FillStep(samples, Nth(d, next, interval, j), Fill(d, next, interval, j + 1, n));
  }

  lemma FillStep(samples: seq<Sample>, s: Sample, more: seq<Sample>)
    ensures samples + ([s] + more) == samples + [s] + more
  {
  }

  // ---------------------------------------------------------------- panicking

  predicate HasAdjacentPoints(ds: seq<Datapoint>) {
    exists i | 0 <= i < |ds| - 1 :: ds[i].value.Some? && ds[i + 1].value.Some?
  }

  /**
   The division panics exactly for a non-zero interval under one second and two
   adjacent points.
   */
  lemma {:induction false} PanicsExactly(ds: seq<Datapoint>, maxPointDelta: int)
    ensures Interpolate(ds, maxPointDelta).None? <==>
              maxPointDelta != 0 && -1_000_000_000 < maxPointDelta < 1_000_000_000 && HasAdjacentPoints(ds)
    decreases |ds|
  {
    if ds != [] {
      var rest := ds[1..];
      PanicsExactly(rest, maxPointDelta);
      if HasAdjacentPoints(rest) {
        var i :| 0 <= i < |rest| - 1 && rest[i].value.Some? && rest[i + 1].value.Some?;
        assert ds[i + 1].value.Some? && ds[i + 2].value.Some?;
      }
      if HasAdjacentPoints(ds) && !(|ds| > 1 && ds[0].value.Some? && ds[1].value.Some?) {
        var i :| 0 <= i < |ds| - 1 && ds[i].value.Some? && ds[i + 1].value.Some?;
        assert rest[i - 1].value.Some? && rest[i].value.Some?;
      }
      if |ds| > 1 && ds[0].value.Some? && ds[1].value.Some? {
        assert HasAdjacentPoints(ds);
      }
    }
  }

  // ----------------------------------------------------- the points themselves

  /** The points that are not null. */
  function Points(ds: seq<Datapoint>): (ps: seq<Datapoint>)
    ensures forall i | 0 <= i < |ps| :: ps[i].value.Some?
  {
    if ds == [] then []
    else (if ds[0].value == None then [] else [ds[0]]) + Points(ds[1..])
  }

  /** s is the point d: its value, at its time in milliseconds. */
  predicate IsPoint(s: Sample, d: Datapoint) {
    d.value == Some(s.value) && s.timestamp == 1000 * d.timestamp
  }

  /** All of the points are among the samples, in order. */
  predicate Keeps(samples: seq<Sample>, ps: seq<Datapoint>)
    decreases |samples|
  {
    ps == [] ||
    (samples != [] &&
     ((IsPoint(samples[0], ps[0]) && Keeps(samples[1..], ps[1..])) || Keeps(samples[1..], ps)))
  }

  lemma {:induction false} KeepsLater(before: seq<Sample>, samples: seq<Sample>, ps: seq<Datapoint>)
    requires Keeps(samples, ps)
    ensures Keeps(before + samples, ps)
    decreases |before|
  {
    if before == [] {
      assert before + samples == samples;
    } else {
      KeepsLater(before[1..], samples, ps);
      assert (before + samples)[1..] == before[1..] + samples;
    }
  }

  lemma KeepsCons(s: Sample, samples: seq<Sample>, d: Datapoint, ps: seq<Datapoint>)
    requires IsPoint(s, d) && Keeps(samples, ps)
    ensures Keeps([s] + samples, [d] + ps)
  {
    assert ([s] + samples)[1..] == samples && ([d] + ps)[1..] == ps;
  }

  /** Whatever the interval, all points that are not null come out, in order, unless the pass panics. */
  lemma {:induction false} PointsAreKept(ds: seq<Datapoint>, maxPointDelta: int)
    ensures
      match Interpolate(ds, maxPointDelta)
      case None => true
      case Some(samples) => Keeps(samples, Points(ds))
    decreases |ds|
  {
    if ds != [] {
      var rest := Interpolate(ds[1..], maxPointDelta);
      PointsAreKept(ds[1..], maxPointDelta);
      if ds[0].value.None? {
        assert [] + Points(ds[1..]) == Points(ds[1..]);
      } else if Interpolate(ds, maxPointDelta).Some? {
        var samples := Interpolate(ds, maxPointDelta).value;
        var inserted := samples[1..|samples| - |rest.value|];
        KeepsLater(inserted, rest.value, Points(ds[1..]));
        KeepsCons(samples[0], inserted + rest.value, ds[0], Points(ds[1..]));
        assert samples == [samples[0]] + (inserted + rest.value);
      }
    }
  }

  /** Without interpolation nothing else comes out. */
  lemma {:induction false} ZeroAddsNothing(ds: seq<Datapoint>)
    ensures Interpolate(ds, 0).Some?
    ensures
      var samples, ps := Interpolate(ds, 0).value, Points(ds);
      && |samples| == |ps|
      && forall i | 0 <= i < |samples| :: IsPoint(samples[i], ps[i])
    decreases |ds|
  {
    if ds != [] {
      ZeroAddsNothing(ds[1..]);
      var rest, ps := Interpolate(ds[1..], 0).value, Points(ds[1..]);
      if ds[0].value.Some? {
        assert Interpolate(ds, 0).value == [SampleOf(ds[0])] + rest;
        forall i | 0 <= i <= |rest| ensures IsPoint(([SampleOf(ds[0])] + rest)[i], ([ds[0]] + ps)[i]) {
          if i > 0 {
            assert IsPoint(rest[i - 1], ps[i - 1]);
          }
        }
      } else {
        assert [] + ps == ps;
      }
    }
  }

  /** Go's division: what is left over is smaller than the divisor, with the sign of the dividend. */
  lemma TruncDivMeans(a: int, b: int)
    requires b != 0
    ensures
      var r := a - TruncDiv(a, b) * b;
      && -(if b > 0 then b else -b) < r < (if b > 0 then b else -b)
      && (a >= 0 ==> r >= 0) && (a <= 0 ==> r <= 0)
  {
    var m, n := if a >= 0 then a else -a, if b > 0 then b else -b;
    var k := m / n;
    Division(m, n);
    Signs(k, n);
    assert TruncDiv(a, b) == if (a >= 0) == (b > 0) then k else -k;
  }

  lemma Division(m: int, n: int)
    requires m >= 0 && n > 0
    ensures 0 <= m - (m / n) * n < n
  {
    assert m == (m / n) * n + m % n;
  }

  lemma Signs(k: int, n: int)
    ensures (-k) * n == -(k * n) && k * -n == -(k * n) && (-k) * -n == k * n
  {
  }

  // ------------------------------------------- with an interval of at least 1 s

  predicate Increasing(ds: seq<Datapoint>) {
    forall i, j | 0 <= i < j < |ds| :: ds[i].timestamp < ds[j].timestamp
  }

  /** The number of samples inserted between d and next. */
  function Inserted(d: Datapoint, next: Datapoint, interval: int): int
    requires interval > 0
  {
    var n := (next.timestamp - d.timestamp) / interval - 1;
    if n > 0 then n else 0
  }

  function Gap(ds: seq<Datapoint>, interval: int): seq<Sample>
    requires ds != [] && ds[0].value.Some? && interval > 0
  {
    if |ds| > 1 && ds[1].value.Some? then
      Fill(ds[0], ds[1], interval, 1, (ds[1].timestamp - ds[0].timestamp) / interval)
    else []
  }

  function Out(ds: seq<Datapoint>, interval: int): seq<Sample>
    requires interval > 0
    decreases |ds|
  {
    if ds == [] then []
    else if ds[0].value.None? then Out(ds[1..], interval)
    else [SampleOf(ds[0])] + Gap(ds, interval) + Out(ds[1..], interval)
  }

  lemma {:induction false} InterpolateIsOut(ds: seq<Datapoint>, maxPointDelta: int)
    requires maxPointDelta >= SECOND && Increasing(ds)
    ensures Interpolate(ds, maxPointDelta) == Some(Out(ds, maxPointDelta / SECOND))
    decreases |ds|
  {
    if ds != [] {
      InterpolateIsOut(ds[1..], maxPointDelta);
    }
  }

  lemma {:induction false} FillAt(d: Datapoint, next: Datapoint, interval: int, j: int, n: int)
    requires d.value.Some? && next.value.Some?
    ensures |Fill(d, next, interval, j, n)| == if n > j then n - j else 0
    ensures forall k | 0 <= k < |Fill(d, next, interval, j, n)| ::
              Fill(d, next, interval, j, n)[k] == Nth(d, next, interval, j + k)
    decreases n - j
  {
    if j < n {
      FillAt(d, next, interval, j + 1, n);
      var f := Fill(d, next, interval, j + 1, n);
      forall k | 1 <= k <= |f| ensures Fill(d, next, interval, j, n)[k] == Nth(d, next, interval, j + k) {
        assert f[k - 1] == Nth(d, next, interval, j + 1 + (k - 1));
      }
    }
  }

  lemma OnLine(v: real, w: real, x: real, delta: real)
    requires 0.0 <= x <= delta && delta > 0.0
    ensures
      var s := v + x * ((w - v) / delta);
      && (s - v) * delta == x * (w - v)
      && (v <= s <= w || w <= s <= v)
  {
    var slope := (w - v) / delta;
    assert slope * delta == w - v;
    Associates(x, slope, delta);
    Scaled(x, delta, slope);
  }

  lemma Associates(x: real, y: real, z: real)
    ensures (x * y) * z == x * (y * z)
  {
  }

  lemma Scaled(x: real, delta: real, slope: real)
    requires 0.0 <= x <= delta
    ensures 0.0 <= x * slope <= slope * delta || slope * delta <= x * slope <= 0.0
  {
    if slope >= 0.0 {
      assert x * slope <= delta * slope;
    } else {
      assert x * slope >= delta * slope;
    }
  }

  // -------------------------------------------------- exactly which samples come out

  /** An original point. */
  predicate IsOriginal(ds: seq<Datapoint>, s: Sample) {
    exists i | 0 <= i < |ds| :: ds[i].value.Some? && s == SampleOf(ds[i])
  }

  /** One of the samples inserted between two adjacent points. */
  predicate IsInsertedAt(d: Datapoint, next: Datapoint, interval: int, s: Sample)
    requires interval > 0
  {
    && d.value.Some? && next.value.Some?
    && exists j | 1 <= j <= Inserted(d, next, interval) :: s == Nth(d, next, interval, j)
  }

  predicate IsInserted(ds: seq<Datapoint>, interval: int, s: Sample)
    requires interval > 0
  {
    exists i | 0 <= i < |ds| - 1 :: IsInsertedAt(ds[i], ds[i + 1], interval, s)
  }

  lemma GapExactly(ds: seq<Datapoint>, interval: int, s: Sample)
    requires ds != [] && ds[0].value.Some? && interval > 0
    ensures s in Gap(ds, interval) <==> |ds| > 1 && IsInsertedAt(ds[0], ds[1], interval, s)
  {
    if |ds| > 1 && ds[1].value.Some? {
      var n := (ds[1].timestamp - ds[0].timestamp) / interval;
      FillAt(ds[0], ds[1], interval, 1, n);
      var f := Fill(ds[0], ds[1], interval, 1, n);
      if j :| 1 <= j <= Inserted(ds[0], ds[1], interval) && s == Nth(ds[0], ds[1], interval, j) {
        assert f[j - 1] == Nth(ds[0], ds[1], interval, 1 + (j - 1));
      }
    }
  }

  lemma OriginalCons(ds: seq<Datapoint>, s: Sample)
    requires ds != []
    ensures IsOriginal(ds, s) <==> (ds[0].value.Some? && s == SampleOf(ds[0])) || IsOriginal(ds[1..], s)
  {
    var rest := ds[1..];
    if i :| 0 <= i < |rest| && rest[i].value.Some? && s == SampleOf(rest[i]) {
      assert ds[i + 1] == rest[i];
    }
    if i :| 1 <= i < |ds| && ds[i].value.Some? && s == SampleOf(ds[i]) {
      assert rest[i - 1] == ds[i];
    }
  }

  lemma InsertedCons(ds: seq<Datapoint>, interval: int, s: Sample)
    requires ds != [] && interval > 0
    ensures IsInserted(ds, interval, s) <==>
              (|ds| > 1 && IsInsertedAt(ds[0], ds[1], interval, s)) || IsInserted(ds[1..], interval, s)
  {
    var rest := ds[1..];
    if i :| 0 <= i < |rest| - 1 && IsInsertedAt(rest[i], rest[i + 1], interval, s) {
      assert ds[i + 1] == rest[i] && ds[i + 2] == rest[i + 1];
    }
    if i :| 1 <= i < |ds| - 1 && IsInsertedAt(ds[i], ds[i + 1], interval, s) {
      assert rest[i - 1] == ds[i] && rest[i] == ds[i + 1];
    }
  }

  /**
   The samples are exactly the points that are not null and, between two adjacent
   points, those at multiples of the interval.
   */
  lemma {:induction false} OutputExactly(ds: seq<Datapoint>, interval: int, s: Sample)
    requires interval > 0
    ensures s in Out(ds, interval) <==> IsOriginal(ds, s) || IsInserted(ds, interval, s)
    decreases |ds|
  {
    if ds != [] {
      OutputExactly(ds[1..], interval, s);
      OriginalCons(ds, s);
      InsertedCons(ds, interval, s);
      if ds[0].value.Some? {
        GapExactly(ds, interval, s);
      }
    }
  }

  // ------------------------------------------------------------------ the order

  predicate Ordered(ss: seq<Sample>) {
    forall i, j | 0 <= i < j < |ss| :: ss[i].timestamp < ss[j].timestamp
  }

  /** All timestamps lie in [lo, hi). */
  predicate Within(ss: seq<Sample>, lo: int, hi: int) {
    forall i | 0 <= i < |ss| :: lo <= ss[i].timestamp < hi
  }

  lemma Scale(j: int, k: int, interval: int)
    requires interval > 0
    ensures j <= k ==> j * interval <= k * interval
    ensures j < k ==> j * interval + interval <= k * interval
  {
    var m := k - j;
    assert k * interval == j * interval + m * interval;
    assert m >= 0 ==> m * interval >= 0;
    assert m >= 1 ==> m * interval >= interval;
  }

  /** An inserted sample lies strictly between its neighbours. */
  lemma ProductBound(j: int, interval: int, delta: int)
    requires interval > 0 && 1 <= j < delta / interval
    ensures 0 < j * interval <= delta - interval
  {
    var n := delta / interval;
    Scale(0, j, interval);
    Scale(j, n, interval);
    assert n * interval <= delta;
  }

  /** Any time between two points. */
  lemma BetweenIsOnTheSegment(d: Datapoint, next: Datapoint, t: int)
    requires d.value.Some? && next.value.Some? && d.timestamp <= t <= next.timestamp
    requires d.timestamp < next.timestamp
    ensures
      var s, v, w := Between(d, next, t).value, d.value.value, next.value.value;
      && (s - v) * (next.timestamp - d.timestamp) as real == (t - d.timestamp) as real * (w - v)
      && (v <= s <= w || w <= s <= v)
  {
    OnLine(d.value.value, next.value.value, (t - d.timestamp) as real, (next.timestamp - d.timestamp) as real);
  }

  /** s lies strictly between the two points in time, and on the segment in value. */
  predicate LiesBetween(d: Datapoint, next: Datapoint, s: Sample)
    requires d.value.Some? && next.value.Some?
  {
    var t, v, w := s.timestamp / 1000, d.value.value, next.value.value;
    && d.timestamp < t < next.timestamp && s.timestamp == t * 1000
    && (s.value - v) * (next.timestamp - d.timestamp) as real == (t - d.timestamp) as real * (w - v)
    && (v <= s.value <= w || w <= s.value <= v)
  }

  lemma TimeLiesBetween(d: Datapoint, next: Datapoint, t: int)
    requires d.value.Some? && next.value.Some? && d.timestamp < t < next.timestamp
    ensures LiesBetween(d, next, Between(d, next, t))
  {
    BetweenIsOnTheSegment(d, next, t);
    assert t * 1000 / 1000 == t;
  }

  lemma InsertedTime(d: Datapoint, next: Datapoint, interval: int, j: int) returns (t: int)
    requires d.value.Some? && next.value.Some? && interval > 0 && 1 <= j <= Inserted(d, next, interval)
    ensures d.timestamp < t < next.timestamp && Nth(d, next, interval, j) == Between(d, next, t)
  {
    t := d.timestamp + j * interval;
    ProductBound(j, interval, next.timestamp - d.timestamp);
  }

  /** Every inserted sample lies on the segment between its neighbours, strictly between them in time. */
  lemma OnTheSegment(d: Datapoint, next: Datapoint, interval: int, s: Sample)
    requires interval > 0 && IsInsertedAt(d, next, interval, s)
    ensures LiesBetween(d, next, s)
  {
    var j :| 1 <= j <= Inserted(d, next, interval) && s == Nth(d, next, interval, j);
    var t := InsertedTime(d, next, interval, j);
    TimeLiesBetween(d, next, t);
  }

  /** Sample number k of the gap after d is k intervals later than d. */
  lemma GapTime(ds: seq<Datapoint>, interval: int, k: int)
    requires ds != [] && ds[0].value.Some? && interval > 0
    requires 0 <= k <= |Gap(ds, interval)|
    ensures ([SampleOf(ds[0])] + Gap(ds, interval))[k].timestamp == (ds[0].timestamp + k * interval) * 1000
    ensures k > 0 ==> |ds| > 1 && 0 < k * interval <= ds[1].timestamp - ds[0].timestamp - interval
  {
    if k > 0 {
      assert |ds| > 1 && ds[1].value.Some?;
      var delta := ds[1].timestamp - ds[0].timestamp;
      FillAt(ds[0], ds[1], interval, 1, delta / interval);
      ProductBound(k, interval, delta);
      assert Gap(ds, interval)[k - 1] == Nth(ds[0], ds[1], interval, 1 + (k - 1));
    } else {
      assert k * interval == 0;
    }
  }

  lemma GapOrder(ds: seq<Datapoint>, interval: int)
    requires ds != [] && ds[0].value.Some? && interval > 0 && Increasing(ds)
    ensures
      var g := [SampleOf(ds[0])] + Gap(ds, interval);
      Ordered(g) && (|ds| > 1 ==> Within(g, ds[0].timestamp * 1000, ds[1].timestamp * 1000))
  {
    var g := [SampleOf(ds[0])] + Gap(ds, interval);
    forall k | 0 <= k < |g|
      ensures |ds| > 1 ==> ds[0].timestamp * 1000 <= g[k].timestamp < ds[1].timestamp * 1000
    {
      GapTime(ds, interval, k);
    }
    forall k, l | 0 <= k < l < |g| ensures g[k].timestamp < g[l].timestamp {
      GapTime(ds, interval, k);
      GapTime(ds, interval, l);
      Scale(k, l, interval);
    }
  }

  lemma OrderedAppend(a: seq<Sample>, b: seq<Sample>, lo: int, mid: int)
    requires Ordered(a) && Ordered(b) && lo <= mid
    requires Within(a, lo, mid) && forall i | 0 <= i < |b| :: mid <= b[i].timestamp
    ensures Ordered(a + b) && forall i | 0 <= i < |a + b| :: lo <= (a + b)[i].timestamp
  {
  }

  /** Timestamps strictly increase. */
  lemma {:induction false} OutputIncreases(ds: seq<Datapoint>, interval: int)
    requires interval > 0 && Increasing(ds)
    ensures Ordered(Out(ds, interval))
    ensures ds != [] ==> forall i | 0 <= i < |Out(ds, interval)| ::
              ds[0].timestamp * 1000 <= Out(ds, interval)[i].timestamp
    decreases |ds|
  {
    if ds != [] {
      OutputIncreases(ds[1..], interval);
      if ds[0].value.Some? {
        GapOrder(ds, interval);
        var g := [SampleOf(ds[0])] + Gap(ds, interval);
        if |ds| > 1 {
          OrderedAppend(g, Out(ds[1..], interval), ds[0].timestamp * 1000, ds[1].timestamp * 1000);
        } else {
          assert g + [] == g;
        }
      }
    }
  }

  /** Each adjacent pair gains this many samples. */
  lemma GapCount(ds: seq<Datapoint>, interval: int)
    requires |ds| > 1 && ds[0].value.Some? && interval > 0
    ensures |Gap(ds, interval)| == if ds[1].value.Some? then Inserted(ds[0], ds[1], interval) else 0
  {
    if ds[1].value.Some? {
      FillAt(ds[0], ds[1], interval, 1, (ds[1].timestamp - ds[0].timestamp) / interval);
    }
  }

  // ---------------------------------------------------------------- small gaps

  /** Every gap is under twice the interval, so that none would be filled again. */
  predicate Dense(ss: seq<Sample>, interval: int) {
    forall i | 0 <= i < |ss| - 1 :: ss[i + 1].timestamp - ss[i].timestamp < 2000 * interval
  }

  lemma DenseAppend(a: seq<Sample>, b: seq<Sample>, interval: int)
    requires a != []
    ensures Dense(a + b, interval) <==>
              && Dense(a, interval) && Dense(b, interval)
              && (b != [] ==> b[0].timestamp - a[|a| - 1].timestamp < 2000 * interval)
  {
    var c := a + b;
    if Dense(c, interval) {
      forall i | 0 <= i < |a| - 1 ensures a[i + 1].timestamp - a[i].timestamp < 2000 * interval {
        assert c[i] == a[i] && c[i + 1] == a[i + 1];
      }
      forall i | 0 <= i < |b| - 1 ensures b[i + 1].timestamp - b[i].timestamp < 2000 * interval {
        assert c[|a| + i] == b[i] && c[|a| + i + 1] == b[i + 1];
      }
      assert b != [] ==> c[|a| - 1] == a[|a| - 1] && c[|a| - 1 + 1] == b[0];
    }
  }

  /** Samples of a gap follow each other at the interval. */
  lemma GapStep(ds: seq<Datapoint>, interval: int, k: int)
    requires ds != [] && ds[0].value.Some? && interval > 0 && 0 <= k < |Gap(ds, interval)|
    ensures
      var g := [SampleOf(ds[0])] + Gap(ds, interval);
      g[k + 1].timestamp - g[k].timestamp == 1000 * interval
  {
    GapTime(ds, interval, k);
    GapTime(ds, interval, k + 1);
    assert (k + 1) * interval == k * interval + interval;
  }

  /** The second point follows the last of them in under two intervals. */
  lemma GapEnd(ds: seq<Datapoint>, interval: int)
    requires |ds| > 1 && ds[0].value.Some? && ds[1].value.Some? && interval > 0 && Increasing(ds)
    ensures
      var g := [SampleOf(ds[0])] + Gap(ds, interval);
      ds[1].timestamp * 1000 - g[|g| - 1].timestamp < 2000 * interval
  {
    var k, delta := |Gap(ds, interval)|, ds[1].timestamp - ds[0].timestamp;
    GapCount(ds, interval);
    GapTime(ds, interval, k);
    LastGap(delta, interval, k);
  }

  /** Within a pair the samples are never two intervals apart. */
  lemma GapIsDense(ds: seq<Datapoint>, interval: int)
    requires |ds| > 1 && ds[0].value.Some? && interval > 0 && Increasing(ds)
    ensures
      var g := [SampleOf(ds[0])] + Gap(ds, interval);
      && Dense(g, interval)
      && (ds[1].value.Some? ==> ds[1].timestamp * 1000 - g[|g| - 1].timestamp < 2000 * interval)
      && (ds[1].value.None? ==> g == [SampleOf(ds[0])])
  {
    if ds[1].value.Some? {
      var g := [SampleOf(ds[0])] + Gap(ds, interval);
      forall k | 0 <= k < |g| - 1 ensures g[k + 1].timestamp - g[k].timestamp < 2000 * interval {
        GapStep(ds, interval, k);
      }
      GapEnd(ds, interval);
    }
  }

  lemma LastGap(delta: int, interval: int, k: int)
    requires interval > 0 && delta > 0
    requires k == if delta / interval > 1 then delta / interval - 1 else 0
    ensures delta - k * interval < 2 * interval
  {
    var n := delta / interval;
    assert delta < n * interval + interval;
    assert n > 1 ==> k * interval == n * interval - interval;
  }

  /** The first point that is not null. */
  function FirstPoint(ds: seq<Datapoint>): Option<Datapoint> {
    if ds == [] then None else if ds[0].value.Some? then Some(ds[0]) else FirstPoint(ds[1..])
  }

  /** Any two points with only nulls between them are under two intervals apart. */
  predicate NullsAreShort(ds: seq<Datapoint>, interval: int)
    decreases |ds|
  {
    ds == [] ||
    (NullsAreShort(ds[1..], interval) &&
     (|ds| > 1 && ds[0].value.Some? && ds[1].value.None? && FirstPoint(ds[1..]).Some? ==>
        FirstPoint(ds[1..]).value.timestamp - ds[0].timestamp < 2 * interval))
  }

  lemma {:induction false} OutStarts(ds: seq<Datapoint>, interval: int)
    requires interval > 0
    ensures
      match FirstPoint(ds)
      case None => Out(ds, interval) == []
      case Some(d) => d.value.Some? && Out(ds, interval) != [] && Out(ds, interval)[0] == SampleOf(d)
    decreases |ds|
  {
    if ds != [] {
      OutStarts(ds[1..], interval);
    }
  }

  /** Gaps of two intervals or more remain in the output only across nulls. */
  lemma {:induction false} OutputIsDense(ds: seq<Datapoint>, interval: int)
    requires interval > 0 && Increasing(ds)
    ensures Dense(Out(ds, interval), interval) <==> NullsAreShort(ds, interval)
    decreases |ds|
  {
    if ds != [] {
      OutputIsDense(ds[1..], interval);
      if ds[0].value.Some? {
        var g := [SampleOf(ds[0])] + Gap(ds, interval);
        DenseAppend(g, Out(ds[1..], interval), interval);
        OutStarts(ds[1..], interval);
        if |ds| > 1 {
          GapIsDense(ds, interval);
        }
      }
    }
  }

  // ---------------------------------------------------------------- idempotence

  /** The samples as datapoints again. */
  function Back(ss: seq<Sample>): seq<Datapoint> {
    seq(|ss|, i requires 0 <= i < |ss| => Datapoint(Some(ss[i].value), ss[i].timestamp / 1000))
  }

  predicate WholeSeconds(ss: seq<Sample>) {
    forall i | 0 <= i < |ss| :: ss[i].timestamp % 1000 == 0
  }

  lemma WholeAppend(a: seq<Sample>, b: seq<Sample>)
    requires WholeSeconds(a) && WholeSeconds(b)
    ensures WholeSeconds(a + b)
  {
  }

  lemma GapIsWhole(ds: seq<Datapoint>, interval: int)
    requires ds != [] && ds[0].value.Some? && interval > 0
    ensures WholeSeconds([SampleOf(ds[0])] + Gap(ds, interval))
  {
    var g := [SampleOf(ds[0])] + Gap(ds, interval);
    forall k | 0 <= k < |g| ensures g[k].timestamp % 1000 == 0 {
      GapTime(ds, interval, k);
    }
  }

  lemma {:induction false} OutIsWhole(ds: seq<Datapoint>, interval: int)
    requires interval > 0
    ensures WholeSeconds(Out(ds, interval))
    decreases |ds|
  {
    if ds != [] {
      OutIsWhole(ds[1..], interval);
      if ds[0].value.Some? {
        GapIsWhole(ds, interval);
        WholeAppend([SampleOf(ds[0])] + Gap(ds, interval), Out(ds[1..], interval));
      }
    }
  }

  /** A pass adds and changes nothing exactly when no gap is as long as two intervals. */
  lemma {:induction false} FixedExactly(ss: seq<Sample>, interval: int)
    requires interval > 0 && WholeSeconds(ss) && Ordered(ss)
    ensures Out(Back(ss), interval) == ss <==> Dense(ss, interval)
    ensures |Out(Back(ss), interval)| >= |ss|
    ensures |Out(Back(ss), interval)| == |ss| ==> Dense(ss, interval)
    decreases |ss|
  {
    if ss != [] {
      var rest := ss[1..];
      FixedExactly(rest, interval);
      BackCons(ss, interval);
      DenseAppend([ss[0]], rest, interval);
      assert ss == [ss[0]] + rest;
    }
  }

  lemma BackCons(ss: seq<Sample>, interval: int)
    requires interval > 0 && ss != [] && WholeSeconds(ss) && Ordered(ss)
    ensures Back(ss) != [] && Back(ss)[0].value.Some?
    ensures Out(Back(ss), interval) == [ss[0]] + Gap(Back(ss), interval) + Out(Back(ss[1..]), interval)
    ensures Gap(Back(ss), interval) == [] <==>
              (|ss| > 1 ==> ss[1].timestamp - ss[0].timestamp < 2000 * interval)
  {
    var ds := Back(ss);
    assert ds[1..] == Back(ss[1..]);
    assert SampleOf(ds[0]) == ss[0];
    if |ss| > 1 {
      GapCount(ds, interval);
      ShortGap(ss[0].timestamp / 1000, ss[1].timestamp / 1000, interval);
    }
  }

  lemma ShortGap(t: int, u: int, interval: int)
    requires interval > 0 && t < u
    ensures (u - t) / interval <= 1 <==> u - t < 2 * interval
  {
    var n := (u - t) / interval;
    assert n * interval <= u - t < n * interval + interval;
    assert n >= 2 ==> n * interval >= 2 * interval;
  }

  /**
   Interpolating the output again with the same interval changes nothing exactly
   when points separated by nulls are under two intervals apart.
   */
  lemma IdempotentExactly(ds: seq<Datapoint>, maxPointDelta: int)
    requires maxPointDelta >= SECOND && Increasing(ds)
    ensures
      var out := Interpolate(ds, maxPointDelta);
      && out.Some?
      && (Interpolate(Back(out.value), maxPointDelta) == out <==> NullsAreShort(ds, maxPointDelta / SECOND))
  {
    var interval := maxPointDelta / SECOND;
    var out := Out(ds, interval);
    InterpolateIsOut(ds, maxPointDelta);
    OutIsWhole(ds, interval);
    OutputIncreases(ds, interval);
    OutputIsDense(ds, interval);
    FixedExactly(out, interval);
    BackIncreases(out);
    InterpolateIsOut(Back(out), maxPointDelta);
  }

  lemma BackIncreases(ss: seq<Sample>)
    requires Ordered(ss) && WholeSeconds(ss)
    ensures Increasing(Back(ss))
  {
  }

  /** Without nulls, interpolation is idempotent. */
  lemma {:induction false} NoNullsAreShort(ds: seq<Datapoint>, interval: int)
    requires forall i | 0 <= i < |ds| :: ds[i].value.Some?
    ensures NullsAreShort(ds, interval)
    decreases |ds|
  {
    if ds != [] {
      NoNullsAreShort(ds[1..], interval);
    }
  }

  lemma Idempotent(ds: seq<Datapoint>, maxPointDelta: int)
    requires maxPointDelta >= SECOND && Increasing(ds)
    requires forall i | 0 <= i < |ds| :: ds[i].value.Some?
    ensures
      var out := Interpolate(ds, maxPointDelta);
      out.Some? && Interpolate(Back(out.value), maxPointDelta) == out
  {
    IdempotentExactly(ds, maxPointDelta);
    NoNullsAreShort(ds, maxPointDelta / SECOND);
  }

  /** A null of which both sides are two intervals apart is bridged by a second pass. */
  lemma NullsAreBridgedLater()
    ensures
      var ds := [Datapoint(Some(0.0), 0), Datapoint(None, 1), Datapoint(Some(2.0), 2)];
      var out := Interpolate(ds, SECOND);
      out.Some? && Interpolate(Back(out.value), SECOND) != out
  {
    var ds := [Datapoint(Some(0.0), 0), Datapoint(None, 1), Datapoint(Some(2.0), 2)];
    IdempotentExactly(ds, SECOND);
    assert ds[1..] == [Datapoint(None, 1), Datapoint(Some(2.0), 2)];
    assert ds[1..][1..] == [Datapoint(Some(2.0), 2)];
    assert FirstPoint(ds[1..]) == Some(Datapoint(Some(2.0), 2));
  }
}
