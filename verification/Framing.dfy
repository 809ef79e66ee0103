/**
 What arrives when no rules are configured: the payload of a request can be cut back
 into its lines and fields, whatever the label values.
 */
module Framing {
  import opened Bytes
  import opened Wrappers
  import opened Escape
  import opened Paths
  import opened PathRoundTrip
  import opened Rules
  import opened PathsCache
  import opened Lines
  import opened Packing

  // ------------------------------------------- no separators in a default path

  predicate IsSeparator(c: byte) {
    c == SPACE || c == NEWLINE
  }

  lemma ValuesAreFree(v: bytes, c: byte)
    requires IsSeparator(c)
    ensures c !in Escaped(v) && c !in EscapedTagged(v)
  {
    EscapedAlphabet(v);
    EscapedTaggedAlphabet(v);
  }

  lemma {:induction false} PrintIsFree(format: Format, ls: seq<Label>, first: bool, c: byte)
    requires IsSeparator(c) && forall i | 0 <= i < |ls| :: c !in ls[i].name
    ensures c !in Print(Printer(format), ls, first)
    decreases |ls|
  {
    if ls != [] {
      PrintIsFree(format, ls[1..], false, c);
      ValuesAreFree(ls[0].value, c);
    }
  }

  /** Escaping keeps separators out of the path for any name and any values. */
  lemma DefaultPathIsFree(m: Metric, format: Format, prefix: bytes, c: byte)
    requires IsSeparator(c) && c !in prefix && forall k | k in m :: c !in k
    ensures c !in DefaultPath(m, format, prefix)
  {
    ValuesAreFree(Lookup(m, METRIC_NAME), c);
    LabelsOfMetric(m);
    var ls := Labels(m);
    forall i | 0 <= i < |ls| ensures c !in ls[i].name {
      assert ls[i] in ls;
    }
    PrintIsFree(format, ls, true, c);
  }

  // ------------------------------------------------ without rules, one line each

  predicate AllFinite(samples: seq<Sample>) {
    forall i | 0 <= i < |samples| :: samples[i].value.Finite?
  }

  function FiniteSamples(samples: seq<Sample>): (fs: seq<Sample>)
    ensures AllFinite(fs)
  {
    if samples == [] then []
    else (if samples[0].value.Finite? then [samples[0]] else []) + FiniteSamples(samples[1..])
  }

  lemma {:induction false} FiniteAreSamples(samples: seq<Sample>)
    ensures forall s | s in FiniteSamples(samples) :: s in samples
    decreases |samples|
  {
    if samples != [] {
      FiniteAreSamples(samples[1..]);
      assert samples == [samples[0]] + samples[1..];
    }
  }

  predicate FreeOf(c: byte, p: Params, samples: seq<Sample>) {
    && c !in p.prefix
    && forall i | 0 <= i < |samples| ::
         && (forall k | k in samples[i].metric :: c !in k)
         && (samples[i].value.Finite? ==> c !in samples[i].value.text && c !in samples[i].time)
  }

  lemma FreeOfRest(c: byte, p: Params, samples: seq<Sample>)
    requires samples != [] && FreeOf(c, p, samples)
    ensures FreeOf(c, p, samples[1..]) && FreeOf(c, p, [samples[0]])
  {
    assert forall i | 0 <= i < |samples[1..]| :: samples[1..][i] == samples[i + 1];
  }

  lemma FreeOfOne(c: byte, p: Params, samples: seq<Sample>, s: Sample)
    requires FreeOf(c, p, samples) && s in samples
    ensures FreeOf(c, p, [s])
  {
    var i :| 0 <= i < |samples| && samples[i] == s;
  }

  /** The one path that a sample is given: a cached one, of whatever origin, or its default path. */
  function GivenPath(hash: Hash, st: State, p: Params, m: Metric): bytes {
    var o := Answer(hash, st, p, m);
    if o.Computed? && o.paths != [] then o.paths[0] else []
  }

  /** What is cached for m, if anything, is a single path free of newlines. */
  predicate PlainFor(hash: Hash, st: State, m: Metric) {
    Hit(hash, st, m) ==> |st.entries[Hex(hash(m))]| == 1 && NEWLINE !in st.entries[Hex(hash(m))][0]
  }

  predicate Plain(hash: Hash, st: State, samples: seq<Sample>) {
    forall i | 0 <= i < |samples| :: PlainFor(hash, st, samples[i].metric)
  }

  lemma CallKeepsPlain(hash: Hash, st: State, p: Params, m: Metric, other: Metric)
    requires p.rules == [] && PlainFor(hash, st, other)
    requires NEWLINE !in DefaultPath(m, p.format, p.prefix)
    ensures PlainFor(hash, Call(hash, st, p, m), other)
  {
    NoRules(p, m);
  }

  lemma StillPlain(hash: Hash, st: State, p: Params, samples: seq<Sample>)
    requires samples != [] && p.rules == [] && Plain(hash, st, samples) && FreeOf(NEWLINE, p, samples)
    ensures Plain(hash, CacheAfter(hash, st, p, samples[0]), samples[1..])
  {
    var s := samples[0];
    DefaultPathIsFree(s.metric, p.format, p.prefix, NEWLINE);
    forall i | 0 <= i < |samples| - 1
      ensures PlainFor(hash, CacheAfter(hash, st, p, s), samples[1..][i].metric)
    {
      assert PlainFor(hash, st, samples[i + 1].metric);
      CallKeepsPlain(hash, st, p, s.metric, samples[i + 1].metric);
    }
  }

  lemma GivenOne(hash: Hash, st: State, p: Params, m: Metric)
    requires p.rules == [] && PlainFor(hash, st, m) && NEWLINE !in DefaultPath(m, p.format, p.prefix)
    ensures Answer(hash, st, p, m) == Computed([GivenPath(hash, st, p, m)], false)
    ensures NEWLINE !in GivenPath(hash, st, p, m)
  {
    NoRules(p, m);
    if Hit(hash, st, m) {
      var entry := st.entries[Hex(hash(m))];
      assert entry == [entry[0]];
    }
  }

  function BodyOf(path: bytes, s: Sample): bytes
    requires s.value.Finite?
  {
    path + ([SPACE] + (s.value.text + ([SPACE] + s.time)))
  }

  lemma LineIsBody(path: bytes, s: Sample)
    requires s.value.Finite?
    ensures Line(path, s.value.text, s.time) == BodyOf(path, s) + [NEWLINE]
  {
  }

  /** One line for every finite sample, without its newline. */
  function GivenBodies(hash: Hash, st: State, p: Params, samples: seq<Sample>): seq<bytes>
    decreases |samples|
  {
    if samples == [] then []
    else
      var s := samples[0];
      (if s.value.Finite? then [BodyOf(GivenPath(hash, st, p, s.metric), s)] else [])
      + GivenBodies(hash, CacheAfter(hash, st, p, s), p, samples[1..])
  }

  lemma {:induction false} GivenCount(hash: Hash, st: State, p: Params, samples: seq<Sample>)
    ensures |GivenBodies(hash, st, p, samples)| == |FiniteSamples(samples)|
    decreases |samples|
  {
    if samples != [] {
      GivenCount(hash, CacheAfter(hash, st, p, samples[0]), p, samples[1..]);
    }
  }

  function Terminated(bodies: seq<bytes>): seq<bytes> {
    seq(|bodies|, i requires 0 <= i < |bodies| => bodies[i] + [NEWLINE])
  }

  lemma TerminatedCons(body: bytes, rest: seq<bytes>)
    ensures Terminated([body] + rest) == [body + [NEWLINE]] + Terminated(rest)
  {
  }

  predicate AllFree(bodies: seq<bytes>) {
    forall i | 0 <= i < |bodies| :: NEWLINE !in bodies[i]
  }

  lemma AllFreeCons(body: bytes, rest: seq<bytes>)
    requires NEWLINE !in body && AllFree(rest)
    ensures AllFree([body] + rest)
  {
  }

  lemma FlattenCons(g: seq<bytes>, rest: seq<seq<bytes>>)
    ensures Flatten([g] + rest) == g + Flatten(rest)
  {
    assert ([g] + rest)[1..] == rest;
  }

  /** The lines of a sample with one path. */
  lemma OneLine(hash: Hash, st: State, p: Params, s: Sample)
    requires s.value.Finite? && p.rules == [] && PlainFor(hash, st, s.metric) && FreeOf(NEWLINE, p, [s])
    ensures
      var body := BodyOf(GivenPath(hash, st, p, s.metric), s);
      && NEWLINE !in body
      && SampleLines(s, Answer(hash, st, p, s.metric)) == Points([body + [NEWLINE]])
  {
    assert [s][0] == s;
    DefaultPathIsFree(s.metric, p.format, p.prefix, NEWLINE);
    GivenOne(hash, st, p, s.metric);
    var path := GivenPath(hash, st, p, s.metric);
    CapacityFits([path], s.value.text, s.time);
    OnePath(path, s.value.text, s.time, Capacity([path], s.value.text, s.time));
    LineIsBody(path, s);
  }

  lemma {:induction false} PlainCollect(hash: Hash, st: State, p: Params, samples: seq<Sample>)
    requires p.rules == [] && Plain(hash, st, samples) && FreeOf(NEWLINE, p, samples)
    ensures
      var c, bodies := Collect(hash, st, p, samples), GivenBodies(hash, st, p, samples);
      c.Collected? && Flatten(c.kept) == Terminated(bodies) && AllFree(bodies)
    decreases |samples|
  {
    if samples != [] {
      var s := samples[0];
      var st' := CacheAfter(hash, st, p, s);
      var rest := GivenBodies(hash, st', p, samples[1..]);
      StillPlain(hash, st, p, samples);
      FreeOfRest(NEWLINE, p, samples);
      PlainCollect(hash, st', p, samples[1..]);
      if s.value.Finite? {
        var body := BodyOf(GivenPath(hash, st, p, s.metric), s);
        OneLine(hash, st, p, s);
        FlattenCons([body + [NEWLINE]], Collect(hash, st', p, samples[1..]).kept);
        TerminatedCons(body, rest);
        AllFreeCons(body, rest);
      } else {
        assert [] + rest == rest;
      }
    }
  }

  // ------------------------------------------------------------ cutting it back

  lemma SplitLine(body: bytes, rest: seq<bytes>)
    requires NEWLINE !in body
    ensures Split(Concat([body + [NEWLINE]] + rest), NEWLINE) == [body] + Split(Concat(rest), NEWLINE)
  {
    var line := body + [NEWLINE];
    assert ([line] + rest)[1..] == rest;
    ConcatAssociates(body, [NEWLINE], Concat(rest));
    SplitFirst(body, NEWLINE, Concat(rest));
  }

  lemma {:induction false} SplitTerminated(bodies: seq<bytes>)
    requires AllFree(bodies)
    ensures Split(Concat(Terminated(bodies)), NEWLINE) == bodies + [[]]
    decreases |bodies|
  {
    if bodies != [] {
      var body, rest := bodies[0], bodies[1..];
      SplitTerminated(rest);
      assert bodies == [body] + rest;
      TerminatedCons(body, rest);
      SplitLine(body, Terminated(rest));
      assert [body] + (rest + [[]]) == [body] + rest + [[]];
    }
  }

  /**
   Framing: without rules, over either transport and with any label values, the
   payload cut at newlines is one line for each finite sample, in order, whatever
   single paths free of newlines are cached for the samples.
   */
  lemma PayloadFrames(hash: Hash, st: State, p: Params, samples: seq<Sample>, udp: bool)
    requires p.rules == [] && Plain(hash, st, samples) && FreeOf(NEWLINE, p, samples)
    ensures
      var c, bodies := Collect(hash, st, p, samples), GivenBodies(hash, st, p, samples);
      && c.Collected? && |bodies| == |FiniteSamples(samples)|
      && Split(Concat(Buffers(Packed(udp, Flatten(c.kept)))), NEWLINE) == bodies + [[]]
  {
    var bodies := GivenBodies(hash, st, p, samples);
    PlainCollect(hash, st, p, samples);
    GivenCount(hash, st, p, samples);
    PackingConserves(udp, Terminated(bodies));
    SplitTerminated(bodies);
  }

  // --------------------------------------------------- when the cache is right

  /** No two samples share a fingerprint, and what is cached for them is what would be computed. */
  predicate Regular(hash: Hash, st: State, p: Params, samples: seq<Sample>) {
    && p.rules == []
    && (forall i, j | 0 <= i < |samples| && 0 <= j < |samples| ::
          hash(samples[i].metric) == hash(samples[j].metric) ==> samples[i].metric == samples[j].metric)
    && (forall i | 0 <= i < |samples| :: RightFor(hash, st, p, samples[i].metric))
  }

  /** A hit for m gives the paths that would be computed. */
  predicate RightFor(hash: Hash, st: State, p: Params, m: Metric) {
    p.rules == [] && Hit(hash, st, m) ==> st.entries[Hex(hash(m))] == Uncached(p, m).paths
  }

  lemma CallKeepsRight(hash: Hash, st: State, p: Params, m: Metric, other: Metric)
    requires p.rules == [] && RightFor(hash, st, p, other)
    requires hash(m) == hash(other) ==> m == other
    ensures RightFor(hash, Call(hash, st, p, m), p, other)
  {
    NoRules(p, m);
    NoRules(p, other);
    KeysAreExact(hash(m), hash(other));
  }

  lemma StillRegular(hash: Hash, st: State, p: Params, samples: seq<Sample>)
    requires samples != [] && Regular(hash, st, p, samples)
    ensures Regular(hash, CacheAfter(hash, st, p, samples[0]), p, samples[1..])
  {
    forall i | 1 <= i < |samples|
      ensures RightFor(hash, CacheAfter(hash, st, p, samples[0]), p, samples[i].metric)
    {
      CallKeepsRight(hash, st, p, samples[0].metric, samples[i].metric);
    }
  }

  function PathOf(p: Params, s: Sample): bytes {
    DefaultPath(s.metric, p.format, p.prefix)
  }

  lemma RightPath(hash: Hash, st: State, p: Params, s: Sample)
    requires p.rules == [] && RightFor(hash, st, p, s.metric) && FreeOf(NEWLINE, p, [s])
    ensures GivenPath(hash, st, p, s.metric) == PathOf(p, s) && PlainFor(hash, st, s.metric)
  {
    assert [s][0] == s;
    DefaultPathIsFree(s.metric, p.format, p.prefix, NEWLINE);
    NoRules(p, s.metric);
  }

  lemma RegularIsPlain(hash: Hash, st: State, p: Params, samples: seq<Sample>)
    requires Regular(hash, st, p, samples) && FreeOf(NEWLINE, p, samples)
    ensures Plain(hash, st, samples)
  {
    forall i | 0 <= i < |samples| ensures PlainFor(hash, st, samples[i].metric) {
      FreeOfOne(NEWLINE, p, samples, samples[i]);
      RightPath(hash, st, p, samples[i]);
    }
  }

  function Render(text: Sample -> bytes, fs: seq<Sample>): seq<bytes> {
    seq(|fs|, i requires 0 <= i < |fs| => text(fs[i]))
  }

  function Body(p: Params, s: Sample): bytes
    requires s.value.Finite?
  {
    BodyOf(PathOf(p, s), s)
  }

  function BodyText(p: Params): Sample -> bytes {
    (s: Sample) => if s.value.Finite? then Body(p, s) else []
  }

  /** The lines with the default paths of the samples. */
  function Bodies(p: Params, samples: seq<Sample>): seq<bytes> {
    Render(BodyText(p), FiniteSamples(samples))
  }

  lemma RenderCons(text: Sample -> bytes, s: Sample, fs: seq<Sample>)
    ensures Render(text, [s] + fs) == [text(s)] + Render(text, fs)
  {
  }

  lemma {:induction false} RegularBodies(hash: Hash, st: State, p: Params, samples: seq<Sample>)
    requires Regular(hash, st, p, samples) && FreeOf(NEWLINE, p, samples)
    ensures GivenBodies(hash, st, p, samples) == Bodies(p, samples)
    decreases |samples|
  {
    if samples != [] {
      var s, fs := samples[0], FiniteSamples(samples[1..]);
      StillRegular(hash, st, p, samples);
      FreeOfRest(NEWLINE, p, samples);
      RegularBodies(hash, CacheAfter(hash, st, p, s), p, samples[1..]);
      if s.value.Finite? {
        RightPath(hash, st, p, s);
        RenderCons(BodyText(p), s, fs);
      } else {
        assert [] + fs == fs && [] + Render(BodyText(p), fs) == Render(BodyText(p), fs);
      }
    }
  }

  /** With distinct fingerprints and a cache that is right for the samples, the lines have their default paths. */
  lemma PayloadIsRight(hash: Hash, st: State, p: Params, samples: seq<Sample>, udp: bool)
    requires Regular(hash, st, p, samples) && FreeOf(NEWLINE, p, samples)
    ensures
      var c := Collect(hash, st, p, samples);
      && c.Collected?
      && Split(Concat(Buffers(Packed(udp, Flatten(c.kept)))), NEWLINE) == Bodies(p, samples) + [[]]
  {
    RegularIsPlain(hash, st, p, samples);
    PayloadFrames(hash, st, p, samples, udp);
    RegularBodies(hash, st, p, samples);
  }

  /** A line cut at spaces is its path, its value and its timestamp. */
  lemma BodyFields(p: Params, s: Sample)
    requires s.value.Finite? && FreeOf(SPACE, p, [s])
    ensures Split(Body(p, s), SPACE) == [PathOf(p, s), s.value.text, s.time]
  {
    assert [s][0] == s;
    DefaultPathIsFree(s.metric, p.format, p.prefix, SPACE);
    SplitWhole(s.time, SPACE);
    SplitFirst(s.value.text, SPACE, s.time);
    SplitFirst(PathOf(p, s), SPACE, s.value.text + ([SPACE] + s.time));
  }

  // ------------------------------------------------------------- reading it back

  /** What a line says: the labels of its path, and its value and timestamp as text. */
  datatype Point = Point(labels: Result<seq<Label>, ParseError>, value: bytes, time: bytes)

  function ReadLine(line: bytes, prefix: bytes): Option<Point> {
    var fields := Split(line, SPACE);
    if |fields| != 3 then None else Some(Point(MetricLabels(fields[0], prefix), fields[1], fields[2]))
  }

  /** What it should say. */
  function PointOf(s: Sample): Point
    requires s.value.Finite?
  {
    Point(Ok(Contents(s.metric)), s.value.text, s.time)
  }

  /** A line reads back as its sample exactly when the metric's path does. */
  lemma LineReadsBack(p: Params, s: Sample)
    requires s.value.Finite? && FreeOf(SPACE, p, [s]) && p.format == FormatCarbon && ValidNames(s.metric)
    ensures ReadLine(Body(p, s), p.prefix) == Some(PointOf(s)) <==> RoundTrips(s.metric)
  {
    BodyFields(p, s);
    CarbonRoundTrip(s.metric, p.prefix);
  }

  /**
   Without rules, in the Carbon format and with a cache that is right, the payload cut at newlines and spaces
   and parsed says, line for line, the labels, the value and the timestamp of each
   finite sample, exactly for those whose metric satisfies `RoundTrips`.
   */
  lemma PayloadReadsBack(hash: Hash, st: State, p: Params, samples: seq<Sample>, udp: bool)
    requires Regular(hash, st, p, samples) && p.format == FormatCarbon
    requires FreeOf(NEWLINE, p, samples) && FreeOf(SPACE, p, samples)
    requires forall s | s in samples :: ValidNames(s.metric)
    ensures
      var c, fs := Collect(hash, st, p, samples), FiniteSamples(samples);
      && c.Collected?
      && var lines := Split(Concat(Buffers(Packed(udp, Flatten(c.kept)))), NEWLINE);
      && |lines| == |fs| + 1 && lines[|fs|] == []
      && forall i | 0 <= i < |fs| ::
           fs[i].value.Finite? && (ReadLine(lines[i], p.prefix) == Some(PointOf(fs[i])) <==> RoundTrips(fs[i].metric))
  {
    var fs, bodies := FiniteSamples(samples), Bodies(p, samples);
    PayloadIsRight(hash, st, p, samples, udp);
    FiniteAreSamples(samples);
    forall i | 0 <= i < |fs|
      ensures fs[i].value.Finite?
      ensures ReadLine((bodies + [[]])[i], p.prefix) == Some(PointOf(fs[i])) <==> RoundTrips(fs[i].metric)
    {
      assert fs[i] in fs && bodies[i] == Body(p, fs[i]);
      FreeOfOne(SPACE, p, samples, fs[i]);
      LineReadsBack(p, fs[i]);
    }
  }
}
