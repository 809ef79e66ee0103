/**
 The query side of the path codec: filterTargets (client/graphite/read.go).
 */
module QueryFilter {
  import opened Bytes
  import opened Wrappers
  import opened Paths
  import opened PathRoundTrip

  datatype MatchType = EQ | NEQ | RE | NRE

  datatype Matcher = Matcher(kind: MatchType, name: bytes, value: bytes)

  /** Compiles a regular expression, or fails; the language is not modelled. */
  type Compiler = bytes -> Option<bytes -> bool>

  datatype QueryError = BadRegexp

  /** plabels.NewMatcher fails on this matcher. */
  predicate IsBad(compile: Compiler, m: Matcher) {
    (m.kind.RE? || m.kind.NRE?) && compile(m.value).None?
  }

  predicate Accepts(compile: Compiler, m: Matcher, v: bytes) {
    match m.kind
    case EQ => v == m.value
    case NEQ => v != m.value
    case RE => compile(m.value).Some? && compile(m.value).value(v)
    case NRE => compile(m.value).Some? && !compile(m.value).value(v)
  }

  /** The map the labels are put in: a later label replaces an earlier one. */
  function LabelMap(ls: seq<Label>): map<bytes, bytes> {
    if ls == [] then map[]
    else LabelMap(ls[..|ls| - 1])[ls[|ls| - 1].name := ls[|ls| - 1].value]
  }

  /** The matcher loop: it stops at the first bad or unsatisfied matcher. */
  function MatchAll(compile: Compiler, matchers: seq<Matcher>, labels: map<bytes, bytes>): Result<bool, QueryError> {
    if matchers == [] then Ok(true)
    else if IsBad(compile, matchers[0]) then Err(BadRegexp)
    else if !Accepts(compile, matchers[0], Lookup(labels, matchers[0].name)) then Ok(false)
    else MatchAll(compile, matchers[1..], labels)
  }

  function Filtered(compile: Compiler, matchers: seq<Matcher>, targets: seq<bytes>, prefix: bytes)
    : Result<seq<bytes>, QueryError>
  {
    if targets == [] then Ok([])
    else
      match MetricLabels(targets[0], prefix)
      case Err(_) => Filtered(compile, matchers, targets[1..], prefix)
      case Ok(labels) =>
        match MatchAll(compile, matchers, LabelMap(labels))
        case Err(e) => Err(e)
        case Ok(keep) =>
          match Filtered(compile, matchers, targets[1..], prefix)
          case Err(e) => Err(e)
          case Ok(rest) => Ok((if keep then [targets[0]] else []) + rest)
  }

  /** `results` followed by what is still to come, unless that fails. */
  function Then(results: seq<bytes>, rest: Result<seq<bytes>, QueryError>): Result<seq<bytes>, QueryError> {
    match rest
    case Err(e) => Err(e)
    case Ok(more) => Ok(results + more)
  }

  method MatchLabels(compile: Compiler, matchers: seq<Matcher>, labels: map<bytes, bytes>)
    returns (r: Result<bool, QueryError>)
    ensures r == MatchAll(compile, matchers, labels)
  {
    for i := 0 to |matchers|
      invariant MatchAll(compile, matchers[i..], labels) == MatchAll(compile, matchers, labels)
    {
      var m := matchers[i];
      assert matchers[i..][1..] == matchers[i + 1..];
      if IsBad(compile, m) {
        return Err(BadRegexp);
      }
      if !Accepts(compile, m, Lookup(labels, m.name)) {
        return Ok(false);
      }
    }
    return Ok(true);
  }

  method BuildLabelMap(labels: seq<Label>) returns (labelMap: map<bytes, bytes>)
    ensures labelMap == LabelMap(labels)
  {
    labelMap := map[];
    for j := 0 to |labels|
      invariant labelMap == LabelMap(labels[..j])
    {
      assert labels[..j + 1][..j] == labels[..j];
      labelMap := labelMap[labels[j].name := labels[j].value];
    }
    assert labels[..|labels|] == labels;
  }

  method FilterTargets(compile: Compiler, matchers: seq<Matcher>, targets: seq<bytes>, prefix: bytes)
    returns (r: Result<seq<bytes>, QueryError>)
    ensures r == Filtered(compile, matchers, targets, prefix)
  {
    var results: seq<bytes> := [];
    var left := targets;
    ThenNothing(Filtered(compile, matchers, targets, prefix));
    while left != []
      invariant Then(results, Filtered(compile, matchers, left, prefix))
                == Filtered(compile, matchers, targets, prefix)
      decreases |left|
    {
      var target := left[0];
      ghost var rest := Filtered(compile, matchers, left[1..], prefix);
      var parsed := MetricLabelsFromPath(target, prefix);
      if parsed.Ok? {
        var labelMap := BuildLabelMap(parsed.value);
        var keep := MatchLabels(compile, matchers, labelMap);
        if keep.Err? {
          return Err(keep.error);
        }
        var kept := if keep.value then [target] else [];
        assert Filtered(compile, matchers, left, prefix) == Then(kept, rest);
        ThenKeeps(results, kept, rest);
        results := results + kept;
      }
      left := left[1..];
    }
    assert results + [] == results;
    return Ok(results);
  }

  lemma ThenNothing(rest: Result<seq<bytes>, QueryError>)
    ensures Then([], rest) == rest
  {
    if rest.Ok? {
      assert [] + rest.value == rest.value;
    }
  }

  lemma ThenKeeps(results: seq<bytes>, kept: seq<bytes>, rest: Result<seq<bytes>, QueryError>)
    ensures Then(results, Then(kept, rest)) == Then(results + kept, rest)
  {
    if rest.Ok? {
      assert results + (kept + rest.value) == results + kept + rest.value;
    }
  }

  // ------------------------------------------------------------- the meaning

  /** Does the metric satisfy the matcher, an absent label reading as empty? */
  predicate Holds(compile: Compiler, m: Matcher, metric: Metric) {
    var v := if m.name in metric then metric[m.name] else [];
    match m.kind
    case EQ => v == m.value
    case NEQ => v != m.value
    case RE => (match compile(m.value) case Some(regexp) => regexp(v) case None => false)
    case NRE => (match compile(m.value) case Some(regexp) => !regexp(v) case None => false)
  }

  /** Is it a regular expression that does not compile? */
  predicate DoesNotCompile(compile: Compiler, m: Matcher) {
    match compile(m.value)
    case None => m.kind == RE || m.kind == NRE
    case Some(_) => false
  }

  predicate Satisfies(compile: Compiler, matchers: seq<Matcher>, metric: Metric) {
    forall i | 0 <= i < |matchers| :: Holds(compile, matchers[i], metric)
  }

  /** A bad matcher comes up because the metric satisfies all those before it. */
  predicate MeetsBad(compile: Compiler, matchers: seq<Matcher>, metric: Metric) {
    exists k | 0 <= k < |matchers| ::
      DoesNotCompile(compile, matchers[k]) && Satisfies(compile, matchers[..k], metric)
  }

  lemma SatisfiesCons(compile: Compiler, matchers: seq<Matcher>, metric: Metric)
    requires matchers != []
    ensures Satisfies(compile, matchers, metric) <==>
              Holds(compile, matchers[0], metric) && Satisfies(compile, matchers[1..], metric)
  {
    if Holds(compile, matchers[0], metric) && Satisfies(compile, matchers[1..], metric) {
      forall i | 0 <= i < |matchers| ensures Holds(compile, matchers[i], metric) {
        assert i > 0 ==> matchers[i] == matchers[1..][i - 1];
      }
    }
    if Satisfies(compile, matchers, metric) {
      assert forall i | 0 <= i < |matchers[1..]| :: matchers[1..][i] == matchers[i + 1];
    }
  }

  lemma MeetsBadCons(compile: Compiler, matchers: seq<Matcher>, metric: Metric)
    requires matchers != []
    ensures MeetsBad(compile, matchers, metric) <==>
              DoesNotCompile(compile, matchers[0]) ||
              (Holds(compile, matchers[0], metric) && MeetsBad(compile, matchers[1..], metric))
  {
    var rest := matchers[1..];
    if MeetsBad(compile, matchers, metric) && !DoesNotCompile(compile, matchers[0]) {
      var k :| 0 <= k < |matchers| && DoesNotCompile(compile, matchers[k]) && Satisfies(compile, matchers[..k], metric);
      SatisfiesCons(compile, matchers[..k], metric);
      assert matchers[..k][1..] == rest[..k - 1] && rest[k - 1] == matchers[k];
    }
    if DoesNotCompile(compile, matchers[0]) {
      assert Satisfies(compile, matchers[..0], metric);
    } else if Holds(compile, matchers[0], metric) && MeetsBad(compile, rest, metric) {
      var k :| 0 <= k < |rest| && DoesNotCompile(compile, rest[k]) && Satisfies(compile, rest[..k], metric);
      assert matchers[..k + 1][1..] == rest[..k] && matchers[k + 1] == rest[k];
      SatisfiesCons(compile, matchers[..k + 1], metric);
    }
  }

  lemma {:induction false} MatchAllMeans(compile: Compiler, matchers: seq<Matcher>,
                                         labels: map<bytes, bytes>, metric: Metric)
    requires forall k :: Lookup(labels, k) == Lookup(metric, k)
    ensures MatchAll(compile, matchers, labels) ==
            if MeetsBad(compile, matchers, metric) then Err(BadRegexp)
            else Ok(Satisfies(compile, matchers, metric))
    decreases |matchers|
  {
    if matchers != [] {
      MatchAllMeans(compile, matchers[1..], labels, metric);
      MeetsBadCons(compile, matchers, metric);
      SatisfiesCons(compile, matchers, metric);
    }
  }

  lemma {:induction false} LabelMapHit(ls: seq<Label>, i: nat)
    requires i < |ls| && forall j | i < j < |ls| :: ls[j].name != ls[i].name
    ensures Lookup(LabelMap(ls), ls[i].name) == ls[i].value
    decreases |ls|
  {
    if i < |ls| - 1 {
      LabelMapHit(ls[..|ls| - 1], i);
    }
  }

  lemma {:induction false} LabelMapMiss(ls: seq<Label>, k: bytes)
    requires forall j | 0 <= j < |ls| :: ls[j].name != k
    ensures Lookup(LabelMap(ls), k) == []
    decreases |ls|
  {
    if ls != [] {
      LabelMapMiss(ls[..|ls| - 1], k);
    }
  }

  /** Read back, the labels of a metric answer every lookup as the metric does. */
  lemma ContentsLookup(m: Metric, k: bytes)
    requires ValidNames(m)
    ensures Lookup(LabelMap(Contents(m)), k) == Lookup(m, k)
  {
    LabelsOfMetric(m);
    var ls, head := Labels(m), Label(METRIC_NAME, Lookup(m, METRIC_NAME));
    assert forall i | 0 <= i < |ls| :: ls[i] in ls;
    if k != METRIC_NAME && k in m {
      assert Label(k, m[k]) in ls;
      var i :| 0 <= i < |ls| && ls[i] == Label(k, m[k]);
      LabelMapTail(head, ls, i);
    } else {
      LabelMapHead(head, ls, k);
    }
  }

  lemma LabelMapTail(head: Label, ls: seq<Label>, i: nat)
    requires i < |ls| && forall j, k | 0 <= j < k < |ls| :: ls[j].name != ls[k].name
    ensures Lookup(LabelMap([head] + ls), ls[i].name) == ls[i].value
  {
    LabelMapHit([head] + ls, i + 1);
  }

  lemma LabelMapHead(head: Label, ls: seq<Label>, k: bytes)
    requires forall j | 0 <= j < |ls| :: ls[j].name != k
    ensures Lookup(LabelMap([head] + ls), k) == if k == head.name then head.value else []
  {
    if k == head.name {
      LabelMapHit([head] + ls, 0);
    } else {
      LabelMapMiss([head] + ls, k);
    }
  }

  function PathsOf(metrics: seq<Metric>, prefix: bytes): seq<bytes> {
    if metrics == [] then []
    else [DefaultPath(metrics[0], FormatCarbon, prefix)] + PathsOf(metrics[1..], prefix)
  }

  /** The metrics that satisfy every matcher, in order. */
  function Matching(compile: Compiler, matchers: seq<Matcher>, metrics: seq<Metric>): seq<Metric> {
    if metrics == [] then []
    else
      (if Satisfies(compile, matchers, metrics[0]) then [metrics[0]] else [])
      + Matching(compile, matchers, metrics[1..])
  }

  predicate Readable(metrics: seq<Metric>) {
    forall i | 0 <= i < |metrics| :: ValidNames(metrics[i]) && RoundTrips(metrics[i])
  }

  lemma OneTarget(compile: Compiler, matchers: seq<Matcher>, m: Metric, prefix: bytes)
    requires ValidNames(m) && RoundTrips(m)
    ensures
      var parsed := MetricLabels(DefaultPath(m, FormatCarbon, prefix), prefix);
      parsed.Ok? && MatchAll(compile, matchers, LabelMap(parsed.value)) ==
        if MeetsBad(compile, matchers, m) then Err(BadRegexp) else Ok(Satisfies(compile, matchers, m))
  {
    CarbonRoundTrip(m, prefix);
    forall k ensures Lookup(LabelMap(Contents(m)), k) == Lookup(m, k) {
      ContentsLookup(m, k);
    }
    MatchAllMeans(compile, matchers, LabelMap(Contents(m)), m);
  }

  predicate SomeMeetsBad(compile: Compiler, matchers: seq<Matcher>, metrics: seq<Metric>) {
    exists i | 0 <= i < |metrics| :: MeetsBad(compile, matchers, metrics[i])
  }

  lemma SomeMeetsBadCons(compile: Compiler, matchers: seq<Matcher>, metrics: seq<Metric>)
    requires metrics != []
    ensures SomeMeetsBad(compile, matchers, metrics) <==>
              MeetsBad(compile, matchers, metrics[0]) || SomeMeetsBad(compile, matchers, metrics[1..])
  {
    var rest := metrics[1..];
    if SomeMeetsBad(compile, matchers, rest) {
      var i :| 0 <= i < |rest| && MeetsBad(compile, matchers, rest[i]);
      assert metrics[i + 1] == rest[i];
    }
    if SomeMeetsBad(compile, matchers, metrics) && !MeetsBad(compile, matchers, metrics[0]) {
      var i :| 0 <= i < |metrics| && MeetsBad(compile, matchers, metrics[i]);
      assert rest[i - 1] == metrics[i];
    }
  }

  /**
   Soundness and completeness of the filter on the default paths of any list of
   metrics that read back: it fails exactly when some metric meets a matcher whose
   expression does not compile, and otherwise keeps, in order, the paths of exactly
   the metrics that satisfy every matcher.
   */
  lemma {:induction false} FilterIsExact(compile: Compiler, matchers: seq<Matcher>,
                                         metrics: seq<Metric>, prefix: bytes)
    requires Readable(metrics)
    ensures Filtered(compile, matchers, PathsOf(metrics, prefix), prefix) ==
            if SomeMeetsBad(compile, matchers, metrics) then Err(BadRegexp)
            else Ok(PathsOf(Matching(compile, matchers, metrics), prefix))
    decreases |metrics|
  {
    if metrics != [] {
      OneTarget(compile, matchers, metrics[0], prefix);
      FilterIsExact(compile, matchers, metrics[1..], prefix);
      SomeMeetsBadCons(compile, matchers, metrics);
      assert PathsOf(metrics, prefix)[1..] == PathsOf(metrics[1..], prefix);
      PathsOfCons(metrics[0], Matching(compile, matchers, metrics[1..]), prefix);
    }
  }

  lemma PathsOfCons(m: Metric, ms: seq<Metric>, prefix: bytes)
    ensures PathsOf([m] + ms, prefix) == [DefaultPath(m, FormatCarbon, prefix)] + PathsOf(ms, prefix)
    ensures [] + ms == ms && [] + PathsOf(ms, prefix) == PathsOf(ms, prefix)
  {
    assert ([m] + ms)[1..] == ms;
  }

  // ------------------------------------------------------------ on any targets

  /** The value of the last label of that name. */
  function LastValue(ls: seq<Label>, k: bytes): Option<bytes>
    decreases |ls|
  {
    if ls == [] then None
    else if ls[|ls| - 1].name == k then Some(ls[|ls| - 1].value)
    else LastValue(ls[..|ls| - 1], k)
  }

  function AsMetric(ls: seq<Label>): Metric {
    map i, k | 0 <= i < |ls| && k == ls[i].name && LastValue(ls, k).Some? :: k := LastValue(ls, k).value
  }

  lemma {:induction false} LastValueExists(ls: seq<Label>, k: bytes)
    ensures LastValue(ls, k).Some? <==> exists i :: 0 <= i < |ls| && ls[i].name == k
    decreases |ls|
  {
    if ls != [] {
      LastValueExists(ls[..|ls| - 1], k);
      assert LastValue(ls[..|ls| - 1], k).Some? ==> exists i :: 0 <= i < |ls| - 1 && ls[i].name == k;
    }
  }

  lemma {:induction false} LabelMapIsLast(ls: seq<Label>, k: bytes)
    ensures k in LabelMap(ls) <==> LastValue(ls, k).Some?
    ensures k in LabelMap(ls) ==> LabelMap(ls)[k] == LastValue(ls, k).value
    decreases |ls|
  {
    if ls != [] {
      LabelMapIsLast(ls[..|ls| - 1], k);
    }
  }

  lemma LabelMapIsMetric(ls: seq<Label>)
    ensures forall k :: Lookup(LabelMap(ls), k) == Lookup(AsMetric(ls), k)
  {
    forall k ensures Lookup(LabelMap(ls), k) == Lookup(AsMetric(ls), k) {
      LabelMapIsLast(ls, k);
      LastValueExists(ls, k);
    }
  }

  /** The target parses, to labels of which this is asked. */
  predicate ParsesTo(target: bytes, prefix: bytes, p: Metric -> bool) {
    match MetricLabels(target, prefix)
    case Ok(labels) => p(AsMetric(labels))
    case Err(_) => false
  }

  function Kept(p: Metric -> bool, targets: seq<bytes>, prefix: bytes): seq<bytes> {
    if targets == [] then []
    else (if ParsesTo(targets[0], prefix, p) then [targets[0]] else []) + Kept(p, targets[1..], prefix)
  }

  function Satisfying(compile: Compiler, matchers: seq<Matcher>): Metric -> bool {
    (m: Metric) => Satisfies(compile, matchers, m)
  }

  function MeetingBad(compile: Compiler, matchers: seq<Matcher>): Metric -> bool {
    (m: Metric) => MeetsBad(compile, matchers, m)
  }

  lemma AnyTarget(compile: Compiler, matchers: seq<Matcher>, target: bytes, prefix: bytes)
    requires MetricLabels(target, prefix).Ok?
    ensures
      var labels := MetricLabels(target, prefix).value;
      MatchAll(compile, matchers, LabelMap(labels)) ==
        if ParsesTo(target, prefix, MeetingBad(compile, matchers)) then Err(BadRegexp)
        else Ok(ParsesTo(target, prefix, Satisfying(compile, matchers)))
  {
    var labels := MetricLabels(target, prefix).value;
    LabelMapIsMetric(labels);
    MatchAllMeans(compile, matchers, LabelMap(labels), AsMetric(labels));
  }

  predicate SomeParsesTo(p: Metric -> bool, targets: seq<bytes>, prefix: bytes) {
    exists i | 0 <= i < |targets| :: ParsesTo(targets[i], prefix, p)
  }

  lemma SomeParsesToCons(p: Metric -> bool, targets: seq<bytes>, prefix: bytes)
    requires targets != []
    ensures SomeParsesTo(p, targets, prefix) <==>
              ParsesTo(targets[0], prefix, p) || SomeParsesTo(p, targets[1..], prefix)
  {
    var rest := targets[1..];
    if SomeParsesTo(p, rest, prefix) {
      var i :| 0 <= i < |rest| && ParsesTo(rest[i], prefix, p);
      assert targets[i + 1] == rest[i];
    }
    if SomeParsesTo(p, targets, prefix) && !ParsesTo(targets[0], prefix, p) {
      var i :| 0 <= i < |targets| && ParsesTo(targets[i], prefix, p);
      assert rest[i - 1] == targets[i];
    }
  }

  /**
   On any targets: those that do not parse are skipped; it fails exactly when one that
   parses meets an expression that does not compile; and otherwise keeps, in order,
   exactly those whose labels, the last of a name counting, satisfy every matcher.
   */
  lemma {:induction false} FilterKeepsExactly(compile: Compiler, matchers: seq<Matcher>,
                                              targets: seq<bytes>, prefix: bytes)
    ensures Filtered(compile, matchers, targets, prefix) ==
            if SomeParsesTo(MeetingBad(compile, matchers), targets, prefix) then Err(BadRegexp)
            else Ok(Kept(Satisfying(compile, matchers), targets, prefix))
    decreases |targets|
  {
    if targets != [] {
      FilterKeepsExactly(compile, matchers, targets[1..], prefix);
      SomeParsesToCons(MeetingBad(compile, matchers), targets, prefix);
      if MetricLabels(targets[0], prefix).Ok? {
        AnyTarget(compile, matchers, targets[0], prefix);
      } else {
        assert [] + Kept(Satisfying(compile, matchers), targets[1..], prefix)
            == Kept(Satisfying(compile, matchers), targets[1..], prefix);
      }
    }
  }
}
