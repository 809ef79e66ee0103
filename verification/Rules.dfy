/**
 Templating rules: what a rule sees (client/graphite/paths/template.go) and which
 paths the rules give (client/graphite/paths/write.go, templatedPaths and the
 computation that pathsFromMetric caches).
 */
module Rules {
  import opened Bytes
  import opened Wrappers
  import opened Paths

  /** A template variable: configured data, or the labels of the metric. */
  datatype Value = Data(id: int) | LabelsValue(labels: Metric)

  type Context = map<bytes, Value>

  /** Executing a template yields a path or an error; the language is not modelled. */
  type Template = Context -> Option<bytes>

  /** A rule without a template silences the metric, or crashes if it continues. */
  datatype Rule = Rule(
    exact: map<bytes, bytes>, regexps: map<bytes, bytes -> bool>,
    tmpl: Option<Template>, continues: bool)

  /** "labels" */
  const LABELS: bytes := [108, 97, 98, 101, 108, 115]

  lemma LabelsIsSpelt()
    ensures Text(LABELS) == "labels"
  {
    assert "labels" == ['l', 'a', 'b', 'e', 'l', 's'];
  }

  // ------------------------------------------------------- what a rule sees

  method LoadContext(templateData: Context, m: Metric) returns (ctx: Context)
    ensures ctx.Keys == templateData.Keys + {LABELS}
    ensures ctx[LABELS] == LabelsValue(m)
    ensures forall k | k in templateData && k != LABELS :: ctx[k] == templateData[k]
    ensures ctx == ContextOf(templateData, m)
  {
    ctx := map[];
    var left := templateData.Keys;
    while left != {}
      invariant left <= templateData.Keys
      invariant ctx == map k | k in templateData.Keys - left :: templateData[k]
      decreases left
    {
      var k :| k in left;
      ctx := ctx[k := templateData[k]];
      left := left - {k};
    }
    ctx := ctx[LABELS := LabelsValue(m)];
  }

  function ContextOf(templateData: Context, m: Metric): Context {
    templateData[LABELS := LabelsValue(m)]
  }

  /** The label is the text, where a label the metric does not have is empty. */
  predicate LabelIs(m: Metric, name: bytes, text: bytes) {
    (name in m && m[name] == text) || (name !in m && text == [])
  }

  /** Every label is what the rule says, and what its regular expression accepts. */
  ghost predicate Fits(rule: Rule, m: Metric) {
    && (forall name, text | name in rule.exact && rule.exact[name] == text :: LabelIs(m, name, text))
    && (forall name, text: bytes | name in rule.regexps && LabelIs(m, name, text) :: rule.regexps[name](text))
  }

  predicate Matches(rule: Rule, m: Metric) {
    && (forall k | k in rule.exact :: Lookup(m, k) == rule.exact[k])
    && (forall k | k in rule.regexps :: rule.regexps[k](Lookup(m, k)))
  }

  /** The two loops over what the rule asks for, each in any order. */
  method Match(m: Metric, rule: Rule) returns (matched: bool)
    ensures matched == Matches(rule, m)
    ensures matched == Fits(rule, m)
  {
    var left := rule.exact.Keys;
    while left != {}
      invariant left <= rule.exact.Keys
      invariant forall k | k in rule.exact.Keys - left :: Lookup(m, k) == rule.exact[k]
      decreases left
    {
      var ln :| ln in left;
      if Lookup(m, ln) != rule.exact[ln] {
        MatchesFits(rule, m);
        return false;
      }
      left := left - {ln};
    }
    left := rule.regexps.Keys;
    while left != {}
      invariant left <= rule.regexps.Keys
      invariant forall k | k in rule.regexps.Keys - left :: rule.regexps[k](Lookup(m, k))
      decreases left
    {
      var ln :| ln in left;
      if !rule.regexps[ln](Lookup(m, ln)) {
        MatchesFits(rule, m);
        return false;
      }
      left := left - {ln};
    }
    MatchesFits(rule, m);
    return true;
  }

  // -------------------------------------------------------- evaluating rules

  /** Crash: a matching rule that continues has no template to execute. */
  datatype Evaluation = Crash | Evaluated(paths: seq<bytes>, stop: bool, failed: bool)

  function Evaluate(rules: seq<Rule>, ctx: Context, m: Metric, paths: seq<bytes>): Evaluation {
    if rules == [] then Evaluated(paths, false, false)
    else
      var rule := rules[0];
      if !Matches(rule, m) then Evaluate(rules[1..], ctx, m, paths)
      else if rule.tmpl.None? then
        if rule.continues then Crash else Evaluated([], true, false)
      else
        match rule.tmpl.value(ctx)
        case None => Evaluated(paths, !rule.continues, true)
        case Some(path) =>
          if rule.continues then Evaluate(rules[1..], ctx, m, paths + [path])
          else Evaluated(paths + [path], true, false)
  }

  method TemplatedPaths(m: Metric, rules: seq<Rule>, templateData: Context) returns (r: Evaluation)
    ensures r == Evaluate(rules, ContextOf(templateData, m), m, [])
  {
    var paths: seq<bytes> := [];
    var stop := false;
    var failed := false;
    for i := 0 to |rules|
      invariant !stop && !failed
      invariant Evaluate(rules[i..], ContextOf(templateData, m), m, paths)
                == Evaluate(rules, ContextOf(templateData, m), m, [])
    {
      var rule := rules[i];
      assert rules[i..][1..] == rules[i + 1..];
      var ruleMatch := Match(m, rule);
      if !ruleMatch {
        continue;
      }
      if !rule.continues && rule.tmpl.None? {
        return Evaluated([], true, false);
      }
      var context := LoadContext(templateData, m);
      stop := !rule.continues;
      if rule.tmpl.None? {
        return Crash;
      }
      var path := rule.tmpl.value(context);
      if path.None? {
        failed := true;
        break;
      }
      paths := paths + [path.value];
      if !rule.continues {
        break;
      }
    }
    return Evaluated(paths, stop, failed);
  }

  // ------------------------------------------------------- the paths of a metric

  /** What a request and the configuration fix for every metric. */
  datatype Params = Params(format: Format, prefix: bytes, rules: seq<Rule>, templateData: Context)

  datatype Outcome = Crashed | Computed(paths: seq<bytes>, failed: bool)

  /** The computation without the cache: the default path unless a rule stops. */
  function Uncached(p: Params, m: Metric): Outcome {
    match Evaluate(p.rules, ContextOf(p.templateData, m), m, [])
    case Crash => Crashed
    case Evaluated(paths, stop, failed) =>
      Computed(if stop then paths else paths + [DefaultPath(m, p.format, p.prefix)], failed)
  }

  // ------------------------------------------------------- what the rules mean

  /** The matching rules up to the first that does not continue. */
  function Relevant(rules: seq<Rule>, m: Metric): seq<Rule> {
    if rules == [] then []
    else if !Matches(rules[0], m) then Relevant(rules[1..], m)
    else if !rules[0].continues then [rules[0]]
    else [rules[0]] + Relevant(rules[1..], m)
  }

  /** Rules that do not match, and rules after the stopping one, never matter. */
  lemma {:induction false} OnlyRelevantMatter(rules: seq<Rule>, ctx: Context, m: Metric, paths: seq<bytes>)
    ensures Evaluate(rules, ctx, m, paths) == Evaluate(Relevant(rules, m), ctx, m, paths)
    decreases |rules|
  {
    if rules != [] {
      var rule, rest := rules[0], rules[1..];
      if !Matches(rule, m) {
        OnlyRelevantMatter(rest, ctx, m, paths);
      } else if rule.continues {
        assert ([rule] + Relevant(rest, m))[1..] == Relevant(rest, m);
        if rule.tmpl.Some? && rule.tmpl.value(ctx).Some? {
          OnlyRelevantMatter(rest, ctx, m, paths + [rule.tmpl.value(ctx).value]);
        }
      }
    }
  }

  /** The metric fits rule i, and every rule before it that it fits continues. */
  ghost predicate Reached(rules: seq<Rule>, m: Metric, i: nat)
    requires i < |rules|
  {
    Fits(rules[i], m) && forall j | 0 <= j < i && Fits(rules[j], m) :: rules[j].continues
  }

  lemma MatchesFits(rule: Rule, m: Metric)
    ensures Matches(rule, m) <==> Fits(rule, m)
  {
    if Matches(rule, m) {
      assert forall name, text | LabelIs(m, name, text) :: Lookup(m, name) == text;
    }
    if Fits(rule, m) {
      forall k | k in rule.exact ensures Lookup(m, k) == rule.exact[k] {
        assert LabelIs(m, k, rule.exact[k]);
      }
      forall k | k in rule.regexps ensures rule.regexps[k](Lookup(m, k)) {
        assert LabelIs(m, k, Lookup(m, k));
      }
    }
  }

  /** These are, in order, the positions of the rules of `r`, and exactly the reached ones. */
  ghost predicate ArePositions(at: seq<nat>, r: seq<Rule>, rules: seq<Rule>, m: Metric) {
    && |at| == |r|
    && (forall k | 0 <= k < |at| :: at[k] < |rules| && r[k] == rules[at[k]])
    && (forall j, k | 0 <= j < k < |at| :: at[j] < at[k])
    && (forall i: nat | i < |rules| :: i in at <==> Reached(rules, m, i))
  }

  lemma PositionsSkip(at: seq<nat>, r: seq<Rule>, rules: seq<Rule>, m: Metric)
    requires rules != [] && !Fits(rules[0], m) && ArePositions(at, r, rules[1..], m)
    ensures ArePositions(Shifted(at), r, rules, m)
  {
    forall i: nat | 0 < i < |rules| ensures i in Shifted(at) <==> Reached(rules, m, i) {
      ReachedLater(rules, m, i);
    }
  }

  lemma PositionsTake(at: seq<nat>, r: seq<Rule>, rules: seq<Rule>, m: Metric)
    requires rules != [] && Fits(rules[0], m) && rules[0].continues && ArePositions(at, r, rules[1..], m)
    ensures ArePositions([0] + Shifted(at), [rules[0]] + r, rules, m)
  {
    forall i: nat | 0 < i < |rules| ensures i in Shifted(at) <==> Reached(rules, m, i) {
      ReachedLater(rules, m, i);
    }
  }

  lemma PositionsStop(rules: seq<Rule>, m: Metric)
    requires rules != [] && Fits(rules[0], m) && !rules[0].continues
    ensures ArePositions([0], [rules[0]], rules, m)
  {
  }

  /** The relevant rules are the reached ones, in their order. */
  lemma {:induction false} RelevantAreReached(rules: seq<Rule>, m: Metric)
    ensures exists at :: ArePositions(at, Relevant(rules, m), rules, m)
    decreases |rules|
  {
    if rules == [] {
      var none: seq<nat> := [];
      assert ArePositions(none, Relevant(rules, m), rules, m);
    } else {
      MatchesFits(rules[0], m);
      RelevantAreReached(rules[1..], m);
      var at :| ArePositions(at, Relevant(rules[1..], m), rules[1..], m);
      if !Fits(rules[0], m) {
        PositionsSkip(at, Relevant(rules[1..], m), rules, m);
        assert ArePositions(Shifted(at), Relevant(rules, m), rules, m);
      } else if rules[0].continues {
        PositionsTake(at, Relevant(rules[1..], m), rules, m);
        assert ArePositions([0] + Shifted(at), Relevant(rules, m), rules, m);
      } else {
        PositionsStop(rules, m);
        assert ArePositions([0], Relevant(rules, m), rules, m);
      }
    }
  }

  lemma ReachedLater(rules: seq<Rule>, m: Metric, i: nat)
    requires 0 < i < |rules| && (Fits(rules[0], m) ==> rules[0].continues)
    ensures Reached(rules, m, i) <==> Reached(rules[1..], m, i - 1)
  {
    var rest := rules[1..];
    assert forall j | 0 < j < |rules| :: rules[j] == rest[j - 1];
    if Reached(rest, m, i - 1) {
      forall j | 0 <= j < i && Fits(rules[j], m) ensures rules[j].continues {
        assert j > 0 ==> Fits(rest[j - 1], m);
      }
    }
    if Reached(rules, m, i) {
      forall j | 0 <= j < i - 1 && Fits(rest[j], m) ensures rest[j].continues {
        assert Fits(rules[j + 1], m);
      }
    }
  }

  predicate Executes(rule: Rule, ctx: Context) {
    rule.tmpl.Some? && rule.tmpl.value(ctx).Some?
  }

  /** Each rule executes; one that stops the evaluation may have no template. */
  predicate Clean(relevant: seq<Rule>, ctx: Context) {
    forall i | 0 <= i < |relevant| ::
      Executes(relevant[i], ctx) || (relevant[i].tmpl.None? && !relevant[i].continues)
  }

  function Outputs(relevant: seq<Rule>, ctx: Context): seq<bytes> {
    if relevant == [] then []
    else
      (if Executes(relevant[0], ctx) then [relevant[0].tmpl.value(ctx).value] else [])
      + Outputs(relevant[1..], ctx)
  }

  /** Does the evaluation end at a rule that does not continue? */
  predicate Stops(relevant: seq<Rule>) {
    relevant != [] && !relevant[|relevant| - 1].continues
  }

  predicate Silenced(relevant: seq<Rule>) {
    Stops(relevant) && relevant[|relevant| - 1].tmpl.None?
  }

  /** All rules match, and all but the last continue. */
  predicate Shaped(r: seq<Rule>, m: Metric) {
    && (forall i | 0 <= i < |r| :: Matches(r[i], m))
    && (forall i | 0 <= i < |r| - 1 :: r[i].continues)
  }

  lemma {:induction false} RelevantShape(rules: seq<Rule>, m: Metric)
    ensures Shaped(Relevant(rules, m), m)
    decreases |rules|
  {
    if rules != [] {
      var rest := Relevant(rules[1..], m);
      RelevantShape(rules[1..], m);
      assert Shaped(rest, m);
    }
  }

  lemma {:induction false} EvaluateMeans(r: seq<Rule>, ctx: Context, m: Metric, paths: seq<bytes>)
    requires Shaped(r, m)
    ensures
      var e := Evaluate(r, ctx, m, paths);
      if Clean(r, ctx) then
        e == Evaluated(if Silenced(r) then [] else paths + Outputs(r, ctx), Stops(r), false)
      else e.Crash? || e.failed
    decreases |r|
  {
    if r == [] {
      assert paths + [] == paths;
    } else {
      var rest := r[1..];
      assert forall i | 0 <= i < |rest| :: rest[i] == r[i + 1];
      assert |r| > 1 ==> r[0].continues && rest[|rest| - 1] == r[|r| - 1];
      CleanCons(r, ctx);
      if Executes(r[0], ctx) {
        var path := r[0].tmpl.value(ctx).value;
        assert paths + [path] + Outputs(rest, ctx) == paths + Outputs(r, ctx);
        if r[0].continues {
          EvaluateMeans(rest, ctx, m, paths + [path]);
        }
      }
    }
  }

  lemma CleanCons(r: seq<Rule>, ctx: Context)
    requires r != []
    ensures Clean(r, ctx) <==>
              (Executes(r[0], ctx) || (r[0].tmpl.None? && !r[0].continues)) && Clean(r[1..], ctx)
  {
    var rest := r[1..];
    assert forall i | 0 <= i < |rest| :: rest[i] == r[i + 1];
    if Clean(rest, ctx) && (Executes(r[0], ctx) || (r[0].tmpl.None? && !r[0].continues)) {
      forall i | 0 <= i < |r| ensures Executes(r[i], ctx) || (r[i].tmpl.None? && !r[i].continues) {
        assert i > 0 ==> r[i] == rest[i - 1];
      }
    }
  }

  /**
   The meaning of the rules: the computation succeeds exactly when every relevant
   rule can be executed, and then gives the outputs of the matching rules up to the
   first that does not continue, followed by the default path if there is none;
   and nothing at all if that rule has no template.
   */
  lemma RulesMean(p: Params, m: Metric)
    ensures
      var ctx := ContextOf(p.templateData, m);
      var r := Relevant(p.rules, m);
      && (Clean(r, ctx) <==> Uncached(p, m).Computed? && !Uncached(p, m).failed)
      && (Clean(r, ctx) ==>
            Uncached(p, m).paths ==
              if Silenced(r) then []
              else if Stops(r) then Outputs(r, ctx)
              else Outputs(r, ctx) + [DefaultPath(m, p.format, p.prefix)])
  {
    var ctx := ContextOf(p.templateData, m);
    OnlyRelevantMatter(p.rules, ctx, m, []);
    RelevantShape(p.rules, m);
    EvaluateMeans(Relevant(p.rules, m), ctx, m, []);
    assert [] + Outputs(Relevant(p.rules, m), ctx) == Outputs(Relevant(p.rules, m), ctx);
  }

  /** Rules that can all be executed give one path each, in order. */
  lemma {:induction false} OutputsAreTheirs(r: seq<Rule>, ctx: Context)
    requires forall i | 0 <= i < |r| :: Executes(r[i], ctx)
    ensures |Outputs(r, ctx)| == |r|
    ensures forall i | 0 <= i < |r| :: r[i].tmpl.Some? && r[i].tmpl.value(ctx) == Some(Outputs(r, ctx)[i])
    decreases |r|
  {
    if r != [] {
      OutputsAreTheirs(r[1..], ctx);
      assert forall i | 0 < i < |r| :: r[i] == r[1..][i - 1];
    }
  }

  /** Rule f of these is the first that cannot be executed. */
  predicate FailsAt(r: seq<Rule>, ctx: Context, f: nat) {
    && f < |r| && (forall i | 0 <= i < f :: Executes(r[i], ctx))
    && !Executes(r[f], ctx) && !(r[f].tmpl.None? && !r[f].continues)
  }

  lemma {:induction false} EvaluateFails(r: seq<Rule>, ctx: Context, m: Metric, paths: seq<bytes>, f: nat)
    requires Shaped(r, m) && FailsAt(r, ctx, f)
    ensures Evaluate(r, ctx, m, paths) ==
            if r[f].tmpl.None? then Crash else Evaluated(paths + Outputs(r[..f], ctx), !r[f].continues, true)
    decreases |r|
  {
    if f == 0 {
      assert paths + [] == paths;
    } else {
      var rest := r[1..];
      assert forall i | 0 <= i < |rest| :: rest[i] == r[i + 1];
      var path := r[0].tmpl.value(ctx).value;
      EvaluateFails(rest, ctx, m, paths + [path], f - 1);
      assert r[..f][1..] == rest[..f - 1];
      assert paths + [path] + Outputs(rest[..f - 1], ctx) == paths + Outputs(r[..f], ctx);
    }
  }

  lemma {:induction false} SomeRuleFails(r: seq<Rule>, ctx: Context, m: Metric) returns (f: nat)
    requires Shaped(r, m) && !Clean(r, ctx)
    ensures FailsAt(r, ctx, f)
    decreases |r|
  {
    CleanCons(r, ctx);
    if Executes(r[0], ctx) || (r[0].tmpl.None? && !r[0].continues) {
      var rest := r[1..];
      assert forall i | 0 <= i < |rest| :: rest[i] == r[i + 1];
      f := SomeRuleFails(rest, ctx, m);
      f := f + 1;
      assert forall i | 0 < i < |r| :: r[i] == rest[i - 1];
    } else {
      f := 0;
    }
  }

  /**
   If not every relevant rule can be executed, the first that cannot ends it: without a
   template the process crashes; with one the paths of the rules before it are given with
   the error, followed by the default path exactly if the failing rule continues.
   */
  lemma RulesFail(p: Params, m: Metric) returns (f: nat)
    requires !Clean(Relevant(p.rules, m), ContextOf(p.templateData, m))
    ensures
      var ctx, r := ContextOf(p.templateData, m), Relevant(p.rules, m);
      && FailsAt(r, ctx, f)
      && Uncached(p, m) ==
           if r[f].tmpl.None? then Crashed
           else if r[f].continues then
             Computed(Outputs(r[..f], ctx) + [DefaultPath(m, p.format, p.prefix)], true)
           else Computed(Outputs(r[..f], ctx), true)
  {
    var ctx, r := ContextOf(p.templateData, m), Relevant(p.rules, m);
    OnlyRelevantMatter(p.rules, ctx, m, []);
    RelevantShape(p.rules, m);
    f := SomeRuleFails(r, ctx, m);
    EvaluateFails(r, ctx, m, [], f);
    assert [] + Outputs(r[..f], ctx) == Outputs(r[..f], ctx);
  }

  /** Without rules there is the default path. */
  lemma NoRules(p: Params, m: Metric)
    requires p.rules == []
    ensures Uncached(p, m) == Computed([DefaultPath(m, p.format, p.prefix)], false)
  {
  }
}
