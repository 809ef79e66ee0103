/**
 Metric paths: the printer `defaultPath` (client/graphite/paths/write.go) and the
 parser `MetricLabelsFromPath` (client/graphite/paths/read.go).
 */
module Paths {
  import opened Bytes
  import opened Wrappers
  import opened Escape

  type Metric = map<bytes, bytes>

  datatype Format = FormatCarbon | FormatCarbonTags | FormatCarbonOpenMetrics

  datatype Label = Label(name: bytes, value: bytes)

  /** "__name__" */
  const METRIC_NAME: bytes := [95, 95, 110, 97, 109, 101, 95, 95]

  lemma MetricNameIsSpelt()
    ensures Text(METRIC_NAME) == "__name__"
  {
    assert "__name__" == ['_', '_', 'n', 'a', 'm', 'e', '_', '_'];
  }

  /** Reading a missing key of a Go map of strings gives "". */
  function Lookup(m: Metric, name: bytes): bytes {
    if name in m then m[name] else []
  }

  // ------------------------------------------------------------- the printer

  /** The labels that are printed, in order: all but the metric name. */
  function LabelNames(m: Metric): seq<bytes> {
    Sorted(m.Keys - {METRIC_NAME, []})
  }

  function LabelsOf(m: Metric, names: seq<bytes>): seq<Label> {
    seq(|names|, i requires 0 <= i < |names| => Label(names[i], Lookup(m, names[i])))
  }

  function Labels(m: Metric): seq<Label> {
    LabelsOf(m, LabelNames(m))
  }

  function LabelText(format: Format, l: Label, first: bool): bytes {
    match format
    case FormatCarbonOpenMetrics =>
      (if first then [] else [COMMA]) + l.name + [EQUALS, QUOTE] + Escaped(l.value) + [QUOTE]
    case FormatCarbonTags =>
      [SEMICOLON] + l.name + [EQUALS] + EscapedTagged(l.value)
    case FormatCarbon =>
      [DOT] + l.name + [DOT] + Escaped(l.value)
  }

  /** The text of one label in each format, in characters. */
  lemma LabelIsSpelt(l: Label, first: bool)
    ensures
      var name, value, tagged := Text(l.name), Text(Escaped(l.value)), Text(EscapedTagged(l.value));
      && Text(LabelText(FormatCarbon, l, first)) == "." + name + "." + value
      && Text(LabelText(FormatCarbonTags, l, first)) == ";" + name + "=" + tagged
      && Text(LabelText(FormatCarbonOpenMetrics, l, first)) ==
           (if first then "" else ",") + name + "=\"" + value + "\""
  {
    assert Text([DOT]) == "." && Text([SEMICOLON]) == ";" && Text([EQUALS]) == "=";
    assert Text([COMMA]) == "," && Text([EQUALS, QUOTE]) == "=\"" && Text([QUOTE]) == "\"";
    TextsJoin([DOT], l.name, [DOT], Escaped(l.value), []);
    TextsJoin([SEMICOLON], l.name, [EQUALS], EscapedTagged(l.value), []);
    TextsJoin(if first then [] else [COMMA], l.name, [EQUALS, QUOTE], Escaped(l.value), [QUOTE]);
    assert [DOT] + l.name + [DOT] + Escaped(l.value) + [] == LabelText(FormatCarbon, l, first);
    assert [SEMICOLON] + l.name + [EQUALS] + EscapedTagged(l.value) + [] == LabelText(FormatCarbonTags, l, first);
  }

  lemma TextsJoin(a: bytes, b: bytes, c: bytes, d: bytes, e: bytes)
    ensures Text(a + b + c + d + e) == Text(a) + Text(b) + Text(c) + Text(d) + Text(e)
  {
    TextConcat(a, b);
    TextConcat(a + b, c);
    TextConcat(a + b + c, d);
    TextConcat(a + b + c + d, e);
  }

  function Printer(format: Format): (Label, bool) -> bytes {
    (l, first) => LabelText(format, l, first)
  }

  /** The texts of the labels one after another; only the first one is `first`. */
  function Print(text: (Label, bool) -> bytes, ls: seq<Label>, first: bool): bytes {
    if ls == [] then [] else text(ls[0], first) + Print(text, ls[1..], false)
  }

  /** The labels as they follow the metric name. */
  function Suffix(format: Format, ls: seq<Label>): bytes {
    var text := Print(Printer(format), ls, true);
    if text != [] && format == FormatCarbonOpenMetrics then [LBRACE] + text + [RBRACE] else text
  }

  function DefaultPath(m: Metric, format: Format, prefix: bytes): bytes {
    prefix + Escaped(Lookup(m, METRIC_NAME)) + Suffix(format, Labels(m))
  }

  /** The names the loop does not skip. */
  function Printed(names: seq<bytes>): seq<bytes> {
    if names == [] then []
    else (if names[0] == METRIC_NAME || names[0] == [] then [] else [names[0]]) + Printed(names[1..])
  }

  lemma {:induction false} PrintedIsSorted(names: seq<bytes>)
    requires StrictlySorted(names)
    ensures forall k :: k in Printed(names) <==> k in names && k != METRIC_NAME && k != []
    ensures StrictlySorted(Printed(names))
    decreases |names|
  {
    if names != [] {
      PrintedIsSorted(names[1..]);
      var rest := Printed(names[1..]);
      assert forall i | 0 <= i < |rest| :: rest[i] in rest && rest[i] in names[1..];
      assert names == [names[0]] + names[1..];
    }
  }

  /** Skipping while looping over all sorted names leaves the sorted printed ones. */
  lemma PrintedNames(m: Metric)
    ensures Printed(Sorted(m.Keys)) == LabelNames(m)
  {
    PrintedIsSorted(Sorted(m.Keys));
    assert forall k :: k in Printed(Sorted(m.Keys)) <==> k in m.Keys - {METRIC_NAME, []};
    SortedUnique(m.Keys - {METRIC_NAME, []}, Printed(Sorted(m.Keys)));
  }

  /** The body of the label loop: the switch on the format. */
  method PrintLabel(format: Format, k: bytes, v: bytes, first: bool) returns (text: bytes)
    ensures text == LabelText(format, Label(k, v), first)
  {
    match format
    case FormatCarbonOpenMetrics =>
      text := [];
      if !first {
        text := text + [COMMA];
      }
      var val := Escape.Escape(v);
      text := text + k + [EQUALS, QUOTE] + val + [QUOTE];
    case FormatCarbonTags =>
      var val := EscapeTagged(v);
      text := [SEMICOLON] + k + [EQUALS] + val;
    case FormatCarbon =>
      var val := Escape.Escape(v);
      text := [DOT] + k + [DOT] + val;
  }

  /** What the label loop still has to print at the names that are left. */
  function Rest(text: (Label, bool) -> bytes, m: Metric, names: seq<bytes>, first: bool): bytes {
    if names == [] then []
    else if names[0] == METRIC_NAME || names[0] == [] then Rest(text, m, names[1..], first)
    else
      text(Label(names[0], Lookup(m, names[0])), first) + Rest(text, m, names[1..], false)
  }

  lemma LabelsOfCons(m: Metric, k: bytes, names: seq<bytes>)
    ensures LabelsOf(m, [k] + names) == [Label(k, Lookup(m, k))] + LabelsOf(m, names)
  {
  }

  lemma PrintCons(text: (Label, bool) -> bytes, l: Label, ls: seq<Label>, first: bool)
    ensures Print(text, [l] + ls, first) == text(l, first) + Print(text, ls, false)
  {
    assert ([l] + ls)[1..] == ls;
  }

  lemma {:induction false} RestIsPrint(text: (Label, bool) -> bytes, m: Metric, names: seq<bytes>, first: bool)
    ensures Rest(text, m, names, first) == Print(text, LabelsOf(m, Printed(names)), first)
    decreases |names|
  {
    if names != [] {
      var k, rest := names[0], Printed(names[1..]);
      if k == METRIC_NAME || k == [] {
        RestIsPrint(text, m, names[1..], first);
        assert [] + rest == rest;
      } else {
        RestIsPrint(text, m, names[1..], false);
        LabelsOfCons(m, k, rest);
        PrintCons(text, Label(k, Lookup(m, k)), LabelsOf(m, rest), first);
      }
    }
  }

  /** The label loop: the sorted names, skipping the metric name. */
  method PrintLabels(m: Metric, format: Format) returns (lbuffer: bytes)
    ensures lbuffer == Rest(Printer(format), m, Sorted(m.Keys), true)
  {
    var labels := Sorted(m.Keys);
    lbuffer := [];
    var first := true;
    var left := labels;
    ghost var printer := Printer(format);
    while left != []
      invariant lbuffer + Rest(printer, m, left, first) == Rest(printer, m, labels, true)
      decreases |left|
    {
      var k := left[0];
      left := left[1..];
      if k == METRIC_NAME || |k| == 0 {
        continue;
      }
      var text := PrintLabel(format, k, Lookup(m, k), first);
      assert text == printer(Label(k, Lookup(m, k)), first);
      ConcatAssociates(lbuffer, text, Rest(printer, m, left, false));
      lbuffer := lbuffer + text;
      first := false;
    }
  }

  lemma SuffixIsRest(m: Metric, format: Format)
    ensures
      var text := Rest(Printer(format), m, Sorted(m.Keys), true);
      Suffix(format, Labels(m)) ==
        if text != [] && format == FormatCarbonOpenMetrics then [LBRACE] + text + [RBRACE] else text
  {
    RestIsPrint(Printer(format), m, Sorted(m.Keys), true);
    PrintedNames(m);
  }

  method BuildDefaultPath(m: Metric, format: Format, prefix: bytes) returns (path: bytes)
    ensures path == DefaultPath(m, format, prefix)
  {
    var lbuffer := PrintLabels(m, format);
    SuffixIsRest(m, format);
    ghost var suffix := Suffix(format, Labels(m));
    var metricNameLabel := Escape.Escape(Lookup(m, METRIC_NAME));
    path := prefix + metricNameLabel;
    if |lbuffer| > 0 {
      if format == FormatCarbonOpenMetrics {
        lbuffer := [LBRACE] + lbuffer + [RBRACE];
      }
      path := path + lbuffer;
    }
    assert path == prefix + metricNameLabel + suffix;
  }

  // -------------------------------------------------------------- the parser

  datatype ParseError = OddNumberOfNodes

  function PairUp(nodes: seq<bytes>): seq<Label>
    requires |nodes| % 2 == 0
  {
    if nodes == [] then []
    else [Label(Unescaped(nodes[0]), Unescaped(nodes[1]))] + PairUp(nodes[2..])
  }

  function Nodes(path: bytes, prefix: bytes): (nodes: seq<bytes>)
    ensures nodes != []
  {
    Split(Trim(TrimPrefix(path, prefix), DOT), DOT)
  }

  function MetricLabels(path: bytes, prefix: bytes): Result<seq<Label>, ParseError> {
    var nodes := Nodes(path, prefix);
    if |nodes[1..]| % 2 != 0 then Err(OddNumberOfNodes)
    else Ok([Label(METRIC_NAME, nodes[0])] + PairUp(nodes[1..]))
  }

  /** Nodes 2i and 2i + 1, both unescaped, are label i. */
  lemma {:induction false} PairUpMeans(nodes: seq<bytes>)
    requires |nodes| % 2 == 0
    ensures 2 * |PairUp(nodes)| == |nodes|
    ensures forall i | 0 <= i < |PairUp(nodes)| ::
              PairUp(nodes)[i] == Label(Unescaped(nodes[2 * i]), Unescaped(nodes[2 * i + 1]))
    decreases |nodes|
  {
    if nodes != [] {
      PairUpMeans(nodes[2..]);
      assert forall i | 0 < i < |PairUp(nodes)| :: PairUp(nodes)[i] == PairUp(nodes[2..])[i - 1];
    }
  }

  method MetricLabelsFromPath(path: bytes, prefix: bytes)
    returns (r: Result<seq<Label>, ParseError>)
    ensures r == MetricLabels(path, prefix)
  {
    var nodes := Split(Trim(TrimPrefix(path, prefix), DOT), DOT);
    var labels := [Label(METRIC_NAME, nodes[0])];
    if |nodes[1..]| % 2 != 0 {
      return Err(OddNumberOfNodes);
    }
    var left := nodes[1..];
    ghost var front := labels;
    while left != []
      invariant |left| % 2 == 0
      invariant labels + PairUp(left) == front + PairUp(nodes[1..])
      decreases |left|
    {
      var name := Unescape(left[0]);
      var value := Unescape(left[1]);
      PairUpStep(labels, Label(name, value), PairUp(left[2..]));
      labels := labels + [Label(name, value)];
      left := left[2..];
    }
    assert labels + [] == labels;
    return Ok(labels);
  }

  lemma PairUpStep(labels: seq<Label>, l: Label, rest: seq<Label>)
    ensures labels + ([l] + rest) == labels + [l] + rest
  {
  }

  // ----------------------------------------------------- facts about labels

  predicate IsNameByte(b: byte) {
    48 <= b <= 57 || 65 <= b <= 90 || 97 <= b <= 122 || b == UNDERSCORE
  }

  /** A Prometheus label name: letters, digits and underscores. */
  predicate IsLabelName(k: bytes) {
    k != [] && forall i | 0 <= i < |k| :: IsNameByte(k[i])
  }

  predicate ValidNames(m: Metric) {
    forall k | k in m :: IsLabelName(k)
  }

  predicate ValidLabels(ls: seq<Label>) {
    forall i | 0 <= i < |ls| :: IsLabelName(ls[i].name)
  }

  /** The printed labels are exactly the entries of the metric but its name. */
  lemma LabelsOfMetric(m: Metric)
    ensures forall l :: l in Labels(m) <==>
              l.name in m && l.name != METRIC_NAME && l.name != [] && l.value == m[l.name]
    ensures forall i, j | 0 <= i < j < |Labels(m)| :: Labels(m)[i].name != Labels(m)[j].name
    ensures ValidNames(m) ==> ValidLabels(Labels(m))
  {
    var names, ls := LabelNames(m), Labels(m);
    forall l: Label | l.name in m && l.name != METRIC_NAME && l.name != [] && l.value == m[l.name]
      ensures l in ls
    {
      assert l.name in names;
      var i :| 0 <= i < |names| && names[i] == l.name;
      assert ls[i] == l;
    }
    assert forall i | 0 <= i < |ls| :: ls[i].name in names;
  }

  /** Do the two metrics have the same labels, the metric name aside? */
  predicate SameLabels(m: Metric, m': Metric) {
    && (forall k | k in m && k != METRIC_NAME :: k in m' && m'[k] == m[k])
    && (forall k | k in m' && k != METRIC_NAME :: k in m)
  }

  /** A metric is determined by its name and its printed labels. */
  lemma LabelsDetermine(m: Metric, m': Metric)
    requires ValidNames(m) && ValidNames(m')
    ensures Labels(m) == Labels(m') <==> SameLabels(m, m')
  {
    if Labels(m) == Labels(m') {
      EntriesListed(m, m');
      EntriesListed(m', m);
    }
    if SameLabels(m, m') {
      SameLabelList(m, m');
    }
  }

  lemma SameLabelList(m: Metric, m': Metric)
    requires SameLabels(m, m')
    ensures Labels(m) == Labels(m')
  {
    SameLabelNames(m, m');
    assert forall k | k in LabelNames(m) :: Lookup(m, k) == Lookup(m', k);
    SameLabelValues(m, m', LabelNames(m));
  }

  lemma SameLabelValues(m: Metric, m': Metric, names: seq<bytes>)
    requires forall k | k in names :: Lookup(m, k) == Lookup(m', k)
    ensures LabelsOf(m, names) == LabelsOf(m', names)
  {
    assert forall i | 0 <= i < |names| :: names[i] in names;
  }

  lemma SameLabelNames(m: Metric, m': Metric)
    requires SameLabels(m, m')
    ensures LabelNames(m) == LabelNames(m')
  {
    assert m.Keys - {METRIC_NAME, []} == m'.Keys - {METRIC_NAME, []};
  }

  lemma EntriesListed(m: Metric, m': Metric)
    requires ValidNames(m) && Labels(m) == Labels(m')
    ensures forall k | k in m && k != METRIC_NAME :: k in m' && m'[k] == m[k]
  {
    LabelsOfMetric(m);
    LabelsOfMetric(m');
    forall k | k in m && k != METRIC_NAME ensures k in m' && m'[k] == m[k] {
      assert Label(k, m[k]) in Labels(m);
    }
  }
}
