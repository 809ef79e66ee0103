/**
 What parsing a default path gives back, exactly, and which metrics share a path.
 */
module PathRoundTrip {
  import opened Bytes
  import opened Wrappers
  import opened Escape
  import opened Paths

  // ------------------------------------------------ a Carbon path cut at dots

  /** The labels of a Carbon path: ".name.value" each. */
  function CarbonText(ls: seq<Label>): bytes {
    if ls == [] then []
    else [DOT] + (ls[0].name + ([DOT] + (Escaped(ls[0].value) + CarbonText(ls[1..]))))
  }

  lemma {:induction false} PrintCarbon(ls: seq<Label>, first: bool)
    ensures Print(Printer(FormatCarbon), ls, first) == CarbonText(ls)
    decreases |ls|
  {
    if ls != [] {
      PrintCarbon(ls[1..], false);
      var n, v, rest := ls[0].name, Escaped(ls[0].value), CarbonText(ls[1..]);
      assert [DOT] + n + [DOT] + v + rest == [DOT] + (n + ([DOT] + (v + rest)));
    }
  }

  function NodesOf(ls: seq<Label>): seq<bytes> {
    if ls == [] then [] else [ls[0].name, Escaped(ls[0].value)] + NodesOf(ls[1..])
  }

  lemma NoDots(l: Label)
    requires IsLabelName(l.name)
    ensures DOT !in l.name && DOT !in Escaped(l.value)
  {
    EscapedAlphabet(l.value);
  }

  lemma {:induction false} SplitCarbon(a: bytes, ls: seq<Label>)
    requires DOT !in a && ValidLabels(ls)
    ensures Split(a + CarbonText(ls), DOT) == [a] + NodesOf(ls)
    decreases |ls|
  {
    if ls == [] {
      SplitWhole(a, DOT);
      assert a + [] == a;
    } else {
      NoDots(ls[0]);
      SplitCarbon(Escaped(ls[0].value), ls[1..]);
      SplitStep(a, ls[0].name, Escaped(ls[0].value), CarbonText(ls[1..]), NodesOf(ls[1..]));
    }
  }

  lemma SplitStep(a: bytes, n: bytes, v: bytes, rest: bytes, nodes: seq<bytes>)
    requires DOT !in a && DOT !in n
    requires Split(v + rest, DOT) == [v] + nodes
    ensures Split(a + ([DOT] + (n + ([DOT] + (v + rest)))), DOT) == [a] + ([n, v] + nodes)
  {
    SplitFirst(n, DOT, v + rest);
    SplitFirst(a, DOT, n + ([DOT] + (v + rest)));
    assert [n] + ([v] + nodes) == [n, v] + nodes;
  }

  lemma {:induction false} NodesCount(ls: seq<Label>)
    ensures |NodesOf(ls)| == 2 * |ls|
    decreases |ls|
  {
    if ls != [] {
      NodesCount(ls[1..]);
    }
  }

  /** The labels as the parser restores them. */
  function Restored(ls: seq<Label>): seq<Label> {
    seq(|ls|, i requires 0 <= i < |ls| => Label(ls[i].name, Unescaped(Escaped(ls[i].value))))
  }

  lemma LabelNamesArePlain(k: bytes)
    requires IsLabelName(k)
    ensures Escaped(k) == k && Unescaped(k) == k && NoLowByte(k)
  {
    assert AllPlain(k) && NoLowByte(k) && NoArmour(k);
    EscapedFixed(k);
    UnescapedEscaped(k);
    StrippedFixed(k);
  }

  lemma {:induction false} PairNodes(ls: seq<Label>)
    requires ValidLabels(ls)
    ensures |NodesOf(ls)| % 2 == 0 && PairUp(NodesOf(ls)) == Restored(ls)
    decreases |ls|
  {
    NodesCount(ls);
    if ls != [] {
      var rest := NodesOf(ls[1..]);
      NodesCount(ls[1..]);
      PairNodes(ls[1..]);
      PairLabel(ls[0], rest);
      RestoredCons(ls);
      assert NodesOf(ls) == [ls[0].name, Escaped(ls[0].value)] + rest;
    }
  }

  lemma PairLabel(l: Label, rest: seq<bytes>)
    requires IsLabelName(l.name) && |rest| % 2 == 0
    ensures |[l.name, Escaped(l.value)] + rest| % 2 == 0
    ensures PairUp([l.name, Escaped(l.value)] + rest)
            == [Label(l.name, Unescaped(Escaped(l.value)))] + PairUp(rest)
  {
    LabelNamesArePlain(l.name);
    PairUpCons(l.name, Escaped(l.value), rest);
  }

  lemma PairUpCons(n: bytes, v: bytes, nodes: seq<bytes>)
    requires |nodes| % 2 == 0
    ensures PairUp([n, v] + nodes) == [Label(Unescaped(n), Unescaped(v))] + PairUp(nodes)
  {
    assert ([n, v] + nodes)[2..] == nodes;
  }

  lemma RestoredCons(ls: seq<Label>)
    requires ls != []
    ensures Restored(ls) == [Label(ls[0].name, Unescaped(Escaped(ls[0].value)))] + Restored(ls[1..])
  {
  }

  // ---------------------------------------------------------------- trimming

  lemma TrimKeeps(s: bytes, c: byte)
    requires s != [] ==> s[0] != c && s[|s| - 1] != c
    ensures Trim(s, c) == s
  {
  }

  lemma TrimDropsLast(s: bytes, c: byte)
    requires s != [] && s[0] != c && s[|s| - 1] != c
    ensures Trim(s + [c], c) == s
  {
    assert TrimLeft(s + [c], c) == s + [c];
    assert (s + [c])[..|s|] == s;
    assert TrimRight(s, c) == s;
  }

  lemma TrimDropsFirst(s: bytes, c: byte)
    requires s != [] && s[0] != c
    ensures Trim([c] + s, c) == TrimRight(s, c)
  {
    assert ([c] + s)[1..] == s;
    assert TrimLeft(s, c) == s;
  }

  // -------------------------------------------------------- the three outcomes

  /** A Carbon path after its prefix. */
  function Body(name: bytes, ls: seq<Label>): bytes {
    Escaped(name) + CarbonText(ls)
  }

  lemma PathBody(prefix: bytes, name: bytes, ls: seq<Label>)
    ensures TrimPrefix(prefix + Escaped(name) + Suffix(FormatCarbon, ls), prefix) == Body(name, ls)
  {
    PrintCarbon(ls, true);
    ConcatAssociates(prefix, Escaped(name), CarbonText(ls));
    assert (prefix + Body(name, ls))[|prefix|..] == Body(name, ls);
  }

  /** No dot at the end, to be trimmed. */
  predicate EndsClean(s: bytes) {
    s != [] && s[|s| - 1] != DOT
  }

  lemma EndKept(a: bytes, b: bytes)
    requires EndsClean(b)
    ensures EndsClean(a + b)
  {
  }

  lemma LabelEnd(n: bytes, end: bytes)
    requires EndsClean(end)
    ensures EndsClean([DOT] + (n + ([DOT] + end)))
  {
    EndKept([DOT], end);
    EndKept(n, [DOT] + end);
    EndKept([DOT], n + ([DOT] + end));
  }

  lemma ValueEnd(value: bytes)
    requires value != []
    ensures EndsClean(Escaped(value))
  {
    EscapedAlphabet(value);
    EscapedLength(value);
    var v := Escaped(value);
    assert v[|v| - 1] in v;
  }

  lemma {:induction false} CarbonTextEnd(ls: seq<Label>)
    requires ls != [] && ls[|ls| - 1].value != []
    ensures EndsClean(CarbonText(ls))
    decreases |ls|
  {
    var v, rest := Escaped(ls[0].value), CarbonText(ls[1..]);
    if |ls| == 1 {
      ValueEnd(ls[0].value);
      assert v + rest == v;
    } else {
      CarbonTextEnd(ls[1..]);
      EndKept(v, rest);
    }
    LabelEnd(ls[0].name, v + rest);
  }

  lemma {:induction false} CarbonTextSnoc(ls: seq<Label>, l: Label)
    ensures CarbonText(ls + [l]) == CarbonText(ls) + ([DOT] + (l.name + ([DOT] + Escaped(l.value))))
    decreases |ls|
  {
    if ls == [] {
      assert ls + [l] == [l] && [l][1..] == [];
      assert CarbonText([l][1..]) == [];
    } else {
      CarbonTextSnoc(ls[1..], l);
      assert (ls + [l])[1..] == ls[1..] + [l] && (ls + [l])[0] == ls[0];
      CarbonRegroup(ls[0].name, Escaped(ls[0].value), CarbonText(ls[1..]),
                    [DOT] + (l.name + ([DOT] + Escaped(l.value))));
    }
  }

  lemma CarbonRegroup(n: bytes, v: bytes, rest: bytes, x: bytes)
    ensures [DOT] + (n + ([DOT] + (v + (rest + x)))) == [DOT] + (n + ([DOT] + (v + rest))) + x
  {
    ConcatAssociates(v, rest, x);
    ConcatAssociates([DOT], v + rest, x);
    ConcatAssociates(n, [DOT] + (v + rest), x);
    ConcatAssociates([DOT], n + ([DOT] + (v + rest)), x);
  }

  /** Is there nothing for the parser's trimming of outer dots to damage? */
  predicate TrimSafe(name: bytes, ls: seq<Label>) {
    ls == [] || (name != [] && ls[|ls| - 1].value != [])
  }

  function Parsed(prefix: bytes, name: bytes, ls: seq<Label>): Result<seq<Label>, ParseError> {
    MetricLabels(prefix + Escaped(name) + Suffix(FormatCarbon, ls), prefix)
  }

  lemma BodyEnds(name: bytes, ls: seq<Label>)
    requires TrimSafe(name, ls)
    ensures
      var b := Body(name, ls);
      b != [] ==> b[0] != DOT && b[|b| - 1] != DOT
  {
    var e := Escaped(name);
    EscapedAlphabet(name);
    EscapedLength(name);
    assert e != [] ==> e[0] in e && e[|e| - 1] in e;
    if ls != [] {
      CarbonTextEnd(ls);
    }
  }

  /**
   The image of the parser on default paths: the escaped name, and every label
   with its value escaped and unescaped.
   */
  lemma CarbonParse(prefix: bytes, name: bytes, ls: seq<Label>)
    requires ValidLabels(ls) && TrimSafe(name, ls)
    ensures Parsed(prefix, name, ls) == Ok([Label(METRIC_NAME, Escaped(name))] + Restored(ls))
  {
    PathBody(prefix, name, ls);
    BodyEnds(name, ls);
    TrimKeeps(Body(name, ls), DOT);
    EscapedAlphabet(name);
    SplitCarbon(Escaped(name), ls);
    PairNodes(ls);
    assert ([Escaped(name)] + NodesOf(ls))[1..] == NodesOf(ls);
  }

  lemma ClippedBody(name: bytes, before: seq<Label>, l: Label)
    requires l.value == []
    ensures Body(name, before + [l]) == Body(name, before) + ([DOT] + l.name) + [DOT]
  {
    CarbonTextSnoc(before, l);
    assert [DOT] + Escaped(l.value) == [DOT];
    Regroup(Escaped(name), CarbonText(before), l.name);
  }

  lemma Regroup(a: bytes, t: bytes, n: bytes)
    ensures a + (t + ([DOT] + (n + [DOT]))) == a + t + ([DOT] + n) + [DOT]
  {
  }

  lemma ClippedEnds(name: bytes, before: seq<Label>, l: Label)
    requires name != [] && IsLabelName(l.name)
    ensures
      var s := Body(name, before) + ([DOT] + l.name);
      s != [] && s[0] != DOT && s[|s| - 1] != DOT
  {
    EscapedAlphabet(name);
    EscapedLength(name);
    assert Escaped(name)[0] in Escaped(name) && IsNameByte(l.name[|l.name| - 1]);
  }

  lemma ClippedNodes(name: bytes, before: seq<Label>, l: Label)
    requires ValidLabels(before) && IsLabelName(l.name)
    ensures |Split(Body(name, before) + ([DOT] + l.name), DOT)| % 2 == 0
  {
    NoDots(l);
    NoDotsInName(name);
    SplitSnoc(Body(name, before), l.name);
    SplitCarbon(Escaped(name), before);
    NodesCount(before);
  }

  lemma NoDotsInName(name: bytes)
    ensures DOT !in Escaped(name)
  {
    EscapedAlphabet(name);
  }

  lemma PathNodes(prefix: bytes, name: bytes, ls: seq<Label>)
    ensures Nodes(prefix + Escaped(name) + Suffix(FormatCarbon, ls), prefix)
            == Split(Trim(Body(name, ls), DOT), DOT)
  {
    PathBody(prefix, name, ls);
  }

  /** After a name a last value that is empty loses its node to the trimming of dots. */
  lemma EmptyLastValueFails(prefix: bytes, name: bytes, ls: seq<Label>)
    requires ValidLabels(ls) && name != [] && ls != [] && ls[|ls| - 1].value == []
    ensures Parsed(prefix, name, ls) == Err(OddNumberOfNodes)
  {
    PathNodes(prefix, name, ls);
    EvenNodes(name, ls);
    NodesParse(prefix + Escaped(name) + Suffix(FormatCarbon, ls), prefix);
  }

  lemma EvenNodes(name: bytes, ls: seq<Label>)
    requires ValidLabels(ls) && name != [] && ls != [] && ls[|ls| - 1].value == []
    ensures |Split(Trim(Body(name, ls), DOT), DOT)| % 2 == 0
  {
    var before, l := ls[..|ls| - 1], ls[|ls| - 1];
    assert ls == before + [l];
    assert ValidLabels(before);
    ClippedBody(name, before, l);
    ClippedEnds(name, before, l);
    TrimDropsLast(Body(name, before) + ([DOT] + l.name), DOT);
    ClippedNodes(name, before, l);
  }

  lemma {:induction false} SplitSnoc(a: bytes, b: bytes)
    requires DOT !in b
    ensures Split(a + ([DOT] + b), DOT) == Split(a, DOT) + [b]
    decreases |a|
  {
    var s := a + ([DOT] + b);
    if a == [] {
      SplitWhole(b, DOT);
      assert s[1..] == b;
    } else {
      SplitSnoc(a[1..], b);
      assert s[1..] == a[1..] + ([DOT] + b);
    }
  }

  /** A path without a name starts with a dot, which is trimmed. */
  lemma NamelessNodes(s: bytes, nodes: seq<bytes>)
    requires EndsClean(s) && s[0] != DOT && Split([DOT] + s, DOT) == [[]] + nodes
    ensures Split(Trim([DOT] + s, DOT), DOT) == nodes
    ensures Split(Trim([DOT] + (s + [DOT]), DOT), DOT) == nodes
  {
    TrimDropsFirst(s, DOT);
    TrimDropsFirst(s + [DOT], DOT);
    assert (s + [DOT])[..|s|] == s;
    SplitFirst([], DOT, s);
    assert [] + ([DOT] + s) == [DOT] + s;
    assert ([[]] + Split(s, DOT))[1..] == Split(s, DOT) && ([[]] + nodes)[1..] == nodes;
  }

  lemma NamelessClosed(ls: seq<Label>)
    requires ValidLabels(ls) && ls != [] && ls[|ls| - 1].value != []
    ensures Split(Trim(CarbonText(ls), DOT), DOT) == NodesOf(ls)
  {
    var s := CarbonText(ls)[1..];
    CarbonTextEnd(ls);
    SplitCarbon([], ls);
    assert [] + CarbonText(ls) == CarbonText(ls) == [DOT] + s;
    LabelFront(ls[0].name, Escaped(ls[0].value) + CarbonText(ls[1..]));
    NamelessNodes(s, NodesOf(ls));
  }

  lemma LabelFront(n: bytes, rest: bytes)
    requires IsLabelName(n)
    ensures
      var s := ([DOT] + (n + ([DOT] + rest)))[1..];
      s == n + ([DOT] + rest) && s != [] && s[0] != DOT
  {
    assert IsNameByte(n[0]);
  }

  lemma ClippedSplit(before: seq<Label>, n: bytes)
    requires ValidLabels(before) && IsLabelName(n)
    ensures Split(CarbonText(before) + ([DOT] + n), DOT) == [[]] + (NodesOf(before) + [n])
  {
    assert DOT !in n;
    SplitSnoc(CarbonText(before), n);
    SplitCarbon([], before);
    assert [] + CarbonText(before) == CarbonText(before);
    assert [[]] + NodesOf(before) + [n] == [[]] + (NodesOf(before) + [n]);
  }

  lemma ClippedClean(before: seq<Label>, n: bytes)
    requires ValidLabels(before) && IsLabelName(n)
    ensures
      var t := CarbonText(before) + ([DOT] + n);
      |t| > 1 && t == [DOT] + t[1..] && EndsClean(t[1..]) && t[1] != DOT
  {
    assert IsNameByte(n[|n| - 1]);
    EndKept([DOT], n);
    EndKept(CarbonText(before), [DOT] + n);
    TextFront(before, n);
  }

  lemma NamelessOpen(before: seq<Label>, l: Label)
    requires ValidLabels(before) && IsLabelName(l.name) && l.value == []
    ensures Split(Trim(CarbonText(before + [l]), DOT), DOT) == NodesOf(before) + [l.name]
  {
    var t := CarbonText(before) + ([DOT] + l.name);
    CarbonTextSnoc(before, l);
    ClippedClean(before, l.name);
    ClippedSplit(before, l.name);
    NamelessNodes(t[1..], NodesOf(before) + [l.name]);
    ConcatAssociates([DOT], t[1..], [DOT]);
    ClippedRegroup(CarbonText(before), l.name);
  }

  lemma ClippedRegroup(t: bytes, n: bytes)
    ensures t + ([DOT] + (n + ([DOT] + Escaped([])))) == t + ([DOT] + n) + [DOT]
  {
    assert [DOT] + Escaped([]) == [DOT];
    ConcatAssociates([DOT], n, [DOT]);
    ConcatAssociates(t, [DOT] + n, [DOT]);
  }

  lemma TextFront(before: seq<Label>, n: bytes)
    requires ValidLabels(before) && IsLabelName(n)
    ensures
      var t := CarbonText(before) + ([DOT] + n);
      |t| > 1 && t[0] == DOT && t[1] != DOT
  {
    assert IsNameByte(n[0]);
    if before != [] {
      LabelFront(before[0].name, Escaped(before[0].value) + CarbonText(before[1..]));
      assert CarbonText(before)[1] == CarbonText(before)[1..][0];
    }
  }

  /**
   With labels but no metric name the first label name is taken for it, exactly when
   the last value is empty; otherwise the path does not parse.
   */
  lemma EmptyNameMisread(prefix: bytes, ls: seq<Label>)
    requires ValidLabels(ls) && ls != []
    ensures
      var r := Parsed(prefix, [], ls);
      && (r.Ok? <==> ls[|ls| - 1].value == [])
      && (r.Ok? ==> r.value[0] == Label(METRIC_NAME, ls[0].name))
  {
    if ls[|ls| - 1].value == [] {
      NamelessParses(prefix, ls);
    } else {
      NamelessFails(prefix, ls);
    }
  }

  lemma NamelessNodeList(prefix: bytes, ls: seq<Label>)
    ensures Nodes(prefix + Escaped([]) + Suffix(FormatCarbon, ls), prefix)
            == Split(Trim(CarbonText(ls), DOT), DOT)
  {
    PathNodes(prefix, [], ls);
    assert Body([], ls) == CarbonText(ls);
  }

  lemma NamelessFails(prefix: bytes, ls: seq<Label>)
    requires ValidLabels(ls) && ls != [] && ls[|ls| - 1].value != []
    ensures Parsed(prefix, [], ls).Err?
  {
    NamelessNodeList(prefix, ls);
    NamelessClosed(ls);
    ClosedShape(ls, NodesOf(ls));
    NodesParse(prefix + Escaped([]) + Suffix(FormatCarbon, ls), prefix);
  }

  lemma NamelessParses(prefix: bytes, ls: seq<Label>)
    requires ValidLabels(ls) && ls != [] && ls[|ls| - 1].value == []
    ensures
      var r := Parsed(prefix, [], ls);
      r.Ok? && r.value[0] == Label(METRIC_NAME, ls[0].name)
  {
    NamelessNodeList(prefix, ls);
    OpenParses(prefix + Escaped([]) + Suffix(FormatCarbon, ls), prefix, ls);
  }

  lemma OpenParses(path: bytes, prefix: bytes, ls: seq<Label>)
    requires ValidLabels(ls) && ls != [] && ls[|ls| - 1].value == []
    requires Nodes(path, prefix) == Split(Trim(CarbonText(ls), DOT), DOT)
    ensures
      var r := MetricLabels(path, prefix);
      r.Ok? && r.value[0] == Label(METRIC_NAME, ls[0].name)
  {
    var nodes := Nodes(path, prefix);
    SplitLast(ls);
    OpenShape(ls[..|ls| - 1], ls[|ls| - 1], ls, nodes);
    OddNodesParse(path, prefix, nodes, ls[0].name);
  }

  lemma SplitLast(ls: seq<Label>)
    requires ls != []
    ensures ls == ls[..|ls| - 1] + [ls[|ls| - 1]]
  {
  }

  lemma OddNodesParse(path: bytes, prefix: bytes, nodes: seq<bytes>, n: bytes)
    requires Nodes(path, prefix) == nodes && |nodes| % 2 == 1 && nodes[0] == n
    ensures MetricLabels(path, prefix).Ok? && MetricLabels(path, prefix).value[0] == Label(METRIC_NAME, n)
  {
    NodesParse(path, prefix);
  }

  lemma OpenShape(before: seq<Label>, l: Label, ls: seq<Label>, nodes: seq<bytes>)
    requires ValidLabels(ls) && ls == before + [l] && l.value == []
    requires nodes == Split(Trim(CarbonText(ls), DOT), DOT)
    ensures |nodes| % 2 == 1 && nodes[0] == ls[0].name
  {
    assert ValidLabels(before) by {
      assert forall i | 0 <= i < |before| :: before[i] == ls[i];
    }
    assert ls[|before|] == l;
    NamelessOpen(before, l);
    ClippedShape(before, l.name, nodes);
  }

  lemma ClippedShape(before: seq<Label>, n: bytes, nodes: seq<bytes>)
    requires nodes == NodesOf(before) + [n]
    ensures |nodes| % 2 == 1 && nodes[0] == if before == [] then n else before[0].name
  {
    NodesCount(before);
  }

  lemma ClosedShape(ls: seq<Label>, nodes: seq<bytes>)
    requires ls != [] && nodes == NodesOf(ls)
    ensures nodes != [] && |nodes| % 2 == 0 && nodes[0] == ls[0].name
  {
    NodesCount(ls);
  }

  lemma NodesParse(path: bytes, prefix: bytes)
    ensures
      var nodes, r := Nodes(path, prefix), MetricLabels(path, prefix);
      && (r.Ok? <==> |nodes| % 2 == 1)
      && (r.Ok? ==> r.value[0] == Label(METRIC_NAME, nodes[0]))
  {
  }

  /**
   A default Carbon path does not parse exactly when it has labels and just one of
   the metric name and the last value is empty.
   */
  lemma ParseFailsExactly(prefix: bytes, name: bytes, ls: seq<Label>)
    requires ValidLabels(ls)
    ensures Parsed(prefix, name, ls).Err? <==>
              ls != [] && (name == [] <==> ls[|ls| - 1].value != [])
  {
    if TrimSafe(name, ls) {
      CarbonParse(prefix, name, ls);
    } else if name == [] {
      EmptyNameMisread(prefix, ls);
    } else {
      EmptyLastValueFails(prefix, name, ls);
    }
  }

  // -------------------------------------------------------------- round trip

  /** What a caller can check of a metric to know that its path reads back. */
  predicate RoundTrips(m: Metric) {
    && AllPlain(Lookup(m, METRIC_NAME))
    && TrimSafe(Lookup(m, METRIC_NAME), Labels(m))
    && forall i | 0 <= i < |Labels(m)| ::
         NoLowByte(Labels(m)[i].value) && NoArmour(Labels(m)[i].value)
  }

  /** The name and then the labels in sorted order. */
  function Contents(m: Metric): seq<Label> {
    [Label(METRIC_NAME, Lookup(m, METRIC_NAME))] + Labels(m)
  }

  lemma RestoredExactly(ls: seq<Label>)
    ensures Restored(ls) == ls <==>
              forall i | 0 <= i < |ls| :: NoLowByte(ls[i].value) && NoArmour(ls[i].value)
  {
    forall i | 0 <= i < |ls|
      ensures Restored(ls)[i] == ls[i] <==> NoLowByte(ls[i].value) && NoArmour(ls[i].value)
    {
      EscapeRoundTrip(ls[i].value);
    }
  }

  /**
   Parsing the default Carbon path of a metric with valid label names returns the
   name and the labels, in order, exactly when the metric satisfies `RoundTrips`;
   for every prefix.
   */
  lemma CarbonRoundTrip(m: Metric, prefix: bytes)
    requires ValidNames(m)
    ensures MetricLabels(DefaultPath(m, FormatCarbon, prefix), prefix) == Ok(Contents(m))
            <==> RoundTrips(m)
  {
    LabelsOfMetric(m);
    ParsedExactly(prefix, Lookup(m, METRIC_NAME), Labels(m));
  }

  /** Which metrics' paths parse at all, to whatever labels. */
  lemma DefaultPathFailsExactly(m: Metric, prefix: bytes)
    requires ValidNames(m)
    ensures
      var name, ls := Lookup(m, METRIC_NAME), Labels(m);
      MetricLabels(DefaultPath(m, FormatCarbon, prefix), prefix).Err? <==>
        ls != [] && (name == [] <==> ls[|ls| - 1].value != [])
  {
    LabelsOfMetric(m);
    ParseFailsExactly(prefix, Lookup(m, METRIC_NAME), Labels(m));
  }

  lemma ParsedExactly(prefix: bytes, name: bytes, ls: seq<Label>)
    requires ValidLabels(ls)
    ensures Parsed(prefix, name, ls) == Ok([Label(METRIC_NAME, name)] + ls) <==>
              && AllPlain(name)
              && TrimSafe(name, ls)
              && forall i | 0 <= i < |ls| :: NoLowByte(ls[i].value) && NoArmour(ls[i].value)
  {
    if TrimSafe(name, ls) {
      CarbonParse(prefix, name, ls);
      EscapedFixed(name);
      RestoredExactly(ls);
      SameCons(Label(METRIC_NAME, Escaped(name)), Restored(ls), Label(METRIC_NAME, name), ls);
    } else if name == [] {
      EmptyNameMisread(prefix, ls);
      assert ([Label(METRIC_NAME, name)] + ls)[0].value == [] && IsLabelName(ls[0].name);
    } else {
      EmptyLastValueFails(prefix, name, ls);
    }
  }

  lemma SameCons(x: Label, xs: seq<Label>, y: Label, ys: seq<Label>)
    ensures [x] + xs == [y] + ys <==> x == y && xs == ys
  {
    assert ([x] + xs)[0] == x && ([y] + ys)[0] == y;
    assert ([x] + xs)[1..] == xs && ([y] + ys)[1..] == ys;
  }

  // -------------------------------------------------------------- injectivity

  /** What of the labels, and of a metric, its path determines: the values up to folding. */
  function FoldedLabels(ls: seq<Label>): seq<Label> {
    seq(|ls|, i requires 0 <= i < |ls| => Label(ls[i].name, Folded(ls[i].value)))
  }

  function FoldedMetric(m: Metric): Metric {
    map k | k in m :: Folded(m[k])
  }

  predicate NoLowBytes(m: Metric) {
    forall k | k in m :: NoLowByte(m[k])
  }

  lemma FoldedLabelsCons(ls: seq<Label>)
    requires ls != []
    ensures FoldedLabels(ls) == [Label(ls[0].name, Folded(ls[0].value))] + FoldedLabels(ls[1..])
  {
  }

  lemma FoldedLabelsSame(ls: seq<Label>, ls': seq<Label>)
    requires ls != [] && ls' != []
    ensures FoldedLabels(ls) == FoldedLabels(ls') <==>
              && ls[0].name == ls'[0].name && Folded(ls[0].value) == Folded(ls'[0].value)
              && FoldedLabels(ls[1..]) == FoldedLabels(ls'[1..])
  {
    FoldedLabelsCons(ls);
    FoldedLabelsCons(ls');
    SameCons(FoldedLabels(ls)[0], FoldedLabels(ls[1..]), FoldedLabels(ls')[0], FoldedLabels(ls'[1..]));
  }

  /** A label name, a separator, an escaped value and whatever stops it. */
  lemma LabelDecodable(sep: bytes, n: bytes, v: bytes, x: bytes, n': bytes, v': bytes, x': bytes)
    requires IsLabelName(n) && IsLabelName(n') && sep != [] && Stops(sep) && Stops(x) && Stops(x')
    ensures n + (sep + (Escaped(v) + x)) == n' + (sep + (Escaped(v') + x'))
            <==> n == n' && Folded(v) == Folded(v') && x == x'
  {
    var y, y' := sep + (Escaped(v) + x), sep + (Escaped(v') + x');
    LabelNamesArePlain(n);
    LabelNamesArePlain(n');
    FoldedFixed(n);
    FoldedFixed(n');
    assert y[0] == sep[0] && y'[0] == sep[0];
    UniquelyDecodable(n, y, n', y');
    PrefixCancels(sep, Escaped(v) + x, Escaped(v') + x');
    UniquelyDecodable(v, x, v', x');
  }

  lemma CarbonTextStops(ls: seq<Label>)
    ensures Stops(CarbonText(ls))
    ensures CarbonText(ls) == [] <==> ls == []
  {
  }

  lemma {:induction false} CarbonTextInjective(ls: seq<Label>, ls': seq<Label>)
    requires ValidLabels(ls) && ValidLabels(ls')
    ensures CarbonText(ls) == CarbonText(ls') <==> FoldedLabels(ls) == FoldedLabels(ls')
    decreases |ls|
  {
    CarbonTextStops(ls);
    CarbonTextStops(ls');
    if ls != [] && ls' != [] {
      var l, l', x, x' := ls[0], ls'[0], CarbonText(ls[1..]), CarbonText(ls'[1..]);
      CarbonTextStops(ls[1..]);
      CarbonTextStops(ls'[1..]);
      LabelDecodable([DOT], l.name, l.value, x, l'.name, l'.value, x');
      PrefixCancels([DOT], l.name + ([DOT] + (Escaped(l.value) + x)), l'.name + ([DOT] + (Escaped(l'.value) + x')));
      CarbonTextInjective(ls[1..], ls'[1..]);
      FoldedLabelsSame(ls, ls');
    } else {
      assert |FoldedLabels(ls)| == |ls| && |FoldedLabels(ls')| == |ls'|;
    }
  }

  /** The labels of an OpenMetrics path up to and including the closing brace. */
  function OpenText(ls: seq<Label>, first: bool): bytes {
    if ls == [] then [RBRACE]
    else
      (if first then [] else [COMMA])
      + (ls[0].name + ([EQUALS, QUOTE] + (Escaped(ls[0].value) + ([QUOTE] + OpenText(ls[1..], false)))))
  }

  lemma {:induction false} PrintOpen(ls: seq<Label>, first: bool)
    ensures Print(Printer(FormatCarbonOpenMetrics), ls, first) + [RBRACE] == OpenText(ls, first)
    decreases |ls|
  {
    if ls != [] {
      PrintOpen(ls[1..], false);
      var c, n, v := if first then [] else [COMMA], ls[0].name, Escaped(ls[0].value);
      OpenRegroup(c, n, v, Print(Printer(FormatCarbonOpenMetrics), ls[1..], false));
    }
  }

  lemma OpenRegroup(c: bytes, n: bytes, v: bytes, rest: bytes)
    ensures c + n + [EQUALS, QUOTE] + v + [QUOTE] + rest + [RBRACE]
            == c + (n + ([EQUALS, QUOTE] + (v + ([QUOTE] + (rest + [RBRACE])))))
  {
  }

  lemma {:induction false} OpenTextInjective(ls: seq<Label>, ls': seq<Label>, first: bool)
    requires ValidLabels(ls) && ValidLabels(ls')
    ensures OpenText(ls, first) == OpenText(ls', first) <==> FoldedLabels(ls) == FoldedLabels(ls')
    decreases |ls|
  {
    if ls != [] && ls' != [] {
      var l, l' := ls[0], ls'[0];
      var t, t' := OpenText(ls[1..], false), OpenText(ls'[1..], false);
      var c := if first then [] else [COMMA];
      LabelDecodable([EQUALS, QUOTE], l.name, l.value, [QUOTE] + t, l'.name, l'.value, [QUOTE] + t');
      PrefixCancels(c, l.name + ([EQUALS, QUOTE] + (Escaped(l.value) + ([QUOTE] + t))),
                    l'.name + ([EQUALS, QUOTE] + (Escaped(l'.value) + ([QUOTE] + t'))));
      PrefixCancels([QUOTE], t, t');
      OpenTextInjective(ls[1..], ls'[1..], false);
      FoldedLabelsSame(ls, ls');
    } else {
      OpenTextStart(ls, first);
      OpenTextStart(ls', first);
      assert |FoldedLabels(ls)| == |ls| && |FoldedLabels(ls')| == |ls'|;
    }
  }

  lemma OpenTextStart(ls: seq<Label>, first: bool)
    requires ValidLabels(ls)
    ensures OpenText(ls, first)[0] == RBRACE <==> ls == []
  {
    assert ls != [] && first ==> OpenText(ls, first)[0] == ls[0].name[0];
  }

  lemma SuffixStops(format: Format, ls: seq<Label>)
    requires !format.FormatCarbonTags?
    ensures Stops(Suffix(format, ls))
  {
    if format == FormatCarbon {
      PrintCarbon(ls, true);
    }
  }

  lemma SuffixInjective(format: Format, ls: seq<Label>, ls': seq<Label>)
    requires !format.FormatCarbonTags? && ValidLabels(ls) && ValidLabels(ls')
    ensures Suffix(format, ls) == Suffix(format, ls') <==> FoldedLabels(ls) == FoldedLabels(ls')
  {
    if format == FormatCarbon {
      PrintCarbon(ls, true);
      PrintCarbon(ls', true);
      CarbonTextInjective(ls, ls');
    } else {
      OpenSuffix(ls);
      OpenSuffix(ls');
      PrefixCancels([LBRACE], OpenText(ls, true), OpenText(ls', true));
      OpenTextInjective(ls, ls', true);
      assert |FoldedLabels(ls)| == |ls| && |FoldedLabels(ls')| == |ls'|;
    }
  }

  lemma OpenSuffix(ls: seq<Label>)
    requires ValidLabels(ls)
    ensures Suffix(FormatCarbonOpenMetrics, ls)
            == if ls == [] then [] else [LBRACE] + OpenText(ls, true)
  {
    PrintOpen(ls, true);
    var text := Print(Printer(FormatCarbonOpenMetrics), ls, true);
    if ls != [] {
      assert |OpenText(ls, true)| > |ls[0].name|;
      assert [LBRACE] + text + [RBRACE] == [LBRACE] + (text + [RBRACE]);
    }
  }

  lemma FoldedMetricLabels(m: Metric)
    ensures Labels(FoldedMetric(m)) == FoldedLabels(Labels(m))
    ensures Lookup(FoldedMetric(m), METRIC_NAME) == Folded(Lookup(m, METRIC_NAME))
    ensures ValidNames(m) ==> ValidNames(FoldedMetric(m))
  {
    assert FoldedMetric(m).Keys == m.Keys;
    var names := LabelNames(m);
    forall i | 0 <= i < |names|
      ensures Lookup(FoldedMetric(m), names[i]) == Folded(Lookup(m, names[i]))
    {
      assert names[i] in names;
    }
  }

  /**
   In the Carbon and OpenMetrics formats two metrics share a path, under one prefix,
   exactly when they have the same name and the same labels up to folding: for any
   bytes, also those that the parser cannot restore.
   */
  lemma DefaultPathInjective(m: Metric, m': Metric, format: Format, prefix: bytes)
    requires !format.FormatCarbonTags? && ValidNames(m) && ValidNames(m')
    ensures
      var f, f' := FoldedMetric(m), FoldedMetric(m');
      DefaultPath(m, format, prefix) == DefaultPath(m', format, prefix)
      <==> Lookup(f, METRIC_NAME) == Lookup(f', METRIC_NAME) && SameLabels(f, f')
  {
    FoldedMetricLabels(m);
    FoldedMetricLabels(m');
    LabelsDetermine(FoldedMetric(m), FoldedMetric(m'));
    LabelsOfMetric(m);
    LabelsOfMetric(m');
    SamePath(format, prefix, Lookup(m, METRIC_NAME), Labels(m), Lookup(m', METRIC_NAME), Labels(m'));
  }

  lemma SamePath(format: Format, prefix: bytes, n: bytes, ls: seq<Label>, n': bytes, ls': seq<Label>)
    requires !format.FormatCarbonTags? && ValidLabels(ls) && ValidLabels(ls')
    ensures prefix + Escaped(n) + Suffix(format, ls) == prefix + Escaped(n') + Suffix(format, ls')
            <==> Folded(n) == Folded(n') && FoldedLabels(ls) == FoldedLabels(ls')
  {
    var x, x' := Suffix(format, ls), Suffix(format, ls');
    ConcatAssociates(prefix, Escaped(n), x);
    ConcatAssociates(prefix, Escaped(n'), x');
    PrefixCancels(prefix, Escaped(n) + x, Escaped(n') + x');
    SuffixStops(format, ls);
    SuffixStops(format, ls');
    UniquelyDecodable(n, x, n', x');
    SuffixInjective(format, ls, ls');
  }

  lemma FoldedMetricFixed(m: Metric)
    requires NoLowBytes(m)
    ensures FoldedMetric(m) == m
  {
    forall k | k in m ensures FoldedMetric(m)[k] == m[k] {
      FoldedFixed(m[k]);
    }
  }

  /** With bytes from 0x10 up only, the same name and the same labels. */
  lemma HighPathInjective(m: Metric, m': Metric, format: Format, prefix: bytes)
    requires !format.FormatCarbonTags? && ValidNames(m) && ValidNames(m')
    requires NoLowBytes(m) && NoLowBytes(m')
    ensures DefaultPath(m, format, prefix) == DefaultPath(m', format, prefix)
            <==> Lookup(m, METRIC_NAME) == Lookup(m', METRIC_NAME) && SameLabels(m, m')
  {
    DefaultPathInjective(m, m', format, prefix);
    FoldedMetricFixed(m);
    FoldedMetricFixed(m');
  }
}
