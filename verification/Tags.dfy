/**
 The tag format: its paths, and reading labels back from the tags that Graphite
 takes from a path (client/graphite/paths/read.go, MetricLabelsFromTags).
 */
module Tags {
  import opened Bytes
  import opened Escape
  import opened Paths
  import opened QueryFilter

  /** "name", the tag under which Graphite keeps the metric name. */
  const NAME_TAG: bytes := [110, 97, 109, 101]

  lemma NameTagIsSpelt()
    ensures Text(NAME_TAG) == "name"
  {
    assert "name" == ['n', 'a', 'm', 'e'];
  }

  // ---------------------------------------------------------- reading tags back

  function LabelFromTag(tags: map<bytes, bytes>, prefix: bytes, k: bytes): Label {
    if k == NAME_TAG then Label(METRIC_NAME, TrimPrefix(Lookup(tags, k), prefix))
    else Label(k, Lookup(tags, k))
  }

  function TagReader(tags: map<bytes, bytes>, prefix: bytes): bytes -> Label {
    (k: bytes) => LabelFromTag(tags, prefix, k)
  }

  function ReadAll(read: bytes -> Label, names: seq<bytes>): seq<Label> {
    seq(|names|, i requires 0 <= i < |names| => read(names[i]))
  }

  function LabelsFromTags(tags: map<bytes, bytes>, prefix: bytes, names: seq<bytes>): seq<Label> {
    ReadAll(TagReader(tags, prefix), names)
  }

  lemma ReadAllCons(read: bytes -> Label, k: bytes, names: seq<bytes>)
    ensures ReadAll(read, [k] + names) == [read(k)] + ReadAll(read, names)
  {
  }

  method MetricLabelsFromTags(tags: map<bytes, bytes>, prefix: bytes) returns (labels: seq<Label>)
    ensures labels == LabelsFromTags(tags, prefix, Sorted(tags.Keys))
  {
    labels := [];
    var names := Sorted(tags.Keys);
    var left := names;
    assert [] + LabelsFromTags(tags, prefix, left) == LabelsFromTags(tags, prefix, left);
    while left != []
      invariant labels + LabelsFromTags(tags, prefix, left) == LabelsFromTags(tags, prefix, names)
      decreases |left|
    {
      var k := left[0];
      var v := Lookup(tags, k);
      ReadAllCons(TagReader(tags, prefix), k, left[1..]);
      assert left == [k] + left[1..];
      PairUpStep(labels, LabelFromTag(tags, prefix, k), LabelsFromTags(tags, prefix, left[1..]));
      if k == NAME_TAG {
        v := TrimPrefix(v, prefix);
        labels := labels + [Label(METRIC_NAME, v)];
      } else {
        labels := labels + [Label(k, v)];
      }
      left := left[1..];
    }
    assert labels + [] == labels;
  }

  // ------------------------------------------------- how Graphite reads a path

  /** The text before and after the first separator. */
  function Cut(s: bytes, sep: byte): Label {
    if s == [] then Label([], [])
    else if s[0] == sep then Label([], s[1..])
    else var rest := Cut(s[1..], sep); Label([s[0]] + rest.name, rest.value)
  }

  /** "name;k=v;..." is the tag `name` and one tag for each k. */
  function TagsOfPath(path: bytes): map<bytes, bytes> {
    var nodes := Split(path, SEMICOLON);
    LabelMap([Label(NAME_TAG, nodes[0])] + CutAll(nodes[1..]))
  }

  function CutAll(nodes: seq<bytes>): seq<Label> {
    if nodes == [] then [] else [Cut(nodes[0], EQUALS)] + CutAll(nodes[1..])
  }

  lemma {:induction false} CutFirst(a: bytes, sep: byte, b: bytes)
    requires sep !in a
    ensures Cut(a + ([sep] + b), sep) == Label(a, b)
    decreases |a|
  {
    var s := a + ([sep] + b);
    if a == [] {
      assert s[1..] == b;
    } else {
      CutFirst(a[1..], sep, b);
      assert s[1..] == a[1..] + ([sep] + b);
      assert [a[0]] + a[1..] == a;
    }
  }

  // -------------------------------------------------------- the path as nodes

  function TagNode(l: Label): bytes {
    l.name + ([EQUALS] + EscapedTagged(l.value))
  }

  function TagNodes(ls: seq<Label>): seq<bytes> {
    seq(|ls|, i requires 0 <= i < |ls| => TagNode(ls[i]))
  }

  function TagText(ls: seq<Label>): bytes {
    if ls == [] then [] else [SEMICOLON] + (TagNode(ls[0]) + TagText(ls[1..]))
  }

  lemma {:induction false} PrintTags(ls: seq<Label>, first: bool)
    ensures Print(Printer(FormatCarbonTags), ls, first) == TagText(ls)
    decreases |ls|
  {
    if ls != [] {
      PrintTags(ls[1..], false);
      var n, v, rest := ls[0].name, EscapedTagged(ls[0].value), TagText(ls[1..]);
      assert [SEMICOLON] + n + [EQUALS] + v + rest == [SEMICOLON] + ((n + ([EQUALS] + v)) + rest);
    }
  }

  lemma NodeIsFree(l: Label)
    requires IsLabelName(l.name)
    ensures SEMICOLON !in TagNode(l) && EQUALS !in l.name
  {
    EscapedTaggedAlphabet(l.value);
  }

  lemma {:induction false} SplitTags(a: bytes, ls: seq<Label>)
    requires SEMICOLON !in a && ValidLabels(ls)
    ensures Split(a + TagText(ls), SEMICOLON) == [a] + TagNodes(ls)
    decreases |ls|
  {
    if ls == [] {
      SplitWhole(a, SEMICOLON);
      assert a + [] == a;
    } else {
      NodeIsFree(ls[0]);
      SplitTags(TagNode(ls[0]), ls[1..]);
      SplitFirst(a, SEMICOLON, TagNode(ls[0]) + TagText(ls[1..]));
      assert TagNodes(ls) == [TagNode(ls[0])] + TagNodes(ls[1..]);
    }
  }

  predicate NoSemicolons(m: Metric, prefix: bytes) {
    SEMICOLON !in prefix && SEMICOLON !in Lookup(m, METRIC_NAME)
  }

  lemma {:induction false} EscapedKeepsFree(s: bytes, c: byte)
    requires c !in s && (c == SEMICOLON || c == SPACE || c == NEWLINE)
    ensures c !in Escaped(s)
    decreases |s|
  {
    if s != [] {
      EscapedKeepsFree(s[1..], c);
      assert s[0] in s;
    }
  }

  /** A tag path cut at ';' is the metric name and one "key=value" a label, in order. */
  lemma TagPathNodes(m: Metric, prefix: bytes)
    requires ValidNames(m) && NoSemicolons(m, prefix)
    ensures Split(DefaultPath(m, FormatCarbonTags, prefix), SEMICOLON)
            == [prefix + Escaped(Lookup(m, METRIC_NAME))] + TagNodes(Labels(m))
  {
    LabelsOfMetric(m);
    PrintTags(Labels(m), true);
    EscapedKeepsFree(Lookup(m, METRIC_NAME), SEMICOLON);
    SplitTags(prefix + Escaped(Lookup(m, METRIC_NAME)), Labels(m));
  }

  // ------------------------------------------------------------- one full trip

  /** The labels with their values as the tag format writes them. */
  function Tagged(ls: seq<Label>): seq<Label> {
    seq(|ls|, i requires 0 <= i < |ls| => Label(ls[i].name, EscapedTagged(ls[i].value)))
  }

  lemma TagsOfDefaultPath(m: Metric, prefix: bytes)
    requires ValidNames(m) && NoSemicolons(m, prefix)
    ensures TagsOfPath(DefaultPath(m, FormatCarbonTags, prefix))
            == LabelMap([Label(NAME_TAG, prefix + Escaped(Lookup(m, METRIC_NAME)))] + Tagged(Labels(m)))
  {
    TagPathNodes(m, prefix);
    LabelsOfMetric(m);
    CutTagNodes(Labels(m));
    var first := prefix + Escaped(Lookup(m, METRIC_NAME));
    assert ([first] + TagNodes(Labels(m)))[1..] == TagNodes(Labels(m));
  }

  lemma {:induction false} CutTagNodes(ls: seq<Label>)
    requires ValidLabels(ls)
    ensures CutAll(TagNodes(ls)) == Tagged(ls)
    decreases |ls|
  {
    if ls != [] {
      NodeIsFree(ls[0]);
      CutFirst(ls[0].name, EQUALS, EscapedTagged(ls[0].value));
      CutTagNodes(ls[1..]);
      assert TagNodes(ls)[1..] == TagNodes(ls[1..]);
      assert Tagged(ls) == [Tagged(ls)[0]] + Tagged(ls[1..]);
    }
  }

  lemma {:induction false} LabelMapKeys(ls: seq<Label>, k: bytes)
    ensures k in LabelMap(ls) <==> exists i :: 0 <= i < |ls| && ls[i].name == k
    decreases |ls|
  {
    if ls != [] {
      LabelMapKeys(ls[..|ls| - 1], k);
    }
  }

  /** Do the tags answer for k as the path of the metric says? */
  predicate TagFits(m: Metric, prefix: bytes, tags: map<bytes, bytes>, k: bytes) {
    && (k in tags <==> k == NAME_TAG || (k in m && k != METRIC_NAME))
    && (k == NAME_TAG ==> Lookup(tags, k) == prefix + Escaped(Lookup(m, METRIC_NAME)))
    && (k in m && k != METRIC_NAME ==> Lookup(tags, k) == EscapedTagged(m[k]))
  }

  lemma TagLookup(m: Metric, prefix: bytes, k: bytes)
    requires ValidNames(m) && NoSemicolons(m, prefix) && NAME_TAG !in m
    ensures TagFits(m, prefix, TagsOfPath(DefaultPath(m, FormatCarbonTags, prefix)), k)
  {
    TagsOfDefaultPath(m, prefix);
    LabelsOfMetric(m);
    var ls := Labels(m);
    if k != NAME_TAG && k != METRIC_NAME && k in m {
      assert Label(k, m[k]) in ls;
    } else {
      assert forall i | 0 <= i < |ls| :: ls[i] in ls;
    }
    ListedLookup(Label(NAME_TAG, prefix + Escaped(Lookup(m, METRIC_NAME))), ls, k);
  }

  lemma ListedLookup(head: Label, ls: seq<Label>, k: bytes)
    requires forall i, j | 0 <= i < j < |ls| :: ls[i].name != ls[j].name
    requires forall i | 0 <= i < |ls| :: ls[i].name != head.name
    ensures
      var tags := LabelMap([head] + Tagged(ls));
      && (k in tags <==> k == head.name || exists i :: 0 <= i < |ls| && ls[i].name == k)
      && (k == head.name ==> Lookup(tags, k) == head.value)
      && forall l | l in ls && l.name == k :: Lookup(tags, k) == EscapedTagged(l.value)
  {
    var all := [head] + Tagged(ls);
    LabelMapKeys(all, k);
    if i :| 0 <= i < |ls| && ls[i].name == k {
      assert all[i + 1].name == k;
      LabelMapTail(head, Tagged(ls), i);
    } else {
      assert all[0] == head;
      LabelMapHead(head, Tagged(ls), k);
    }
  }

  /** The metric as it is read back from tags. */
  function MetricFromTags(tags: map<bytes, bytes>, prefix: bytes): Metric {
    LabelMap(LabelsFromTags(tags, prefix, Sorted(tags.Keys)))
  }

  lemma RereadLookup(m: Metric, prefix: bytes, tags: map<bytes, bytes>, k: bytes)
    requires NAME_TAG !in m && forall n :: TagFits(m, prefix, tags, n)
    ensures
      var r := MetricFromTags(tags, prefix);
      && (k in r <==> k == METRIC_NAME || k in m)
      && (k == METRIC_NAME ==> Lookup(r, k) == Escaped(Lookup(m, METRIC_NAME)))
      && (k in m && k != METRIC_NAME ==> Lookup(r, k) == EscapedTagged(m[k]))
  {
    var names := Sorted(tags.Keys);
    var tag := if k == METRIC_NAME then NAME_TAG else k;
    assert TagFits(m, prefix, tags, tag) && TagFits(m, prefix, tags, METRIC_NAME);
    if tag in tags && k != NAME_TAG {
      TagRead(tags, prefix, names, tag);
      var v := prefix + Escaped(Lookup(m, METRIC_NAME));
      assert v[|prefix|..] == Escaped(Lookup(m, METRIC_NAME));
    } else {
      TagUnread(tags, prefix, names, k);
    }
  }

  lemma TagRead(tags: map<bytes, bytes>, prefix: bytes, names: seq<bytes>, tag: bytes)
    requires tag in names && METRIC_NAME !in names && StrictlySorted(names)
    ensures
      var l := LabelFromTag(tags, prefix, tag);
      var r := LabelMap(LabelsFromTags(tags, prefix, names));
      l.name in r && Lookup(r, l.name) == l.value
  {
    var ls := LabelsFromTags(tags, prefix, names);
    var i :| 0 <= i < |names| && names[i] == tag;
    LabelMapKeys(ls, ls[i].name);
    assert forall j | 0 <= j < |names| :: names[j] in names;
    LabelMapHit(ls, i);
  }

  lemma TagUnread(tags: map<bytes, bytes>, prefix: bytes, names: seq<bytes>, k: bytes)
    requires k !in names || k == NAME_TAG
    requires k != METRIC_NAME
    ensures k !in LabelMap(LabelsFromTags(tags, prefix, names))
  {
    LabelMapKeys(LabelsFromTags(tags, prefix, names), k);
    assert forall j | 0 <= j < |names| :: names[j] in names;
  }

  lemma RereadNames(m: Metric, prefix: bytes, tags: map<bytes, bytes>)
    requires NAME_TAG !in m && forall n :: TagFits(m, prefix, tags, n)
    ensures LabelNames(MetricFromTags(tags, prefix)) == LabelNames(m)
  {
    var r := MetricFromTags(tags, prefix);
    forall k ensures k in r <==> k == METRIC_NAME || k in m {
      RereadLookup(m, prefix, tags, k);
    }
    assert r.Keys - {METRIC_NAME, []} == m.Keys - {METRIC_NAME, []};
  }

  lemma RereadValues(m: Metric, prefix: bytes, tags: map<bytes, bytes>, names: seq<bytes>)
    requires NAME_TAG !in m && forall n :: TagFits(m, prefix, tags, n)
    requires forall k | k in names :: k in m && k != METRIC_NAME
    ensures forall i | 0 <= i < |names| ::
              Lookup(MetricFromTags(tags, prefix), names[i]) == EscapedTagged(Lookup(m, names[i]))
  {
    forall i | 0 <= i < |names|
      ensures Lookup(MetricFromTags(tags, prefix), names[i]) == EscapedTagged(Lookup(m, names[i]))
    {
      assert names[i] in names;
      RereadLookup(m, prefix, tags, names[i]);
    }
  }

  lemma RereadLabels(m: Metric, prefix: bytes, tags: map<bytes, bytes>)
    requires NAME_TAG !in m && forall n :: TagFits(m, prefix, tags, n)
    ensures Labels(MetricFromTags(tags, prefix)) == Tagged(Labels(m))
  {
    RereadNames(m, prefix, tags);
    RereadValues(m, prefix, tags, LabelNames(m));
    TaggedLabels(m, MetricFromTags(tags, prefix), LabelNames(m));
  }

  lemma TaggedLabels(m: Metric, r: Metric, names: seq<bytes>)
    requires forall i | 0 <= i < |names| :: Lookup(r, names[i]) == EscapedTagged(Lookup(m, names[i]))
    ensures LabelsOf(r, names) == Tagged(LabelsOf(m, names))
  {
  }

  lemma {:induction false} TagTextStable(ls: seq<Label>)
    ensures TagText(Tagged(ls)) == TagText(ls)
    decreases |ls|
  {
    if ls != [] {
      TagTextStable(ls[1..]);
      EscapedTaggedIdempotent(ls[0].value);
      assert Tagged(ls)[1..] == Tagged(ls[1..]);
    }
  }

  lemma {:induction false} EscapedPlain(s: bytes)
    requires AllPlain(Escaped(s))
    ensures AllPlain(s)
    decreases |s|
  {
    if s != [] {
      var code, rest := EscapedByte(s[0]), Escaped(s[1..]);
      assert forall i | 0 <= i < |rest| :: rest[i] == Escaped(s)[|code| + i];
      EscapedPlain(s[1..]);
      assert Escaped(s)[0] == code[0];
      assert IsPlain(s[0]);
      assert s == [s[0]] + s[1..];
    }
  }

  /** The metric as it is read back from the tags of its own path. */
  function Reread(m: Metric, prefix: bytes): Metric {
    MetricFromTags(TagsOfPath(DefaultPath(m, FormatCarbonTags, prefix)), prefix)
  }

  /**
   The tag format settles after one trip: a metric read back from the tags of its
   path writes that same path again exactly when escaping leaves its name alone,
   whatever the values.
   */
  lemma TagTripStable(m: Metric, prefix: bytes)
    requires ValidNames(m) && NoSemicolons(m, prefix) && NAME_TAG !in m
    ensures DefaultPath(Reread(m, prefix), FormatCarbonTags, prefix) == DefaultPath(m, FormatCarbonTags, prefix)
            <==> AllPlain(Lookup(m, METRIC_NAME))
  {
    var name := Lookup(m, METRIC_NAME);
    var tags := TagsOfPath(DefaultPath(m, FormatCarbonTags, prefix));
    forall k ensures TagFits(m, prefix, tags, k) {
      TagLookup(m, prefix, k);
    }
    RereadLookup(m, prefix, tags, METRIC_NAME);
    RereadLabels(m, prefix, tags);
    TaggedPath(prefix, name, Labels(m));
  }

  lemma TaggedPath(prefix: bytes, name: bytes, ls: seq<Label>)
    ensures prefix + Escaped(Escaped(name)) + Suffix(FormatCarbonTags, Tagged(ls))
            == prefix + Escaped(name) + Suffix(FormatCarbonTags, ls)
            <==> AllPlain(name)
  {
    PrintTags(ls, true);
    PrintTags(Tagged(ls), true);
    TagTextStable(ls);
    SameMiddle(prefix, Escaped(Escaped(name)), Escaped(name), TagText(ls));
    EscapedFixed(Escaped(name));
    EscapedFixed(name);
    if AllPlain(Escaped(name)) {
      EscapedPlain(name);
    }
  }

  lemma SameMiddle(p: bytes, a: bytes, b: bytes, t: bytes)
    ensures p + a + t == p + b + t <==> a == b
  {
    if p + a + t == p + b + t {
      assert |a| == |b|;
      assert a == (p + a + t)[|p|..|p| + |a|] && b == (p + b + t)[|p|..|p| + |b|];
    }
  }

  // ------------------------------------------------- what is lost, and what collides

  predicate TagPlain(m: Metric) {
    && AllPlain(Lookup(m, METRIC_NAME))
    && forall k | k in m && k != METRIC_NAME :: AllTagPlain(m[k])
  }

  /**
   Reading the tags of a path back restores every label exactly when escaping leaves
   the name alone and tag escaping every value.
   */
  lemma RereadExactly(m: Metric, prefix: bytes)
    requires ValidNames(m) && NoSemicolons(m, prefix) && NAME_TAG !in m
    ensures (forall k :: Lookup(Reread(m, prefix), k) == Lookup(m, k)) <==> TagPlain(m)
  {
    var tags := TagsOfPath(DefaultPath(m, FormatCarbonTags, prefix));
    forall k ensures TagFits(m, prefix, tags, k) {
      TagLookup(m, prefix, k);
    }
    EscapedFixed(Lookup(m, METRIC_NAME));
    forall k
      ensures Lookup(Reread(m, prefix), k) == Lookup(m, k) <==>
                if k == METRIC_NAME then AllPlain(Lookup(m, METRIC_NAME)) else k in m ==> AllTagPlain(m[k])
    {
      RereadLookup(m, prefix, tags, k);
      EscapedTaggedFixed(Lookup(m, k));
    }
  }

  lemma SameCons<T>(x: T, xs: seq<T>, y: T, ys: seq<T>)
    ensures [x] + xs == [y] + ys <==> x == y && xs == ys
  {
    assert ([x] + xs)[0] == x && ([x] + xs)[1..] == xs;
    assert ([y] + ys)[0] == y && ([y] + ys)[1..] == ys;
  }

  lemma {:induction false} TagTextOfNodes(ls: seq<Label>, ls': seq<Label>)
    requires TagNodes(ls) == TagNodes(ls')
    ensures TagText(ls) == TagText(ls')
    decreases |ls|
  {
    assert |ls| == |TagNodes(ls)| == |ls'|;
    if ls != [] {
      assert TagNode(ls[0]) == TagNodes(ls)[0] == TagNodes(ls')[0];
      assert TagNodes(ls[1..]) == TagNodes(ls)[1..] == TagNodes(ls')[1..] == TagNodes(ls'[1..]);
      TagTextOfNodes(ls[1..], ls'[1..]);
    }
  }

  /**
   Two metrics share a tag path exactly when their names are the same up to folding
   and their labels, as they are written, are the same.
   */
  lemma TagPathCollides(m: Metric, m': Metric, prefix: bytes)
    requires ValidNames(m) && ValidNames(m') && NoSemicolons(m, prefix) && NoSemicolons(m', prefix)
    ensures DefaultPath(m, FormatCarbonTags, prefix) == DefaultPath(m', FormatCarbonTags, prefix) <==>
              && Folded(Lookup(m, METRIC_NAME)) == Folded(Lookup(m', METRIC_NAME))
              && TagNodes(Labels(m)) == TagNodes(Labels(m'))
  {
    var e, e' := Escaped(Lookup(m, METRIC_NAME)), Escaped(Lookup(m', METRIC_NAME));
    TagPathNodes(m, prefix);
    TagPathNodes(m', prefix);
    SameCons(prefix + e, TagNodes(Labels(m)), prefix + e', TagNodes(Labels(m')));
    PrefixCancels(prefix, e, e');
    EscapeCollides(Lookup(m, METRIC_NAME), Lookup(m', METRIC_NAME));
    PrintTags(Labels(m), true);
    PrintTags(Labels(m'), true);
    if e == e' && TagNodes(Labels(m)) == TagNodes(Labels(m')) {
      TagTextOfNodes(Labels(m), Labels(m'));
    }
  }
}
