# Verification of the Graphite remote adapter

A Dafny model of the data path of the adapter: how Prometheus metrics become Graphite
paths and come back, how samples are packed and sent to carbon, how a read request is
fanned out, filtered and interpolated, and how requests, the carbon connection and
configuration reloads share the process. Verify it with `dafny verify dfyconfig.toml`.

## The files

| file | what it models |
|---|---|
| `Bytes.dfy`, `Wrappers.dfy` | byte strings (`Split`, `Trim`, byte order, sorting), options and results |
| `Escape.dfy` | `Escape`, `EscapeTagged`, `Unescape`; percent-encoding is that of section 2.1 of RFC 3986 |
| `Paths.dfy`, `PathRoundTrip.dfy` | `defaultPath` and `MetricLabelsFromPath`, and what they do to each other |
| `QueryFilter.dfy` | `filterTargets` |
| `Tags.dfy` | the tag format and `MetricLabelsFromTags` |
| `Rules.dfy` | `match`, `loadContext`, `templatedPaths` |
| `PathsCache.dfy` | `pathsFromMetric` and the global cache |
| `Lines.dfy` | `ToDatapoints` and the line buffer that its slices share |
| `Packing.dfy`, `Framing.dfy` | `prepareWrite`, and cutting the payload up again |
| `Interpolation.dfy` | `samplesFromDatapoints` |
| `FetchData.dfy` | the worker pool of `fetchData` |
| `CarbonClient.dfy` | `connectToCarbon`, `disconnectFromCarbon`, `Write`, `Shutdown` |
| `Handler.dfy` | `buildClients`, `ApplyConfig` |
| `Process.dfy` | requests, the handler's lock, the client's mutex and the reload loop, as interleaved steps |
| `WriteHistory.dfy`, `WireHistory.dfy`, `WireTimes.dfy` | the concurrent writes are those of a sequential history; what that gives for the wire |
| `ReloadedCache.dfy` | the path cache under requests and reloads |
| `Answers.dfy` | what the answer of a request says of the steps of the run |
| `Reloading.dfy` | what requests see of reloads, what reloads are answered, progress and termination |

Where the source updates something in place the model does too: the loops are methods
with invariants, the line buffer is an `array`, and `Cache`, `Network`, `Client` and
`Handler` are classes. Each such method is proved against a function, and the results
are lemmas about these functions. The two concurrent parts, `fetchData` and the
process, are state machines; a run is any list of steps, one goroutine's at a time.

Inputs stand for what the source gets from outside: the time, the result of a dial, a
copy or a fetch, the loaded configuration, the outcome of a template, the predicate of a
regular expression, the fingerprint of a metric, and the text of a formatted number.

## What the code does that its documentation does not say

- The comment above `Escape` gives examples in which `@` is percent-encoded and `'` is
  not escaped; the code leaves `@` alone and writes `\'`. Its "two bytes" of hexadecimal
  are one below 0x10 (`%X` does not pad), which is why the round trip stops at 0x10 and
  makes the code ambiguous: `EscapeCollides` has exactly which strings collide, and
  `DefaultPathInjective` which metrics then share a path.
- The comment above `EscapeTagged` has `foo_bar~42;bar=42` become `foo_bar_bar_42` and
  `/` and `.` percent-encoded; the code gives `foo_bar_42_bar_42` and leaves `/` and `.`.
- `Unescape` also removes a backslash that was in the original when a symbol follows it.
  `EscapeRoundTrip` has the exact set of strings that come back.
- `MetricLabelsFromPath` trims the dot before an empty last value, and the dot that a
  path without a metric name starts with. A path with labels does not parse exactly when
  just one of the two is empty (`DefaultPathFailsExactly`); when both are, the first label
  name is taken for the metric name (`EmptyNameMisread`).
- The slices returned by `ToDatapoints` share one array: several different paths for one
  sample damage each other's lines (`SeveralPathsDamageLines`).
- The key of the path cache is the fingerprint alone. A metric cached under one prefix,
  format or rule set is returned for every other (`StaleParameters`, `StalePrefixRun`), also
  after a reload that disables the cache, because the flag is never reset
  (`OldPathsSurvive`, and `StaleAfterReload` for a run). An error of a template is
  reported by the first call only (`ErrorForgotten`).
- After a failed copy to carbon the remaining buffers are not sent, and no error is
  returned (`LossIsSilent`), unless the goroutine that writes to the pipe stores
  `io.ErrClosedPipe` in the shared `err` between the pipe's close and the return
  (`RepliesMean` has these two cases; a third is under "Left out").
- Under UDP the first buffer is empty when there are no lines or the first is over 1024
  bytes (`EmptyFirstBuffer`). Nothing is sent for it, but it costs a connection check or a
  dial, which may fail the request (`EmptyBufferSendsNothing`).
- An interpolation interval below one second divides by zero (`PanicsExactly`). Points
  on both sides of a null are bridged by a second pass only (`NullsAreBridgedLater`).

## Model

| member | source | states |
|---|---|---|
| Escape.SymbolsAreTheListedOnes | client/graphite/template/escape.go:28 | the bytes that get a backslash are exactly the ten characters listed |
| Escape.PrintablesAreTheListedOnes | client/graphite/template/escape.go:29-31 | the bytes that are copied at most are exactly the characters listed as printable |
| Escape.CodeWords | client/graphite/template/escape.go:87-102 | the code word of each byte, in the characters of the source: '%' and upper-case hexadecimal digits without padding, a backslash and the byte, or the byte |
| Escape.TaggedCodeWords | client/graphite/template/escape.go:136-147 | the same of the tag format: an underscore, the byte, or its percent code |
| Escape.Escape | client/graphite/template/escape.go:84-105 | the scan appends the code word of each byte, in order |
| Escape.EscapeTagged | client/graphite/template/escape.go:133-150 | the scan appends the tag code word of each byte, in order |
| Escape.Unescape | client/graphite/template/escape.go:154-174 | percent-decoding, "" if malformed, and then every backslash directly followed by a symbol is dropped |
| Escape.EscapedAlphabet | client/graphite/template/escape.go:47-66 | an escaped value has printable bytes only, and no '.', '/' or '=' |
| Escape.EscapedTaggedAlphabet | client/graphite/template/escape.go:107-116 | an escaped tag value is printable, without ';', '~', ' ' or '=' |
| Escape.EscapedFixed | client/graphite/template/escape.go:84-105 | Escape leaves a string alone exactly when all its bytes are plain |
| Escape.EscapedTaggedFixed | client/graphite/template/escape.go:133-150 | EscapeTagged leaves alone exactly the strings of printable bytes that are not reserved |
| Escape.EscapedTaggedIdempotent | client/graphite/template/escape.go:133-150 | EscapeTagged twice is EscapeTagged once, for any bytes |
| Escape.TaggedDecodes | client/graphite/template/escape.go:133-150 | percent-decoding EscapeTagged(s) gives s with the four reserved characters as underscores if and only if s has no byte below 0x10 and no '%' |
| Escape.DecodeFailsExactly | client/graphite/template/escape.go:156 | a string is unescaped to "" for an error if and only if some '%' is not followed by two hexadecimal digits |
| Escape.HexDigitsAreRead | client/graphite/template/escape.go:156 | the digits of either case are read, with their values |
| Escape.DecodeConcat | client/graphite/template/escape.go:156 | after a decodable string, decoding goes on with what follows as if it stood alone |
| Escape.DecodeDigits | client/graphite/template/escape.go:156 | '%' and two digits, alone, are decoded to the byte they spell |
| Escape.DroppedExactly | client/graphite/template/escape.go:159-172 | what is left, in order, is every byte but the backslashes directly before one of the listed symbols |
| Escape.DecodeEscaped | client/graphite/template/escape.go:91-101 | percent-decoding an escaped string without bytes below 0x10 succeeds and leaves the symbols armoured |
| Escape.UnescapedEscaped | client/graphite/template/escape.go:84-174 | without bytes below 0x10, Unescape(Escape(s)) is s less each backslash directly followed by a symbol |
| Escape.LowByteShortens | client/graphite/template/escape.go:100-101 | a byte below 0x10 makes the round trip lose at least one byte |
| Escape.EscapeRoundTrip | client/graphite/template/escape.go:84-174 | Unescape(Escape(s)) is s if and only if s has no byte below 0x10 and no backslash directly followed by a symbol |
| Escape.EscapedFolded | client/graphite/template/escape.go:91-101 | folding, that is replacing a low byte and a following digit by the byte whose code they spell, does not change the escaped form |
| Escape.FoldedIsFolded | client/graphite/template/escape.go:91-101 | one pass of folding leaves nothing to fold |
| Escape.UniquelyDecodable | client/graphite/template/escape.go:84-105 | for all strings: followed by a symbol or by nothing, two escaped forms are equal if and only if the strings are equal up to folding and so is what follows |
| Escape.EscapeCollides | client/graphite/template/escape.go:84-105 | for all strings: one escaped form if and only if they fold to the same string |
| Escape.EscapeInjective | client/graphite/template/escape.go:84-105 | Escape is injective on strings without bytes below 0x10 |
| Escape.SpaceCollides | client/graphite/template/escape.go:100-101 | the byte 0x02 before a zero is written as a space is |
| Paths.PrintLabel | client/graphite/paths/write.go:149-181 | the text of one label in each of the three formats |
| Paths.LabelIsSpelt | client/graphite/paths/write.go:151-180 | the characters around a label's name and value: `.name.value`, `;name=value`, `name="value"` with a comma before all but the first |
| Paths.PrintedNames | client/graphite/paths/write.go:132-147 | looping over the sorted names and skipping leaves the sorted names of the printed labels |
| Paths.PrintLabels | client/graphite/paths/write.go:143-182 | the label loop writes all printed labels in order, only the first as the first |
| Paths.BuildDefaultPath | client/graphite/paths/write.go:129-201 | prefix, escaped name, and the labels in order, in braces for OpenMetrics unless there are none |
| Paths.MetricLabelsFromPath | client/graphite/paths/read.go:55-71 | the name as it is and the pairs unescaped, or an error for an odd number of nodes |
| Paths.PairUpMeans | client/graphite/paths/read.go:67-69 | nodes 2i and 2i + 1 are name and value of label i, both unescaped |
| Bytes.TrimPrefixMeans | client/graphite/paths/read.go:59 | the prefix is cut off a path that has it; another path is left alone |
| Bytes.TrimMeans | client/graphite/paths/read.go:60 | all dots at both ends are trimmed, and nothing else |
| Bytes.SplitMeans | client/graphite/paths/read.go:61 | the nodes have no separator, and joined by it they are the string |
| Bytes.LexLeMeans | client/graphite/paths/write.go:138 | the order of the labels: the first byte that differs decides, a prefix comes first |
| Paths.LabelsOfMetric | client/graphite/paths/write.go:131-147 | the printed labels are exactly the metric's entries other than its name, once each |
| Paths.LabelsDetermine | client/graphite/paths/write.go:131-147 | two metrics with valid names print the same labels exactly when they have the same labels |
| PathRoundTrip.SplitCarbon | client/graphite/paths/read.go:61 | a Carbon path cut at dots is its name and two nodes a label, whatever the values |
| PathRoundTrip.CarbonParse | client/graphite/paths/read.go:55-71 | what the parser makes of any default path that trimming does not damage |
| PathRoundTrip.EmptyLastValueFails | client/graphite/paths/read.go:60-66 | with a metric name, an empty last value makes the parser fail with an odd number of nodes |
| PathRoundTrip.EmptyNameMisread | client/graphite/paths/read.go:60-66 | a path with labels and no metric name parses if and only if the last value is empty, and then with the first label name as its name |
| PathRoundTrip.ParseFailsExactly | client/graphite/paths/read.go:60-66 | for every prefix, name and labels: the path does not parse if and only if there are labels and just one of name and last value is empty |
| PathRoundTrip.DefaultPathFailsExactly | client/graphite/paths/read.go:55-71 | the same of every metric with valid label names |
| PathRoundTrip.CarbonRoundTrip | client/graphite/paths/write.go:129-201 | for every prefix and metric with valid label names, the parser returns the name and the labels in order if and only if the name is plain, values survive Unescape, and with labels neither the name nor the last value is empty |
| PathRoundTrip.CarbonTextInjective | client/graphite/paths/write.go:170-179 | the Carbon texts of two label lists are equal if and only if the lists are, up to folding of the values |
| PathRoundTrip.OpenTextInjective | client/graphite/paths/write.go:152-162 | the OpenMetrics texts of two label lists are equal if and only if the lists are, up to folding of the values |
| PathRoundTrip.DefaultPathInjective | client/graphite/paths/write.go:129-201 | in both formats two metrics with valid label names share a path under one prefix if and only if they have the same name and labels up to folding, for any bytes |
| PathRoundTrip.HighPathInjective | client/graphite/paths/write.go:129-201 | without bytes below 0x10, if and only if they have the same name and labels |
| QueryFilter.MatchLabels | client/graphite/read.go:129-142 | the loop over the matchers: the first that fails ends it, and an invalid one met before is an error |
| QueryFilter.BuildLabelMap | client/graphite/read.go:121-125 | the label map, where a later label of the same name wins |
| QueryFilter.FilterTargets | client/graphite/read.go:111-150 | targets that do not parse are skipped, those that match kept in order, an invalid matcher met is an error |
| QueryFilter.MatchAllMeans | client/graphite/read.go:129-142 | the loop accepts exactly when, by kind of matcher, the label equals the value, differs from it, is accepted or is not accepted by the compiled expression, absent labels reading as ""; it fails exactly when an expression that does not compile is met |
| QueryFilter.LabelMapIsLast | client/graphite/read.go:121-125 | the label map has exactly the names of the labels, each with the value of its last one |
| QueryFilter.FilterKeepsExactly | client/graphite/read.go:111-150 | on any targets: those that do not parse are skipped; an error exactly when one that parses meets an expression that does not compile; and otherwise exactly those whose labels satisfy every matcher, in order |
| QueryFilter.ContentsLookup | client/graphite/read.go:121-138 | the map of a metric read back answers every lookup as the metric does |
| QueryFilter.FilterIsExact | client/graphite/read.go:111-150 | on the default paths of any list of metrics that read back: an error exactly when some metric meets an invalid matcher, and otherwise exactly the paths of the metrics that satisfy every matcher, in order |
| Tags.MetricLabelsFromTags | client/graphite/paths/read.go:30-52 | the tags in sorted order, `name` read as the metric name without the prefix |
| Tags.TagPathNodes | client/graphite/paths/write.go:163-169 | a tag path cut at ';' is the name and one key=value for each label in order |
| Tags.TagLookup | client/graphite/paths/write.go:163-169 | which tags a path carries and what each of them says |
| Tags.RereadLookup | client/graphite/paths/read.go:41-49 | what the metric read back answers for every label |
| Tags.RereadExactly | client/graphite/paths/read.go:30-52 | the metric read back answers every lookup as the original if and only if Escape leaves the name alone and EscapeTagged every value (no label called `name`, no ';' in name or prefix) |
| Tags.TagPathCollides | client/graphite/paths/write.go:163-169 | two metrics, with no ';' in names or prefix, share a tag path if and only if the names are equal up to folding and the labels as written are equal |
| Tags.TagTripStable | client/graphite/paths/read.go:30-52 | writing the labels read back gives the same path if and only if Escape leaves the name alone (no label called `name`, no ';' in name or prefix) |
| Rules.LoadContext | client/graphite/paths/template.go:24-35 | the template data overlaid with the labels of the metric |
| Rules.Match | client/graphite/paths/template.go:37-49 | the two loops: every label named has the rule's value, and is accepted by the rule's expression, absent labels reading as "" |
| Rules.RelevantAreReached | client/graphite/paths/write.go:102-124 | the relevant rules are, in order, exactly those the metric fits with no fitting rule before them that does not continue |
| Rules.TemplatedPaths | client/graphite/paths/write.go:98-127 | the loop over the rules, with its three ways of stopping |
| Rules.OnlyRelevantMatter | client/graphite/paths/write.go:102-124 | rules that do not match and rules after the stopping one change nothing |
| Rules.RulesMean | client/graphite/paths/write.go:87-127 | no error exactly when every relevant rule has a template that succeeds or silences; then the outputs of the matching rules up to the stopping one, or all and the default path, or nothing if it has no template |
| Rules.OutputsAreTheirs | client/graphite/paths/write.go:113-120 | rules that are executed give one path each, in order: what their template gives |
| Rules.RulesFail | client/graphite/paths/write.go:87-127 | otherwise the first relevant rule that cannot be executed ends it: without a template the process crashes; else the error comes with the paths of the rules before it, and with the default path exactly if the failing rule continues |
| PathsCache.KeysAreExact | client/graphite/paths/write.go:77-81 | the base-16 key fits 16 bytes and two fingerprints share it only if equal |
| PathsCache.KeyReadsBack | client/graphite/paths/write.go:80-81 | the key is the fingerprint in lower-case hexadecimal digits without leading zeros |
| PathsCache.Cache.InitPathsCache | client/graphite/paths/cache.go:31-34 | the cache is emptied and enabled |
| PathsCache.Cache.NewClient | client/graphite/client.go:61-67 | a configuration without the cache leaves the old one enabled |
| PathsCache.Cache.PathsFromMetric | client/graphite/paths/write.go:74-96 | a hit is returned without an error; a miss is computed and stored |
| PathsCache.Cache.ComputePaths | client/graphite/paths/write.go:87-91 | the paths of the rules, and the default path unless a rule stops |
| PathsCache.EntriesWereStored | client/graphite/paths/write.go:92-94 | in every run each entry was stored by a call since the last initialisation |
| PathsCache.HitsWereComputed | client/graphite/paths/write.go:76-86 | in every run a hit is what was computed for a metric with that fingerprint, under the parameters of the call that stored it |
| PathsCache.CacheRefines | client/graphite/paths/write.go:74-96 | in every run with fixed parameters and distinct fingerprints each call returns the uncached paths, and the uncached answer unless a hit forgets an error |
| PathsCache.StaleParameters | client/graphite/paths/write.go:77-84 | once cached, a metric keeps its paths under any other parameters |
| PathsCache.EntriesAreOfTheLastStore | client/graphite/paths/write.go:92-94 | in every run an entry is what the last store under its key computed |
| PathsCache.LastStoreExists | client/graphite/paths/write.go:92-94 | in every run each entry has a last store since the last initialisation |
| PathsCache.HitIsRightExactly | client/graphite/paths/write.go:76-86 | in every run with distinct fingerprints, whatever the parameters of its calls, a hit is the uncached answer if and only if the last store computed the same paths and the uncached answer has no error |
| PathsCache.StalePrefixRun | client/graphite/paths/write.go:77-84 | without rules, in one format and with distinct fingerprints a hit of any run is right if and only if the last store had the caller's prefix |
| PathsCache.StalePrefix | client/graphite/paths/write.go:77-84 | of two calls, the first a miss, the second is right if and only if the prefixes are equal |
| PathsCache.ErrorForgotten | client/graphite/paths/write.go:83-95 | a run in which the second call does not report the template's error |
| Lines.MaxLength | client/graphite/paths/write.go:52-58 | a bound on the path lengths that one of them meets |
| Lines.WriteLine | client/graphite/paths/write.go:62-67 | the line overwrites the front of the array, which never moves |
| Lines.BuildLines | client/graphite/paths/write.go:59-70 | the final array and the length of each slice; the array is never replaced |
| Lines.ToDatapoints | client/graphite/paths/write.go:33-72 | the slices a caller sees after the call, an error for NaN and infinities, and the paths' error |
| Lines.SampleLinesMean | client/graphite/paths/write.go:33-72 | an error exactly for NaN, an infinity or a failed template; a crash exactly for a finite value and rules that crash; else a slice for each path, the last always its line, all of them exactly if of any two lines one is a prefix of the other |
| Lines.LastLongerWins | client/graphite/paths/write.go:59-70 | byte p of the final array is that of the last line longer than p |
| Lines.SlicesIntact | client/graphite/paths/write.go:59-70 | the slices hold their lines if and only if of any two lines one is a prefix of the other |
| Lines.SeveralPathsDamageLines | client/graphite/paths/write.go:59-70 | for paths without newlines, if and only if all paths of the sample are equal |
| Lines.FirstLineLost | client/graphite/paths/write.go:59-70 | of two paths of one length the first line is lost |
| Lines.OnePath | client/graphite/paths/write.go:61-68 | a sample with one path gives `path SP value SP timestamp LF` |
| Packing.PrepareWrite | client/graphite/write.go:71-104 | the buffers of all kept samples, packed in order, and the count of ignored ones |
| Packing.CollectMeans | client/graphite/write.go:86-93 | with the cache as each sample finds it: a crash exactly if the rules crash at a finite value; else the lines of the valid samples are kept, in order, and exactly the samples that are no finite number or whose rules fail are ignored and counted |
| Packing.WriteLines | client/graphite/write.go:94-101 | one sample's lines go to the current buffer, or to a new one when UDP has no room |
| Packing.PackingConserves | client/graphite/write.go:85-102 | for either transport the buffers hold all lines, whole and in order |
| Packing.StreamIsOneBuffer | client/graphite/write.go:81-100 | without UDP there is one buffer with everything |
| Packing.UdpBuffersAreTight | client/graphite/write.go:95-98 | no UDP buffer has room for the first line of the next one, and a buffer over 1024 bytes holds one line |
| Packing.EmptyFirstBuffer | client/graphite/write.go:77-98 | the first UDP buffer is empty exactly when there is no line or the first is over 1024 bytes |
| Packing.GreedyIsPacked | client/graphite/write.go:77-102 | one way of cutting the lines has these three properties, and it is the packing |
| Packing.TwoLines | client/graphite/write.go:37-98 | the limit: two lines share a buffer exactly if they have at most 1024 bytes together |
| Packing.UdpPackingIsOptimal | client/graphite/write.go:85-102 | if every line fits, no cut of the lines in order into groups of at most 1024 bytes has fewer groups, and the greedy one is such a cut |
| Packing.SamplesAreCounted | client/graphite/write.go:86-93 | samples kept and samples ignored add up to the samples given |
| Framing.DefaultPathIsFree | client/graphite/paths/write.go:129-201 | no space or newline in a path if there is none in the prefix and the label names, for any name and values |
| Framing.BodyFields | client/graphite/paths/write.go:62-67 | a line cut at spaces is its path, value and timestamp |
| Framing.LineReadsBack | client/graphite/paths/read.go:55-71 | a Carbon line cut at spaces and parsed says the labels, value and timestamp of its sample if and only if the metric's path reads back |
| Framing.PayloadFrames | client/graphite/write.go:71-122 | without rules, for either transport and any values, the payload cut at LF is one line for each finite sample, in order, with whatever single path free of newlines is cached for it, or its default path |
| Framing.PayloadIsRight | client/graphite/write.go:71-122 | the lines have the samples' default paths, for distinct fingerprints and a cache that is right for the samples |
| Framing.PayloadReadsBack | client/graphite/write.go:71-122 | for distinct fingerprints and a cache that is right for the samples, the Carbon payload cut at LF and SP and parsed says the labels, value and timestamp of every finite sample, in order, exactly for those whose path reads back |
| Interpolation.SamplesFromDatapoints | client/graphite/read.go:194-227 | the pass over the datapoints, and the panic of its division |
| Interpolation.PointsAreKept | client/graphite/read.go:196-225 | for any datapoints and any maximal delta: unless the pass panics every non-null point comes out, in order, with its value and 1000 times its timestamp |
| Interpolation.ZeroAddsNothing | client/graphite/read.go:196-207 | with a delta of zero, the default, nothing else comes out |
| Interpolation.TruncDivMeans | client/graphite/read.go:207-217 | the division of the interval and of the gap truncates towards zero |
| Interpolation.FillGap | client/graphite/read.go:214-223 | the inner loop: the samples numbered 1 to delta/interval - 1 |
| Interpolation.PanicsExactly | client/graphite/read.go:207-217 | the division panics if and only if the interval is not zero, below one second, and two adjacent points are not null |
| Interpolation.OutputExactly | client/graphite/read.go:196-225 | a sample comes out if and only if it is a non-null point or lies a multiple of the interval into a pair of adjacent ones |
| Interpolation.OutputIncreases | client/graphite/read.go:196-225 | output timestamps strictly increase |
| Interpolation.GapCount | client/graphite/read.go:217 | each adjacent non-null pair gains max(0, delta/interval - 1) samples |
| Interpolation.GapIsDense | client/graphite/read.go:217-223 | inside a pair every gap is under twice the interval |
| Interpolation.OutputIsDense | client/graphite/read.go:196-225 | every gap of the output is under twice the interval if and only if points parted by nulls only are |
| Interpolation.OnTheSegment | client/graphite/read.go:215-219 | every inserted sample lies on the segment between its neighbours, strictly between them in time |
| Interpolation.IdempotentExactly | client/graphite/read.go:194-227 | a second pass changes nothing if and only if points parted by nulls only are under two intervals apart |
| Interpolation.Idempotent | client/graphite/read.go:194-227 | without nulls a second pass changes nothing |
| Interpolation.NullsAreBridgedLater | client/graphite/read.go:208-212 | an input with a null for which the second pass adds a sample |
| FetchData.StepKeepsInv | client/graphite/read.go:271-328 | the protocol's invariant is kept by every goroutine's step |
| FetchData.RunsAreBounded | client/graphite/read.go:271-328 | no schedule is longer than 38 steps and 4 a target and 2 a series |
| FetchData.ChannelsAreSafe | client/graphite/read.go:272-312 | in every schedule the channels stay within capacity, nothing is sent on a closed channel, none is closed twice, and a nil is last and comes after all workers have ended |
| FetchData.StuckMeansEnded | client/graphite/read.go:271-328 | a state in which no goroutine can move has every goroutine ended: there is no deadlock |
| FetchData.WaitsExactly | client/graphite/read.go:271-328 | in every schedule: ten workers, all started before the first target is fed; the feeder never waits, a worker only for a target or the end of the input, or for room among the output's places, one more than the targets; the reader only for a message, the closer only for the workers or for room |
| FetchData.FetchDelivers | client/graphite/read.go:271-328 | every completed schedule returns, of each target that was fetched, its series in the order of its response, of each that failed nothing, and together exactly the series of all responses |
| CarbonClient.Client.ConnectToCarbon | client/graphite/write.go:39-62 | a young connection is reused; an old one is closed and another dialled, whose time is remembered |
| CarbonClient.Client.DisconnectFromCarbon | client/graphite/write.go:64-69 | the connection is closed and forgotten |
| CarbonClient.Client.Write | client/graphite/write.go:107-183 | skipped, dry run, cancelled, or the loop over the buffers; the reply, the connection and the wire afterwards |
| CarbonClient.Client.Shutdown | client/graphite/client.go:107-112 | the connection is closed and forgotten |
| CarbonClient.SendMore | client/graphite/write.go:126-180 | one more attempt continues where the loop stands |
| CarbonClient.SendIsSound | client/graphite/write.go:39-69 | over any attempts the client's connection is the only one open besides the others', with its dial time remembered |
| CarbonClient.SendBlock | client/graphite/write.go:126-183 | a call puts a prefix of its buffers that are not empty on the wire, all whole but possibly the last; the outcome tells which |
| CarbonClient.SendIsYoung | client/graphite/write.go:40-45 | each copy goes on a connection younger than the interval when chosen, or dialled for it |
| CarbonClient.YoungIsReused | client/graphite/write.go:40-45 | a call within the interval of its connection's dial dials nothing and copies to that connection only, which stays open unless a copy fails |
| CarbonClient.OldIsReplaced | client/graphite/write.go:40-61 | a call that finds no connection, or one as old as the interval, closes it and dials first |
| CarbonClient.SendLeaves | client/graphite/write.go:53-69 | a call that had something to do leaves a connection exactly if it did not fail |
| CarbonClient.RepliesMean | client/graphite/write.go:129-183 | "Done" when all buffers that are not empty arrived whole, a dial error when a dial failed after such copies only (both exactly, unless the last buffer is empty), an empty reply without error exactly when a copy failed, or the closed pipe's error then if the writing goroutine stores it late |
| CarbonClient.EmptyBufferSendsNothing | client/graphite/write.go:135-179 | an empty buffer connects, adds nothing to the wire and can fail by a dial only |
| CarbonClient.LossIsSilent | client/graphite/write.go:162-171 | a run in which a buffer is lost and, the goroutine not being late, no error is returned |
| Handler.Handler.constructor | web/handler.go:104-113 | a handler starts with the clients of its configuration, as the process does |
| Handler.Handler.BuildClients | web/handler.go:158-167 | one new client in both lists, or none for a configuration without addresses |
| Handler.Handler.ApplyConfig | web/handler.go:141-156 | exactly the old clients' connections are closed; the configuration is the new one and its client is new; for one client this is what the reload steps of the process do |
| Process.StepKeepsControl | web/handler.go:141-167 | every step keeps the two locks' exclusion, the clients' match with the configuration, and retired clients unconnected |
| Process.ShutdownOfKeepsControl | client/graphite/client.go:107-112 | a shutdown of any client by any goroutine, requests in flight included, keeps the locks' and clients' invariants |
| WriteHistory.StepKeepsInv | client/graphite/write.go:115-180 | every step, shutdowns at any time included, keeps the connections and the wire equal to those of a sequential history of calls and shutdowns, and of the call in progress |
| WriteHistory.ShutdownOfHistory | client/graphite/client.go:107-112 | a shutdown that got the mutex comes between two calls of the history, never within one |
| WriteHistory.RequestKeepsHistory | client/graphite/write.go:115-183 | a request's step ends its call with the outcome the sequential call has, or logs nothing |
| WriteHistory.OrderlyIsSound | web/handler.go:145-153 | in such a history the last client's connection is the only one |
| WireHistory.WireIsBlocks | client/graphite/write.go:115-180 | the wire of a history is the blocks of its calls, one after the other |
| WireHistory.WireIsUninterleaved | client/graphite/write.go:115-180 | in every run of concurrent writes, shutdowns and reloads the wire is, call after call, an uninterleaved prefix of each call's buffers that are not empty, and nothing of a call follows a copy cut short |
| WireHistory.AnswersAreRecorded | client/graphite/write.go:107-183 | in every run the requests whose call used the connection are in the history once each, with the outcome they were answered; no read, no dry run and no client without an address is |
| Answers.AnswersMean | client/graphite/write.go:107-183 | in every run an answered request is untouched if and only if it did not parse, found no client, is a read or a dry run, or its client has no carbon address; cancelled if and only if its context was found cancelled; and otherwise its call used the connection with the buffers prepared for it |
| Answers.WritesAreCarriedOut | web/write.go:69-117 | in every run an answered write that is neither has its call in the history, with its buffers and the outcome it was answered |
| Answers.NothingIsDropped | web/write.go:69-117 | in every run the process has exactly the requests that arrived, in order, each of its kind, and as many reloads as were posted |
| WireHistory.OneConnection | web/handler.go:141-156 | in every run at most one connection is open in the process: the current client's, with its dial time remembered |
| WireHistory.CopiesOnYoungConnections | client/graphite/write.go:39-62 | in every run each copy goes on a connection younger than its client's interval when chosen, or dialled for it |
| WireTimes.TimesAreInOrder | client/graphite/write.go:41-58 | in every run dial times and the times of choice are in order along the wire, none in the future |
| WireTimes.ClockIsRead | client/graphite/write.go:41-58 | a dial and the choice of a connection are dated by the clock at that step |
| WireTimes.ConnectionsAreKept | client/graphite/write.go:39-69 | a step closes an open connection if and only if it is its client's shutdown, a call that finds it as old as the interval with a buffer still to send, or a failed copy |
| WireTimes.ConnectionsAge | client/graphite/write.go:41 | as the clock goes on a connection stays young until its interval is over |
| WireTimes.YoungGoesOn | client/graphite/write.go:39-62 | the next buffer of a call goes to a young connection if there is one; otherwise a dial comes first |
| Reloading.RequestsSeeTheCurrentClient | web/write.go:69-116 | in every run a request in a client holds the read lock and sees the current client, built from the current configuration |
| Reloading.ConfigurationChangesAlone | web/handler.go:141-156 | the configuration or the clients change by the build of a reload only, under the write lock with no reader, and to what was loaded |
| Reloading.FailedLoadChangesNothing | main.go:101-123 | a load that fails leaves configuration, clients and connections as they are, for a signal as for a posted reload |
| Reloading.FailedLoadsChangeNothing | main.go:98-126 | in every run in which all loads fail configuration and clients stay as they are |
| Reloading.OneConfigurationPerRequest | web/write.go:70-71 | from its read lock to its unlock a request sees one configuration and one client |
| Reloading.RetiredForEver | web/handler.go:145-153 | a client that was replaced never is current nor holds a connection again |
| Reloading.WriterGoesFirst | web/handler.go:141-156 | no request takes the read lock from the time a reload asks for the write lock until it gives it back, and at any other time every request can |
| Reloading.AnswersAreHonest | main.go:110-123 | in every run a reload answered with an error left configuration and clients as they were, one answered without is in force; one at a time is worked on |
| Reloading.LoadsAreInstalled | main.go:98-126 | from any state on, a load that gives a configuration, at the start, for a signal or for a posted reload, is followed by its installation unless the run ends before |
| Reloading.SignalsAreServed | main.go:98-111 | a signal, or a posted reload that is taken up, is followed by its load unless the run ends before |
| Reloading.LoadsAreAnswered | main.go:110-123 | from any state of a run on, a posted reload is answered with the result of its load and nothing else |
| Reloading.AnswersAreOfLoads | main.go:110-123 | in every run a reload answered with an error had a load that failed, and one answered without had a load that gave that configuration |
| Reloading.AnsweredOnce | web/handler.go:184-193 | a posted reload is answered once |
| Reloading.NeverStuck | web/handler.go:141-156 | as long as a request or a reload is unanswered some goroutine can move: the locks never deadlock, with pending writers blocking new readers |
| ReloadedCache.StoreKeepsEntries | client/graphite/paths/write.go:92-94 | in the process a store changes no entry that is there: a concurrent call stored the same |
| ReloadedCache.StoreChanges | client/graphite/paths/write.go:92-94 | with distinct fingerprints a store leaves every entry what the current configuration gives, or makes it so |
| ReloadedCache.StepKeepsInv | client/graphite/paths/write.go:74-96 | with distinct fingerprints every lookup, store, expiry and process step keeps a store under way in agreement with its configuration |
| ReloadedCache.ReloadsRefresh | client/graphite/client.go:61-67 | in every run with reloads and distinct fingerprints, if every configuration loaded enables the cache, a write is given the paths of its current configuration |
| ReloadedCache.GivenExactly | client/graphite/paths/write.go:74-96 | in every run with reloads, whatever they enable, and distinct fingerprints: a hit gives what the configuration of its store gave, so a write is answered right if and only if it misses, or these paths are the current ones and there is no error |
| ReloadedCache.OldPathsSurvive | client/graphite/client.go:61-67 | after any run, with distinct fingerprints, an entry that has not expired is still given as the configuration of its store made it, in every further run without an initialisation |
| ReloadedCache.StaleAfterReload | client/graphite/client.go:61-67 | for any two configurations, the first enabling the cache and the second not, there is a run in which after the reload a write is given the first one's paths |
| ReloadedCache.StaleIsWrong | client/graphite/paths/write.go:74-96 | without rules and in one format these are the second one's if and only if the prefixes are equal |
| Reloading.EverythingIsAnswered | main.go:98-126 | in every run the process takes a bounded number of steps for what it was asked, and can take one as long as it owes an answer |

## Left out

- Compression (`utils/lz4`), HTTP routing, snappy, protobuf and JSON, URL fetching, counters and logging: libraries that are not in the repository, and plumbing.
- `text/template`, regular expressions, number formatting and `FastFingerprint`: inputs. Formatted numbers are assumed to have no space or newline; distinct fingerprints are assumed only where a row says so, and of the metrics of the run only.
- go-cache: a map whose entries may expire between any two accesses. Concurrent calls may come between the two accesses of one call.
- The pair of goroutines and the pipe inside `Write`: one copy is one step that succeeds or fails, and whether the goroutine stores its error late is an input. How much of a failed copy arrived is not modelled.
- CarbonClient.RepliesMean: after a failed copy the writing goroutine may also store its nil, if all of the buffer had been read from the pipe, between io.Copy's assignment of `err` and the test of it. The failed copy then counts as a success, the loop goes on with the same connection, and "Done." may follow. This race is not modelled.
- CarbonClient.Client.Write: the same race, and an error of LZ4 compression, which is overwritten by the successful copy of what was compressed, is not modelled, because the compressor is a C library that is not in the repository.
- The unlocked reads of the client and the configuration by `Target` and `home`.
- Floating point: values are reals and Unix times are integers; `maxPointDelta.Seconds()` is taken as exact, and int64 overflow of timestamps is not modelled.
- `handleReadQuery`, `QueryToTargets` and `QueryToTargetsWithTags` (only the filter of the former is modelled), `StoragePrefixFromRequest`, `TruncateString`, `protoToSamples`: easy members.
- Loading and merging of configuration, also that a reload merges into the shared default configuration: a load gives a configuration or an error.
- A matcher whose type no constructor of Prometheus knows, which panics.
- Several writers or readers in the process: `Process` has the one client that `buildClients` can build; `Handler` has lists.
- Process.StepKeepsControl: `Shutdown` is one step, which takes the mutex, disconnects and gives it back; it may come at any time, from any goroutine, for any client.
- `Rules` and `Packing` are not connected to the steps of `Process`: the buffers of a write are any list there. `ReloadedCache` joins the cache to them, with one prefix for all requests.
- Reloading.EverythingIsAnswered: fairness of the Go scheduler is not modelled; it says that work remains possible and bounded, not which goroutine does it.
