/**
 The cache of metric paths (client/graphite/paths/cache.go and pathsFromMetric in
 client/graphite/paths/write.go): a fast form of the uncached computation.

 Several requests share the cache, so a run is a sequence of the atomic accesses
 they make to it, in any order, mixed with expiries and re-initialisations.
 */
module PathsCache {
  import opened Bytes
  import opened Escape
  import opened Paths
  import opened Rules

  /** FastFingerprint: 64 bits of hash of a metric. */
  type Fingerprint = n: int | 0 <= n < 0x1_0000_0000_0000_0000

  type Hash = Metric -> Fingerprint

  // -------------------------------------------------------------- cache keys

  function LowerHex(d: int): byte
    requires 0 <= d < 16
  {
    if d < 10 then 48 + d else 87 + d
  }

  /** strconv.AppendUint in base 16. */
  function Hex(n: nat): bytes {
    if n < 16 then [LowerHex(n)] else Hex(n / 16) + [LowerHex(n % 16)]
  }

  function Power16(k: nat): nat {
    if k == 0 then 1 else 16 * Power16(k - 1)
  }

  lemma {:induction false} HexLength(n: nat, k: nat)
    requires k > 0 && n < Power16(k)
    ensures 1 <= |Hex(n)| <= k
    decreases k
  {
    if n >= 16 {
      assert Power16(k) == 16 * Power16(k - 1);
      HexLength(n / 16, k - 1);
    }
  }

  lemma {:induction false} HexInjective(n: nat, n': nat)
    requires Hex(n) == Hex(n')
    ensures n == n'
    decreases n + n'
  {
    var h, h' := Hex(n), Hex(n');
    assert h[|h| - 1] == LowerHex(n % 16) && h'[|h'| - 1] == LowerHex(n' % 16);
    HexNotEmpty(n / 16);
    HexNotEmpty(n' / 16);
    if n >= 16 && n' >= 16 {
      assert h[..|h| - 1] == Hex(n / 16) && h'[..|h'| - 1] == Hex(n' / 16);
      HexInjective(n / 16, n' / 16);
    }
  }

  lemma {:induction false} HexNotEmpty(n: nat)
    ensures Hex(n) != []
  {
  }

  lemma SixteenDigits()
    ensures Power16(16) == 0x1_0000_0000_0000_0000
  {
    assert Power16(4) == 0x1_0000;
    assert Power16(8) == 0x1_0000_0000;
    assert Power16(12) == 0x1_0000_0000_0000;
  }

  /** The key fits the 16-byte buffer and names one fingerprint only. */
  lemma KeysAreExact(fp: Fingerprint, fp': Fingerprint)
    ensures 1 <= |Hex(fp)| <= 16
    ensures Hex(fp) == Hex(fp') <==> fp == fp'
  {
    SixteenDigits();
    HexLength(fp, 16);
    if Hex(fp) == Hex(fp') {
      HexInjective(fp, fp');
    }
  }

  predicate AllHex(s: bytes) {
    forall i | 0 <= i < |s| :: IsHex(s[i])
  }

  /** The number that hexadecimal digits stand for. */
  function ReadHex(s: bytes): nat
    requires AllHex(s)
  {
    if s == [] then 0 else 16 * ReadHex(s[..|s| - 1]) + HexValue(s[|s| - 1])
  }

  lemma LowerHexIsListed(d: int)
    requires 0 <= d < 16
    ensures LowerHex(d) as char == "0123456789abcdef"[d]
    ensures IsHex(LowerHex(d)) && HexValue(LowerHex(d)) == d
  {
  }

  /** The key is the fingerprint in lower-case hexadecimal digits, without leading zeros. */
  lemma {:induction false} KeyReadsBack(n: nat)
    ensures forall i | 0 <= i < |Hex(n)| :: Hex(n)[i] as char in "0123456789abcdef"
    ensures AllHex(Hex(n)) && ReadHex(Hex(n)) == n
    ensures |Hex(n)| >= 1 && (n > 0 ==> Hex(n)[0] as char != '0')
    decreases n
  {
    var h, last := Hex(n), LowerHex(n % 16);
    LowerHexIsListed(n % 16);
    if n < 16 {
      assert h == [last] && h[..0] == [];
    } else {
      KeyReadsBack(n / 16);
      assert h == Hex(n / 16) + [last];
      assert h[..|h| - 1] == Hex(n / 16);
    }
  }

  // ------------------------------------------------------------ cache accesses

  datatype State = State(enabled: bool, entries: map<bytes, seq<bytes>>)

  /**
   Get and Store are the two accesses of one call of pathsFromMetric; other events
   may come between them. `sawEnabled` is what the call found at its start.
   */
  datatype Event =
    | InitCache
    | Expire(key: bytes)
    | Store(m: Metric, p: Params, sawEnabled: bool)

  /** The key is left empty when the cache was disabled at the start of the call. */
  function Key(hash: Hash, m: Metric, sawEnabled: bool): bytes {
    if sawEnabled then Hex(hash(m)) else []
  }

  predicate Hit(hash: Hash, s: State, m: Metric) {
    s.enabled && Hex(hash(m)) in s.entries
  }

  /** What a call returns, given the state its Get meets: a hit reports no error. */
  function Answer(hash: Hash, s: State, p: Params, m: Metric): Outcome {
    if Hit(hash, s, m) then Computed(s.entries[Hex(hash(m))], false) else Uncached(p, m)
  }

  function Next(hash: Hash, s: State, e: Event): State {
    match e
    case InitCache => State(true, map[])
    case Expire(key) => s.(entries := s.entries - {key})
    case Store(m, p, sawEnabled) =>
      if s.enabled && Uncached(p, m).Computed? then
        s.(entries := s.entries[Key(hash, m, sawEnabled) := Uncached(p, m).paths])
      else s
  }

  function Run(hash: Hash, events: seq<Event>): State {
    if events == [] then State(false, map[])
    else Next(hash, Run(hash, events[..|events| - 1]), events[|events| - 1])
  }

  /** One call with nothing in between: Get, and on a miss Store. */
  function Call(hash: Hash, s: State, p: Params, m: Metric): State {
    if Hit(hash, s, m) then s else Next(hash, s, Store(m, p, s.enabled))
  }

  lemma CallInCases(hash: Hash, s: State, p: Params, m: Metric)
    ensures
      var key, r := Hex(hash(m)), Uncached(p, m);
      if s.enabled && key in s.entries then
        Call(hash, s, p, m) == s && Answer(hash, s, p, m) == Computed(s.entries[key], false)
      else
        && Answer(hash, s, p, m) == r
        && Call(hash, s, p, m) ==
             if s.enabled && r.Computed? then State(true, s.entries[key := r.paths]) else s
  {
  }

  /** The package variables, with the operations that read and assign them. */
  class Cache {
    var pathsCache: map<bytes, seq<bytes>>
    var pathsCacheEnabled: bool

    function Abstract(): State
      reads this
    {
      State(pathsCacheEnabled, pathsCache)
    }

    constructor ()
      ensures Abstract() == State(false, map[])
    {
      pathsCache := map[];
      pathsCacheEnabled := false;
    }

    method InitPathsCache(ghost hash: Hash)
      modifies this
      ensures Abstract() == Next(hash, old(Abstract()), InitCache)
    {
      pathsCache := map[];
      pathsCacheEnabled := true;
    }

    /** NewClient: a configuration that disables the cache leaves it as it is. */
    method NewClient(enablePathsCache: bool, ghost hash: Hash)
      modifies this
      ensures Abstract() == if enablePathsCache then Next(hash, old(Abstract()), InitCache) else old(Abstract())
    {
      if enablePathsCache {
        InitPathsCache(hash);
      }
    }

    method PathsFromMetric(m: Metric, p: Params, hash: Hash) returns (r: Outcome)
      modifies this
      ensures r == Answer(hash, old(Abstract()), p, m)
      ensures Abstract() == Call(hash, old(Abstract()), p, m)
    {
      CallInCases(hash, Abstract(), p, m);
      var fingerPrint: bytes := [];
      if pathsCacheEnabled {
        fingerPrint := Hex(hash(m));
        if fingerPrint in pathsCache {
          return Computed(pathsCache[fingerPrint], false);
        }
      }
      r := ComputePaths(m, p);
      if r.Computed? && pathsCacheEnabled {
        pathsCache := pathsCache[fingerPrint := r.paths];
      }
    }

    /** The part of pathsFromMetric between its two uses of the cache. */
    static method ComputePaths(m: Metric, p: Params) returns (r: Outcome)
      ensures r == Uncached(p, m)
    {
      var templated := TemplatedPaths(m, p.rules, p.templateData);
      if templated.Crash? {
        return Crashed;
      }
      var paths := templated.paths;
      if !templated.stop {
        var path := BuildDefaultPath(m, p.format, p.prefix);
        paths := paths + [path];
      }
      return Computed(paths, templated.failed);
    }
  }

  // --------------------------------------------------------- where entries come from

  predicate StoresEntry(hash: Hash, e: Event, key: bytes, paths: seq<bytes>) {
    && e.Store?
    && Key(hash, e.m, e.sawEnabled) == key
    && Uncached(e.p, e.m).Computed?
    && Uncached(e.p, e.m).paths == paths
  }

  /** Event i stored this entry, and the cache was not re-initialised since. */
  predicate Stored(hash: Hash, events: seq<Event>, i: nat, key: bytes, paths: seq<bytes>) {
    && i < |events|
    && StoresEntry(hash, events[i], key, paths)
    && NoInitAfter(events, i)
  }

  predicate NoInitAfter(events: seq<Event>, i: nat) {
    forall j | i < j < |events| :: !events[j].InitCache?
  }

  lemma {:induction false} EntriesWereStored(hash: Hash, events: seq<Event>, key: bytes)
    requires key in Run(hash, events).entries
    ensures exists i: nat :: Stored(hash, events, i, key, Run(hash, events).entries[key])
    decreases |events|
  {
    var n := |events| - 1;
    var before, e := Run(hash, events[..n]), events[n];
    NextEntry(hash, before, e, key);
    if StoresEntry(hash, e, key, Next(hash, before, e).entries[key]) {
      assert Stored(hash, events, n, key, Run(hash, events).entries[key]);
    } else {
      EntriesWereStored(hash, events[..n], key);
      var i: nat :| Stored(hash, events[..n], i, key, before.entries[key]);
      assert events[..n][i] == events[i];
      StillNoInit(events, i);
      assert Stored(hash, events, i, key, Run(hash, events).entries[key]);
    }
  }

  lemma NextEntry(hash: Hash, s: State, e: Event, key: bytes)
    requires key in Next(hash, s, e).entries
    ensures
      || StoresEntry(hash, e, key, Next(hash, s, e).entries[key])
      || (!e.InitCache? && key in s.entries && Next(hash, s, e).entries[key] == s.entries[key])
  {
  }

  lemma StillNoInit(events: seq<Event>, i: nat)
    requires events != [] && NoInitAfter(events[..|events| - 1], i) && !events[|events| - 1].InitCache?
    ensures NoInitAfter(events, i)
  {
    forall j | i < j < |events| ensures !events[j].InitCache? {
      assert j < |events| - 1 ==> events[..|events| - 1][j] == events[j];
    }
  }

  /**
   In any run, a hit returns what the uncached computation gave for a metric with
   the same fingerprint, under the parameters of the call that stored it, since the
   last initialisation.
   */
  lemma HitsWereComputed(hash: Hash, events: seq<Event>, m: Metric, p: Params)
    requires Hit(hash, Run(hash, events), m)
    ensures exists i: nat ::
              && i < |events| && events[i].Store? && events[i].sawEnabled
              && hash(events[i].m) == hash(m)
              && Uncached(events[i].p, events[i].m).Computed?
              && Answer(hash, Run(hash, events), p, m)
                 == Computed(Uncached(events[i].p, events[i].m).paths, false)
              && NoInitAfter(events, i)
  {
    var key := Hex(hash(m));
    EntriesWereStored(hash, events, key);
    var i: nat :| Stored(hash, events, i, key, Run(hash, events).entries[key]);
    KeysAreExact(hash(m), hash(events[i].m));
    assert events[i].sawEnabled;
  }

  // -------------------------------------------------------------- refinement

  /** Every call of the run since the last initialisation uses these parameters. */
  ghost predicate Uses(events: seq<Event>, p: Params) {
    forall i | 0 <= i < |events| && events[i].Store? && NoInitAfter(events, i) :: events[i].p == p
  }

  /** No metric stored in the run shares the fingerprint of m. */
  ghost predicate Distinct(hash: Hash, events: seq<Event>, m: Metric) {
    forall i | 0 <= i < |events| && events[i].Store? :: hash(events[i].m) == hash(m) ==> events[i].m == m
  }

  /**
   Refinement, exactly: with the parameters fixed since the last initialisation and
   distinct fingerprints, a call returns what the uncached computation returns, in
   every run, unless it is a hit for a metric whose computation reports an error;
   even then the paths are the same.
   */
  lemma CacheRefines(hash: Hash, events: seq<Event>, m: Metric, p: Params)
    requires Uses(events, p) && Distinct(hash, events, m)
    ensures
      var s := Run(hash, events);
      var r := Answer(hash, s, p, m);
      && (r == Uncached(p, m) <==>
            !(Hit(hash, s, m) && Uncached(p, m).Computed? && Uncached(p, m).failed))
      && (r.Computed? <==> Uncached(p, m).Computed?)
      && (r.Computed? ==> r.paths == Uncached(p, m).paths)
  {
    var s := Run(hash, events);
    if Hit(hash, s, m) {
      HitsWereComputed(hash, events, m, p);
      var i: nat :|
        && i < |events| && events[i].Store? && events[i].sawEnabled
        && hash(events[i].m) == hash(m)
        && Uncached(events[i].p, events[i].m).Computed?
        && Answer(hash, s, p, m) == Computed(Uncached(events[i].p, events[i].m).paths, false)
        && NoInitAfter(events, i);
      assert events[i].m == m && events[i].p == p;
    }
  }

  // -------------------------------------------- where the refinement gives out

  /**
   The key holds the metric alone: once a metric is cached, a call with any other
   parameters still gets the paths of the first. A reload whose configuration
   disables the cache changes nothing about that, since NewClient leaves the cache
   enabled.
   */
  lemma StaleParameters(hash: Hash, s: State, p: Params, p': Params, m: Metric)
    requires s.enabled && !Hit(hash, s, m) && Uncached(p, m).Computed?
    ensures
      var s' := Call(hash, s, p, m);
      Answer(hash, s', p', m) == Computed(Uncached(p, m).paths, false)
  {
  }

  predicate StoresUnder(hash: Hash, e: Event, key: bytes) {
    e.Store? && Key(hash, e.m, e.sawEnabled) == key && Uncached(e.p, e.m).Computed?
  }

  function Storing(hash: Hash, key: bytes): Event -> bool {
    e => StoresUnder(hash, e, key)
  }

  /** Event i is the last of these, and the cache was not re-initialised since. */
  predicate IsLast(these: Event -> bool, events: seq<Event>, i: nat) {
    && i < |events| && these(events[i])
    && forall j | i < j < |events| :: !events[j].InitCache? && !these(events[j])
  }

  /** Event i is the last to have stored an entry under the key, since the last InitCache. */
  predicate IsLastStore(hash: Hash, events: seq<Event>, i: nat, key: bytes) {
    IsLast(Storing(hash, key), events, i)
  }

  lemma FrontLast(these: Event -> bool, events: seq<Event>, i: nat)
    requires i < |events| - 1
    ensures IsLast(these, events, i) <==>
              && IsLast(these, events[..|events| - 1], i)
              && !events[|events| - 1].InitCache? && !these(events[|events| - 1])
  {
    var front := events[..|events| - 1];
    assert front[i] == events[i];
    if IsLast(these, front, i) && !events[|front|].InitCache? && !these(events[|front|]) {
      forall j | i < j < |events| ensures !events[j].InitCache? && !these(events[j]) {
        assert j < |front| ==> front[j] == events[j];
      }
    }
    if IsLast(these, events, i) {
      forall j | i < j < |front| ensures !front[j].InitCache? && !these(front[j]) {
        assert front[j] == events[j];
      }
    }
  }

  lemma {:induction false} DisabledIsEmpty(hash: Hash, events: seq<Event>)
    ensures !Run(hash, events).enabled ==> Run(hash, events).entries == map[]
    decreases |events|
  {
    if events != [] {
      DisabledIsEmpty(hash, events[..|events| - 1]);
    }
  }

  lemma NextEntryExactly(hash: Hash, s: State, e: Event, key: bytes)
    requires key in Next(hash, s, e).entries && (!s.enabled ==> s.entries == map[])
    ensures
      var entries := Next(hash, s, e).entries;
      if Storing(hash, key)(e) then e.Store? && entries[key] == Uncached(e.p, e.m).paths
      else !e.InitCache? && key in s.entries && entries[key] == s.entries[key]
  {
  }

  /** An entry is what its last Store computed. */
  lemma {:induction false} EntriesAreOfTheLastStore(hash: Hash, events: seq<Event>, i: nat, key: bytes)
    requires key in Run(hash, events).entries && IsLastStore(hash, events, i, key)
    ensures events[i].Store? && Run(hash, events).entries[key] == Uncached(events[i].p, events[i].m).paths
    decreases |events|
  {
    var n := |events| - 1;
    DisabledIsEmpty(hash, events[..n]);
    NextEntryExactly(hash, Run(hash, events[..n]), events[n], key);
    if i < n {
      FrontLast(Storing(hash, key), events, i);
      EntriesAreOfTheLastStore(hash, events[..n], i, key);
    }
  }

  /** Every entry has one. */
  lemma {:induction false} LastStoreExists(hash: Hash, events: seq<Event>, key: bytes)
    requires key in Run(hash, events).entries
    ensures exists i: nat :: IsLastStore(hash, events, i, key)
    decreases |events|
  {
    var n, these := |events| - 1, Storing(hash, key);
    DisabledIsEmpty(hash, events[..n]);
    NextEntryExactly(hash, Run(hash, events[..n]), events[n], key);
    if these(events[n]) {
      assert IsLastStore(hash, events, n, key);
    } else {
      LastStoreExists(hash, events[..n], key);
      var i: nat :| IsLastStore(hash, events[..n], i, key);
      FrontLast(these, events, i);
      assert IsLastStore(hash, events, i, key);
    }
  }

  /**
   When a hit is right, exactly, in any run: when the last Store of the key computed,
   under whatever parameters, the paths of this call, and this call has no error.
   */
  lemma HitIsRightExactly(hash: Hash, events: seq<Event>, i: nat, m: Metric, p: Params)
    requires Hit(hash, Run(hash, events), m) && IsLastStore(hash, events, i, Hex(hash(m)))
    requires Distinct(hash, events, m)
    ensures events[i].m == m
    ensures Answer(hash, Run(hash, events), p, m) == Uncached(p, m) <==>
              Uncached(p, m) == Computed(Uncached(events[i].p, m).paths, false)
  {
    EntriesAreOfTheLastStore(hash, events, i, Hex(hash(m)));
    KeysAreExact(hash(m), hash(events[i].m));
    assert events[i].sawEnabled;
  }

  lemma PrefixShows(m: Metric, format: Format, p: bytes, p': bytes)
    ensures DefaultPath(m, format, p) == DefaultPath(m, format, p') <==> p == p'
  {
    var e, s := Escaped(Lookup(m, METRIC_NAME)), Suffix(format, Labels(m));
    var d, d' := p + e + s, p' + e + s;
    if d == d' {
      assert |p| == |p'|;
      assert p == d[..|p|] && p' == d'[..|p'|];
    }
  }

  /** In any run without rules and in one format: exactly when the last Store had this prefix. */
  lemma StalePrefixRun(hash: Hash, events: seq<Event>, i: nat, m: Metric, p: Params)
    requires Hit(hash, Run(hash, events), m) && IsLastStore(hash, events, i, Hex(hash(m)))
    requires Distinct(hash, events, m)
    requires p.rules == [] && events[i].p.rules == [] && events[i].p.format == p.format
    ensures Answer(hash, Run(hash, events), p, m) == Uncached(p, m) <==> events[i].p.prefix == p.prefix
  {
    HitIsRightExactly(hash, events, i, m, p);
    NoRules(p, m);
    NoRules(events[i].p, m);
    PrefixShows(m, p.format, events[i].p.prefix, p.prefix);
    assert [DefaultPath(m, p.format, events[i].p.prefix)][0] == DefaultPath(m, p.format, events[i].p.prefix);
    assert [DefaultPath(m, p.format, p.prefix)][0] == DefaultPath(m, p.format, p.prefix);
  }

  /** The same of two calls, one after the other: the second writes the first's path. */
  lemma StalePrefix(hash: Hash, s: State, p: Params, p': Params, m: Metric)
    requires s.enabled && !Hit(hash, s, m)
    requires p.rules == [] && p'.rules == [] && p.format == p'.format
    ensures Answer(hash, Call(hash, s, p, m), p', m) == Uncached(p, m)
    ensures Answer(hash, Call(hash, s, p, m), p', m) == Uncached(p', m) <==> p.prefix == p'.prefix
  {
    StaleParameters(hash, s, p, p', m);
    NoRules(p, m);
    NoRules(p', m);
    PrefixShows(m, p.format, p.prefix, p'.prefix);
    assert [DefaultPath(m, p.format, p.prefix)][0] == DefaultPath(m, p.format, p.prefix);
    assert [DefaultPath(m, p.format, p'.prefix)][0] == DefaultPath(m, p.format, p'.prefix);
  }

  /** A template that fails is reported by the first call only. */
  lemma ErrorForgotten(hash: Hash, s: State, p: Params, m: Metric)
    requires s.enabled && !Hit(hash, s, m) && Uncached(p, m).Computed? && Uncached(p, m).failed
    ensures Answer(hash, s, p, m).failed
    ensures Answer(hash, Call(hash, s, p, m), p, m) == Computed(Uncached(p, m).paths, false)
  {
  }
}
