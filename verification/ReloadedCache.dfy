/**
 The path cache in the process: the lookups and stores of the writes, under the read
 lock, between reloads, which re-initialise the cache under the write lock if the new
 configuration enables it (client/graphite/client.go, client/graphite/paths/write.go,
 web/handler.go). The prefix of all requests is the same.
 */
module ReloadedCache {
  import opened Wrappers
  import opened Bytes
  import opened Paths
  import opened Rules
  import P = Process
  import C = PathsCache
  import W = WriteHistory
  import Reloading

  /** What a configuration says of paths. */
  datatype Settings = Settings(enablePathsCache: bool, params: Params)

  /** What does not change in a run: the settings by configuration, the hash, the metrics. */
  datatype Setup = Setup(settings: P.Config -> Settings, hash: C.Hash, metrics: set<Metric>)

  /**
   `stores`: the requests between a miss and the store of its result, by metric.
   `origins`: under which configuration each entry was stored; nothing reads it.
   */
  datatype State = State(
    process: P.State, cache: C.State, stores: map<nat, Metric>, origins: map<bytes, P.Config>)

  datatype Step =
    | ProcessStep(step: P.Step)
    | Get(r: nat, m: Metric)
    | Store(r: nat)
    | Expire(key: bytes)

  /** No two of the metrics of the run share a fingerprint. */
  ghost predicate Distinct(c: Setup) {
    forall m, m' | m in c.metrics && m' in c.metrics :: c.hash(m) == c.hash(m') ==> m == m'
  }

  function Key(c: Setup, m: Metric): bytes {
    C.Hex(c.hash(m))
  }

  /** The configuration of the client that a request is in. */
  function ConfigOf(s: State, r: nat): P.Config
    requires InWrite(s, r)
  {
    s.process.built[s.process.requests[r].pc.client].cfg
  }

  function ParamsOf(c: Setup, s: State, r: nat): Params
    requires InWrite(s, r)
  {
    c.settings(ConfigOf(s, r)).params
  }

  /** The paths of a write's samples are computed before it asks for the client's mutex. */
  predicate InWrite(s: State, r: nat) {
    && r < |s.process.requests| && s.process.requests[r].kind.WriteRequest?
    && s.process.requests[r].pc.Started? && s.process.requests[r].pc.client < |s.process.built|
    && s.process.built[s.process.requests[r].pc.client].cfg.carbonAddress != []
  }

  // ------------------------------------------------------------------- the steps

  predicate Initialises(c: Setup, s: P.State, step: P.Step) {
    && step.LoopStep? && s.loop.Building? && P.HasClient(s.loop.cfg)
    && c.settings(s.loop.cfg).enablePathsCache
  }

  predicate Enabled(c: Setup, s: State, step: Step) {
    match step
    case ProcessStep(p) => P.Enabled(s.process, p) && (p.RequestStep? ==> p.r !in s.stores)
    case Get(r, m) =>
      InWrite(s, r) && r !in s.stores && m in c.metrics && Uncached(ParamsOf(c, s, r), m).Computed?
    case Store(r) => InWrite(s, r) && r in s.stores
    case Expire(_) => true
  }

  function AfterGet(c: Setup, s: State, r: nat, m: Metric): State {
    if C.Hit(c.hash, s.cache, m) then s else s.(stores := s.stores[r := m])
  }

  /** The store of the call's result. A call finds the cache enabled throughout or not at all. */
  function AfterStore(c: Setup, s: State, r: nat): State
    requires InWrite(s, r) && r in s.stores
  {
    var e := C.Store(s.stores[r], ParamsOf(c, s, r), s.cache.enabled);
    s.(cache := C.Next(c.hash, s.cache, e), stores := s.stores - {r},
       origins := if s.cache.enabled then s.origins[Key(c, s.stores[r]) := ConfigOf(s, r)] else s.origins)
  }

  function Next(c: Setup, s: State, step: Step): State
    requires Enabled(c, s, step)
  {
    match step
    case ProcessStep(p) =>
      s.(process := P.Next(s.process, p),
         cache := if Initialises(c, s.process, p) then C.Next(c.hash, s.cache, C.InitCache) else s.cache)
    case Get(r, m) => AfterGet(c, s, r, m)
    case Store(r) => AfterStore(c, s, r)
    case Expire(key) => s.(cache := C.Next(c.hash, s.cache, C.Expire(key)))
  }

  function Init(c: Setup, cfg: P.Config): State {
    var cache := C.State(P.HasClient(cfg) && c.settings(cfg).enablePathsCache, map[]);
    State(P.Init(cfg), cache, map[], map[])
  }

  ghost predicate Schedule(c: Setup, s: State, steps: seq<Step>)
    decreases |steps|
  {
    steps == [] || (Enabled(c, s, steps[0]) && Schedule(c, Next(c, s, steps[0]), steps[1..]))
  }

  ghost function Run(c: Setup, s: State, steps: seq<Step>): State
    requires Schedule(c, s, steps)
    decreases |steps|
  {
    if steps == [] then s else Run(c, Next(c, s, steps[0]), steps[1..])
  }

  // ---------------------------------------------------------------- what is kept

  /** The entry for m, if there is one, is what these parameters give. */
  predicate EntryIs(c: Setup, s: State, m: Metric, p: Params) {
    Key(c, m) in s.cache.entries ==>
      Uncached(p, m).Computed? && s.cache.entries[Key(c, m)] == Uncached(p, m).paths
  }

  /** Whoever is about to store would not change an entry: it has its own configuration's paths. */
  ghost predicate StoreInv(c: Setup, s: State) {
    forall r | r in s.stores ::
      && InWrite(s, r) && s.stores[r] in c.metrics
      && Uncached(ParamsOf(c, s, r), s.stores[r]).Computed?
      && EntryIs(c, s, s.stores[r], ParamsOf(c, s, r))
  }

  ghost predicate Inv(c: Setup, s: State) {
    && P.ControlInv(s.process)
    && (!s.cache.enabled ==> s.cache.entries == map[])
    && StoreInv(c, s)
  }

  /** A request in a client has the read lock and sees the current configuration. */
  lemma SeesCurrent(c: Setup, s: State, r: nat)
    requires P.ControlInv(s.process) && InWrite(s, r)
    ensures s.process.current.Some? && ConfigOf(s, r) == s.process.cfg
    ensures r in s.process.readers && !s.process.writing
  {
  }

  /** A process step leaves a request in its client unless it is a step of that request. */
  lemma ProcessKeepsWriter(c: Setup, s: State, p: P.Step, r: nat)
    requires P.ControlInv(s.process) && P.Enabled(s.process, p) && InWrite(s, r)
    requires p.RequestStep? ==> p.r != r
    ensures
      var t := s.(process := P.Next(s.process, p));
      InWrite(t, r) && ParamsOf(c, t, r) == ParamsOf(c, s, r) && !Initialises(c, s.process, p)
  {
    SeesCurrent(c, s, r);
    if p.RequestStep? {
      W.OneRequestMoves(s.process, p.r, p.ok, p.buffers);
      W.ConfigsStay(s.process, p.r, p.ok, p.buffers);
    } else if p.LoopStep? {
      LoopKeepsRequests(s.process, p.load);
    }
  }

  lemma LoopKeepsRequests(s: P.State, load: Option<P.Config>)
    requires P.LoopEnabled(s)
    ensures
      var t := P.LoopNext(s, load);
      && t.requests == s.requests
      && |s.built| <= |t.built| && forall g | 0 <= g < |s.built| :: t.built[g].cfg == s.built[g].cfg
  {
  }

  lemma ProcessKeepsInv(c: Setup, s: State, p: P.Step)
    requires Inv(c, s) && Enabled(c, s, ProcessStep(p))
    ensures Inv(c, Next(c, s, ProcessStep(p)))
  {
    P.StepKeepsControl(s.process, p);
    var t := Next(c, s, ProcessStep(p));
    forall r | r in t.stores
      ensures InWrite(t, r) && t.stores[r] in c.metrics
      ensures Uncached(ParamsOf(c, t, r), t.stores[r]).Computed?
      ensures EntryIs(c, t, t.stores[r], ParamsOf(c, t, r))
    {
      ProcessKeepsWriter(c, s, p, r);
    }
  }

  lemma GetKeepsInv(c: Setup, s: State, r: nat, m: Metric)
    requires Inv(c, s) && Enabled(c, s, Get(r, m))
    ensures Inv(c, Next(c, s, Get(r, m)))
  {
    var t := Next(c, s, Get(r, m));
    if !C.Hit(c.hash, s.cache, m) {
      assert EntryIs(c, t, m, ParamsOf(c, s, r));
      forall q | q in t.stores
        ensures InWrite(t, q) && t.stores[q] in c.metrics
        ensures Uncached(ParamsOf(c, t, q), t.stores[q]).Computed?
        ensures EntryIs(c, t, t.stores[q], ParamsOf(c, t, q))
      {
        if q != r {
          assert EntryIs(c, s, s.stores[q], ParamsOf(c, s, q));
        }
      }
    }
  }

  lemma KeysDiffer(c: Setup, m: Metric, m': Metric)
    requires Distinct(c) && m in c.metrics && m' in c.metrics
    ensures Key(c, m) == Key(c, m') <==> m == m'
  {
    C.KeysAreExact(c.hash(m), c.hash(m'));
  }

  /** What a store sets; an entry that is there is the same already. */
  lemma StoreSets(c: Setup, s: State, r: nat)
    requires Inv(c, s) && Enabled(c, s, Store(r))
    ensures
      var key, o := Key(c, s.stores[r]), Uncached(ParamsOf(c, s, r), s.stores[r]);
      && o.Computed?
      && (key in s.cache.entries ==> s.cache.entries[key] == o.paths)
      && AfterStore(c, s, r).cache ==
           if s.cache.enabled then s.cache.(entries := s.cache.entries[key := o.paths]) else s.cache
  {
    assert EntryIs(c, s, s.stores[r], ParamsOf(c, s, r));
  }

  /** A store changes no entry that is there. */
  lemma StoreKeepsEntries(c: Setup, s: State, r: nat, m: Metric)
    requires Inv(c, s) && Enabled(c, s, Store(r)) && Key(c, m) in s.cache.entries
    ensures
      var t := AfterStore(c, s, r).cache;
      t.enabled == s.cache.enabled && Key(c, m) in t.entries && t.entries[Key(c, m)] == s.cache.entries[Key(c, m)]
  {
    StoreSets(c, s, r);
  }

  lemma NewEntryIsOwn(c: Setup, s: State, r: nat, m: Metric)
    requires Distinct(c) && Inv(c, s) && Enabled(c, s, Store(r)) && m in c.metrics
    requires Key(c, m) in AfterStore(c, s, r).cache.entries && Key(c, m) !in s.cache.entries
    ensures m == s.stores[r] && EntryIs(c, AfterStore(c, s, r), m, ParamsOf(c, s, r))
  {
    StoreSets(c, s, r);
    KeysDiffer(c, m, s.stores[r]);
  }

  /** A store leaves an entry what the current configuration gives, or makes it so. */
  lemma StoreChanges(c: Setup, s: State, r: nat, m: Metric)
    requires Distinct(c) && Inv(c, s) && Enabled(c, s, Store(r)) && m in c.metrics
    ensures
      var p := c.settings(s.process.cfg).params;
      EntryIs(c, s, m, p) ==> EntryIs(c, AfterStore(c, s, r), m, p)
  {
    SeesCurrent(c, s, r);
    if Key(c, m) in s.cache.entries {
      StoreKeepsEntries(c, s, r, m);
    } else if Key(c, m) in AfterStore(c, s, r).cache.entries {
      NewEntryIsOwn(c, s, r, m);
    }
  }

  lemma StoreKeepsInv(c: Setup, s: State, r: nat)
    requires Distinct(c) && Inv(c, s) && Enabled(c, s, Store(r))
    ensures Inv(c, Next(c, s, Store(r)))
  {
    var t := Next(c, s, Store(r));
    forall q | q in t.stores
      ensures InWrite(t, q) && t.stores[q] in c.metrics
      ensures Uncached(ParamsOf(c, t, q), t.stores[q]).Computed?
      ensures EntryIs(c, t, t.stores[q], ParamsOf(c, t, q))
    {
      StoreChanges(c, s, r, s.stores[q]);
      SeesCurrent(c, s, q);
      assert EntryIs(c, s, s.stores[q], ParamsOf(c, s, q));
    }
  }

  lemma ExpireKeepsInv(c: Setup, s: State, key: bytes)
    requires Inv(c, s)
    ensures Inv(c, Next(c, s, Expire(key)))
  {
    var t := Next(c, s, Expire(key));
    forall q | q in t.stores
      ensures InWrite(t, q) && EntryIs(c, t, t.stores[q], ParamsOf(c, t, q))
    {
      assert EntryIs(c, s, s.stores[q], ParamsOf(c, s, q));
    }
  }

  lemma StepKeepsInv(c: Setup, s: State, step: Step)
    requires Distinct(c) && Inv(c, s) && Enabled(c, s, step)
    ensures Inv(c, Next(c, s, step))
  {
    match step {
      case ProcessStep(p) => ProcessKeepsInv(c, s, p);
      case Get(r, m) => GetKeepsInv(c, s, r, m);
      case Store(r) => StoreKeepsInv(c, s, r);
      case Expire(key) => ExpireKeepsInv(c, s, key);
    }
  }

  // -------------------------------------- as long as the cache is always enabled

  /** Every configuration loaded in the run enables the cache. */
  ghost predicate LoadsEnable(c: Setup, steps: seq<Step>) {
    forall i | 0 <= i < |steps| :: Enables(c, steps[i])
  }

  predicate Enables(c: Setup, step: Step) {
    step.ProcessStep? && step.step.LoopStep? && step.step.load.Some? ==>
      c.settings(step.step.load.value).enablePathsCache
  }

  /** What a reload is about to build enables the cache. */
  predicate AboutToEnable(c: Setup, loop: P.Loop) {
    Reloading.Carries(loop) ==> c.settings(loop.cfg).enablePathsCache
  }

  /** While there is a client, every entry is what the current configuration gives. */
  ghost predicate FreshInv(c: Setup, s: State) {
    && AboutToEnable(c, s.process.loop)
    && (s.process.current.Some? ==>
          s.cache.enabled && forall m | m in c.metrics :: EntryIs(c, s, m, c.settings(s.process.cfg).params))
  }

  lemma ProcessMovesLoop(c: Setup, s: P.State, p: P.Step)
    requires P.Enabled(s, p) && AboutToEnable(c, s.loop) && Enables(c, ProcessStep(p))
    ensures AboutToEnable(c, P.Next(s, p).loop)
    ensures
      var t := P.Next(s, p);
      || (t.cfg == s.cfg && t.current == s.current)
      || (&& p.LoopStep? && s.loop.Building? && t.cfg == s.loop.cfg
          && (t.current.Some? <==> P.HasClient(s.loop.cfg)))
  {
    if p.RequestStep? {
      Reloading.RequestLeavesTheLoop(s, p.r, p.ok, p.buffers);
    }
  }

  lemma ProcessKeepsFresh(c: Setup, s: State, p: P.Step)
    requires FreshInv(c, s) && Enabled(c, s, ProcessStep(p)) && Enables(c, ProcessStep(p))
    ensures FreshInv(c, Next(c, s, ProcessStep(p)))
  {
    ProcessMovesLoop(c, s.process, p);
    var t := Next(c, s, ProcessStep(p));
    if t.process.current.Some? && !Initialises(c, s.process, p) {
      forall m | m in c.metrics ensures EntryIs(c, t, m, c.settings(t.process.cfg).params) {
        assert EntryIs(c, s, m, c.settings(s.process.cfg).params);
      }
    }
  }

  lemma StepKeepsFresh(c: Setup, s: State, step: Step)
    requires Distinct(c) && Inv(c, s) && FreshInv(c, s) && Enabled(c, s, step) && Enables(c, step)
    ensures FreshInv(c, Next(c, s, step))
  {
    var t := Next(c, s, step);
    if step.ProcessStep? {
      ProcessKeepsFresh(c, s, step.step);
    } else if s.process.current.Some? {
      forall m | m in c.metrics ensures EntryIs(c, t, m, c.settings(s.process.cfg).params) {
        assert EntryIs(c, s, m, c.settings(s.process.cfg).params);
        if step.Store? {
          StoreChanges(c, s, step.r, m);
        }
      }
    }
  }

  lemma {:induction false} RunKeepsFresh(c: Setup, s: State, steps: seq<Step>)
    requires Distinct(c) && Inv(c, s) && FreshInv(c, s) && Schedule(c, s, steps) && LoadsEnable(c, steps)
    ensures Inv(c, Run(c, s, steps)) && FreshInv(c, Run(c, s, steps))
    decreases |steps|
  {
    if steps != [] {
      assert Enables(c, steps[0]);
      StepKeepsInv(c, s, steps[0]);
      StepKeepsFresh(c, s, steps[0]);
      RestEnables(c, steps);
      RunKeepsFresh(c, Next(c, s, steps[0]), steps[1..]);
    }
  }

  lemma RestEnables(c: Setup, steps: seq<Step>)
    requires steps != [] && LoadsEnable(c, steps)
    ensures LoadsEnable(c, steps[1..])
  {
    forall i | 0 <= i < |steps[1..]| ensures Enables(c, steps[1..][i]) {
      assert Enables(c, steps[i + 1]);
    }
  }

  lemma InitInv(c: Setup, cfg: P.Config)
    ensures Inv(c, Init(c, cfg))
    ensures c.settings(cfg).enablePathsCache ==> FreshInv(c, Init(c, cfg))
  {
    P.InitControl(cfg);
  }

  /** What a write of m would be given now. */
  function Given(c: Setup, s: State, r: nat, m: Metric): Outcome
    requires InWrite(s, r)
  {
    C.Answer(c.hash, s.cache, ParamsOf(c, s, r), m)
  }

  /**
   In every run with reloads, if the first and every loaded configuration enables the
   cache, a write is given the paths that its current configuration gives, whatever
   was cached before the reload.
   */
  lemma ReloadsRefresh(c: Setup, cfg: P.Config, steps: seq<Step>, r: nat, m: Metric)
    requires Distinct(c) && Schedule(c, Init(c, cfg), steps) && m in c.metrics
    requires c.settings(cfg).enablePathsCache && LoadsEnable(c, steps)
    requires InWrite(Run(c, Init(c, cfg), steps), r)
    ensures
      var s := Run(c, Init(c, cfg), steps);
      var given, right := Given(c, s, r, m), Uncached(c.settings(s.process.cfg).params, m);
      && (given.Computed? <==> right.Computed?)
      && (given.Computed? ==> given.paths == right.paths)
  {
    InitInv(c, cfg);
    RunKeepsFresh(c, Init(c, cfg), steps);
    var s := Run(c, Init(c, cfg), steps);
    SeesCurrent(c, s, r);
    assert EntryIs(c, s, m, c.settings(s.process.cfg).params);
  }

  // --------------------------------------------------------- whose paths are given

  /** Every entry is what the configuration it was stored under gives. */
  ghost predicate OriginInv(c: Setup, s: State) {
    forall m | m in c.metrics && Key(c, m) in s.cache.entries :: OfOrigin(c, s, m)
  }

  predicate OfOrigin(c: Setup, s: State, m: Metric) {
    && Key(c, m) in s.origins
    && EntryIs(c, s, m, c.settings(s.origins[Key(c, m)]).params)
  }

  lemma StoreKeepsOrigin(c: Setup, s: State, r: nat, m: Metric)
    requires Distinct(c) && Inv(c, s) && Enabled(c, s, Store(r)) && m in c.metrics
    requires Key(c, m) in s.cache.entries ==> OfOrigin(c, s, m)
    requires Key(c, m) in AfterStore(c, s, r).cache.entries
    ensures OfOrigin(c, AfterStore(c, s, r), m)
  {
    StoreSets(c, s, r);
    KeysDiffer(c, m, s.stores[r]);
  }

  lemma StepKeepsOrigin(c: Setup, s: State, step: Step)
    requires Distinct(c) && Inv(c, s) && OriginInv(c, s) && Enabled(c, s, step)
    ensures OriginInv(c, Next(c, s, step))
  {
    var t := Next(c, s, step);
    forall m | m in c.metrics && Key(c, m) in t.cache.entries ensures OfOrigin(c, t, m) {
      if Key(c, m) in s.cache.entries {
        assert OfOrigin(c, s, m);
      }
      if step.Store? {
        StoreKeepsOrigin(c, s, step.r, m);
      }
    }
  }

  lemma {:induction false} RunKeepsOrigin(c: Setup, s: State, steps: seq<Step>)
    requires Distinct(c) && Inv(c, s) && OriginInv(c, s) && Schedule(c, s, steps)
    ensures Inv(c, Run(c, s, steps)) && OriginInv(c, Run(c, s, steps))
    decreases |steps|
  {
    if steps != [] {
      StepKeepsInv(c, s, steps[0]);
      StepKeepsOrigin(c, s, steps[0]);
      RunKeepsOrigin(c, Next(c, s, steps[0]), steps[1..]);
    }
  }

  /** What the configuration that the entry for m was stored under gives. */
  function OriginPaths(c: Setup, s: State, m: Metric): Outcome
    requires Key(c, m) in s.origins
  {
    Uncached(c.settings(s.origins[Key(c, m)]).params, m)
  }

  /**
   In every run with reloads, whatever they enable: a hit gives what the configuration
   current at the store gave, a miss what the current one gives. A write is therefore
   given the right answer exactly when it misses, or these paths are the same and the
   right answer has no error.
   */
  lemma GivenExactly(c: Setup, cfg: P.Config, steps: seq<Step>, r: nat, m: Metric)
    requires Distinct(c) && Schedule(c, Init(c, cfg), steps) && m in c.metrics
    requires InWrite(Run(c, Init(c, cfg), steps), r)
    ensures
      var s := Run(c, Init(c, cfg), steps);
      var given, right := Given(c, s, r, m), Uncached(c.settings(s.process.cfg).params, m);
      if C.Hit(c.hash, s.cache, m) then
        && Key(c, m) in s.origins && OriginPaths(c, s, m).Computed?
        && given == Computed(OriginPaths(c, s, m).paths, false)
        && (given == right <==> right == Computed(OriginPaths(c, s, m).paths, false))
      else given == right
  {
    InitInv(c, cfg);
    RunKeepsOrigin(c, Init(c, cfg), steps);
    var s := Run(c, Init(c, cfg), steps);
    SeesCurrent(c, s, r);
    if C.Hit(c.hash, s.cache, m) {
      assert OfOrigin(c, s, m);
    }
  }

  // ------------------------------------------------------- without initialisations

  /** No step initialises the cache, nor does the entry for m expire. */
  ghost predicate LeavesAlone(c: Setup, s: State, steps: seq<Step>, m: Metric)
    requires Schedule(c, s, steps)
    decreases |steps|
  {
    steps == [] || (
      && !(steps[0].ProcessStep? && Initialises(c, s.process, steps[0].step))
      && !(steps[0].Expire? && steps[0].key == Key(c, m))
      && LeavesAlone(c, Next(c, s, steps[0]), steps[1..], m))
  }

  predicate Holds(c: Setup, s: State, m: Metric, paths: seq<bytes>) {
    s.cache.enabled && Key(c, m) in s.cache.entries && s.cache.entries[Key(c, m)] == paths
  }

  lemma {:induction false} EntryStays(c: Setup, s: State, steps: seq<Step>, m: Metric, paths: seq<bytes>)
    requires Distinct(c) && Inv(c, s) && Schedule(c, s, steps) && m in c.metrics
    requires LeavesAlone(c, s, steps, m) && Holds(c, s, m, paths)
    ensures Holds(c, Run(c, s, steps), m, paths)
    decreases |steps|
  {
    if steps != [] {
      StepKeepsInv(c, s, steps[0]);
      if steps[0].Store? {
        StoreKeepsEntries(c, s, steps[0].r, m);
      }
      EntryStays(c, Next(c, s, steps[0]), steps[1..], m, paths);
    }
  }

  /**
   After any run, loads that leave the cache as it is change nothing for what is
   cached: in every further run without an initialisation a metric whose entry has not
   expired is given the paths of the configuration it was stored under.
   */
  lemma OldPathsSurvive(c: Setup, cfg: P.Config, steps: seq<Step>, more: seq<Step>, r: nat, m: Metric)
    requires Distinct(c) && Schedule(c, Init(c, cfg), steps) && m in c.metrics
    requires Key(c, m) in Run(c, Init(c, cfg), steps).cache.entries
    requires Schedule(c, Run(c, Init(c, cfg), steps), more)
    requires LeavesAlone(c, Run(c, Init(c, cfg), steps), more, m)
    requires InWrite(Run(c, Run(c, Init(c, cfg), steps), more), r)
    ensures
      var s := Run(c, Init(c, cfg), steps);
      && Key(c, m) in s.origins && OriginPaths(c, s, m).Computed?
      && Given(c, Run(c, s, more), r, m) == Computed(OriginPaths(c, s, m).paths, false)
  {
    InitInv(c, cfg);
    RunKeepsOrigin(c, Init(c, cfg), steps);
    var s := Run(c, Init(c, cfg), steps);
    assert OfOrigin(c, s, m);
    EntryStays(c, s, more, m, s.cache.entries[Key(c, m)]);
  }

  // -------------------------------------------------------- a run that shows it

  lemma Prepend(c: Setup, s: State, step: Step, rest: seq<Step>)
    requires Enabled(c, s, step) && Schedule(c, Next(c, s, step), rest)
    ensures Schedule(c, s, [step] + rest)
    ensures Run(c, s, [step] + rest) == Run(c, Next(c, s, step), rest)
  {
    assert ([step] + rest)[1..] == rest;
  }

  lemma {:induction false} Extend(c: Setup, s: State, steps: seq<Step>, step: Step)
    requires Schedule(c, s, steps) && Enabled(c, Run(c, s, steps), step)
    ensures Schedule(c, s, steps + [step])
    ensures Run(c, s, steps + [step]) == Next(c, Run(c, s, steps), step)
    decreases |steps|
  {
    if steps == [] {
      Prepend(c, s, step, []);
      assert steps + [step] == [step] + [];
    } else {
      Extend(c, Next(c, s, steps[0]), steps[1..], step);
      Prepend(c, s, steps[0], steps[1..] + [step]);
      assert steps + [step] == [steps[0]] + (steps[1..] + [step]);
    }
  }

  const LOOP := ProcessStep(P.LoopStep(None))

  function Move(r: nat): Step {
    ProcessStep(P.RequestStep(r, true, []))
  }

  /** Nobody is at work but the loop, which has loaded cfg. */
  predicate AboutToReload(s: State, cfg: P.Config) {
    && s.process.loop.Loaded? && !s.process.loop.origin.Posted? && s.process.loop.cfg == cfg
    && !s.process.writing && s.process.readers == {} && s.stores == map[]
    && |s.process.built| == |s.process.world.links|
    && (s.process.current.Some? ==>
          s.process.current.value < |s.process.built| && s.process.built[s.process.current.value].mutex.None?)
    && (s.process.serving || s.process.loop.origin.Startup?)
  }

  /** Nobody is at work; the current client has the configuration cfg. */
  predicate AtRest(s: State, cfg: P.Config) {
    && s.process.loop.Idle? && s.process.serving && s.process.cfg == cfg
    && !s.process.writing && s.process.readers == {} && s.stores == map[]
    && |s.process.built| == |s.process.world.links|
    && s.process.current.Some? && s.process.current.value < |s.process.built|
    && s.process.built[s.process.current.value] == P.Built(cfg, None)
  }

  /** The loop gets the write lock. */
  lemma TakeWriteLock(c: Setup, first: State, steps: seq<Step>, cfg: P.Config) returns (more: seq<Step>)
    requires Schedule(c, first, steps) && AboutToReload(Run(c, first, steps), cfg)
    ensures Schedule(c, first, more)
    ensures
      var s, t := Run(c, first, steps), Run(c, first, more);
      t == s.(process := s.process.(writing := true, loop := P.ShuttingWriters(s.process.loop.origin, cfg)))
  {
    Extend(c, first, steps, LOOP);
    more := steps + [LOOP];
    Extend(c, first, more, LOOP);
    more := more + [LOOP];
  }

  /** The loop shuts the old client down. */
  lemma ShutOld(c: Setup, first: State, steps: seq<Step>, cfg: P.Config) returns (more: seq<Step>)
    requires Schedule(c, first, steps) && AboutToReload(Run(c, first, steps), cfg)
    ensures Schedule(c, first, more)
    ensures
      var s, t := Run(c, first, steps), Run(c, first, more);
      && t.process.loop == P.Building(s.process.loop.origin, cfg)
      && t.process.writing && t.process.readers == {} && t.stores == map[] && t.cache == s.cache
      && t.process.built == s.process.built && |t.process.world.links| == |t.process.built|
      && t.process.serving == s.process.serving && t.process.requests == s.process.requests
  {
    more := TakeWriteLock(c, first, steps, cfg);
    Extend(c, first, more, LOOP);
    more := more + [LOOP];
    Extend(c, first, more, LOOP);
    more := more + [LOOP];
  }

  /** The rest of a reload. */
  lemma FinishReload(c: Setup, first: State, steps: seq<Step>, cfg: P.Config) returns (more: seq<Step>)
    requires Schedule(c, first, steps) && AboutToReload(Run(c, first, steps), cfg) && P.HasClient(cfg)
    ensures Schedule(c, first, more) && AtRest(Run(c, first, more), cfg)
    ensures
      var s, t := Run(c, first, steps), Run(c, first, more);
      && t.cache == (if c.settings(cfg).enablePathsCache then C.State(true, map[]) else s.cache)
      && t.process.requests == s.process.requests
  {
    more := ShutOld(c, first, steps, cfg);
    Extend(c, first, more, LOOP);
    more := more + [LOOP];
    Extend(c, first, more, LOOP);
    more := more + [LOOP];
  }

  /** A dry run arrives and gets into the client. */
  lemma EnterWrite(c: Setup, first: State, steps: seq<Step>, cfg: P.Config) returns (more: seq<Step>)
    requires Schedule(c, first, steps) && AtRest(Run(c, first, steps), cfg) && cfg.carbonAddress != []
    ensures Schedule(c, first, more)
    ensures
      var s, t := Run(c, first, steps), Run(c, first, more);
      var r := |s.process.requests|;
      && t.cache == s.cache && t.stores == map[]
      && InWrite(t, r) && ConfigOf(t, r) == cfg && t.process.requests[r].kind == P.WriteRequest(true)
      && t.process == s.process.(requests := t.process.requests, readers := {r})
      && |t.process.requests| == r + 1
  {
    var s := Run(c, first, steps);
    var r := |s.process.requests|;
    var arrive := ProcessStep(P.Arrive(P.WriteRequest(true)));
    Extend(c, first, steps, arrive);
    more := steps + [arrive];
    Extend(c, first, more, Move(r));
    more := more + [Move(r)];
    Extend(c, first, more, Move(r));
    more := more + [Move(r)];
  }

  /** It looks up a metric that is not cached and stores its paths. */
  lemma CacheOne(c: Setup, first: State, steps: seq<Step>, r: nat, m: Metric) returns (more: seq<Step>)
    requires Schedule(c, first, steps) && m in c.metrics
    requires
      var s := Run(c, first, steps);
      && InWrite(s, r) && s.cache == C.State(true, map[]) && s.stores == map[]
      && Uncached(ParamsOf(c, s, r), m).Computed?
    ensures Schedule(c, first, more)
    ensures
      var s, t := Run(c, first, steps), Run(c, first, more);
      && t.process == s.process && t.stores == map[]
      && Holds(c, t, m, Uncached(ParamsOf(c, s, r), m).paths)
  {
    var s := Run(c, first, steps);
    Extend(c, first, steps, Get(r, m));
    more := steps + [Get(r, m)];
    var t := Run(c, first, more);
    assert t == s.(stores := map[r := m]);
    Extend(c, first, more, Store(r));
    more := more + [Store(r)];
    StoreSetsAlone(c, t, r, m);
  }

  lemma StoreSetsAlone(c: Setup, t: State, r: nat, m: Metric)
    requires InWrite(t, r) && t.stores == map[r := m] && t.cache == C.State(true, map[])
    requires Uncached(ParamsOf(c, t, r), m).Computed?
    ensures AfterStore(c, t, r).stores == map[] && AfterStore(c, t, r).process == t.process
    ensures Holds(c, AfterStore(c, t, r), m, Uncached(ParamsOf(c, t, r), m).paths)
  {
  }

  /** It leaves the client. */
  lemma Leave(c: Setup, first: State, steps: seq<Step>, r: nat) returns (more: seq<Step>)
    requires Schedule(c, first, steps)
    requires
      var s := Run(c, first, steps);
      && InWrite(s, r) && s.process.requests[r].kind == P.WriteRequest(true) && s.stores == map[]
      && s.process.readers == {r} && |s.process.built| == |s.process.world.links|
    ensures Schedule(c, first, more)
    ensures
      var s, t := Run(c, first, steps), Run(c, first, more);
      && t.cache == s.cache && t.stores == map[]
      && t.process == s.process.(requests := t.process.requests, readers := {})
  {
    Extend(c, first, steps, Move(r));
    more := steps + [Move(r)];
    Extend(c, first, more, Move(r));
    more := more + [Move(r)];
  }

  /** A signal has the loop load cfg. */
  lemma LoadAnother(c: Setup, first: State, steps: seq<Step>, was: P.Config, cfg: P.Config)
    returns (more: seq<Step>)
    requires Schedule(c, first, steps) && AtRest(Run(c, first, steps), was)
    ensures Schedule(c, first, more) && AboutToReload(Run(c, first, more), cfg)
    ensures Run(c, first, more).cache == Run(c, first, steps).cache
  {
    var hup, load := ProcessStep(P.Hup), ProcessStep(P.LoopStep(Some(cfg)));
    Extend(c, first, steps, hup);
    more := steps + [hup];
    Extend(c, first, more, load);
    more := more + [load];
  }

  /** At the end of the run a write of m in the current client is given these paths. */
  ghost predicate EndsWith(c: Setup, first: State, steps: seq<Step>, r: nat, cfg: P.Config, m: Metric, o: Outcome) {
    && Schedule(c, first, steps) && InWrite(Run(c, first, steps), r)
    && Run(c, first, steps).process.cfg == cfg && Given(c, Run(c, first, steps), r, m) == o
  }

  /**
   There is such a run for any two configurations of which the first enables the cache
   and the second does not: after the reload a write is given the first one's paths.
   */
  lemma StaleAfterReload(c: Setup, cfg: P.Config, cfg': P.Config, m: Metric)
    requires cfg.carbonAddress != [] && cfg'.carbonAddress != [] && m in c.metrics
    requires c.settings(cfg).enablePathsCache && !c.settings(cfg').enablePathsCache
    requires Uncached(c.settings(cfg).params, m).Computed?
    ensures exists steps, r ::
              EndsWith(c, Init(c, cfg), steps, r, cfg', m,
                       Computed(Uncached(c.settings(cfg).params, m).paths, false))
  {
    var first := Init(c, cfg);
    var steps := FinishReload(c, first, [], cfg);
    var r := |Run(c, first, steps).process.requests|;
    steps := EnterWrite(c, first, steps, cfg);
    steps := CacheOne(c, first, steps, r, m);
    steps := Leave(c, first, steps, r);
    steps := LoadAnother(c, first, steps, cfg, cfg');
    steps := FinishReload(c, first, steps, cfg');
    r := |Run(c, first, steps).process.requests|;
    steps := EnterWrite(c, first, steps, cfg');
    assert EndsWith(c, first, steps, r, cfg', m, Computed(Uncached(c.settings(cfg).params, m).paths, false));
  }

  /** With another prefix and no rules these are not the paths of the second. */
  lemma StaleIsWrong(p: Params, p': Params, m: Metric)
    requires p.rules == [] && p'.rules == [] && p.format == p'.format
    ensures Computed(Uncached(p, m).paths, false) == Uncached(p', m) <==> p.prefix == p'.prefix
  {
    NoRules(p, m);
    NoRules(p', m);
    C.PrefixShows(m, p.format, p.prefix, p'.prefix);
    assert [DefaultPath(m, p.format, p.prefix)][0] == DefaultPath(m, p.format, p.prefix);
    assert [DefaultPath(m, p.format, p'.prefix)][0] == DefaultPath(m, p.format, p'.prefix);
  }
}
