/** process_pps (PendulumCore.cpp): edge filter, validator, discipliner and exporter driven
    together by captured edges and by outages. */
module PpsRuntime {
  import opened Words
  import opened EepromRecord
  import opened TunablesRuntime
  import V = PpsValidator
  import F = PpsEdgeFilter
  import D = FreqDiscipliner
  import T = DisciplinedTime

  datatype GpsStatus = NO_PPS | ACQUIRING | LOCKED | HOLDOVER

  datatype Runtime = Runtime(
    candidate: u32,
    validator: V.State,
    discipliner: D.State,
    exported: T.Export,
    primed: bool,
    gps: GpsStatus,
    seenPrev: u32,
    lastIsrChangeMs: u32,
    lastProcessedMs: u32)

  function StatusOf(s: D.DiscState): GpsStatus {
    match s
    case DISCIPLINED => LOCKED
    case ACQUIRE => ACQUIRING
    case HOLDOVER => HOLDOVER
    case FREE_RUN => NO_PPS
  }

  predicate InRange(r: Runtime) {
    D.InRange(r.discipliner)
  }

  /** One captured edge. */
  function OnCapture(r: Runtime, edge: u32, nowMs: u32, cfg: Config, nominal: u32): (r': Runtime)
    requires InRange(r)
    ensures InRange(r')
  {
    if !r.primed then r.(primed := true, candidate := edge, lastProcessedMs := nowMs)
    else
      var s := F.FilterEdge(r.candidate, r.validator, edge, nominal);
      var filtered := r.(lastProcessedMs := nowMs,
                         candidate := F.NextCandidate(r.candidate, r.validator, edge, nominal));
      if s.earlyExtra then filtered
      else
        var v := V.Observe(r.validator, s.cls, s.interval, nominal);
        var d := D.Step(r.discipliner, D.Input(s.cls, v.ppsValid, s.interval, nowMs, s.cls != V.OK, cfg));
        filtered.(validator := v, discipliner := d, gps := StatusOf(d.state),
                  exported := T.Sync(r.exported, d, v.ppsValid, nowMs, cfg, nominal))
  }

  /** No pulse for too long: health is forgotten and the discipliner told. */
  function OnOutage(r: Runtime, nowMs: u32, cfg: Config, nominal: u32): (r': Runtime)
    requires InRange(r)
    ensures InRange(r')
  {
    var d := D.Step(r.discipliner, D.Input(V.GAP, false, nominal, nowMs, true, cfg));
    r.(primed := false, validator := V.RESET, discipliner := d, gps := NO_PPS,
       exported := T.Sync(r.exported, d, false, nowMs, cfg, nominal))
  }

  /** evaluatePpsFreshness */
  predicate Stale(r: Runtime, nowMs: u32, cfg: Config) {
    || Sub32(nowMs, r.lastIsrChangeMs) > IsrStaleMsActive(cfg)
    || (r.primed && Sub32(nowMs, r.lastProcessedMs) > StaleMsActive(cfg))
  }

  function Freshen(r: Runtime, seen: u32, nowMs: u32, cfg: Config, nominal: u32): (r': Runtime)
    requires InRange(r)
    ensures InRange(r')
  {
    var noted := if seen != r.seenPrev then r.(seenPrev := seen, lastIsrChangeMs := nowMs) else r;
    if Stale(noted, nowMs, cfg) then OnOutage(noted, nowMs, cfg, nominal) else noted
  }

  function OnCaptures(r: Runtime, edges: seq<u32>, nowMs: u32, cfg: Config, nominal: u32): (r': Runtime)
    requires InRange(r)
    ensures InRange(r')
  {
    if |edges| == 0 then r
    else OnCapture(OnCaptures(r, edges[..|edges| - 1], nowMs, cfg, nominal), edges[|edges| - 1], nowMs, cfg, nominal)
  }

  /** resetRuntimeStateAfterTunablesChange, as far as the pulse pipeline goes; the filter's
      candidate is left behind, unprimed. */
  function ResetRuntime(candidate: u32, nominal: u32): (r: Runtime)
    ensures InRange(r)
  {
    Runtime(candidate, V.RESET, D.Initial(nominal), T.Begin(nominal), false, NO_PPS, 0, 0, 0)
  }

  class Pipeline {
    const nominal: u32
    const validator: V.Validator
    const filter: F.EdgeFilter
    const discipliner: D.Discipliner
    const exporter: T.Exporter
    var primed: bool
    var gps: GpsStatus
    var seenPrev: u32
    var lastIsrChangeMs: u32
    var lastProcessedMs: u32

    ghost predicate Valid()
      reads this, validator, validator.ring, discipliner, discipliner.legacyResiduals, exporter
    {
      && validator.Valid() && discipliner.Valid()
      && validator.nominal == nominal && exporter.nominal == nominal
    }

    ghost function View(): (r: Runtime)
      requires Valid()
      reads this, validator, validator.ring, discipliner, discipliner.legacyResiduals, filter, exporter
      ensures InRange(r)
    {
      Runtime(filter.candidate, validator.View(), discipliner.View(), exporter.View(), primed, gps,
              seenPrev, lastIsrChangeMs, lastProcessedMs)
    }

    constructor (nominal: u32)
      ensures Valid() && View() == ResetRuntime(0, nominal) && this.nominal == nominal
    {
      this.nominal := nominal;
      validator := new V.Validator(nominal);
      filter := new F.EdgeFilter();
      discipliner := new D.Discipliner(nominal);
      exporter := new T.Exporter(nominal);
      primed, gps := false, NO_PPS;
      seenPrev, lastIsrChangeMs, lastProcessedMs := 0, 0, 0;
    }

    method HandleCapture(edge: u32, nowMs: u32, cfg: Config)
      requires Valid()
      modifies this`primed, this`gps, this`lastProcessedMs, validator, validator.ring, filter, discipliner,
               discipliner.legacyResiduals, exporter
      ensures Valid() && View() == OnCapture(old(View()), edge, nowMs, cfg, nominal)
    {
      hide D.Step, V.Observe, T.Sync;
      if !primed {
        primed := true;
        filter.Prime(edge);
        lastProcessedMs := nowMs;
        return;
      }
      lastProcessedMs := nowMs;
      var s := filter.Observe(edge, validator);
      if s.earlyExtra {
        return;
      }
      validator.ObserveSample(s.cls, s.interval);
      var ppsValid := validator.ppsValid;
      var anomaly := s.cls != V.OK;
      discipliner.Observe(D.Input(s.cls, ppsValid, s.interval, nowMs, anomaly, cfg));
      exporter.Follow(discipliner, ppsValid, nowMs, cfg);
      gps := StatusOf(discipliner.state);
    }

    method CheckFreshness(seen: u32, nowMs: u32, cfg: Config)
      requires Valid()
      modifies this`primed, this`gps, this`seenPrev, this`lastIsrChangeMs, validator, discipliner,
               discipliner.legacyResiduals, exporter
      ensures Valid() && View() == Freshen(old(View()), seen, nowMs, cfg, nominal)
    {
      hide OnOutage;
      if seen != seenPrev {
        seenPrev := seen;
        lastIsrChangeMs := nowMs;
      }
      var isrStale := Sub32(nowMs, lastIsrChangeMs) > IsrStaleMsActive(cfg);
      var processingStale := primed && Sub32(nowMs, lastProcessedMs) > StaleMsActive(cfg);
      if isrStale || processingStale {
        HandleOutage(nowMs, cfg);
      }
    }

    method HandleOutage(nowMs: u32, cfg: Config)
      requires Valid()
      modifies this`primed, this`gps, validator, discipliner, discipliner.legacyResiduals, exporter
      ensures Valid() && View() == OnOutage(old(View()), nowMs, cfg, nominal)
    {
      hide D.Step, T.Sync;
      primed := false;
      validator.Reset();
      discipliner.Observe(D.Input(V.GAP, false, nominal, nowMs, true, cfg));
      exporter.Follow(discipliner, false, nowMs, cfg);
      gps := NO_PPS;
    }

    method ResetState()
      requires Valid()
      modifies this, validator, discipliner, exporter
      ensures Valid() && View() == ResetRuntime(old(View()).candidate, nominal)
    {
      hide D.Initial, T.Begin;
      ResetComponents();
      gps := NO_PPS;
      primed, seenPrev, lastIsrChangeMs, lastProcessedMs := false, 0, 0, 0;
    }

    method ResetComponents()
      requires Valid()
      modifies validator, discipliner, exporter
      ensures Valid()
      ensures View() == old(View()).(validator := V.RESET, discipliner := D.Initial(nominal),
                                     exported := T.Begin(nominal))
    {
      hide D.Initial, T.Begin;
      validator.Reset();
      discipliner.Reset(nominal);
      exporter.Restart();
    }

    /** One pass: at most `budget` queued edges are taken, in order, after the freshness check. */
    method ProcessPps(seen: u32, queue: seq<u32>, budget: nat, nowMs: u32, cfg: Config) returns (left: seq<u32>)
      requires Valid()
      modifies this, validator, validator.ring, filter, discipliner, discipliner.legacyResiduals, exporter
      ensures Valid()
      ensures var taken := Min(budget, |queue|);
        && left == queue[taken..]
        && View() == OnCaptures(Freshen(old(View()), seen, nowMs, cfg, nominal), queue[..taken], nowMs, cfg, nominal)
    {
      hide Freshen, OnCaptures;
      CheckFreshness(seen, nowMs, cfg);
      left := DrainCaptures(queue, budget, nowMs, cfg);
    }

    method DrainCaptures(queue: seq<u32>, budget: nat, nowMs: u32, cfg: Config) returns (left: seq<u32>)
      requires Valid()
      modifies this`primed, this`gps, this`lastProcessedMs, validator, validator.ring, filter, discipliner,
               discipliner.legacyResiduals, exporter
      ensures Valid() && left == queue[Min(budget, |queue|)..]
      ensures View() == OnCaptures(old(View()), queue[..Min(budget, |queue|)], nowMs, cfg, nominal)
    {
      hide OnCapture, D.InRange;
      ghost var start := View();
      var remaining := budget;
      var i := 0;
      assert queue[..0] == [];
      while remaining > 0 && i < |queue|
        invariant 0 <= i <= |queue| && i + remaining == budget
        invariant Valid() && View() == OnCaptures(start, queue[..i], nowMs, cfg, nominal)
        decreases remaining
      {
        HandleCapture(queue[i], nowMs, cfg);
        assert queue[..i + 1][..i] == queue[..i];
        remaining, i := remaining - 1, i + 1;
      }
      left := queue[i..];
    }
  }
}
