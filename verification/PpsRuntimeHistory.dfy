/** What holds after every run of process_pps passes and resets. */
module PpsRuntimeHistory {
  import opened Words
  import opened EepromRecord
  import opened PpsRuntime
  import V = PpsValidator
  import F = PpsEdgeFilter
  import D = FreqDiscipliner
  import T = DisciplinedTime

  datatype Event = Pass(seen: u32, edges: seq<u32>, nowMs: u32, cfg: Config) | Restart

  function Apply(r: Runtime, e: Event, nominal: u32): (r': Runtime)
    requires InRange(r)
    ensures InRange(r')
  {
    match e
    case Pass(seen, edges, nowMs, cfg) => OnCaptures(Freshen(r, seen, nowMs, cfg, nominal), edges, nowMs, cfg, nominal)
    case Restart => ResetRuntime(r.candidate, nominal)
  }

  function Run(events: seq<Event>, nominal: u32): (r: Runtime)
    ensures InRange(r)
  {
    if |events| == 0 then ResetRuntime(0, nominal)
    else Apply(Run(events[..|events| - 1], nominal), events[|events| - 1], nominal)
  }

  // ---- status, applied rate and export ----

  /** In DISCIPLINED the applied, slow and last good rates are one; in HOLDOVER still. */
  predicate RatesAgree(d: D.State) {
    d.state in {D.DISCIPLINED, D.HOLDOVER} ==> d.fHat == d.fSlow == d.lastGoodSlow
  }

  predicate StatusAgrees(r: Runtime) {
    && (r.gps == LOCKED <==> r.discipliner.state == D.DISCIPLINED)
    && (r.gps == ACQUIRING <==> r.discipliner.state == D.ACQUIRE)
    && (r.gps == HOLDOVER ==> r.discipliner.state == D.HOLDOVER)
  }

  predicate ExportAgrees(e: T.Export, d: D.State, nominal: u32) {
    && e.seenState == d.state
    && (e.mode == T.NOMINAL <==> d.state == D.FREE_RUN)
    && (e.mode in {T.BLEND_TRACK, T.SLOW_GRACE} <==> d.state == D.ACQUIRE)
    && (e.mode == T.NOMINAL ==> e.fHat == nominal)
    && (e.mode == T.SLOW_GRACE ==> e.fHat == OrNominal(e.graceAnchorHz, nominal))
    && (e.mode !in {T.NOMINAL, T.SLOW_GRACE} ==> e.fHat == OrNominal(d.fHat, nominal))
  }

  predicate Consistent(r: Runtime, nominal: u32) {
    RatesAgree(r.discipliner) && StatusAgrees(r) && ExportAgrees(r.exported, r.discipliner, nominal)
  }

  lemma StepKeepsRates(d: D.State, i: D.Input)
    requires D.InRange(d) && RatesAgree(d)
    ensures RatesAgree(D.Step(d, i))
    ensures d.state in {D.DISCIPLINED, D.HOLDOVER} && D.Step(d, i).state == D.HOLDOVER ==> D.Step(d, i).fHat == d.fHat
    ensures !i.ppsValid ==> D.Step(d, i).state !in {D.DISCIPLINED, D.ACQUIRE}
  {
    hide D.Average, D.AddResidual;
  }

  lemma SyncAgrees(e: T.Export, d: D.State, ppsValid: bool, nowMs: u32, cfg: Config, nominal: u32)
    requires RatesAgree(d)
    ensures ExportAgrees(T.Sync(e, d, ppsValid, nowMs, cfg, nominal), d, nominal)
  {
  }

  lemma CaptureKeepsConsistent(r: Runtime, edge: u32, nowMs: u32, cfg: Config, nominal: u32)
    requires InRange(r) && Consistent(r, nominal)
    ensures Consistent(OnCapture(r, edge, nowMs, cfg, nominal), nominal)
  {
    hide D.Step, V.Observe, T.Sync, RatesAgree, ExportAgrees;
    var r' := OnCapture(r, edge, nowMs, cfg, nominal);
    var s := F.FilterEdge(r.candidate, r.validator, edge, nominal);
    if r.primed && !s.earlyExtra {
      var i := D.Input(s.cls, r'.validator.ppsValid, s.interval, nowMs, s.cls != V.OK, cfg);
      StepKeepsRates(r.discipliner, i);
      SyncAgrees(r.exported, r'.discipliner, i.ppsValid, nowMs, cfg, nominal);
    }
  }

  lemma OutageKeepsConsistent(r: Runtime, nowMs: u32, cfg: Config, nominal: u32)
    requires InRange(r) && Consistent(r, nominal)
    ensures Consistent(OnOutage(r, nowMs, cfg, nominal), nominal)
    ensures OnOutage(r, nowMs, cfg, nominal).discipliner.state !in {D.ACQUIRE, D.DISCIPLINED}
  {
    hide D.Step, T.Sync, RatesAgree, ExportAgrees;
    var i := D.Input(V.GAP, false, nominal, nowMs, true, cfg);
    StepKeepsRates(r.discipliner, i);
    SyncAgrees(r.exported, D.Step(r.discipliner, i), false, nowMs, cfg, nominal);
  }

  lemma FreshenKeepsConsistent(r: Runtime, seen: u32, nowMs: u32, cfg: Config, nominal: u32)
    requires InRange(r) && Consistent(r, nominal)
    ensures Consistent(Freshen(r, seen, nowMs, cfg, nominal), nominal)
  {
    hide D.Step, T.Sync, RatesAgree, ExportAgrees;
    OutageKeepsConsistent(r.(seenPrev := seen, lastIsrChangeMs := nowMs), nowMs, cfg, nominal);
    OutageKeepsConsistent(r, nowMs, cfg, nominal);
  }

  lemma {:induction false} CapturesKeepConsistent(r: Runtime, edges: seq<u32>, nowMs: u32, cfg: Config, nominal: u32)
    requires InRange(r) && Consistent(r, nominal)
    ensures Consistent(OnCaptures(r, edges, nowMs, cfg, nominal), nominal)
  {
    hide OnCapture, Consistent;
    if |edges| > 0 {
      CapturesKeepConsistent(r, edges[..|edges| - 1], nowMs, cfg, nominal);
      var before := OnCaptures(r, edges[..|edges| - 1], nowMs, cfg, nominal);
      CaptureKeepsConsistent(before, edges[|edges| - 1], nowMs, cfg, nominal);
    }
  }

  /** In every run: LOCKED iff DISCIPLINED, ACQUIRING iff ACQUIRE, and the exported rate is
      the applied one except in NOMINAL and SLOW_GRACE. */
  lemma {:induction false} AlwaysConsistent(events: seq<Event>, nominal: u32)
    ensures Consistent(Run(events, nominal), nominal)
  {
    if |events| > 0 {
      AlwaysConsistent(events[..|events| - 1], nominal);
      var r := Run(events[..|events| - 1], nominal);
      match events[|events| - 1]
      case Restart =>
      case Pass(seen, edges, nowMs, cfg) =>
        hide Freshen, Consistent;
        FreshenKeepsConsistent(r, seen, nowMs, cfg, nominal);
        CapturesKeepConsistent(Freshen(r, seen, nowMs, cfg, nominal), edges, nowMs, cfg, nominal);
    }
  }

  /** Grace begins only with an unlock, at the slow rate of the very sample that unlocked,
      and while it lasts the exported rate does not move. */
  lemma GraceHoldsTheUnlockingRate(r: Runtime, edge: u32, nowMs: u32, cfg: Config, nominal: u32)
    requires InRange(r) && Consistent(r, nominal)
    ensures var r' := OnCapture(r, edge, nowMs, cfg, nominal);
      r'.exported.mode == T.SLOW_GRACE ==>
        if r.exported.mode == T.SLOW_GRACE then r'.exported.fHat == r.exported.fHat
        else r.discipliner.state == D.DISCIPLINED && r'.exported.fHat == OrNominal(r'.discipliner.fSlow, nominal)
  {
    hide D.Step, V.Observe;
    var r' := OnCapture(r, edge, nowMs, cfg, nominal);
    var s := F.FilterEdge(r.candidate, r.validator, edge, nominal);
    if r.primed && !s.earlyExtra && r.discipliner.state == D.DISCIPLINED {
      UnlockUsesSlow(r.discipliner, D.Input(s.cls, r'.validator.ppsValid, s.interval, nowMs, s.cls != V.OK, cfg));
    }
  }

  lemma UnlockUsesSlow(d: D.State, i: D.Input)
    requires D.InRange(d) && d.state == D.DISCIPLINED
    ensures D.Step(d, i).state == D.ACQUIRE ==> D.Step(d, i).lastGoodSlow == D.Step(d, i).fSlow
  {
    hide D.Average, D.AddResidual;
  }
}
