/** The exported tick rate (DisciplinedTime.cpp), which follows the discipliner. Compiled in
    builds with PPS tuning telemetry. */
module DisciplinedTime {
  import opened Words
  import opened EepromRecord
  import opened TunablesRuntime
  import opened FreqDiscipliner

  datatype ExportMode = NOMINAL | BLEND_TRACK | SLOW_TRACK | SLOW_GRACE | SLOW_HOLDOVER

  datatype Export = Export(
    fHat: u32,
    graceAnchorHz: u32,
    graceStartMs: u32,
    seenState: DiscState,
    mode: ExportMode,
    disciplinedOnce: bool)

  function Begin(nominal: u32): Export {
    Export(nominal, nominal, 0, FREE_RUN, NOMINAL, false)
  }

  predicate MildUnlock(e: Export, d: State, ppsValid: bool) {
    e.seenState == DISCIPLINED && d.state == ACQUIRE && ppsValid
  }

  function NextMode(e: Export, d: State, ppsValid: bool, nowMs: u32, cfg: Config): ExportMode {
    match d.state
    case FREE_RUN => NOMINAL
    case DISCIPLINED => SLOW_TRACK
    case HOLDOVER => SLOW_HOLDOVER
    case ACQUIRE =>
      if MildUnlock(e, d, ppsValid) then SLOW_GRACE
      else if e.mode == SLOW_GRACE && Sub32(nowMs, e.graceStartMs) < MetrologyGraceMsActive(cfg)
              && ppsValid && e.disciplinedOnce then SLOW_GRACE
      else BLEND_TRACK
  }

  function Sync(e: Export, d: State, ppsValid: bool, nowMs: u32, cfg: Config, nominal: u32): Export {
    var anchor := if MildUnlock(e, d, ppsValid) then OrNominal(d.lastGoodSlow, nominal) else e.graceAnchorHz;
    var mode := NextMode(e, d, ppsValid, nowMs, cfg);
    var hz := match mode
      case NOMINAL => nominal
      case BLEND_TRACK => d.fHat
      case SLOW_TRACK => d.fSlow
      case SLOW_GRACE => anchor
      case SLOW_HOLDOVER => d.lastGoodSlow;
    Export(OrNominal(hz, nominal), anchor, if MildUnlock(e, d, ppsValid) then nowMs else e.graceStartMs,
           d.state, mode, e.disciplinedOnce || d.state == DISCIPLINED)
  }

  // ---- the grace after an unlock ----

  /** One sync, with what the discipliner says by then. */
  datatype Call = Call(d: State, ppsValid: bool, nowMs: u32, cfg: Config)

  function SyncAll(e: Export, calls: seq<Call>, nominal: u32): Export {
    if |calls| == 0 then e
    else
      var c := calls[|calls| - 1];
      Sync(SyncAll(e, calls[..|calls| - 1], nominal), c.d, c.ppsValid, c.nowMs, c.cfg, nominal)
  }

  /** Call c comes when the grace that began at `start` is over. */
  predicate PastGrace(start: u32, c: Call) {
    Sub32(c.nowMs, start) >= MetrologyGraceMsActive(c.cfg)
  }

  /** An unlock with a valid pulse train begins a grace at that moment, at the slow rate. */
  lemma GraceBegins(e: Export, c: Call, nominal: u32)
    requires e.seenState == DISCIPLINED && c.d.state == ACQUIRE && c.ppsValid
    ensures var e' := Sync(e, c.d, c.ppsValid, c.nowMs, c.cfg, nominal);
      && e'.mode == SLOW_GRACE && e'.graceStartMs == c.nowMs && e'.seenState == ACQUIRE
      && e'.graceAnchorHz == OrNominal(c.d.lastGoodSlow, nominal) && e'.fHat == e'.graceAnchorHz
  {
  }

  lemma GraceStep(e: Export, c: Call, nominal: u32)
    requires e.mode in {SLOW_GRACE, BLEND_TRACK} && e.disciplinedOnce && e.seenState == ACQUIRE
    requires c.d.state == ACQUIRE && c.ppsValid
    ensures var e' := Sync(e, c.d, c.ppsValid, c.nowMs, c.cfg, nominal);
      && e'.mode == (if e.mode == SLOW_GRACE && !PastGrace(e.graceStartMs, c) then SLOW_GRACE else BLEND_TRACK)
      && e'.graceStartMs == e.graceStartMs && e'.graceAnchorHz == e.graceAnchorHz
      && e'.disciplinedOnce && e'.seenState == ACQUIRE
      && e'.fHat == OrNominal(if e'.mode == SLOW_GRACE then e.graceAnchorHz else c.d.fHat, nominal)
  {
  }

  /** While the discipliner acquires on a valid pulse train, the grace lasts up to the first
      sync at or past its time and is over from then on: first the anchored rate is exported,
      then the rate the discipliner applies. */
  lemma {:induction false} GraceEnds(e: Export, calls: seq<Call>, nominal: u32)
    requires e.mode == SLOW_GRACE && e.disciplinedOnce && e.seenState == ACQUIRE
    requires forall i :: 0 <= i < |calls| ==> calls[i].d.state == ACQUIRE && calls[i].ppsValid
    ensures var e' := SyncAll(e, calls, nominal);
      && e'.mode == (if exists i :: 0 <= i < |calls| && PastGrace(e.graceStartMs, calls[i]) then BLEND_TRACK
                     else SLOW_GRACE)
      && e'.graceStartMs == e.graceStartMs && e'.graceAnchorHz == e.graceAnchorHz
      && e'.disciplinedOnce && e'.seenState == ACQUIRE
      && (|calls| > 0 ==>
            e'.fHat == OrNominal(if e'.mode == SLOW_GRACE then e.graceAnchorHz else calls[|calls| - 1].d.fHat, nominal))
  {
    hide Sync, PastGrace;
    if |calls| > 0 {
      GraceEnds(e, calls[..|calls| - 1], nominal);
      GraceStep(SyncAll(e, calls[..|calls| - 1], nominal), calls[|calls| - 1], nominal);
    }
  }

  class Exporter {
    const nominal: u32
    var fHat: u32
    var graceAnchorHz: u32
    var graceStartMs: u32
    var state: DiscState
    var exportMode: ExportMode
    var hasDisciplinedOnce: bool

    function View(): Export
      reads this
    {
      Export(fHat, graceAnchorHz, graceStartMs, state, exportMode, hasDisciplinedOnce)
    }

    constructor (nominal: u32)
      ensures View() == Begin(nominal) && this.nominal == nominal
    {
      this.nominal := nominal;
      fHat, graceAnchorHz, graceStartMs := nominal, nominal, 0;
      state, exportMode, hasDisciplinedOnce := FREE_RUN, NOMINAL, false;
    }

    method Restart()
      modifies this
      ensures View() == Begin(nominal)
    {
      fHat, graceAnchorHz, graceStartMs := nominal, nominal, 0;
      state, exportMode, hasDisciplinedOnce := FREE_RUN, NOMINAL, false;
    }

    method Follow(discipliner: Discipliner, ppsValid: bool, nowMs: u32, cfg: Config)
      requires discipliner.Valid()
      modifies this
      ensures View() == Sync(old(View()), discipliner.View(), ppsValid, nowMs, cfg, nominal)
    {
      var prevState := state;
      state := discipliner.state;
      var mildUnlock := prevState == DISCIPLINED && state == ACQUIRE && ppsValid;
      if state == DISCIPLINED {
        hasDisciplinedOnce := true;
      }
      if mildUnlock {
        graceStartMs := nowMs;
        graceAnchorHz := discipliner.lastGoodSlow;
        if graceAnchorHz == 0 {
          graceAnchorHz := nominal;
        }
      }
      match state {
        case FREE_RUN => exportMode := NOMINAL;
        case DISCIPLINED => exportMode := SLOW_TRACK;
        case HOLDOVER => exportMode := SLOW_HOLDOVER;
        case ACQUIRE =>
          if mildUnlock {
            exportMode := SLOW_GRACE;
          } else if exportMode == SLOW_GRACE {
            var expired := Sub32(nowMs, graceStartMs) >= MetrologyGraceMsActive(cfg);
            if expired || !ppsValid || !hasDisciplinedOnce {
              exportMode := BLEND_TRACK;
            }
          } else {
            exportMode := BLEND_TRACK;
          }
      }
      match exportMode {
        case NOMINAL => fHat := nominal;
        case BLEND_TRACK => fHat := discipliner.fHat;
        case SLOW_TRACK => fHat := discipliner.fSlow;
        case SLOW_GRACE => fHat := graceAnchorHz;
        case SLOW_HOLDOVER => fHat := discipliner.lastGoodSlow;
      }
      if fHat == 0 {
        fHat := nominal;
      }
    }
  }
}
