/** The live tunables as their readers see them (TunablesRuntime.cpp). */
module TunablesRuntime {
  import opened Words
  import opened EepromRecord

  function Clamp(v: int, lo: int, hi: int): int {
    if v < lo then lo else if v > hi then hi else v
  }

  function AtLeastOne(v: nat): nat {
    if v == 0 then 1 else v
  }

  function FastShiftActive(c: Config): nat { Clamp(c.ppsFastShift, SHIFT_MIN, SHIFT_MAX) }

  function SlowShiftActive(c: Config): nat { Clamp(c.ppsSlowShift, SHIFT_MIN, SHIFT_MAX) }

  function BlendHiPpmActive(c: Config): u16 {
    if c.ppsBlendHiPpm <= c.ppsBlendLoPpm then (c.ppsBlendLoPpm + 1) % 0x1_0000 else c.ppsBlendHiPpm
  }

  function LockCountActive(c: Config): nat { Clamp(c.ppsLockCount, LOCK_COUNT_MIN, LOCK_COUNT_MAX) }

  function UnlockCountActive(c: Config): u8 { AtLeastOne(c.ppsUnlockCount) }

  function HoldoverMsActive(c: Config): u16 { AtLeastOne(c.ppsHoldoverMs) }

  function StaleMsActive(c: Config): u16 { AtLeastOne(c.ppsStaleMs) }

  function IsrStaleMsActive(c: Config): u16 { AtLeastOne(c.ppsIsrStaleMs) }

  function AcquireMinMsActive(c: Config): u16 { AtLeastOne(c.ppsAcquireMinMs) }

  function MetrologyGraceMsActive(c: Config): u32 { AtLeastOne(c.ppsMetrologyGraceMs) }

  /** normalizePpsTunables */
  function Normalize(c: Config): Config {
    c.(ppsFastShift := FastShiftActive(c),
       ppsSlowShift := SlowShiftActive(c),
       ppsBlendHiPpm := BlendHiPpmActive(c),
       ppsLockCount := LockCountActive(c),
       ppsUnlockCount := UnlockCountActive(c),
       ppsHoldoverMs := HoldoverMsActive(c),
       ppsStaleMs := StaleMsActive(c),
       ppsIsrStaleMs := IsrStaleMsActive(c),
       ppsAcquireMinMs := AcquireMinMsActive(c),
       ppsMetrologyGraceMs := MetrologyGraceMsActive(c))
  }

  /** Whoever reads validated settings sees each of them as it is. */
  lemma ReadersSeeTheSettings(c: Config)
    requires ValidateConfig(c)
    ensures FastShiftActive(c) == c.ppsFastShift && SlowShiftActive(c) == c.ppsSlowShift
    ensures BlendHiPpmActive(c) == c.ppsBlendHiPpm
    ensures LockCountActive(c) == c.ppsLockCount && UnlockCountActive(c) == c.ppsUnlockCount
    ensures HoldoverMsActive(c) == c.ppsHoldoverMs && AcquireMinMsActive(c) == c.ppsAcquireMinMs
    ensures StaleMsActive(c) == c.ppsStaleMs && IsrStaleMsActive(c) == c.ppsIsrStaleMs
    ensures MetrologyGraceMsActive(c) == c.ppsMetrologyGraceMs
  {
  }

  lemma NormalizeKeepsValid(c: Config)
    requires ValidateConfig(c)
    ensures Normalize(c) == c
  {
  }
}
