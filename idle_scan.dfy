/** The idle scan: for every tracked, unfrozen, non-foreground application,
    a memory floor and a strict idle timeout decide whether it is frozen (or,
    in dry-run mode, only reported and its timer reset). */
module IdleScan {
  import opened History

  /** Bytes in one megabyte, as the memory reading is divided. */
  const BytesPerMb: nat := 1048576

  /** The runtime configuration: idle timeout in seconds, memory floor in
      megabytes, and whether freezing is only simulated. */
  datatype Config = Config(timeoutSecs: int, minMemoryMb: int, dryRun: bool)

  /** What examining one slot did: the slot afterwards, the additions to the
      two session counters, and the suspend call issued, if any. */
  datatype Examined = Examined(slot: AppState, frozen: nat, savedMb: nat, emitted: seq<Directive>)

  /** The slot is looked at at all: occupied, not frozen, not the foreground process. */
  predicate Eligible(slot: AppState, activePid: int) {
    slot.valid && !slot.isFrozen && slot.pid != activePid
  }

  /** The gate lets through every reading that is not below the floor. */
  predicate MeetsMemoryFloor(bytes: nat, cfg: Config) {
    !(bytes < cfg.minMemoryMb * BytesPerMb)
  }

  /** Idle for strictly longer than the timeout. */
  predicate IdleTooLong(slot: AppState, now: int, cfg: Config) {
    now - slot.lastActive > cfg.timeoutSecs
  }

  predicate IsCandidate(slot: AppState, now: int, activePid: int, bytes: nat, cfg: Config) {
    Eligible(slot, activePid) && MeetsMemoryFloor(bytes, cfg) && IdleTooLong(slot, now, cfg)
  }

  /** One iteration of the scan, given the slot's memory reading in bytes and
      the result the suspend call would return (0 is success). */
  function Examine(slot: AppState, now: int, activePid: int, bytes: nat, freezeResult: int,
                   cfg: Config): (e: Examined)
    ensures e.slot.pid == slot.pid && e.slot.name == slot.name && e.slot.valid == slot.valid
    ensures e.frozen <= 1 && |e.emitted| <= 1
    ensures e.frozen == 1 <==> e.emitted == [Freeze(slot.pid, true)]
    ensures e.emitted != [] ==> IsCandidate(slot, now, activePid, bytes, cfg) && !cfg.dryRun
  {
    if !IsCandidate(slot, now, activePid, bytes, cfg) then Examined(slot, 0, 0, [])
    else if cfg.dryRun then Examined(slot.(lastActive := now), 0, 0, [])
    else if freezeResult == 0 then
      Examined(slot.(isFrozen := true), 1, bytes / BytesPerMb, [Freeze(slot.pid, true)])
    else Examined(slot, 0, 0, [Freeze(slot.pid, false)])
  }

  /** The result of scanning all slots in order. */
  datatype ScanResult = ScanResult(slots: seq<AppState>, frozen: nat, savedMb: nat, emitted: seq<Directive>)

  /** The whole scan; `memoryOf` and `freezeResultOf` stand for the platform's
      memory query and suspend call, both asked by PID. */
  function Scan(s: seq<AppState>, now: int, activePid: int, memoryOf: int -> nat,
                freezeResultOf: int -> int, cfg: Config): (r: ScanResult)
    ensures |r.slots| == |s|
    ensures r.frozen <= |r.emitted| <= |s|
    decreases |s|
  {
    if s == [] then ScanResult([], 0, 0, [])
    else
      var n := |s| - 1;
      var r := Scan(s[..n], now, activePid, memoryOf, freezeResultOf, cfg);
      var e := Examine(s[n], now, activePid, memoryOf(s[n].pid), freezeResultOf(s[n].pid), cfg);
      ScanResult(r.slots + [e.slot], r.frozen + e.frozen, r.savedMb + e.savedMb, r.emitted + e.emitted)
  }

  /** Each slot is examined on its own: the scan's slot `i` is what
      examining the old slot `i` gives. */
  lemma {:induction false} ScanIsPointwise(s: seq<AppState>, now: int, activePid: int,
                                           memoryOf: int -> nat, freezeResultOf: int -> int, cfg: Config)
    ensures var r := Scan(s, now, activePid, memoryOf, freezeResultOf, cfg);
      forall i :: 0 <= i < |s| ==>
        r.slots[i] == Examine(s[i], now, activePid, memoryOf(s[i].pid), freezeResultOf(s[i].pid), cfg).slot
    decreases |s|
  {
    if s != [] {
      var n := |s| - 1;
      ScanIsPointwise(s[..n], now, activePid, memoryOf, freezeResultOf, cfg);
      forall i | 0 <= i < n ensures s[..n][i] == s[i] { }
    }
  }

  lemma ScanSnoc(s: seq<AppState>, i: nat, now: int, activePid: int, memoryOf: int -> nat,
                 freezeResultOf: int -> int, cfg: Config)
    requires i < |s|
    ensures var r := Scan(s[..i], now, activePid, memoryOf, freezeResultOf, cfg);
            var e := Examine(s[i], now, activePid, memoryOf(s[i].pid), freezeResultOf(s[i].pid), cfg);
            Scan(s[..i + 1], now, activePid, memoryOf, freezeResultOf, cfg) ==
              ScanResult(r.slots + [e.slot], r.frozen + e.frozen, r.savedMb + e.savedMb, r.emitted + e.emitted)
  {
    assert s[..i + 1][..i] == s[..i];
  }

  /** A slot that is not a candidate is left exactly as it was, with no call
      and no change to the counters: in particular every unoccupied slot,
      every frozen slot and the foreground process. */
  lemma ExamineSkipsNonCandidates(slot: AppState, now: int, activePid: int, bytes: nat,
                                  freezeResult: int, cfg: Config)
    requires !IsCandidate(slot, now, activePid, bytes, cfg)
    ensures Examine(slot, now, activePid, bytes, freezeResult, cfg) == Examined(slot, 0, 0, [])
  {
  }

  /** A candidate in dry-run mode gets no suspend call, only its timer reset
      to `now`; otherwise exactly one suspend call is issued, and only a
      success marks the slot frozen and adds one freeze and the whole
      megabytes of the reading to the counters. */
  lemma ExamineCandidate(slot: AppState, now: int, activePid: int, bytes: nat,
                         freezeResult: int, cfg: Config)
    requires IsCandidate(slot, now, activePid, bytes, cfg)
    ensures var e := Examine(slot, now, activePid, bytes, freezeResult, cfg);
      if cfg.dryRun then
        e.emitted == [] && e.slot == slot.(lastActive := now) && e.frozen == 0 && e.savedMb == 0
      else
        && e.emitted == [Freeze(slot.pid, freezeResult == 0)]
        && (freezeResult == 0 ==>
              e.slot == slot.(isFrozen := true) && e.frozen == 1 &&
              e.savedMb * BytesPerMb <= bytes < (e.savedMb + 1) * BytesPerMb)
        && (freezeResult != 0 ==> e.slot == slot && e.frozen == 0 && e.savedMb == 0)
  {
  }

  /** The memory floor is inclusive: a reading of exactly the floor passes
      the gate, one byte less does not. */
  lemma MemoryFloorIsInclusive(slot: AppState, now: int, activePid: int, cfg: Config)
    requires Eligible(slot, activePid) && IdleTooLong(slot, now, cfg) && cfg.minMemoryMb >= 1
    ensures IsCandidate(slot, now, activePid, cfg.minMemoryMb * BytesPerMb, cfg)
    ensures !IsCandidate(slot, now, activePid, cfg.minMemoryMb * BytesPerMb - 1, cfg)
  {
  }

  /** The idle timeout is strict: idle for exactly the timeout is not
      enough, one second more is. */
  lemma IdleTimeoutIsStrict(slot: AppState, now: int, activePid: int, bytes: nat, cfg: Config)
    requires Eligible(slot, activePid) && MeetsMemoryFloor(bytes, cfg)
    ensures !IsCandidate(slot.(lastActive := now - cfg.timeoutSecs), now, activePid, bytes, cfg)
    ensures IsCandidate(slot.(lastActive := now - cfg.timeoutSecs - 1), now, activePid, bytes, cfg)
  {
  }

  /** Every suspend call of a scan is for the PID of a candidate slot: never
      for the foreground process, an unoccupied or an already frozen slot,
      and never in dry-run mode. */
  lemma {:induction false} ScanFreezesOnlyCandidates(s: seq<AppState>, now: int, activePid: int,
                                                     memoryOf: int -> nat, freezeResultOf: int -> int,
                                                     cfg: Config)
    ensures var r := Scan(s, now, activePid, memoryOf, freezeResultOf, cfg);
      forall d :: d in r.emitted ==>
        d.Freeze? && d.pid != activePid && !cfg.dryRun &&
        exists i :: 0 <= i < |s| && s[i].pid == d.pid && IsCandidate(s[i], now, activePid, memoryOf(s[i].pid), cfg)
    decreases |s|
  {
    if s != [] {
      var n := |s| - 1;
      ScanFreezesOnlyCandidates(s[..n], now, activePid, memoryOf, freezeResultOf, cfg);
      var r := Scan(s, now, activePid, memoryOf, freezeResultOf, cfg);
      var e := Examine(s[n], now, activePid, memoryOf(s[n].pid), freezeResultOf(s[n].pid), cfg);
      forall d | d in r.emitted
        ensures d.Freeze? && d.pid != activePid && !cfg.dryRun &&
                exists i :: 0 <= i < |s| && s[i].pid == d.pid && IsCandidate(s[i], now, activePid, memoryOf(s[i].pid), cfg)
      {
        if d in e.emitted {
          assert IsCandidate(s[n], now, activePid, memoryOf(s[n].pid), cfg);
        } else {
          var i :| 0 <= i < n && s[..n][i].pid == d.pid &&
                   IsCandidate(s[..n][i], now, activePid, memoryOf(s[..n][i].pid), cfg);
          assert s[..n][i] == s[i];
        }
      }
    }
  }

  /** A dry-run scan issues no suspend call, leaves both counters alone, and
      changes a slot only by resetting a candidate's timer to `now`. */
  lemma {:induction false} DryRunScanOnlyResetsTimers(s: seq<AppState>, now: int, activePid: int,
                                                      memoryOf: int -> nat, freezeResultOf: int -> int,
                                                      cfg: Config)
    requires cfg.dryRun
    ensures var r := Scan(s, now, activePid, memoryOf, freezeResultOf, cfg);
      && r.emitted == [] && r.frozen == 0 && r.savedMb == 0
      && forall i :: 0 <= i < |s| ==>
           r.slots[i] == if IsCandidate(s[i], now, activePid, memoryOf(s[i].pid), cfg)
                         then s[i].(lastActive := now) else s[i]
    decreases |s|
  {
    ScanIsPointwise(s, now, activePid, memoryOf, freezeResultOf, cfg);
    if s != [] {
      DryRunScanOnlyResetsTimers(s[..|s| - 1], now, activePid, memoryOf, freezeResultOf, cfg);
    }
  }

  /** Examining slot `i` keeps the table well formed and in step with the
      call log, and the freeze counter in step with the successful freezes. */
  lemma ExamineKeepsBookkeeping(s: seq<AppState>, i: nat, log: seq<Directive>, now: int,
                                activePid: int, bytes: nat, freezeResult: int, cfg: Config)
    requires WellFormed(s) && i < |s|
    requires Suspended(log) == FrozenPids(s)
    ensures var e := Examine(s[i], now, activePid, bytes, freezeResult, cfg);
      && WellFormed(s[i := e.slot])
      && Suspended(log + e.emitted) == FrozenPids(s[i := e.slot])
      && SuccessfulFreezes(log + e.emitted) == SuccessfulFreezes(log) + e.frozen
  {
    if !IsCandidate(s[i], now, activePid, bytes, cfg) {
      assert s[i := s[i]] == s && log + [] == log;
    } else if cfg.dryRun {
      TouchKeeps(s, i, now);
      assert log + [] == log;
    } else {
      FreezeKeeps(s, i, freezeResult == 0, log);
      if freezeResult != 0 {
        assert s[i := s[i]] == s;
      }
    }
  }

  /** Resetting the time of slot `i` changes neither the table invariant nor
      the frozen PIDs. */
  lemma TouchKeeps(s: seq<AppState>, i: nat, now: int)
    requires WellFormed(s) && i < |s|
    ensures WellFormed(s[i := s[i].(lastActive := now)])
    ensures FrozenPids(s[i := s[i].(lastActive := now)]) == FrozenPids(s)
  {
    FrozenPidsAfterWrite(s, i, s[i].(lastActive := now));
  }

  /** Suspending the occupied, unfrozen slot `i`, successfully (`ok`) or
      not, keeps the bookkeeping and counts the success. */
  lemma FreezeKeeps(s: seq<AppState>, i: nat, ok: bool, log: seq<Directive>)
    requires WellFormed(s) && i < |s| && s[i].valid && !s[i].isFrozen
    requires Suspended(log) == FrozenPids(s)
    ensures var t := if ok then s[i := s[i].(isFrozen := true)] else s;
      && WellFormed(t)
      && Suspended(log + [Freeze(s[i].pid, ok)]) == FrozenPids(t)
      && SuccessfulFreezes(log + [Freeze(s[i].pid, ok)]) == SuccessfulFreezes(log) + (if ok then 1 else 0)
  {
    LogStep(log, Freeze(s[i].pid, ok));
    if ok {
      FrozenPidsAfterWrite(s, i, s[i].(isFrozen := true));
    }
  }
}
