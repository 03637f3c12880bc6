/** The freeze/thaw engine: the history table, its claim cursor, the session
    counters and the configuration, updated in place by one polling tick at
    a time, and the thaw-everything sweep run at shutdown. */
module LifecycleEngine {
  import opened SafetyFilter
  import opened History
  import opened IdleScan
  import opened Sentinel

  class Engine {
    /** The history table. */
    const history: array<AppState>
    const config: Config
    /** The user's VIP entries, read once before the loop starts. */
    const whitelist: seq<string>
    /** The slot the next new PID claims. */
    var cursor: nat
    /** Session statistics: successful freezes and megabytes reclaimed. */
    var frozenCount: nat
    var ramSavedMb: nat
    /** Consecutive blind ("WindowManager") sightings. */
    var blindCounter: nat
    /** Every resume and suspend call issued so far, in order. */
    ghost var directives: seq<Directive>

    /** The table is well formed; the processes it records as frozen are
        exactly those the issued calls left suspended (nothing suspended is
        ever forgotten, nothing is believed frozen that was not suspended);
        the freeze counter counts the successful suspends. */
    ghost predicate Valid()
      reads this, history
    {
      && history.Length == Capacity
      && cursor < Capacity
      && blindCounter <= BlindLimit
      && WellFormed(history[..])
      && Suspended(directives) == FrozenPids(history[..])
      && frozenCount == SuccessfulFreezes(directives)
    }

    constructor (config: Config, whitelist: seq<string>)
      ensures Valid() && fresh(history)
      ensures this.config == config && this.whitelist == whitelist
      ensures forall i :: 0 <= i < Capacity ==> history[i] == Unoccupied
      ensures cursor == 0 && frozenCount == 0 && ramSavedMb == 0 && blindCounter == 0
      ensures directives == []
    {
      history := new AppState[Capacity](_ => Unoccupied);
      this.config := config;
      this.whitelist := whitelist;
      cursor, frozenCount, ramSavedMb, blindCounter := 0, 0, 0, 0;
      directives := [];
      new;
      NoFrozenPids(history[..]);
    }

    /** Record that the foreground process `pid`, resolved to `name`, is
        active at `now`. */
    method Update(pid: int, name: string, now: int)
      requires Valid()
      modifies history, this`cursor, this`directives
      ensures Valid()
      ensures var e := ApplyUpdate(old(history[..]), old(cursor), pid, name, now, whitelist);
        history[..] == e.slots && cursor == e.cursor && directives == old(directives) + e.emitted
    {
      ghost var s0, c0, log0 := history[..], cursor, directives;
      if IsCritical(name, whitelist) {
        assert log0 + [] == log0;
        return;
      }
      for i := 0 to Capacity
        invariant history[..] == s0 && directives == log0 && cursor == c0
        invariant forall j :: 0 <= j < i ==> !Holds(s0[j], pid)
      {
        if history[i].valid && history[i].pid == pid {
          assert FindPid(s0, pid) == Some(i);
          RefreshKeeps(s0, i, pid, now, log0);
          var wasFrozen := history[i].isFrozen;
          history[i] := history[i].(lastActive := now);
          if wasFrozen {
            directives := directives + [Thaw(pid)];
            history[i] := history[i].(isFrozen := false);
          } else {
            assert log0 + [] == log0;
          }
          assert history[..] == s0[i := s0[i].(lastActive := now, isFrozen := false)];
          return;
        }
      }
      // A new PID: thaw a frozen occupant of the cursor slot before overwriting it.
      ClaimKeeps(s0, c0, pid, name, now, log0);
      if history[cursor].valid && history[cursor].isFrozen {
        directives := directives + [Thaw(history[cursor].pid)];
        history[cursor] := history[cursor].(isFrozen := false);
      } else {
        assert log0 + [] == log0;
      }
      history[cursor] := Tracked(pid, name, now);
      cursor := (cursor + 1) % Capacity;
      assert FindPid(s0, pid) == None;
      assert history[..] == s0[c0 := Tracked(pid, name, now)];
    }

    /** The idle scan at time `now`, with `activePid` the foreground process
        as queried again for the scan. */
    method CheckForIdlers(now: int, activePid: int, memoryOf: int -> nat, freezeResultOf: int -> int)
      requires Valid()
      modifies history, this`frozenCount, this`ramSavedMb, this`directives
      ensures Valid()
      ensures var r := Scan(old(history[..]), now, activePid, memoryOf, freezeResultOf, config);
        && history[..] == r.slots
        && frozenCount == old(frozenCount) + r.frozen
        && ramSavedMb == old(ramSavedMb) + r.savedMb
        && directives == old(directives) + r.emitted
    {
      ghost var s0, f0, m0, log0 := history[..], frozenCount, ramSavedMb, directives;
      ghost var acc := ScanResult([], 0, 0, []);
      for i := 0 to Capacity
        invariant Valid()
        invariant acc == Scan(s0[..i], now, activePid, memoryOf, freezeResultOf, config)
        invariant history[..] == acc.slots + s0[i..]
        invariant frozenCount == f0 + acc.frozen
        invariant ramSavedMb == m0 + acc.savedMb
        invariant directives == log0 + acc.emitted
      {
        acc := ScanSlot(i, now, activePid, memoryOf, freezeResultOf, s0, acc, f0, m0, log0);
      }
      assert s0[..Capacity] == s0;
    }

    /** The idle scan's loop body: slot `i` is examined, which extends the
        scan of the first `i` slots by one. */
    method ScanSlot(i: nat, now: int, activePid: int, memoryOf: int -> nat, freezeResultOf: int -> int,
                    ghost s0: seq<AppState>, ghost acc: ScanResult, ghost f0: nat, ghost m0: nat,
                    ghost log0: seq<Directive>) returns (ghost acc': ScanResult)
      requires Valid() && i < |s0| == Capacity
      requires acc == Scan(s0[..i], now, activePid, memoryOf, freezeResultOf, config)
      requires history[..] == acc.slots + s0[i..]
      requires frozenCount == f0 + acc.frozen && ramSavedMb == m0 + acc.savedMb
      requires directives == log0 + acc.emitted
      modifies history, this`frozenCount, this`ramSavedMb, this`directives
      ensures Valid()
      ensures acc' == Scan(s0[..i + 1], now, activePid, memoryOf, freezeResultOf, config)
      ensures history[..] == acc'.slots + s0[i + 1..]
      ensures frozenCount == f0 + acc'.frozen && ramSavedMb == m0 + acc'.savedMb
      ensures directives == log0 + acc'.emitted
    {
      ScanSnoc(s0, i, now, activePid, memoryOf, freezeResultOf, config);
      ghost var e := Examine(s0[i], now, activePid, memoryOf(s0[i].pid), freezeResultOf(s0[i].pid), config);
      SpliceSlot(acc.slots, s0, i, e.slot);
      ExamineSlot(i, now, activePid, memoryOf, freezeResultOf);
      acc' := ScanResult(acc.slots + [e.slot], acc.frozen + e.frozen, acc.savedMb + e.savedMb, acc.emitted + e.emitted);
    }

    /** One iteration of the idle scan, on slot `i`. */
    method ExamineSlot(i: nat, now: int, activePid: int, memoryOf: int -> nat, freezeResultOf: int -> int)
      requires Valid() && i < Capacity
      modifies history, this`frozenCount, this`ramSavedMb, this`directives
      ensures Valid()
      ensures var e := Examine(old(history[i]), now, activePid, memoryOf(old(history[i]).pid),
                               freezeResultOf(old(history[i]).pid), config);
        && history[..] == old(history[..])[i := e.slot]
        && frozenCount == old(frozenCount) + e.frozen
        && ramSavedMb == old(ramSavedMb) + e.savedMb
        && directives == old(directives) + e.emitted
    {
      ghost var before, log := history[..], directives;
      var app := history[i];
      ghost var e := Examine(app, now, activePid, memoryOf(app.pid), freezeResultOf(app.pid), config);
      ExamineKeepsBookkeeping(before, i, log, now, activePid, memoryOf(app.pid),
                              freezeResultOf(app.pid), config);
      if app.valid && !app.isFrozen && app.pid != activePid {
        var bytes := memoryOf(app.pid);
        if !(bytes < config.minMemoryMb * BytesPerMb) {
          if now - app.lastActive > config.timeoutSecs {
            assert IsCandidate(app, now, activePid, bytes, config);
            if config.dryRun {
              // Report only, and reset the timer so the report is not repeated every tick.
              history[i] := app.(lastActive := now);
              assert e == Examined(app.(lastActive := now), 0, 0, []);
            } else {
              var result := freezeResultOf(app.pid);
              directives := directives + [Freeze(app.pid, result == 0)];
              if result == 0 {
                history[i] := app.(isFrozen := true);
                frozenCount := frozenCount + 1;
                ramSavedMb := ramSavedMb + bytes / BytesPerMb;
                assert e == Examined(app.(isFrozen := true), 1, bytes / BytesPerMb, [Freeze(app.pid, true)]);
              } else {
                assert e == Examined(app, 0, 0, [Freeze(app.pid, false)]);
              }
            }
          } else {
            assert e == Examined(app, 0, 0, []);
          }
        } else {
          assert e == Examined(app, 0, 0, []);
        }
      } else {
        assert e == Examined(app, 0, 0, []);
      }
      assert history[..] == before[i := e.slot];
      assert directives == log + e.emitted;
    }

    /** Sentinel recovery: resume every frozen tracked process and reset its
        timer to `now`; reports whether anything was thawed. */
    method SpeculativeThaw(now: int) returns (thawed: bool)
      requires Valid()
      modifies history, this`directives
      ensures Valid()
      ensures history[..] == ThawAll(old(history[..]), now)
      ensures directives == old(directives) + ThawList(old(history[..]))
      ensures thawed <==> !NothingFrozen(old(history[..]))
    {
      ghost var s0 := history[..];
      thawed := false;
      for i := 0 to Capacity
        invariant Valid()
        invariant forall j :: 0 <= j < i ==> history[j] == ThawSlot(s0[j], now)
        invariant forall j :: i <= j < Capacity ==> history[j] == s0[j]
        invariant directives == old(directives) + ThawList(s0[..i])
        invariant thawed <==> exists j :: 0 <= j < i && IsHeld(s0[j])
      {
        ThawListSnoc(s0, i);
        var held := ResumeSlot(i, true, now);
        thawed := thawed || held;
      }
      assert s0[..Capacity] == s0;
    }

    /** The shutdown handler: resume every frozen tracked process, then
        hand back the session statistics for the final report. */
    method HandleExit() returns (appsFrozen: nat, ramReclaimedMb: nat)
      requires Valid()
      modifies history, this`directives
      ensures Valid()
      ensures history[..] == ReleaseAll(old(history[..]))
      ensures directives == old(directives) + ThawList(old(history[..]))
      ensures NothingFrozen(history[..])
      ensures appsFrozen == frozenCount && ramReclaimedMb == ramSavedMb
    {
      ReleaseEverything();
      appsFrozen, ramReclaimedMb := frozenCount, ramSavedMb;
    }

    /** The shutdown sweep: resume every frozen tracked process, slot by slot. */
    method ReleaseEverything()
      requires Valid()
      modifies history, this`directives
      ensures Valid()
      ensures history[..] == ReleaseAll(old(history[..]))
      ensures directives == old(directives) + ThawList(old(history[..]))
    {
      ghost var s0 := history[..];
      for i := 0 to Capacity
        invariant Valid()
        invariant forall j :: 0 <= j < i ==> history[j] == ReleaseSlot(s0[j])
        invariant forall j :: i <= j < Capacity ==> history[j] == s0[j]
        invariant directives == old(directives) + ThawList(s0[..i])
      {
        ThawListSnoc(s0, i);
        var _ := ResumeSlot(i, false, 0);
      }
      assert s0[..Capacity] == s0;
    }

    /** One iteration of either sweep: if slot `i` holds a frozen process,
        resume it (and, for the sentinel, reset its timer to `now`). The
        shutdown sweep passes `resetTimer` false, and then `now` is unused. */
    method ResumeSlot(i: nat, resetTimer: bool, now: int) returns (held: bool)
      requires Valid() && i < Capacity
      modifies history, this`directives
      ensures Valid()
      ensures held == IsHeld(old(history[i]))
      ensures history[i] == if resetTimer then ThawSlot(old(history[i]), now) else ReleaseSlot(old(history[i]))
      ensures forall j :: 0 <= j < Capacity && j != i ==> history[j] == old(history[j])
      ensures directives == old(directives) + (if held then [Thaw(old(history[i]).pid)] else [])
    {
      ghost var before := history[..];
      held := history[i].valid && history[i].isFrozen;
      if held {
        var resumed := history[i].(isFrozen := false);
        if resetTimer {
          resumed := resumed.(lastActive := now);
        }
        ThawStepKeepsBookkeeping(before, i, resumed, directives);
        directives := directives + [Thaw(history[i].pid)];
        history[i] := resumed;
        assert history[..] == before[i := resumed];
      } else {
        assert directives == old(directives) + [];
      }
    }

    /** One iteration of the polling loop: `pid` and `name` are the
        foreground observation, `activePid` the foreground process as the
        scan queries it again. Returns whether the blindness alert fired. */
    method Tick(pid: int, name: string, now: int, activePid: int,
                memoryOf: int -> nat, freezeResultOf: int -> int) returns (alert: bool)
      requires Valid()
      modifies history, this`cursor, this`frozenCount, this`ramSavedMb, this`blindCounter, this`directives
      ensures Valid()
      ensures var b := BlindStep(old(blindCounter), RouteOf(pid, name));
        blindCounter == b.counter && alert == b.alert
      ensures var e := Dispatch(old(history[..]), old(cursor), pid, name, now, whitelist);
        var r := Scan(e.slots, now, activePid, memoryOf, freezeResultOf, config);
        && history[..] == r.slots
        && cursor == e.cursor
        && frozenCount == old(frozenCount) + r.frozen
        && ramSavedMb == old(ramSavedMb) + r.savedMb
        && directives == old(directives) + e.emitted + r.emitted
    {
      alert := false;
      if pid > 0 {
        if name == BlindName {
          blindCounter := blindCounter + 1;
          if blindCounter > BlindLimit {
            alert := true;
            blindCounter := 0;
          }
          // Still run the sentinel, in case the user is stuck behind a frozen window.
          var _ := SpeculativeThaw(now);
        } else if name == "loginwindow" || name == "Dock" {
          var _ := SpeculativeThaw(now);
          blindCounter := 0;
        } else {
          Update(pid, name, now);
          blindCounter := 0;
        }
      } else {
        assert old(directives) + [] == old(directives);
      }
      CheckForIdlers(now, activePid, memoryOf, freezeResultOf);
    }
  }
}
