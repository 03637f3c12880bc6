/** The tracked-application history: a fixed table of slots with a
    round-robin claim cursor, the freeze/thaw calls the engine issues, and the
    specification of refreshing or claiming a slot and of thawing every slot. */
module History {
  import opened SafetyFilter

  /** Number of slots in the history table. */
  const Capacity: nat := 7

  /** One slot of the table. `valid` says whether the slot is occupied. */
  datatype AppState = AppState(pid: int, name: string, lastActive: int, isFrozen: bool, valid: bool)

  /** A slot as the zero-initialised table holds it before first use. */
  const Unoccupied: AppState := AppState(0, "", 0, false, false)

  /** A freshly claimed slot. */
  function Tracked(pid: int, name: string, now: int): AppState {
    AppState(pid, name, now, false, true)
  }

  /** A call the engine makes into the platform layer: resume a process, or
      suspend one together with whether the suspension succeeded. */
  datatype Directive = Thaw(pid: int) | Freeze(pid: int, succeeded: bool)

  datatype Option<T> = None | Some(value: T)

  /** The effect of one step on the table: new slots, new cursor and the
      calls issued, in order. */
  datatype Effect = Effect(slots: seq<AppState>, cursor: nat, emitted: seq<Directive>)

  /** The slot is occupied by `pid`. */
  predicate Holds(slot: AppState, pid: int) {
    slot.valid && slot.pid == pid
  }

  /** The slot is occupied and its process is suspended by the engine. */
  predicate IsHeld(slot: AppState) {
    slot.valid && slot.isFrozen
  }

  ghost predicate UniquePids(s: seq<AppState>) {
    forall i, j :: 0 <= i < |s| && 0 <= j < |s| && i != j && s[i].valid && s[j].valid ==>
      s[i].pid != s[j].pid
  }

  ghost predicate FrozenImpliesValid(s: seq<AppState>) {
    forall i :: 0 <= i < |s| && s[i].isFrozen ==> s[i].valid
  }

  /** The table invariant: right size, at most one occupied slot per PID,
      only occupied slots frozen. */
  ghost predicate WellFormed(s: seq<AppState>) {
    |s| == Capacity && UniquePids(s) && FrozenImpliesValid(s)
  }

  predicate NothingFrozen(s: seq<AppState>) {
    forall i :: 0 <= i < |s| ==> !IsHeld(s[i])
  }

  /** The PIDs the table records as suspended. */
  ghost function FrozenPids(s: seq<AppState>): set<int> {
    set i | 0 <= i < |s| && IsHeld(s[i]) :: s[i].pid
  }

  lemma NoFrozenPids(s: seq<AppState>)
    requires NothingFrozen(s)
    ensures FrozenPids(s) == {}
  {
  }

  ghost function HeldPid(slot: AppState): set<int> {
    if IsHeld(slot) then {slot.pid} else {}
  }

  /** The PIDs left suspended by a sequence of calls: a successful freeze
      adds its PID, a thaw removes it. */
  ghost function Suspended(log: seq<Directive>): set<int>
    decreases |log|
  {
    if log == [] then {}
    else
      var rest := Suspended(log[..|log| - 1]);
      match log[|log| - 1]
      case Thaw(p) => rest - {p}
      case Freeze(p, ok) => if ok then rest + {p} else rest
  }

  /** The number of successful freezes in a sequence of calls. */
  ghost function SuccessfulFreezes(log: seq<Directive>): nat
    decreases |log|
  {
    if log == [] then 0
    else
      SuccessfulFreezes(log[..|log| - 1]) +
      (match log[|log| - 1] case Freeze(_, ok) => if ok then 1 else 0 case Thaw(_) => 0)
  }

  /** Appending one call to the log. */
  lemma LogStep(log: seq<Directive>, d: Directive)
    ensures Suspended(log + [d]) ==
              if d.Thaw? then Suspended(log) - {d.pid}
              else if d.succeeded then Suspended(log) + {d.pid}
              else Suspended(log)
    ensures SuccessfulFreezes(log + [d]) ==
              SuccessfulFreezes(log) + (if d.Freeze? && d.succeeded then 1 else 0)
  {
    assert (log + [d])[..|log|] == log;
  }

  /** Overwriting one slot changes the recorded frozen PIDs by exactly the
      old and the new occupant of that slot. */
  lemma FrozenPidsAfterWrite(s: seq<AppState>, i: nat, x: AppState)
    requires i < |s| && UniquePids(s)
    ensures FrozenPids(s[i := x]) == (FrozenPids(s) - HeldPid(s[i])) + HeldPid(x)
  {
    var t := s[i := x];
    forall p | p in FrozenPids(t)
      ensures p in (FrozenPids(s) - HeldPid(s[i])) + HeldPid(x)
    {
      var j :| 0 <= j < |t| && IsHeld(t[j]) && t[j].pid == p;
      if j != i {
        assert s[j] == t[j];
        assert p in FrozenPids(s);
      }
    }
    forall p | p in (FrozenPids(s) - HeldPid(s[i])) + HeldPid(x)
      ensures p in FrozenPids(t)
    {
      if p in HeldPid(x) {
        assert IsHeld(t[i]) && t[i].pid == p;
      } else {
        var j :| 0 <= j < |s| && IsHeld(s[j]) && s[j].pid == p;
        assert j != i;
        assert IsHeld(t[j]) && t[j].pid == p;
      }
    }
  }

  lemma FrozenPidsSnoc(s: seq<AppState>)
    requires |s| > 0
    ensures FrozenPids(s) == FrozenPids(s[..|s| - 1]) + HeldPid(s[|s| - 1])
  {
    var n := |s| - 1;
    forall p | p in FrozenPids(s) ensures p in FrozenPids(s[..n]) + HeldPid(s[n]) {
      var j :| 0 <= j < |s| && IsHeld(s[j]) && s[j].pid == p;
      if j < n {
        assert s[..n][j] == s[j];
      }
    }
    forall p | p in FrozenPids(s[..n]) + HeldPid(s[n]) ensures p in FrozenPids(s) {
      if p !in HeldPid(s[n]) {
        var j :| 0 <= j < n && IsHeld(s[..n][j]) && s[..n][j].pid == p;
        assert s[j] == s[..n][j];
      }
    }
  }

  // ---------------------------------------------------------------------
  // Refreshing or claiming a slot

  /** The first slot occupied by `pid`, if any. */
  function FindPid(s: seq<AppState>, pid: int): (k: Option<nat>)
    ensures k.None? <==> forall i :: 0 <= i < |s| ==> !Holds(s[i], pid)
    ensures k.Some? ==> k.value < |s| && Holds(s[k.value], pid)
    ensures k.Some? ==> forall j :: 0 <= j < k.value ==> !Holds(s[j], pid)
    decreases |s|
  {
    if s == [] then None
    else if Holds(s[0], pid) then Some(0)
    else match FindPid(s[1..], pid)
      case None => None
      case Some(k) => Some(k + 1)
  }

  /** One activity update for the foreground process `pid`, whose resolved
      name is `name`: critical names are ignored; a tracked PID has its slot
      refreshed and thawed if frozen; a new PID claims the cursor slot,
      thawing a frozen occupant first, and the cursor moves on. */
  function ApplyUpdate(s: seq<AppState>, cursor: nat, pid: int, name: string, now: int,
                       whitelist: seq<string>): (e: Effect)
    requires |s| == Capacity && cursor < Capacity
    ensures |e.slots| == Capacity && e.cursor < Capacity
    ensures e.cursor == cursor || e.cursor == (cursor + 1) % Capacity
    ensures !IsCritical(name, whitelist) ==> exists j :: 0 <= j < Capacity && Holds(e.slots[j], pid)
    ensures |e.emitted| <= 1
    ensures e.emitted != [] ==> e.emitted[0].Thaw? && e.emitted[0].pid in FrozenPids(s)
  {
    if IsCritical(name, whitelist) then Effect(s, cursor, [])
    else match FindPid(s, pid)
      case Some(k) =>
        assert Holds(s[k := s[k].(lastActive := now, isFrozen := false)][k], pid);
        assert s[k].isFrozen ==> s[k].pid in FrozenPids(s);
        Effect(s[k := s[k].(lastActive := now, isFrozen := false)], cursor,
               if s[k].isFrozen then [Thaw(pid)] else [])
      case None =>
        assert Holds(s[cursor := Tracked(pid, name, now)][cursor], pid);
        assert IsHeld(s[cursor]) ==> s[cursor].pid in FrozenPids(s);
        Effect(s[cursor := Tracked(pid, name, now)], (cursor + 1) % Capacity,
               if IsHeld(s[cursor]) then [Thaw(s[cursor].pid)] else [])
  }

  /** A critical name changes nothing and issues no call. */
  lemma UpdateIgnoresCritical(s: seq<AppState>, cursor: nat, pid: int, name: string, now: int,
                              whitelist: seq<string>)
    requires |s| == Capacity && cursor < Capacity
    requires IsCritical(name, whitelist)
    ensures ApplyUpdate(s, cursor, pid, name, now, whitelist) == Effect(s, cursor, [])
  {
  }

  /** A PID already in slot `i`: only that slot changes, its time becomes
      `now`, and it is thawed (one call) exactly when it was frozen; the
      cursor stays where it was. */
  lemma UpdateRefreshesTrackedPid(s: seq<AppState>, cursor: nat, pid: int, name: string, now: int,
                                  whitelist: seq<string>, i: nat)
    requires WellFormed(s) && cursor < Capacity && i < Capacity
    requires !IsCritical(name, whitelist) && Holds(s[i], pid)
    ensures var e := ApplyUpdate(s, cursor, pid, name, now, whitelist);
      && e.cursor == cursor
      && e.slots[i].lastActive == now && !e.slots[i].isFrozen
      && e.slots[i].pid == pid && e.slots[i].name == s[i].name && e.slots[i].valid
      && (forall j :: 0 <= j < Capacity && j != i ==> e.slots[j] == s[j])
      && e.emitted == (if s[i].isFrozen then [Thaw(pid)] else [])
  {
    var k := FindPid(s, pid);
    assert k.Some?;
    assert k.value == i;
  }

  /** A PID in no occupied slot claims the cursor slot: a frozen occupant is
      thawed (its own PID) before being overwritten, the slot then holds the
      new process unfrozen, no other slot changes, and the cursor moves on by
      one, wrapping round. */
  lemma UpdateClaimsCursorSlot(s: seq<AppState>, cursor: nat, pid: int, name: string, now: int,
                               whitelist: seq<string>)
    requires |s| == Capacity && cursor < Capacity
    requires !IsCritical(name, whitelist)
    requires forall i :: 0 <= i < Capacity ==> !Holds(s[i], pid)
    ensures var e := ApplyUpdate(s, cursor, pid, name, now, whitelist);
      && e.slots[cursor] == AppState(pid, name, now, false, true)
      && (forall j :: 0 <= j < Capacity && j != cursor ==> e.slots[j] == s[j])
      && e.cursor == (cursor + 1) % Capacity
      && e.emitted == (if s[cursor].valid && s[cursor].isFrozen then [Thaw(s[cursor].pid)] else [])
  {
  }

  /** Every update keeps the table invariant, and keeps the table's frozen
      PIDs equal to the processes the issued calls leave suspended: no
      suspended process ever loses its slot. */
  lemma UpdateKeepsBookkeeping(s: seq<AppState>, cursor: nat, pid: int, name: string, now: int,
                               whitelist: seq<string>, log: seq<Directive>)
    requires WellFormed(s) && cursor < Capacity
    requires Suspended(log) == FrozenPids(s)
    ensures var e := ApplyUpdate(s, cursor, pid, name, now, whitelist);
      && WellFormed(e.slots)
      && Suspended(log + e.emitted) == FrozenPids(e.slots)
      && SuccessfulFreezes(log + e.emitted) == SuccessfulFreezes(log)
  {
    if IsCritical(name, whitelist) {
      assert log + [] == log;
    } else {
      match FindPid(s, pid)
      case Some(k) => RefreshKeeps(s, k, pid, now, log);
      case None => ClaimKeeps(s, cursor, pid, name, now, log);
    }
  }

  /** Refreshing the slot `k` that holds `pid` keeps the bookkeeping. */
  lemma RefreshKeeps(s: seq<AppState>, k: nat, pid: int, now: int, log: seq<Directive>)
    requires WellFormed(s) && k < |s| && Holds(s[k], pid)
    requires Suspended(log) == FrozenPids(s)
    ensures var t := s[k := s[k].(lastActive := now, isFrozen := false)];
      var emitted := if s[k].isFrozen then [Thaw(pid)] else [];
      && WellFormed(t)
      && Suspended(log + emitted) == FrozenPids(t)
      && SuccessfulFreezes(log + emitted) == SuccessfulFreezes(log)
  {
    FrozenPidsAfterWrite(s, k, s[k].(lastActive := now, isFrozen := false));
    if s[k].isFrozen {
      LogStep(log, Thaw(pid));
    } else {
      assert log + [] == log;
    }
  }

  /** Claiming the cursor slot for a PID no occupied slot holds keeps the
      bookkeeping. */
  lemma ClaimKeeps(s: seq<AppState>, cursor: nat, pid: int, name: string, now: int, log: seq<Directive>)
    requires WellFormed(s) && cursor < |s|
    requires forall i :: 0 <= i < |s| ==> !Holds(s[i], pid)
    requires Suspended(log) == FrozenPids(s)
    ensures var t := s[cursor := Tracked(pid, name, now)];
      var emitted := if IsHeld(s[cursor]) then [Thaw(s[cursor].pid)] else [];
      && WellFormed(t)
      && Suspended(log + emitted) == FrozenPids(t)
      && SuccessfulFreezes(log + emitted) == SuccessfulFreezes(log)
  {
    FrozenPidsAfterWrite(s, cursor, Tracked(pid, name, now));
    if IsHeld(s[cursor]) {
      LogStep(log, Thaw(s[cursor].pid));
    } else {
      assert log + [] == log;
    }
  }

  // ---------------------------------------------------------------------
  // Thawing everything

  /** The speculative thaw of one slot: a frozen occupant is resumed and its
      time reset to `now`. */
  function ThawSlot(slot: AppState, now: int): (r: AppState)
    ensures !IsHeld(r)
    ensures !IsHeld(slot) ==> r == slot
  {
    if IsHeld(slot) then slot.(isFrozen := false, lastActive := now) else slot
  }

  /** The shutdown thaw of one slot: a frozen occupant is resumed. */
  function ReleaseSlot(slot: AppState): (r: AppState)
    ensures !IsHeld(r)
    ensures r.lastActive == slot.lastActive
    ensures !IsHeld(slot) ==> r == slot
  {
    if IsHeld(slot) then slot.(isFrozen := false) else slot
  }

  /** The table after the sentinel's sweep: nothing is left frozen. */
  function ThawAll(s: seq<AppState>, now: int): (r: seq<AppState>)
    ensures |r| == |s| && NothingFrozen(r)
  {
    seq(|s|, i requires 0 <= i < |s| => ThawSlot(s[i], now))
  }

  /** The table after the shutdown sweep: nothing is left frozen. */
  function ReleaseAll(s: seq<AppState>): (r: seq<AppState>)
    ensures |r| == |s| && NothingFrozen(r)
  {
    seq(|s|, i requires 0 <= i < |s| => ReleaseSlot(s[i]))
  }

  /** The resume calls of a thaw-all sweep, in slot order. */
  function ThawList(s: seq<AppState>): (r: seq<Directive>)
    ensures |r| <= |s|
    decreases |s|
  {
    if s == [] then []
    else
      ThawList(s[..|s| - 1]) +
      (if IsHeld(s[|s| - 1]) then [Thaw(s[|s| - 1].pid)] else [])
  }

  lemma ThawListSnoc(s: seq<AppState>, i: nat)
    requires i < |s|
    ensures ThawList(s[..i + 1]) == ThawList(s[..i]) + (if IsHeld(s[i]) then [Thaw(s[i].pid)] else [])
  {
    assert s[..i + 1][..i] == s[..i];
  }

  /** A thaw-all sweep resumes exactly the processes recorded as frozen. */
  lemma {:induction false} ThawListExact(s: seq<AppState>)
    ensures forall d :: d in ThawList(s) ==> d.Thaw?
    ensures forall p :: Thaw(p) in ThawList(s) <==> p in FrozenPids(s)
    decreases |s|
  {
    if s != [] {
      ThawListExact(s[..|s| - 1]);
      FrozenPidsSnoc(s);
    }
  }

  /** Both sweeps keep every slot's occupant; the sentinel's sets the time
      of each resumed slot to `now`, the shutdown sweep keeps every time. */
  lemma SweepsKeepOccupants(s: seq<AppState>, now: int)
    ensures forall i :: 0 <= i < |s| ==>
      && ThawAll(s, now)[i].pid == s[i].pid && ThawAll(s, now)[i].name == s[i].name
      && ThawAll(s, now)[i].valid == s[i].valid
      && ThawAll(s, now)[i].lastActive == (if IsHeld(s[i]) then now else s[i].lastActive)
    ensures forall i :: 0 <= i < |s| ==>
      && ReleaseAll(s)[i].pid == s[i].pid && ReleaseAll(s)[i].name == s[i].name
      && ReleaseAll(s)[i].valid == s[i].valid && ReleaseAll(s)[i].lastActive == s[i].lastActive
  {
  }

  /** With nothing frozen, both sweeps change nothing and issue no call. */
  lemma {:induction false} NothingToThaw(s: seq<AppState>, now: int)
    requires NothingFrozen(s)
    ensures ThawAll(s, now) == s && ReleaseAll(s) == s && ThawList(s) == []
    decreases |s|
  {
    if s != [] {
      NothingToThaw(s[..|s| - 1], now);
    }
  }

  /** After either sweep nothing is frozen and the table invariant still
      holds, so a second sweep is a no-op: both are idempotent. */
  lemma ThawAllIdempotent(s: seq<AppState>, now: int, later: int)
    requires WellFormed(s)
    ensures NothingFrozen(ThawAll(s, now)) && WellFormed(ThawAll(s, now))
    ensures NothingFrozen(ReleaseAll(s)) && WellFormed(ReleaseAll(s))
    ensures ThawAll(ThawAll(s, now), later) == ThawAll(s, now) && ThawList(ThawAll(s, now)) == []
    ensures ReleaseAll(ReleaseAll(s)) == ReleaseAll(s) && ThawList(ReleaseAll(s)) == []
  {
    NothingToThaw(ThawAll(s, now), later);
    NothingToThaw(ReleaseAll(s), later);
  }

  /** Resuming the frozen occupant of slot `i`: the table stays well formed
      and in step with the call log. */
  lemma ThawStepKeepsBookkeeping(s: seq<AppState>, i: nat, x: AppState, log: seq<Directive>)
    requires WellFormed(s) && i < |s| && IsHeld(s[i])
    requires x.pid == s[i].pid && x.valid && !x.isFrozen
    requires Suspended(log) == FrozenPids(s)
    ensures WellFormed(s[i := x])
    ensures Suspended(log + [Thaw(s[i].pid)]) == FrozenPids(s[i := x])
    ensures SuccessfulFreezes(log + [Thaw(s[i].pid)]) == SuccessfulFreezes(log)
  {
    FrozenPidsAfterWrite(s, i, x);
    LogStep(log, Thaw(s[i].pid));
  }

  /** Writing slot `i` of a table whose first `i` slots are done and whose
      rest is untouched extends the done part by one. */
  lemma SpliceSlot(done: seq<AppState>, s: seq<AppState>, i: nat, x: AppState)
    requires |done| == i < |s|
    ensures (done + s[i..])[i] == s[i]
    ensures (done + s[i..])[i := x] == (done + [x]) + s[i + 1..]
  {
  }
}
