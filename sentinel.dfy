/** Per-tick dispatch of the foreground observation: system surfaces go to
    sentinel recovery (thaw everything) instead of being tracked, and a run of
    "WindowManager" sightings raises the blindness alert. */
module Sentinel {
  import opened SafetyFilter
  import opened History

  /** The name the platform reports when it may not look at the foreground window. */
  const BlindName: string := "WindowManager"

  /** Consecutive blind sightings tolerated before the alert fires. */
  const BlindLimit: nat := 4

  /** How one observation is handled. */
  datatype Route = NoForeground | Blind | SystemSurface | Application

  /** Only a positive PID is observed at all, and both system surfaces are
      built-in safety tokens, so an update would ignore them anyway. */
  function RouteOf(pid: int, name: string): (r: Route)
    ensures r == NoForeground <==> pid <= 0
    ensures r == SystemSurface ==> AnyTokenIn(name, Blacklist)
  {
    if pid <= 0 then NoForeground
    else if name == BlindName then Blind
    else if name == "loginwindow" || name == "Dock" then
      assert Blacklist[1] == "Dock" && Blacklist[4] == "loginwindow";
      assert Contains(name, name) by { assert StartsWith(name, name); }
      SystemSurface
    else Application
  }

  datatype BlindState = BlindState(counter: nat, alert: bool)

  /** The blind counter after one observation, and whether the alert fires. */
  function BlindStep(counter: nat, route: Route): (r: BlindState)
    ensures counter <= BlindLimit ==> r.counter <= BlindLimit
    ensures r.alert <==> route == Blind && counter >= BlindLimit
    ensures route == NoForeground ==> r.counter == counter
    ensures route == SystemSurface || route == Application ==> r.counter == 0
    ensures route == Blind && counter <= BlindLimit ==> r.counter == (counter + 1) % (BlindLimit + 1)
  {
    match route
    case NoForeground => BlindState(counter, false)
    case Blind =>
      if counter + 1 > BlindLimit then BlindState(0, true) else BlindState(counter + 1, false)
    case SystemSurface => BlindState(0, false)
    case Application => BlindState(0, false)
  }

  /** The counter after `n` blind sightings in a row from a reset counter. */
  function BlindRun(n: nat): BlindState {
    if n == 0 then BlindState(0, false) else BlindStep(BlindRun(n - 1).counter, Blind)
  }

  /** In an unbroken run of blind sightings the alert fires on the fifth, the
      tenth, and so on, and on no other. */
  lemma {:induction false} AlertOnEveryFifthSighting(n: nat)
    ensures BlindRun(n).counter == n % (BlindLimit + 1)
    ensures BlindRun(n).alert <==> n > 0 && n % (BlindLimit + 1) == 0
  {
    if n > 0 {
      AlertOnEveryFifthSighting(n - 1);
    }
  }

  /** What the observation does to the history table before the idle scan. */
  function Dispatch(s: seq<AppState>, cursor: nat, pid: int, name: string, now: int,
                    whitelist: seq<string>): (e: Effect)
    requires |s| == Capacity && cursor < Capacity
    ensures |e.slots| == Capacity && e.cursor < Capacity
    ensures RouteOf(pid, name) != Application ==> e.cursor == cursor
    ensures RouteOf(pid, name) == Blind || RouteOf(pid, name) == SystemSurface ==> NothingFrozen(e.slots)
  {
    match RouteOf(pid, name)
    case NoForeground => Effect(s, cursor, [])
    case Blind => Effect(ThawAll(s, now), cursor, ThawList(s))
    case SystemSurface => Effect(ThawAll(s, now), cursor, ThawList(s))
    case Application => ApplyUpdate(s, cursor, pid, name, now, whitelist)
  }

  /** A system-surface or blind observation is never tracked: no slot
      changes occupant and the cursor stays, every slot ends up unfrozen, and
      the calls issued are exactly the resumes of the frozen slots. */
  lemma SurfacesAreNeverTracked(s: seq<AppState>, cursor: nat, pid: int, name: string, now: int,
                                whitelist: seq<string>)
    requires WellFormed(s) && cursor < Capacity
    requires RouteOf(pid, name) == Blind || RouteOf(pid, name) == SystemSurface
    ensures var e := Dispatch(s, cursor, pid, name, now, whitelist);
      && e.cursor == cursor
      && (forall i :: 0 <= i < Capacity ==>
            e.slots[i].pid == s[i].pid && e.slots[i].valid == s[i].valid &&
            e.slots[i].name == s[i].name && !e.slots[i].isFrozen)
      && (forall d :: d in e.emitted ==> d.Thaw?)
      && (forall p :: Thaw(p) in e.emitted <==> p in FrozenPids(s))
  {
    ThawListExact(s);
  }

  /** With no foreground process the table is untouched. */
  lemma NoForegroundChangesNothing(s: seq<AppState>, cursor: nat, pid: int, name: string, now: int,
                                   whitelist: seq<string>)
    requires |s| == Capacity && cursor < Capacity && pid <= 0
    ensures Dispatch(s, cursor, pid, name, now, whitelist) == Effect(s, cursor, [])
  {
  }
}
