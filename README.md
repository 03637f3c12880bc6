# MacNap process-lifecycle engine, modelled in Dafny

MacNap watches which application is in the foreground. It suspends
("freezes") other tracked applications once they have been idle past a
timeout and use more memory than a floor. It resumes ("thaws") an
application as soon as the user returns to it. This project models the
engine of `src/main.c` and proves its properties:

- the safety filter that exempts system and user-listed processes;
- the seven-slot history table with its round-robin claim cursor;
- the activity update;
- the idle scan and its session statistics;
- sentinel recovery, which thaws everything;
- the shutdown thaw sweep;
- the per-tick dispatch of the polling loop, including the
  "WindowManager" blindness counter;
- the line filter of the whitelist loader.

Modules, one per file:

- `SafetyFilter` (`safety_filter.dfy`): `strstr` as a recursive search. It
  is proved equal to a reference "is a substring" definition, and the filter
  is characterised by an if-and-only-if.
- `Whitelist` (`whitelist.dfy`): the loader's line loop, as a method over
  lines that have already been read. It is proved against a specification
  function.
- `History` (`history.dfy`): slots as values, plus the specification of
  one activity update and of both thaw sweeps. It also defines the ghost
  call log: a sequence of `Thaw(pid)` and `Freeze(pid, succeeded)`
  directives in the order the engine issues them.
- `IdleScan` (`idle_scan.dfy`): the specification of examining one slot
  and of the whole scan.
- `Sentinel` (`sentinel.dfy`): routing of one foreground observation and
  the blindness counter.
- `LifecycleEngine` (`engine.dfy`): class `Engine`.
  - The history table is an `array`.
  - The cursor, the two statistics and the blind counter are fields.
  - The configuration and the whitelist are constants.
  - Each operation is a method proved against the specification
    functions; its loops carry invariants.
  - `Valid()` is kept by every method. It holds:
    - the table invariants: one occupied slot per PID, frozen implies
      occupied, cursor in range, blind counter at most 4;
    - the processes the table records as frozen are exactly those that
      were suspended and have not since been sent a resume call, so every
      process the engine suspended is either still recorded as frozen or
      has been sent a resume;
    - the freeze counter equals the number of successful suspends.

The platform layer is not modelled. Its queries become parameters:

- the clock is `now`;
- the foreground PID and its name are parameters;
- the memory reading is an oracle by PID, `memoryOf`;
- the suspend call's result is an oracle by PID, `freezeResultOf`.

Two behaviours of the code are easy to misread; the model follows the
code:

- The cursor advances only when a new PID claims a slot, not on every
  update (`src/main.c:238`, `src/main.c:262`).
- A memory reading exactly equal to the floor passes the gate, because the
  test is a strict `<` (`src/main.c:279`).

## Model

| member | source | states |
|---|---|---|
| SafetyFilter.ContainsIsSubstring | src/main.c:135 | the position-by-position search succeeds exactly when the needle is a contiguous substring of the name (both directions) |
| SafetyFilter.Contains | src/main.c:135 | the library search finds the empty needle in every name, and finds a needle only if it is no longer than the name |
| SafetyFilter.AnyTokenIn | src/main.c:134-139 | the blacklist loop succeeds exactly when the search finds some token of the list in the name |
| SafetyFilter.AnyVipIn | src/main.c:143-152 | the whitelist loop succeeds exactly when the search finds some non-empty entry in the name; empty entries never match |
| SafetyFilter.IsCritical | src/main.c:127-156 | a name in which the search finds a blacklist token or a non-empty whitelist entry is critical, and a critical name has such a match |
| SafetyFilter.AnyTokenInIff | src/main.c:129-139 | the blacklist loop finds a match exactly when some built-in token is a substring of the name |
| SafetyFilter.AnyVipInIff | src/main.c:143-152 | the whitelist loop finds a match exactly when some non-empty entry is a substring of the name |
| SafetyFilter.IsCriticalIff | src/main.c:127-156 | a name is critical exactly when a blacklist token or a non-empty whitelist entry is a case-sensitive substring of it |
| SafetyFilter.EmptyEntryIsInert | src/main.c:144-145 | the search finds the empty string in every name, and because empty entries are skipped, inserting one anywhere in the whitelist changes no verdict |
| Whitelist.StripLineEnd | src/main.c:111 | the result is the prefix of the line before its first carriage return or line feed, and contains neither |
| Whitelist.KeptLines | src/main.c:109-118 | no more entries are kept than there are lines, and every kept entry passes the filter (at least two characters, not a comment, no line end) |
| Whitelist.KeptLinesMembers | src/main.c:113-114 | an entry is kept exactly when it is the stripped form of some line, at least two characters long and not starting with `#` |
| Whitelist.LoadWhitelist | src/main.c:109-120 | the loop yields the kept lines in file order, cut to the first 20; every entry passes the filter and is already stripped |
| Whitelist.StripIsIdempotent | src/main.c:111 | stripping a stripped line changes nothing |
| History.FindPid | src/main.c:224-225 | the search returns the first slot occupied by the PID, and returns none exactly when no occupied slot holds it |
| History.ApplyUpdate | src/main.c:214-263 | after an update for a non-critical name some slot holds the PID; the cursor stays or moves on by one modulo 7; at most one call is issued, and it resumes a process recorded as frozen |
| History.UpdateIgnoresCritical | src/main.c:218-221 | a critical name changes no slot and no cursor, and issues no call |
| History.UpdateRefreshesTrackedPid | src/main.c:224-239 | for a tracked PID: only its slot changes, its time becomes `now`, it ends unfrozen, a resume is issued exactly when it was frozen, and the cursor stays |
| History.UpdateClaimsCursorSlot | src/main.c:243-262 | for an untracked PID: a frozen occupant of the cursor slot is resumed by its own PID; the slot then holds the new process, unfrozen; no other slot changes; the cursor moves on by one modulo 7 |
| History.UpdateKeepsBookkeeping | src/main.c:214-263 | an update keeps PIDs unique and frozen-implies-occupied, keeps the frozen PIDs equal to the processes left suspended, and adds no successful freeze |
| History.RefreshKeeps | src/main.c:224-239 | refreshing the slot of a tracked PID keeps the table invariants and the frozen-PIDs/suspended correspondence, and counts no freeze |
| History.ClaimKeeps | src/main.c:243-262 | claiming the cursor slot for an untracked PID, after resuming a frozen occupant, keeps the table invariants and the frozen-PIDs/suspended correspondence, and counts no freeze |
| History.ThawSlot | src/main.c:187-194 | the slot is afterwards not frozen, and a slot that was not frozen is unchanged |
| History.ReleaseSlot | src/main.c:337-341 | the slot is afterwards not frozen, keeps its time, and is unchanged if it was not frozen |
| History.ThawAll | src/main.c:184-204 | the sentinel's sweep keeps the table size and leaves nothing frozen |
| History.ReleaseAll | src/main.c:336-342 | the shutdown sweep keeps the table size and leaves nothing frozen |
| History.ThawList | src/main.c:186-194 | a sweep issues at most one call per slot |
| History.SweepsKeepOccupants | src/main.c:184-204 | both sweeps keep every slot's PID, name and occupancy; the sentinel's sweep resets the time of exactly the frozen slots, the shutdown sweep keeps every time |
| History.ThawListExact | src/main.c:186-193 | a thaw-all sweep issues only resumes, and resumes exactly the processes recorded as frozen |
| History.NothingToThaw | src/main.c:184-204 | with nothing frozen, both sweeps change no slot and issue no call |
| History.ThawAllIdempotent | src/main.c:184-204 | after either sweep nothing is frozen and the table invariants hold, so a second sweep changes nothing and issues no call |
| History.ThawStepKeepsBookkeeping | src/main.c:188-190 | resuming one frozen slot keeps the table invariants and the frozen-PIDs/suspended correspondence, and counts no freeze |
| IdleScan.ScanIsPointwise | src/main.c:269-322 | each slot after the scan is what examining that slot alone gives |
| IdleScan.Examine | src/main.c:270-321 | the occupant is kept; at most one call and one counted freeze; a freeze is counted exactly when the call is a successful suspend of the slot's PID; a call is issued only for a candidate and never in dry-run mode |
| IdleScan.Scan | src/main.c:269-322 | one slot per input slot; the freezes counted never exceed the calls, which never exceed the slots |
| IdleScan.ExamineSkipsNonCandidates | src/main.c:270-283 | an unoccupied, frozen or foreground slot, or one below the memory floor or not idle long enough, is left as it was, with no call and no statistics change |
| IdleScan.ExamineCandidate | src/main.c:288-308 | for a candidate: a dry run issues no suspend and only resets the time to `now`; otherwise exactly one suspend is issued; success changes only the frozen flag of the slot and adds 1 freeze and the whole megabytes of the reading; failure changes nothing |
| IdleScan.MemoryFloorIsInclusive | src/main.c:279 | a reading exactly equal to the floor passes the gate; one byte less does not |
| IdleScan.IdleTimeoutIsStrict | src/main.c:285-288 | being idle for exactly the timeout is not enough; one second more is |
| IdleScan.ScanFreezesOnlyCandidates | src/main.c:269-302 | every call of a scan suspends the PID of a candidate slot; none is for the foreground process, and none is issued in dry-run mode |
| IdleScan.DryRunScanOnlyResetsTimers | src/main.c:289-296 | a dry-run scan issues no call, leaves both statistics unchanged, and changes a slot only by resetting a candidate's time to `now` |
| IdleScan.ExamineKeepsBookkeeping | src/main.c:302-307 | examining a slot keeps the table invariants and the frozen-PIDs/suspended correspondence, and adds to the successful-freeze count exactly what it adds to the freeze statistic |
| IdleScan.TouchKeeps | src/main.c:294 | resetting a slot's time keeps the table invariants and the set of frozen PIDs |
| IdleScan.FreezeKeeps | src/main.c:302-307 | a suspend of an occupied, unfrozen slot keeps the table invariants and the correspondence; success adds the PID to both sides and counts one freeze, failure changes nothing |
| Sentinel.BlindStep | src/main.c:471-498 | the counter stays within 0..4; a blind sighting increments it modulo 5; the alert fires exactly on a blind sighting with the counter already at 4; no foreground leaves the counter alone; system surfaces and applications zero it |
| Sentinel.RouteOf | src/main.c:467-494 | an observation is ignored exactly when its PID is not positive; both system surfaces are built-in safety tokens |
| Sentinel.Dispatch | src/main.c:467-499 | the table size and cursor range are kept; only an application observation can move the cursor; a blind or system-surface observation leaves nothing frozen |
| Sentinel.AlertOnEveryFifthSighting | src/main.c:473-484 | in an unbroken run of n blind sightings the counter is n mod 5, and the alert fires exactly on the 5th, 10th, ... sighting |
| Sentinel.SurfacesAreNeverTracked | src/main.c:470-494 | a "WindowManager", "loginwindow" or "Dock" observation claims no slot and leaves the cursor; every slot ends unfrozen; the calls are exactly the resumes of the frozen processes |
| Sentinel.NoForegroundChangesNothing | src/main.c:467 | a non-positive foreground PID leaves the table and the cursor untouched and issues no call |
| LifecycleEngine.Engine.constructor | src/main.c:59 | all seven slots start unoccupied, with the cursor, statistics and blind counter at zero and no call issued |
| LifecycleEngine.Engine.Update | src/main.c:214-263 | the table, cursor and call log after the update are exactly those of the update specification; the invariants are kept |
| LifecycleEngine.Engine.CheckForIdlers | src/main.c:265-322 | the table after the loop is the scan of the old table; each statistic grows by the scan's amount; the calls are the scan's calls, in slot order; the invariants are kept |
| LifecycleEngine.Engine.ScanSlot | src/main.c:269 | one loop iteration extends the scan of the first i slots to the first i + 1 slots |
| LifecycleEngine.Engine.ExamineSlot | src/main.c:270-321 | slot i becomes what examining it gives, with the matching statistics and call, and nothing else changes |
| LifecycleEngine.Engine.SpeculativeThaw | src/main.c:184-210 | every frozen slot is resumed in slot order, with its time reset to `now`; the result is true exactly when something was frozen; the invariants are kept |
| LifecycleEngine.Engine.HandleExit | src/main.c:325-346 | every frozen slot is resumed, after which nothing is frozen; the statistics handed back are the session counters |
| LifecycleEngine.Engine.ReleaseEverything | src/main.c:336-342 | the exit sweep resumes exactly the frozen slots in slot order and changes nothing else in them |
| LifecycleEngine.Engine.ResumeSlot | src/main.c:187-194 | one iteration of either sweep resumes slot i exactly when it is frozen, and leaves every other slot alone |
| LifecycleEngine.Engine.Tick | src/main.c:463-503 | the blind counter and the alert follow the counter step; the table is first dispatched (ignored, swept or updated) and then scanned; the cursor, statistics and call log agree with that composition |

## Left out

- The platform layer (`src/platform/`) is not part of this model. Its
  queries are parameters:
  - the foreground PID and its name;
  - the memory reading, as an oracle by PID in bytes; a failed read is 0,
    which simply falls under the floor;
  - the suspend result, as an oracle by PID.
  Resume results are ignored, as the engine ignores them.
- A failed resume: the call log counts every resume call as effective. On
  Windows a resume can fail (a thread snapshot that cannot be taken), and
  the engine still clears the frozen flag, or overwrites the slot on
  eviction. That process then stays stopped with no slot tracking it; the
  model does not show this, and its frozen-PIDs correspondence is about
  the calls issued, not about the processes' actual state.
- The clock: one `now` per tick serves the update, the sentinel, the scan
  and the dry-run timer reset. The C code reads the clock separately each
  time.
- `update_app_activity` resolves the process name again itself. The model
  passes it the name already resolved for the tick.
- Floating point: the memory megabytes and `difftime` are doubles in C. The
  model uses integers:
  - the gate is `bytes < floor * 1048576`;
  - the statistic grows by `bytes / 1048576`;
  - idle time is an integer subtraction.
  Rounding of readings above 2^53 bytes is not modelled.
- Counter overflow: the C `int` and `uint64_t` statistics are unbounded
  `nat`s here.
- Configuration file and interactive setup, argument parsing, logging,
  notifications, terminal output, the 2-second pause after the alert,
  `sleep_ms`, daemonizing, the SIGINT registration and `exit`: these are
  I/O or process control. Only the thaw sweep and the statistics of
  `handle_exit` are modelled.
- Signal arrival in the middle of a tick is not modelled. Each tick and
  the exit sweep run to completion.
- `blind_counter` is a local variable of `main`. It is an engine field here
  so that one tick can be a method.
- Whitelist file reading: `fgets` splitting lines longer than the 256-byte
  buffer into several lines, and the 256-byte name buffers in general. The
  loader is modelled over the list of lines already read, and names are
  unbounded strings.
- PID reuse by the operating system: the code does not handle it, and
  neither does the model.
