# PlayStation 2 integration for a game-library client: model

This project models the core of the `PlayStation2Plugin` class, a plugin that
lets a game-library client list PlayStation 2 ROMs, start them in the PCSX2
emulator and keep track of how long each one has been played. The model covers:

- **The playtime ledger.** `game_times.json` is modelled as
  `Option<map<string, Record>>`: the file is either absent or present with its
  contents (`TimeLedger`). Reading it creates the file when it is missing, with
  one zero record per catalog game (`Seeded`). One session is added by a
  whole-file read-modify-write (`Bumped`, `Increment`). The two ways that write
  can raise are modelled as `LedgerError`: `FileMissing` is the
  FileNotFoundError from opening a file that does not exist, and `UnknownGame`
  is the AttributeError from `None.get` when the id is not a key.
- **The emulator session.** The process handle is modelled as `Option<bool>`:
  `None` means no emulator is tracked, and `Some(exited)` means one is. One
  session check is the function `Session.CheckSession`. The check catches only
  AttributeError, so it behaves as follows:
  - with no handle, nothing happens;
  - if the game is not in the ledger, nothing happens and the handle is kept;
  - if the ledger file is missing, the error escapes the check and the tick.
- **Tick cadence.** Every tick runs the session check, schedules the
  local-games update, increments the counter and, when the new count is a
  multiple of 5, also schedules the bulk refresh of game times. Scheduled work
  is recorded as a queue of `Task`s (`pending`).
- **The local-games snapshot.** Every catalog game is reported as `Installed`,
  in catalog order. The snapshot replaces the cache.
- **The emulator command line.** It is built from the user configuration and
  from the game's path. Path handling follows the Windows path rules (both
  separators, a drive-letter prefix; joining inserts a backslash). The results
  of `os.path.isdir` and `os.path.exists` come from a `FileSystem` value holding
  the sets of directories and files.

The class `Plugin.PlayStation2Plugin` holds the source's fields: `games`,
`localGamesCache`, `proc`, `runningGameId`, `tickCount` and `ledger`. It also
holds `pending`, the list of tasks handed to the event loop. Every method states
its whole new state. Each method is tied to a specification function (`Seeded`,
`Loaded`, `Increment`, `CheckSession`, `LaunchFor`, `ArgsFor`) or to a
predicate (`IsSnapshotOf`, `IsOwnedListOf`), and the lemmas beside those
functions state what the source promises.

Some consequences of the code as written:
- A game added to the catalog after the ledger file exists gets no entry. Its
  sessions are never recorded. No check ever clears its handle; only the next
  launch of a catalog game replaces it (`UnknownGameSessionStaysOpen`).
- A launch overwrites any handle that is already tracked.
- A launch for an id that matches no catalog game still changes
  `runningGameId`. When a process that is still running exits, its session is
  recorded under that new id only if the ledger already holds it. Otherwise
  the session is never recorded and the handle stays set
  (`UnknownGameSessionStaysOpen`).

`EmulatorExits` is not part of the source. It stands for the outside event of
the emulator process ending, which `proc.poll()` then observes. The client
method `PlayOneSession` uses it to run one session end to end.

## Model

| member | source | states |
|---|---|---|
| `TimeLedger.SeededKeys` | plugin.py:110-113 | The seeded ledger has exactly the catalog's ids as keys. |
| `TimeLedger.SeededEntry` | plugin.py:112-113 | Every seeded entry has time played 0, no last-played stamp and the name of the LAST catalog game with that id. |
| `TimeLedger.Seeded` | plugin.py:112-113 | Defines the seeded ledger: one key assignment of a zero record per catalog game, in catalog order. `SeededKeys` and `SeededEntry` state its properties. |
| `TimeLedger.Loaded` | plugin.py:110-116 | Defines the ledger that the read after the existence check sees: the file as it stands, or the seeded defaults when there was no file. |
| `TimeLedger.SeedLedger` | plugin.py:105-113 | The seeding loop produces exactly `Seeded(games)`. |
| `TimeLedger.ReadGameTimes` | plugin.py:119-128 | The game times read back have exactly the ledger's keys. Each carries its id and that entry's time played and last-played stamp unchanged. |
| `TimeLedger.Bumped` | plugin.py:195-196 | Adding a session keeps the key set. The game's time played grows by exactly the duration, and its stamp becomes the given time. Its name and every other entry are unchanged. |
| `TimeLedger.BumpedTwice` | plugin.py:192-199 | Two increments of one game equal a single increment by the sum of the durations, stamped with the later time. Time played ends at old + d1 + d2. |
| `TimeLedger.Increment` | plugin.py:192-199 | Defines the whole read-modify-write on the file's state: FileMissing when there is no file, UnknownGame when the id is not a key, otherwise the `Bumped` ledger. `IncrementOutcome` and `BumpedTwice` state its properties. |
| `TimeLedger.IncrementOutcome` | plugin.py:192-199 | The update succeeds if and only if the file exists and already holds the game. It fails with FileMissing if and only if the file is absent. A successful update keeps the key set. |
| `Launch.Basename` | plugin.py:65 | Defines `os.path.basename` under Windows rules: what follows the drive letter and the last '/' or '\\'. `AfterLastSepIsLongestSuffix` states its property. |
| `Launch.AfterLastSepIsLongestSuffix` | plugin.py:65 | The basename is the longest suffix of the path that contains no separator. When it is shorter than the path, the character before it is a separator. |
| `Launch.LastDot` | plugin.py:65 | Returns the index of the last '.' in the name, or None exactly when the name has no '.'. |
| `Launch.Stem` | plugin.py:65 | Defines the root part of `os.path.splitext`: the name cut at its last dot, unless only dots precede that dot. `StemSplitsAtLastDot` states its properties. |
| `Launch.StemSplitsAtLastDot` | plugin.py:65 | The ROM stem is a prefix of the file name. It is shorter exactly when the name has a last dot with some non-dot character before it, and then it is the name cut at that dot ("game.iso" gives "game"). A name made only of leading dots before its last dot keeps its "extension", and a name without dots is its own stem. |
| `Launch.RomStem` | plugin.py:65 | Defines the ROM stem: `Stem` of `Basename` of the game path. `RomStemHasNoSeparator` states its property. |
| `Launch.GameConfigFolder` | plugin.py:66 | Defines the per-game configuration folder: the configuration root, a '/', then the ROM stem. |
| `Launch.RomStemHasNoSeparator` | plugin.py:65-66 | The ROM stem contains no path separator. So the per-game configuration folder is exactly one level below the configuration root. |
| `Launch.Join` | plugin.py:75 | Defines `os.path.join(folder, "fullboot.ini")` under Windows rules: a backslash is inserted unless the part after the drive is empty or already ends in a separator. |
| `Launch.ArgsFor` | plugin.py:65-77 | Defines the command line for one game: the emulator path, the enabled candidate flags in their fixed order, then the ROM path. `ArgsForShape` and `ArgsForOrder` state its properties. |
| `Launch.ArgsForShape` | plugin.py:65-77 | The command line starts with the emulator path and ends with the ROM path, with at most four flags between. `--cfgpath=<folder>` appears if and only if config is enabled and the per-game folder is a directory. `--fullscreen` and `--nogui` appear if and only if their settings are on. `--fullboot` appears if and only if fullboot.ini exists in the per-game folder, whatever the other settings. |
| `Launch.ArgsForOrder` | plugin.py:67-77 | Any two flags that are both present appear in the fixed order cfgpath, fullscreen, nogui, fullboot. |
| `Launch.BuildArgs` | plugin.py:65-77 | Building the argument list one append at a time yields exactly `ArgsFor`. |
| `Launch.LaunchFor` | plugin.py:63-79 | Defines the command line that a launch request starts: `ArgsFor` of the first matching game's path, or nothing when no game matches. |
| `Launch.FirstWithId` | plugin.py:63-64 | Finds the first catalog position holding the id, or None exactly when no game has that id. |
| `Session.CheckSession` | plugin.py:156-165 | Defines one session check on (handle, ledger): with no exited process nothing changes. Otherwise the result of `Increment` decides: on success the handle is cleared; UnknownGame is swallowed with nothing changed; FileMissing escapes with nothing changed. The lemmas below state its properties. |
| `Session.IdleCheckIsNoOp` | plugin.py:156-158 | With no handle, or with a process that is still running, the check changes neither the ledger nor the handle, and raises nothing. |
| `Session.ExitedSessionRecordedOnce` | plugin.py:158-163 | An exited session of a known game adds its duration to that game and stamps it with the current time. No other entry changes, the key set stays the same, and the handle is cleared. A second check right after is a no-op. |
| `Session.UnknownGameSessionStaysOpen` | plugin.py:162-165 | If the running game has no ledger entry, the AttributeError is swallowed: the ledger is not written and the handle stays set. |
| `Session.MissingLedgerRaises` | plugin.py:157-164 | Without a ledger file, an exited session raises FileMissing. The check does not catch it, and nothing changes. |
| `Session.CheckKeepsLedgerKeys` | plugin.py:156-165 | A check never creates or deletes the ledger file, and never adds or removes entries. |
| `Session.TwoSessionsAdd` | plugin.py:156-165 | Two recorded sessions of one game add up to a single increment by d1 + d2. |
| `Session.RefreshDue` | plugin.py:152 | Defines when a tick schedules a refresh: when the new tick count is a multiple of 5. |
| `Session.RefreshCount` | plugin.py:150-153 | Over k ticks starting from counter c, the bulk refresh is scheduled exactly (c + k) / 5 - c / 5 times, one for each multiple of 5 reached. |
| `Plugin.PlayStation2Plugin.constructor` | plugin.py:18-27 | Starts with an empty catalog and cache, no process, an empty running id and tick count 0. It keeps the ledger file that already exists, and schedules one local-games update. |
| `Plugin.PlayStation2Plugin.GetOwnedGames` | plugin.py:204-224 | The supplied catalog becomes `games`. The owned list has one entry per catalog game, with its id and name, in catalog order. |
| `Plugin.PlayStation2Plugin.LaunchGame` | plugin.py:46-55 | The running id becomes the requested id, even when no game matches. The launched command line is that of the FIRST matching game, and the handle becomes a running process. With no match, nothing is launched and the handle is unchanged. |
| `Plugin.PlayStation2Plugin.StartEmulator` | plugin.py:58-79 | Launches only the first game whose id matches, using `ArgsFor` of its path. With no match, the handle is unchanged. |
| `Plugin.PlayStation2Plugin.GetGamesTimesDict` | plugin.py:100-128 | An absent ledger becomes `Seeded(games)`, and a present one is left unchanged. The result has exactly the ledger's keys, each with that entry's time played and last-played stamp. |
| `Plugin.PlayStation2Plugin.UpdateGameTime` | plugin.py:185-201 | On success the ledger becomes `Bumped` of the old one, and the reported game time carries the new total and the stamp. On FileMissing or UnknownGame the ledger is unchanged and the error is returned. |
| `Plugin.PlayStation2Plugin.CheckEmuStatus` | plugin.py:156-165 | The new handle, ledger and escaping error are exactly `CheckSession` of the old ones. |
| `Plugin.PlayStation2Plugin.Tick` | plugin.py:147-153 | The session check always runs first. If it raised, the counter and the task queue are unchanged. Otherwise the counter grows by exactly 1, and the queue gains the local-games update, followed by the bulk refresh exactly when the new count is a multiple of 5. |
| `Plugin.PlayStation2Plugin.LocalGamesList` | plugin.py:131-144 | Returns as many local games as catalog games, with the same ids in the same order, all `Installed`. |
| `Plugin.PlayStation2Plugin.UpdateLocalGames` | plugin.py:168-172 | The cache is replaced by exactly that snapshot. |
| `Plugin.PlayStation2Plugin.UpdateAllGameTimes` | plugin.py:177-182 | Reads (and, if absent, seeds) the ledger as `GetGamesTimesDict` does, and returns one game time per entry. |
| `Plugin.PlayOneSession` | plugin.py:147-165 | Launching a catalog game that has a ledger entry, then the process exiting, then two ticks: the ledger ends as exactly one `Bumped` by the first tick's duration and time, the handle is cleared, and the counter grows by 2. The queue gains two local-games tasks, each followed by a refresh task when its tick's count is a multiple of 5. The catalog and the cache are unchanged. |

## Left out

- The state diff `_get_state_changes` (plugin.py:171) lives in backend.py, which is not part of this model. So `UpdateLocalGames` computes no change notifications; it only replaces the cache.
- Session timing (`_set_session_start`, `_set_session_end`, `_get_session_duration`) lives in backend.py. The session duration and the current time (`int(time.time())`) are inputs to `CheckEmuStatus` and `Tick`. Their values are not constrained: no clamping to zero is modelled, because none is visible in the source.
- The catalog strategies (database, Giant Bomb API, ISO reading) are I/O and external services. Their result is the `catalog` input of `GetOwnedGames`.
- asyncio scheduling: `create_task` is recorded as an entry in `pending`, and the task bodies are the methods `UpdateLocalGames` and `UpdateAllGameTimes`. The model leaves out when and in what order the event loop runs these bodies, the 60-second sleep before the bulk refresh, and interleavings between tasks. The lost-update race between a bulk read and a per-game write is therefore not modelled.
- Real file I/O: JSON encoding, `os.makedirs`, and the `%LOCALAPPDATA%` path expansion. One consequence is left out: `os.makedirs` raises when the directory exists but the file does not. The model also assumes every ledger entry has a numeric `time_played`; a malformed file, or an entry without that field (which makes the addition raise TypeError), is not modelled.
- `subprocess.Popen` is modelled as setting the handle to a running process. A failure to start the emulator is not modelled.
- Launch.Join and Launch.Basename follow the Windows path rules for drive letters only. UNC roots (`\\server\share`) and case-insensitive path comparison are not modelled, and the file-system probes compare paths exactly as written.
- Host glue is left out: authentication and credential storage, `prepare_game_times_context` and `get_game_time` (a dictionary lookup), `get_local_games` (returns the cache), the `install_game`/`uninstall_game` placeholders, the client notification calls, and `main`.
