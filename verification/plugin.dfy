/** The PlayStation 2 integration object: the catalog it holds, the cached
    local-games snapshot, the emulator process it tracks, the tick counter,
    the ledger file and the background tasks it has asked the event loop to
    run. */
module Plugin {
  import opened Wrappers
  import opened Games
  import opened TimeLedger
  import opened Launch
  import opened Session

  /** A background task handed to the event loop. */
  datatype Task = UpdateLocalGamesTask | UpdateAllGameTimesTask

  class PlayStation2Plugin {
    var games: seq<Game>
    var localGamesCache: seq<LocalGame>
    /** None when no emulator is tracked, otherwise Some(exited). */
    var proc: Option<bool>
    var runningGameId: string
    var tickCount: nat
    /** The game_times.json file: absent, or present with its contents. */
    var ledger: Option<Ledger>
    /** The tasks scheduled so far, oldest first. */
    var pending: seq<Task>

    /** A fresh plugin over whatever ledger file is already on disk; it
        schedules the first local-games update. */
    constructor (ledgerFile: Option<Ledger>)
      ensures games == [] && localGamesCache == [] && proc == None
      ensures runningGameId == "" && tickCount == 0
      ensures ledger == ledgerFile
      ensures pending == [UpdateLocalGamesTask]
    {
      games := [];
      localGamesCache := [];
      proc := None;
      runningGameId := "";
      tickCount := 0;
      ledger := ledgerFile;
      pending := [UpdateLocalGamesTask];
    }

    /** The catalog chosen by the configured strategy becomes the plugin's
        games, and each is reported as owned, in catalog order. */
    method GetOwnedGames(catalog: seq<Game>) returns (owned: seq<OwnedGame>)
      modifies this`games
      ensures games == catalog
      ensures IsOwnedListOf(owned, catalog)
    {
      games := catalog;
      owned := [];
      for i := 0 to |games|
        invariant IsOwnedListOf(owned, games[..i])
      {
        owned := owned + [OwnedGame(games[i].id, games[i].name)];
      }
    }

    /** Starts the emulator on the first catalog game with `gameId`. The
        running id is recorded even when no game matches; then no process is
        started and the handle is left as it was. */
    method LaunchGame(gameId: string, opts: LaunchOptions, fs: FileSystem) returns (launched: Option<seq<string>>)
      modifies this`runningGameId, this`proc
      ensures runningGameId == gameId
      ensures launched == LaunchFor(games, gameId, opts, fs)
      ensures proc == if launched.Some? then Some(false) else old(proc)
    {
      runningGameId := gameId;
      launched := StartEmulator(gameId, opts, fs);
    }

    /** The search for the game and the start of its emulator. */
    method StartEmulator(gameId: string, opts: LaunchOptions, fs: FileSystem) returns (launched: Option<seq<string>>)
      modifies this`proc
      ensures launched == LaunchFor(games, gameId, opts, fs)
      ensures proc == if launched.Some? then Some(false) else old(proc)
    {
      launched := None;
      for i := 0 to |games|
        invariant forall j :: 0 <= j < i ==> games[j].id != gameId
        invariant launched == None && proc == old(proc)
      {
        if games[i].id == gameId {
          var args := BuildArgs(opts, fs, games[i].path);
          proc := Some(false);
          launched := Some(args);
          assert FirstWithId(games, gameId) == Some(i);
          return;
        }
      }
    }

    /** Reads the ledger, first creating it seeded from the catalog when the
        file is absent, and returns one game time per ledger entry. */
    method GetGamesTimesDict() returns (times: map<string, GameTime>)
      modifies this`ledger
      ensures ledger == Some(Loaded(old(ledger), games))
      ensures times.Keys == ledger.value.Keys
      ensures forall id :: id in times ==> times[id] == ToGameTime(id, ledger.value[id])
    {
      if ledger.None? {
        var data := SeedLedger(games);
        ledger := Some(data);
      }
      times := ReadGameTimes(ledger.value);
    }

    /** Adds one session to a game's entry and rewrites the whole file; the
        returned game time is what the client is told. The file is left
        untouched when it is missing or does not hold the game. */
    method UpdateGameTime(gameId: string, duration: int, playedAt: int) returns (result: Result<GameTime, LedgerError>)
      modifies this`ledger
      ensures Increment(old(ledger), gameId, duration, playedAt).Ok? ==>
                && ledger == Some(Increment(old(ledger), gameId, duration, playedAt).value)
                && result == Ok(GameTime(gameId, ledger.value[gameId].timePlayed, Some(playedAt)))
      ensures Increment(old(ledger), gameId, duration, playedAt).Err? ==>
                && ledger == old(ledger)
                && result == Err(Increment(old(ledger), gameId, duration, playedAt).error)
    {
      if ledger.None? {
        return Err(FileMissing);
      }
      var data := ledger.value;
      if gameId !in data {
        return Err(UnknownGame);
      }
      var entry := data[gameId];
      data := data[gameId := entry.(timePlayed := entry.timePlayed + duration)];
      data := data[gameId := data[gameId].(lastPlayed := Some(playedAt))];
      assert data == Bumped(ledger.value, gameId, duration, playedAt);
      ledger := Some(data);
      result := Ok(GameTime(gameId, data[gameId].timePlayed, Some(playedAt)));
    }

    /** Polls the emulator; an exited session is added to the ledger for the
        running game, with `duration` the session length and `now` the
        current time, and the handle is then dropped. */
    method CheckEmuStatus(duration: int, now: int) returns (raised: Option<LedgerError>)
      modifies this`ledger, this`proc
      ensures SessionState(proc, ledger, raised) == CheckSession(old(proc), old(ledger), runningGameId, duration, now)
    {
      raised := None;
      if proc == Some(true) {
        var r := UpdateGameTime(runningGameId, duration, now);
        match r {
          case Ok(_) =>
            proc := None;
          case Err(UnknownGame) =>
          case Err(FileMissing) =>
            raised := Some(FileMissing);
        }
      }
    }

    /** The periodic driver: checks the session, schedules the local-games
        update, counts the tick and, on every fifth, schedules the bulk time
        refresh. An exception from the check ends the tick before any of
        that. */
    method Tick(duration: int, now: int) returns (raised: Option<LedgerError>)
      modifies this`ledger, this`proc, this`pending, this`tickCount
      ensures SessionState(proc, ledger, raised) == CheckSession(old(proc), old(ledger), runningGameId, duration, now)
      ensures raised.Some? ==> tickCount == old(tickCount) && pending == old(pending)
      ensures raised.None? ==> tickCount == old(tickCount) + 1
      ensures raised.None? ==>
                pending == old(pending) + [UpdateLocalGamesTask]
                           + (if RefreshDue(tickCount) then [UpdateAllGameTimesTask] else [])
    {
      raised := CheckEmuStatus(duration, now);
      if raised.Some? {
        return;
      }
      pending := pending + [UpdateLocalGamesTask];
      tickCount := tickCount + 1;
      if tickCount % RefreshPeriod == 0 {
        pending := pending + [UpdateAllGameTimesTask];
      }
    }

    /** Every catalog game as an installed local game, in catalog order. */
    method LocalGamesList() returns (localGames: seq<LocalGame>)
      ensures IsSnapshotOf(localGames, games)
    {
      localGames := [];
      for i := 0 to |games|
        invariant IsSnapshotOf(localGames, games[..i])
      {
        localGames := localGames + [LocalGame(games[i].id, Installed)];
      }
    }

    /** The body of the local-games task: the cache becomes a fresh snapshot
        of the catalog. */
    method UpdateLocalGames()
      modifies this`localGamesCache
      ensures IsSnapshotOf(localGamesCache, games)
    {
      var newList := LocalGamesList();
      localGamesCache := newList;
    }

    /** The body of the bulk refresh task: every ledger entry's game time,
        read as `GetGamesTimesDict` reads them. */
    method UpdateAllGameTimes() returns (times: map<string, GameTime>)
      modifies this`ledger
      ensures ledger == Some(Loaded(old(ledger), games))
      ensures times.Keys == ledger.value.Keys
      ensures forall id :: id in times ==> times[id] == ToGameTime(id, ledger.value[id])
    {
      times := GetGamesTimesDict();
    }

    /** The emulator process terminates. This is the outside world, not the
        plugin: it is how a tracked process comes to be seen as exited. */
    method EmulatorExits()
      modifies this`proc
      ensures proc == if old(proc).Some? then Some(true) else None
    {
      if proc.Some? {
        proc := Some(true);
      }
    }
  }

  /** One play session end to end: launching a catalog game that already has
      a ledger entry, the emulator exiting and the next tick record the
      session exactly once; a further tick adds nothing. */
  method PlayOneSession(p: PlayStation2Plugin, gameId: string, opts: LaunchOptions, fs: FileSystem,
                        duration: int, now: int, laterDuration: int, later: int)
    requires exists i :: 0 <= i < |p.games| && p.games[i].id == gameId
    requires p.ledger.Some? && gameId in p.ledger.value
    modifies p
    ensures p.ledger == Some(Bumped(old(p.ledger.value), gameId, duration, now))
    ensures p.proc == None && p.runningGameId == gameId
    ensures p.tickCount == old(p.tickCount) + 2
    ensures p.games == old(p.games) && p.localGamesCache == old(p.localGamesCache)
    ensures p.pending == old(p.pending)
                         + [UpdateLocalGamesTask] + (if RefreshDue(old(p.tickCount) + 1) then [UpdateAllGameTimesTask] else [])
                         + [UpdateLocalGamesTask] + (if RefreshDue(old(p.tickCount) + 2) then [UpdateAllGameTimesTask] else [])
  {
    var launched := p.LaunchGame(gameId, opts, fs);
    assert launched.Some?;
    p.EmulatorExits();
    var raised := p.Tick(duration, now);
    assert p.proc == None && raised == None;
    raised := p.Tick(laterDuration, later);
  }
}
