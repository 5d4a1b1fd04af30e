/** The playtime ledger: the game_times.json file as a map from game id to
    its record, how it is seeded when absent, how it is read back as game
    times, and how one session is added to a record. */
module TimeLedger {
  import opened Wrappers
  import opened Games

  /** One ledger entry. `name` is informational and may be absent from
      entries the plugin did not write; `lastPlayed` is null until played. */
  datatype Record = Record(name: Option<string>, timePlayed: int, lastPlayed: Option<int>)

  type Ledger = map<string, Record>

  /** The client's GameTime value. */
  datatype GameTime = GameTime(gameId: string, timePlayed: int, lastPlayed: Option<int>)

  /** Why a ledger update raised: the file does not exist (FileNotFoundError)
      or the game id is not one of its keys (AttributeError on None). */
  datatype LedgerError = FileMissing | UnknownGame

  /** The record written for a game when the ledger is first created. */
  function ZeroRecord(name: string): Record
  {
    Record(Some(name), 0, None)
  }

  /** The ledger the seeding loop builds from the catalog, one key
      assignment per game in catalog order. */
  function Seeded(games: seq<Game>): Ledger
  {
    if games == [] then map[]
    else Seeded(games[..|games| - 1])[games[|games| - 1].id := ZeroRecord(games[|games| - 1].name)]
  }

  /** `i` is the last catalog position holding `id`. */
  ghost predicate LastWithId(games: seq<Game>, id: string, i: int)
  {
    && 0 <= i < |games|
    && games[i].id == id
    && forall j :: i < j < |games| ==> games[j].id != id
  }

  /** Seeding creates one entry per catalog id and no other. */
  lemma {:induction false} SeededKeys(games: seq<Game>)
    ensures Seeded(games).Keys == Ids(games)
  {
    if games != [] {
      var init, g := games[..|games| - 1], games[|games| - 1];
      assert games == init + [g];
      SeededKeys(init);
      assert Ids(games) == Ids(init) + {g.id};
    }
  }

  /** Each seeded entry is a zero record with no last-played stamp; when an
      id is repeated in the catalog, the name of its last occurrence wins. */
  lemma {:induction false} SeededEntry(games: seq<Game>, id: string)
    requires id in Seeded(games)
    ensures exists i :: LastWithId(games, id, i) && Seeded(games)[id] == ZeroRecord(games[i].name)
  {
    var n := |games|;
    var init, g := games[..n - 1], games[n - 1];
    if id == g.id {
      assert LastWithId(games, id, n - 1);
    } else {
      SeededEntry(init, id);
      var i :| LastWithId(init, id, i) && Seeded(init)[id] == ZeroRecord(init[i].name);
      assert LastWithId(games, id, i);
    }
  }

  /** Seeding as the source does it: a loop assigning one key per game. */
  method SeedLedger(games: seq<Game>) returns (data: Ledger)
    ensures data == Seeded(games)
  {
    data := map[];
    for i := 0 to |games|
      invariant data == Seeded(games[..i])
    {
      assert games[..i + 1][..i] == games[..i];
      data := data[games[i].id := ZeroRecord(games[i].name)];
    }
    assert games[..|games|] == games;
  }

  /** The contents the ledger has after `_get_games_times_dict`: the existing
      file untouched, or a freshly seeded one. */
  function Loaded(file: Option<Ledger>, games: seq<Game>): Ledger
  {
    match file
    case Some(data) => data
    case None => Seeded(games)
  }

  /** The game time reported for one ledger entry. */
  function ToGameTime(id: string, r: Record): GameTime
  {
    GameTime(id, r.timePlayed, r.lastPlayed)
  }

  /** Reading the ledger back: one game time per key, carrying that entry's
      time played and last played stamp unchanged. */
  method ReadGameTimes(data: Ledger) returns (times: map<string, GameTime>)
    ensures times.Keys == data.Keys
    ensures forall id :: id in times ==>
              times[id].gameId == id
              && times[id].timePlayed == data[id].timePlayed
              && times[id].lastPlayed == data[id].lastPlayed
  {
    times := map[];
    var rest := data.Keys;
    while rest != {}
      invariant rest <= data.Keys
      invariant times.Keys == data.Keys - rest
      invariant forall id :: id in times ==> times[id] == ToGameTime(id, data[id])
      decreases rest
    {
      var id :| id in rest;
      times := times[id := ToGameTime(id, data[id])];
      rest := rest - {id};
    }
  }

  /** One session added to an existing entry: the duration is added to the
      time played and the stamp overwritten. */
  function Bumped(data: Ledger, id: string, duration: int, playedAt: int): (r: Ledger)
    requires id in data
    ensures r.Keys == data.Keys
    ensures r[id].timePlayed == data[id].timePlayed + duration
    ensures r[id].lastPlayed == Some(playedAt)
    ensures r[id].name == data[id].name
    ensures forall k :: k in data && k != id ==> r[k] == data[k]
  {
    data[id := data[id].(timePlayed := data[id].timePlayed + duration, lastPlayed := Some(playedAt))]
  }

  /** The whole read-modify-write of `_update_game_time` on the file's state. */
  function Increment(file: Option<Ledger>, id: string, duration: int, playedAt: int): Result<Ledger, LedgerError>
  {
    if file.None? then Err(FileMissing)
    else if id !in file.value then Err(UnknownGame)
    else Ok(Bumped(file.value, id, duration, playedAt))
  }

  /** Two increments of one title add up: they equal a single increment by
      the sum of the durations, stamped with the later time. */
  lemma BumpedTwice(data: Ledger, id: string, d1: int, t1: int, d2: int, t2: int)
    requires id in data
    ensures Bumped(Bumped(data, id, d1, t1), id, d2, t2) == Bumped(data, id, d1 + d2, t2)
    ensures Bumped(Bumped(data, id, d1, t1), id, d2, t2)[id].timePlayed == data[id].timePlayed + d1 + d2
  {
  }

  /** An increment succeeds exactly when the file exists and already holds the
      title; a failed increment writes nothing. */
  lemma IncrementOutcome(file: Option<Ledger>, id: string, duration: int, playedAt: int)
    ensures Increment(file, id, duration, playedAt).Ok? <==> file.Some? && id in file.value
    ensures Increment(file, id, duration, playedAt) == Err(FileMissing) <==> file.None?
    ensures Increment(file, id, duration, playedAt).Ok? ==>
              Increment(file, id, duration, playedAt).value.Keys == file.value.Keys
  {
  }
}
