/** The catalog entities the plugin reads and the values it reports to the
    client: a game found by the catalog, its local state and its ownership entry. */
module Games {

  /** A game as the catalog delivers it; `id` is its identity. */
  datatype Game = Game(id: string, name: string, path: string)

  /** The client's local states; this plugin only ever reports `Installed`. */
  datatype LocalGameState = NotInstalled | Installed | Running

  /** The unit of local-state notification. */
  datatype LocalGame = LocalGame(gameId: string, localGameState: LocalGameState)

  /** An owned-games entry: a single-purchase licence with no DLCs. */
  datatype OwnedGame = OwnedGame(gameId: string, gameTitle: string)

  /** The ids of the catalog. */
  function Ids(games: seq<Game>): set<string>
  {
    set g | g in games :: g.id
  }

  /** `list` reports every catalog game as installed, in catalog order. */
  ghost predicate IsSnapshotOf(list: seq<LocalGame>, games: seq<Game>)
  {
    && |list| == |games|
    && forall i :: 0 <= i < |list| ==> list[i] == LocalGame(games[i].id, Installed)
  }

  /** `owned` lists every catalog game by id and name, in catalog order. */
  ghost predicate IsOwnedListOf(owned: seq<OwnedGame>, games: seq<Game>)
  {
    && |owned| == |games|
    && forall i :: 0 <= i < |owned| ==> owned[i] == OwnedGame(games[i].id, games[i].name)
  }
}
