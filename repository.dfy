/** The in-memory session store (internal/repository/memory/game_repository.go):
    a map from session identifier to game. The store's mutex is not
    modelled; every operation is one atomic step. */
module Repository {
  import opened Wrappers
  import opened Domain

  /** The answer `FindByID` gives for `id` on the stored map `games`. */
  function Find(games: map<string, Game>, id: string): (r: Result<Game, Error>)
    ensures r.Ok? <==> id != "" && id in games
    ensures r.Ok? ==> r.value == games[id]
    ensures id == "" ==> r == Err(EmptyId)
    ensures id != "" && id !in games ==> r == Err(NotFound)
  {
    if id == "" then Err(EmptyId)
    else if id !in games then Err(NotFound)
    else Ok(games[id])
  }

  /** The answer `Exists` gives: never for the empty identifier. */
  predicate Present(games: map<string, Game>, id: string) {
    id != "" && id in games
  }

  /** After saving a game, finding its identifier returns it, and every
      other identifier is found exactly as before. */
  lemma SaveThenFind(games: map<string, Game>, g: Game, other: string)
    requires g.id != ""
    ensures Find(games[g.id := g], g.id) == Ok(g)
    ensures other != g.id ==> Find(games[g.id := g], other) == Find(games, other)
  {
  }

  /** After deleting an identifier it no longer exists, and every other
      identifier is found exactly as before. */
  lemma DeleteThenFind(games: map<string, Game>, id: string, other: string)
    ensures !Present(games - {id}, id)
    ensures other != id ==> Find(games - {id}, other) == Find(games, other)
  {
  }

  /** `Exists` agrees with `FindByID` succeeding. */
  lemma PresentIffFound(games: map<string, Game>, id: string)
    ensures Present(games, id) <==> Find(games, id).Ok?
  {
  }

  class GameRepository {
    var games: map<string, Game>

    constructor ()
      ensures games == map[]
    {
      games := map[];
    }

    /** Stores a game under its own identifier, replacing any earlier one;
        a nil game or an empty identifier is refused. */
    method Save(game: Option<Game>) returns (r: Outcome<Error>)
      modifies this
      ensures game.None? ==> r == Fail(NilGame) && games == old(games)
      ensures game.Some? && game.value.id == "" ==> r == Fail(EmptyId) && games == old(games)
      ensures game.Some? && game.value.id != "" ==>
                r == Pass && games == old(games)[game.value.id := game.value]
    {
      if game.None? {
        return Fail(NilGame);
      }
      if game.value.id == "" {
        return Fail(EmptyId);
      }
      games := games[game.value.id := game.value];
      r := Pass;
    }

    method FindByID(id: string) returns (r: Result<Game, Error>)
      ensures r == Find(games, id)
    {
      if id == "" {
        return Err(EmptyId);
      }
      if id !in games {
        return Err(NotFound);
      }
      r := Ok(games[id]);
    }

    /** Removes an identifier; removing an absent one succeeds and changes
        nothing. */
    method Delete(id: string) returns (r: Outcome<Error>)
      modifies this
      ensures id == "" ==> r == Fail(EmptyId) && games == old(games)
      ensures id != "" ==> r == Pass && games == old(games) - {id}
      ensures id != "" && id !in old(games) ==> games == old(games)
    {
      if id == "" {
        return Fail(EmptyId);
      }
      games := games - {id};
      r := Pass;
    }

    method Exists(id: string) returns (b: bool)
      ensures b == Present(games, id)
      ensures b <==> Find(games, id).Ok?
    {
      if id == "" {
        return false;
      }
      b := id in games;
    }
  }
}
