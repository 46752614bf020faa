/** The player store as the auction engine uses it. The player service of the
    repository is a stub, so only what the engine's call sites imply is modelled:
    lookup by id, a status update, and a status reset. */
module PlayersService {
  import opened Common

  datatype PlayerStatus = Pending | Auctioning | Sold

  datatype Player = Player(basePrice: nat, status: PlayerStatus)

  /** `assignToTeam(player, teamId, soldPrice)` has no implementation to model;
      the engine receives it as a parameter and promises nothing about it. */
  type AssignToTeam = (Player, Id, nat) -> Player

  /** `findOne(id)`: the record, or a not-found error for an unknown id. */
  function FindOne(players: map<Id, Player>, id: Id): (r: Result<Player, Error>)
    ensures r.Ok? <==> id in players
    ensures r.Ok? ==> r.value == players[id]
    ensures r.Err? ==> r.error == PlayerNotFound(id) && r.error.IsNotFound()
  {
    if id in players then Ok(players[id]) else Err(PlayerNotFound(id))
  }

  /** `update(id, {status})`: rewrites one player's status; an unknown id
      matches no document and changes nothing. */
  function SetStatus(players: map<Id, Player>, id: Id, status: PlayerStatus): (r: map<Id, Player>)
    ensures r.Keys == players.Keys
    ensures id in players ==> r[id].status == status && r[id].basePrice == players[id].basePrice
    ensures forall other :: other in players && other != id ==> r[other] == players[other]
  {
    if id in players then players[id := players[id].(status := status)] else players
  }

  /** Applies the abstract `assignToTeam` to one player, if that player exists. */
  function Assign(players: map<Id, Player>, id: Id, assign: AssignToTeam, teamId: Id, price: nat): (r: map<Id, Player>)
    ensures r.Keys == players.Keys
    ensures id in players ==> r[id] == assign(players[id], teamId, price)
    ensures forall other :: other in players && other != id ==> r[other] == players[other]
  {
    if id in players then players[id := assign(players[id], teamId, price)] else players
  }

  /** `resetPlayerStatus` for every player `findAll` lists: every player
      returns to the pool with its base price. */
  function ResetAll(players: map<Id, Player>): (r: map<Id, Player>)
    ensures r.Keys == players.Keys
    ensures forall id :: id in r ==> r[id].status == Pending && r[id].basePrice == players[id].basePrice
  {
    map id | id in players :: players[id].(status := Pending)
  }
}
