/** The team store: budgets and rosters. Every operation reads one team
    document, checks it, and writes it back; nothing is written before a
    check fails. */
module TeamsService {
  import opened Common

  /** Budget a team gets when it is created without one (or with 0). */
  const DefaultBudget: nat := 100

  /** A team document. The budget is an integer because `updateBudget` adds a
      signed amount with no lower bound; the roster lists player ids in the
      order they were added. */
  datatype Team = Team(name: string, budget: int, players: seq<Id>)

  datatype CreateTeamDto = CreateTeamDto(name: string, budget: Option<nat>, players: Option<seq<Id>>)

  datatype UpdateTeamDto = UpdateTeamDto(name: Option<string>, budget: Option<nat>, players: Option<seq<Id>>)

  /** A written team together with the collection it was written into. */
  datatype Saved = Saved(teams: map<Id, Team>, team: Team)

  /** `findOne(id)`. */
  function FindOne(teams: map<Id, Team>, id: Id): (r: Result<Team, Error>)
    ensures r.Ok? <==> id in teams
    ensures r.Ok? ==> r.value == teams[id]
    ensures r.Err? ==> r.error == TeamNotFound(id) && r.error.IsNotFound()
  {
    if id in teams then Ok(teams[id]) else Err(TeamNotFound(id))
  }

  /** `budget || 100`: an absent or zero budget is falsy and falls back to the default. */
  function OpeningBudget(given: Option<nat>): (b: nat)
    ensures b > 0
    ensures given.Some? && given.value > 0 ==> b == given.value
    ensures given.None? || given.value == 0 ==> b == DefaultBudget
  {
    match given
    case Some(v) => if v != 0 then v else DefaultBudget
    case None => DefaultBudget
  }

  /** `create(dto)`: the store assigns the fresh id. */
  function Create(teams: map<Id, Team>, id: Id, dto: CreateTeamDto): (r: Saved)
    requires id !in teams
    ensures r.teams.Keys == teams.Keys + {id}
    ensures r.teams[id] == r.team
    ensures forall other :: other in teams ==> r.teams[other] == teams[other]
    ensures r.team.name == dto.name
    ensures r.team.budget > 0
    ensures dto.budget.Some? && dto.budget.value > 0 ==> r.team.budget == dto.budget.value
    ensures dto.budget.None? || dto.budget.value == 0 ==> r.team.budget == DefaultBudget
    ensures dto.players.None? ==> r.team.players == []
    ensures dto.players.Some? ==> r.team.players == dto.players.value
  {
    var roster := match dto.players case Some(ps) => ps case None => [];
    var team := Team(dto.name, OpeningBudget(dto.budget), roster);
    Saved(teams[id := team], team)
  }

  /** `update(id, dto)`: overwrites exactly the fields the DTO carries. */
  function Update(teams: map<Id, Team>, id: Id, dto: UpdateTeamDto): (r: Result<Saved, Error>)
    ensures r.Err? <==> id !in teams
    ensures r.Err? ==> r.error == TeamNotFound(id)
    ensures r.Ok? ==> r.value.teams.Keys == teams.Keys && r.value.teams[id] == r.value.team
    ensures r.Ok? ==> forall other :: other in teams && other != id ==> r.value.teams[other] == teams[other]
    ensures r.Ok? ==> r.value.team.name == (if dto.name.Some? then dto.name.value else teams[id].name)
    ensures r.Ok? ==> r.value.team.budget == (if dto.budget.Some? then dto.budget.value else teams[id].budget)
    ensures r.Ok? ==> r.value.team.players == (if dto.players.Some? then dto.players.value else teams[id].players)
  {
    if id !in teams then Err(TeamNotFound(id))
    else
      var t := teams[id];
      var t1 := match dto.name case Some(n) => t.(name := n) case None => t;
      var t2 := match dto.budget case Some(b) => t1.(budget := b) case None => t1;
      var t3 := match dto.players case Some(ps) => t2.(players := ps) case None => t2;
      Ok(Saved(teams[id := t3], t3))
  }

  /** `delete(id)`. */
  function Delete(teams: map<Id, Team>, id: Id): (r: Result<map<Id, Team>, Error>)
    ensures r.Err? <==> id !in teams
    ensures r.Err? ==> r.error == TeamNotFound(id)
    ensures r.Ok? ==> r.value.Keys == teams.Keys - {id}
    ensures r.Ok? ==> forall other :: other in r.value ==> r.value[other] == teams[other]
  {
    if id in teams then Ok(teams - {id}) else Err(TeamNotFound(id))
  }

  /** `players.filter(id => id !== playerId)`: drops every occurrence of
      `playerId` and keeps the rest in order. */
  function Without(roster: seq<Id>, playerId: Id): (r: seq<Id>)
    ensures playerId !in r
    ensures forall x :: x in r <==> x in roster && x != playerId
    ensures multiset(r) == multiset(roster)[playerId := 0]
  {
    if roster == [] then []
    else
      assert roster == [roster[0]] + roster[1..];
      if roster[0] == playerId then Without(roster[1..], playerId)
      else [roster[0]] + Without(roster[1..], playerId)
  }

  /** `addPlayerToTeam(teamId, playerId, price)`: checks the budget covers the
      price, then appends the player and debits the price. */
  function AddPlayerToTeam(teams: map<Id, Team>, teamId: Id, playerId: Id, price: nat): (r: Result<Saved, Error>)
    ensures teamId !in teams ==> r == Err(TeamNotFound(teamId))
    ensures teamId in teams && teams[teamId].budget < price ==> r == Err(InsufficientBudget(teams[teamId].budget, price))
    ensures r.Ok? <==> teamId in teams && teams[teamId].budget >= price
    ensures r.Ok? ==> r.value.teams.Keys == teams.Keys && r.value.teams[teamId] == r.value.team
    ensures r.Ok? ==> forall other :: other in teams && other != teamId ==> r.value.teams[other] == teams[other]
    ensures r.Ok? ==> r.value.team.name == teams[teamId].name
    ensures r.Ok? ==> r.value.team.budget == teams[teamId].budget - price
    ensures r.Ok? ==> r.value.team.players == teams[teamId].players + [playerId]
    ensures r.Ok? ==> r.value.team.budget >= 0
  {
    if teamId !in teams then Err(TeamNotFound(teamId))
    else
      var t := teams[teamId];
      if t.budget < price then Err(InsufficientBudget(t.budget, price))
      else
        var t' := t.(players := t.players + [playerId], budget := t.budget - price);
        Ok(Saved(teams[teamId := t'], t'))
  }

  /** `removePlayerFromTeam(teamId, playerId, refund)`: drops the player and
      credits the refund, with no check on either. */
  function RemovePlayerFromTeam(teams: map<Id, Team>, teamId: Id, playerId: Id, refund: int): (r: Result<Saved, Error>)
    ensures r.Err? <==> teamId !in teams
    ensures r.Err? ==> r.error == TeamNotFound(teamId)
    ensures r.Ok? ==> r.value.teams.Keys == teams.Keys && r.value.teams[teamId] == r.value.team
    ensures r.Ok? ==> forall other :: other in teams && other != teamId ==> r.value.teams[other] == teams[other]
    ensures r.Ok? ==> r.value.team.name == teams[teamId].name
    ensures r.Ok? ==> r.value.team.budget == teams[teamId].budget + refund
    ensures r.Ok? ==> r.value.team.players == Without(teams[teamId].players, playerId)
    ensures r.Ok? ==> playerId !in r.value.team.players
    ensures r.Ok? ==> multiset(r.value.team.players) == multiset(teams[teamId].players)[playerId := 0]
  {
    if teamId !in teams then Err(TeamNotFound(teamId))
    else
      var t := teams[teamId];
      var t' := t.(players := Without(t.players, playerId), budget := t.budget + refund);
      Ok(Saved(teams[teamId := t'], t'))
  }

  /** `updateBudget(teamId, amount)`: `$inc` by a signed amount, no lower bound. */
  function UpdateBudget(teams: map<Id, Team>, teamId: Id, amount: int): (r: Result<Saved, Error>)
    ensures r.Err? <==> teamId !in teams
    ensures r.Err? ==> r.error == TeamNotFound(teamId)
    ensures r.Ok? ==> r.value.teams.Keys == teams.Keys && r.value.teams[teamId] == r.value.team
    ensures r.Ok? ==> forall other :: other in teams && other != teamId ==> r.value.teams[other] == teams[other]
    ensures r.Ok? ==> r.value.team.budget == teams[teamId].budget + amount
    ensures r.Ok? ==> r.value.team.name == teams[teamId].name && r.value.team.players == teams[teamId].players
  {
    if teamId !in teams then Err(TeamNotFound(teamId))
    else
      var t' := teams[teamId].(budget := teams[teamId].budget + amount);
      Ok(Saved(teams[teamId := t'], t'))
  }

  /** `getTeamPlayers(teamId)`: the roster (population of the documents is not modelled). */
  function GetTeamPlayers(teams: map<Id, Team>, teamId: Id): (r: Result<seq<Id>, Error>)
    ensures r.Err? <==> teamId !in teams
    ensures r.Err? ==> r.error == TeamNotFound(teamId)
    ensures r.Ok? ==> r.value == teams[teamId].players
  {
    match FindOne(teams, teamId)
    case Ok(t) => Ok(t.players)
    case Err(e) => Err(e)
  }
}
