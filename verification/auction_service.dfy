/** The auction engine: one persisted auction record driven by start, bid,
    end, timer and reset operations, over the player and team stores.

    Every operation is one atomic step from a world to a `Step`: the world as
    the store holds it after the call, and the value returned or the exception
    thrown. A thrown exception does not roll back what was written before it. */
module AuctionService {
  import opened Common
  import opened AuctionStateSchema
  import opened PlayersService
  import TeamsService

  /** Seconds on the clock when a lot opens and after every accepted bid. */
  const TimerReset: int := 30

  /** The stores the engine reads and writes. `auction` is `None` until the
      first call creates the record (and again after a reset deletes it). */
  datatype World = World(
    auction: Option<AuctionState>,
    players: map<Id, Player>,
    teams: map<Id, TeamsService.Team>)

  datatype Step<T> = Step(world: World, result: Result<T, Error>)

  /** What `endAuction` returns. */
  datatype Sale =
    | Unsold(playerId: Id)
    | SoldTo(playerId: Id, teamId: Id, finalPrice: nat)

  /** The record every operation works on: the stored one, or the idle record
      `getAuctionStatus` would create. */
  function Status(w: World): (s: AuctionState)
    ensures w.auction.None? ==> s == Default
    ensures w.auction.Some? ==> s == w.auction.value
  {
    match w.auction
    case Some(s) => s
    case None => Default
  }

  /** `if (auctionState.highestBidTeamId)`: a null or empty id is falsy. */
  predicate HasHolder(s: AuctionState) {
    s.highestBidTeamId.Some? && s.highestBidTeamId.value != ""
  }

  /** `getAuctionStatus()`: returns the record, creating and storing the idle
      record when there is none yet. */
  function GetAuctionStatus(w: World): (r: Step<AuctionState>)
    ensures r.result.Ok? && r.world.auction == Some(r.result.value)
    ensures w.auction.Some? ==> r.world == w
    ensures w.auction.None? ==> r.result.value == Default && Idle(r.result.value)
    ensures r.world.players == w.players && r.world.teams == w.teams
  {
    var s := Status(w);
    Step(w.(auction := Some(s)), Ok(s))
  }

  /** `startAuction(playerId)`. It does not look at the current record: a lot
      already running is overwritten. */
  function StartAuction(w: World, playerId: Id): (r: Step<AuctionState>)
    ensures playerId !in w.players ==> r == Step(w, Err(PlayerNotFound(playerId)))
    ensures playerId in w.players && w.players[playerId].status != Pending ==> r == Step(w, Err(PlayerNotAvailable))
    ensures r.result.Ok? <==> playerId in w.players && w.players[playerId].status == Pending
    ensures r.result.Ok? ==>
      var s := r.result.value;
      && r.world.auction == Some(s)
      && s.currentPlayerId == Some(playerId)
      && s.highestBid == w.players[playerId].basePrice
      && s.highestBidTeamId.None?
      && s.timer == TimerReset
      && s.isRunning
    ensures r.result.Ok? ==>
      && r.world.players.Keys == w.players.Keys
      && r.world.players[playerId] == w.players[playerId].(status := Auctioning)
      && (forall other :: other in w.players && other != playerId ==> r.world.players[other] == w.players[other])
      && r.world.teams == w.teams
  {
    match FindOne(w.players, playerId)
    case Err(e) => Step(w, Err(e))
    case Ok(player) =>
      if player.status != Pending then Step(w, Err(PlayerNotAvailable))
      else
        var players := SetStatus(w.players, playerId, Auctioning);
        var s := Status(w).(
          currentPlayerId := Some(playerId),
          highestBid := player.basePrice,
          highestBidTeamId := None,
          timer := TimerReset,
          isRunning := true);
        Step(World(Some(s), players, w.teams), Ok(s))
  }

  /** `placeBid(teamId, playerId, bidAmount)`. The checks run in this order:
      a lot is running, it is this player, the bid beats the highest bid, the
      team exists, the team's budget covers the bid. */
  function PlaceBid(w: World, teamId: Id, playerId: Id, bidAmount: nat): (r: Step<AuctionState>)
    ensures r.world.players == w.players && r.world.teams == w.teams
    ensures r.result.Err? ==> r.world == GetAuctionStatus(w).world
    ensures var s := Status(w);
      && (!s.isRunning ==> r.result == Err(NoActiveAuction))
      && (s.isRunning && s.currentPlayerId != Some(playerId) ==> r.result == Err(NotCurrentPlayer))
      && (s.isRunning && s.currentPlayerId == Some(playerId) && bidAmount <= s.highestBid ==>
            r.result == Err(BidNotHigher(s.highestBid)))
      && (s.isRunning && s.currentPlayerId == Some(playerId) && bidAmount > s.highestBid && teamId !in w.teams ==>
            r.result == Err(TeamNotFound(teamId)))
      && (s.isRunning && s.currentPlayerId == Some(playerId) && bidAmount > s.highestBid && teamId in w.teams
            && w.teams[teamId].budget < bidAmount
          ==> r.result == Err(InsufficientBidBudget))
    ensures var s := Status(w);
      r.result.Ok? <==>
        && s.isRunning && s.currentPlayerId == Some(playerId) && bidAmount > s.highestBid
        && teamId in w.teams && w.teams[teamId].budget >= bidAmount
    ensures r.result.Ok? ==>
      var s, s' := Status(w), r.result.value;
      && r.world.auction == Some(s')
      && s'.highestBid == bidAmount > s.highestBid
      && s'.highestBidTeamId == Some(teamId)
      && s'.timer == TimerReset
      && s'.currentPlayerId == s.currentPlayerId
      && s'.isRunning == s.isRunning
      && w.teams[teamId].budget >= s'.highestBid
  {
    var read := GetAuctionStatus(w);
    var s := read.result.value;
    if !s.isRunning then Step(read.world, Err(NoActiveAuction))
    else if s.currentPlayerId != Some(playerId) then Step(read.world, Err(NotCurrentPlayer))
    else if bidAmount <= s.highestBid then Step(read.world, Err(BidNotHigher(s.highestBid)))
    else match TeamsService.FindOne(w.teams, teamId)
      case Err(e) => Step(read.world, Err(e))
      case Ok(team) =>
        if team.budget < bidAmount then Step(read.world, Err(InsufficientBidBudget))
        else
          var s' := s.(highestBid := bidAmount, highestBidTeamId := Some(teamId), timer := TimerReset);
          Step(read.world.(auction := Some(s')), Ok(s'))
  }

  /** `endAuction(playerId)`. With a holder it assigns the player to the
      holding team and then charges that team through `addPlayerToTeam`; if
      the charge throws, the assignment is already stored and the auction
      record (changed only in memory) stays as it was. Without a holder the
      player goes back to the pool. On success the record ends idle. */
  function EndAuction(w: World, playerId: Id, assign: AssignToTeam): (r: Step<Sale>)
    ensures var s := Status(w);
      !s.isRunning ==> r == Step(GetAuctionStatus(w).world, Err(NoActiveAuction))
    ensures var s := Status(w);
      s.isRunning && s.currentPlayerId != Some(playerId) ==>
        r == Step(GetAuctionStatus(w).world, Err(NotCurrentPlayer))
    ensures var s := Status(w);
      s.isRunning && s.currentPlayerId == Some(playerId) && !HasHolder(s) ==>
        && r.result == Ok(Unsold(playerId))
        && r.world.auction == Some(Default)
        && r.world.players == SetStatus(w.players, playerId, Pending)
        && r.world.teams == w.teams
    ensures var s := Status(w);
      s.isRunning && s.currentPlayerId == Some(playerId) && HasHolder(s) ==>
        var h := s.highestBidTeamId.value;
        && r.world.players == Assign(w.players, playerId, assign, h, s.highestBid)
        && (h !in w.teams ==>
              r.result == Err(TeamNotFound(h)) && r.world.auction == w.auction && r.world.teams == w.teams)
        && (h in w.teams && w.teams[h].budget < s.highestBid ==>
              r.result == Err(InsufficientBudget(w.teams[h].budget, s.highestBid))
              && r.world.auction == w.auction && r.world.teams == w.teams)
        && (h in w.teams && w.teams[h].budget >= s.highestBid ==>
              && r.result == Ok(SoldTo(playerId, h, s.highestBid))
              && r.world.auction == Some(Default)
              && r.world.teams.Keys == w.teams.Keys
              && r.world.teams[h].budget == w.teams[h].budget - s.highestBid
              && r.world.teams[h].players == w.teams[h].players + [playerId]
              && r.world.teams[h].name == w.teams[h].name
              && (forall other :: other in w.teams && other != h ==> r.world.teams[other] == w.teams[other]))
  {
    var read := GetAuctionStatus(w);
    var s := read.result.value;
    if !s.isRunning then Step(read.world, Err(NoActiveAuction))
    else if s.currentPlayerId != Some(playerId) then Step(read.world, Err(NotCurrentPlayer))
    else
      var idle := Default;
      if HasHolder(s) then
        var h := s.highestBidTeamId.value;
        var players := Assign(w.players, playerId, assign, h, s.highestBid);
        match TeamsService.AddPlayerToTeam(w.teams, h, playerId, s.highestBid)
        case Err(e) => Step(read.world.(players := players), Err(e))
        case Ok(saved) =>
          Step(World(Some(idle), players, saved.teams), Ok(SoldTo(playerId, h, s.highestBid)))
      else
        var players := SetStatus(w.players, playerId, Pending);
        Step(World(Some(idle), players, w.teams), Ok(Unsold(playerId)))
  }

  /** `updateTimer(seconds)`: writes the timer, whatever the record's state. */
  function UpdateTimer(w: World, seconds: int): (r: Step<AuctionState>)
    ensures r.result.Ok? && r.world.auction == Some(r.result.value)
    ensures r.result.value.timer == seconds
    ensures var s, s' := Status(w), r.result.value;
      && s'.currentPlayerId == s.currentPlayerId
      && s'.highestBid == s.highestBid
      && s'.highestBidTeamId == s.highestBidTeamId
      && s'.isRunning == s.isRunning
    ensures r.world.players == w.players && r.world.teams == w.teams
  {
    var read := GetAuctionStatus(w);
    var s' := read.result.value.(timer := seconds);
    Step(read.world.(auction := Some(s')), Ok(s'))
  }

  /** `resetAuction()`: deletes the record and returns every player to the
      pool. Teams keep their budgets and rosters. */
  function ResetAuction(w: World): (r: World)
    ensures r.auction.None?
    ensures Status(r) == Default
    ensures r.players.Keys == w.players.Keys
    ensures forall id :: id in r.players ==>
      r.players[id].status == Pending && r.players[id].basePrice == w.players[id].basePrice
    ensures r.teams == w.teams
  {
    World(None, ResetAll(w.players), w.teams)
  }
}
