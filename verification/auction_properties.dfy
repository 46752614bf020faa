/** Properties of the auction engine across several calls: the invariant the
    engine keeps, what it costs the teams, and the behaviours the code allows
    that a reader might not expect. */
module AuctionProperties {
  import opened Common
  import opened AuctionStateSchema
  import opened PlayersService
  import opened AuctionService
  import TeamsService
  import TeamsProperties

  /** The engine's invariant: a running lot names a stored player that is
      being auctioned, and a holding team exists and can pay its bid. */
  predicate Valid(w: World) {
    var s := Status(w);
    s.isRunning ==>
      && s.currentPlayerId.Some?
      && s.currentPlayerId.value in w.players
      && w.players[s.currentPlayerId.value].status == Auctioning
      && (HasHolder(s) ==>
            && s.highestBidTeamId.value in w.teams
            && w.teams[s.highestBidTeamId.value].budget >= s.highestBid)
  }

  /** At most one lot: every player being auctioned is the running lot. */
  predicate SingleLot(w: World) {
    forall q :: q in w.players && w.players[q].status == Auctioning ==>
      Status(w).isRunning && Status(w).currentPlayerId == Some(q)
  }

  /** Reading the record twice is reading it once: only the first read can create it. */
  lemma GetAuctionStatusIdempotent(w: World)
    ensures GetAuctionStatus(GetAuctionStatus(w).world) == GetAuctionStatus(w)
  {
  }

  /** A missing record and the stored idle record are indistinguishable to
      every operation: the results agree, and so do the worlds after any write. */
  lemma AbsentRecordIsIdle(w: World, teamId: Id, playerId: Id, amount: nat, seconds: int, assign: AssignToTeam)
    requires w.auction.None?
    ensures var w' := w.(auction := Some(Default));
      && GetAuctionStatus(w) == GetAuctionStatus(w')
      && PlaceBid(w, teamId, playerId, amount) == PlaceBid(w', teamId, playerId, amount)
      && EndAuction(w, playerId, assign) == EndAuction(w', playerId, assign)
      && UpdateTimer(w, seconds) == UpdateTimer(w', seconds)
      && StartAuction(w, playerId).result == StartAuction(w', playerId).result
  {
  }

  /** A successful start does not depend on the record it replaces. */
  lemma StartAuctionIgnoresRecord(w: World, a: Option<AuctionState>, playerId: Id)
    requires StartAuction(w, playerId).result.Ok?
    ensures StartAuction(w.(auction := a), playerId) == StartAuction(w, playerId)
  {
  }

  lemma StartAuctionPreservesValid(w: World, playerId: Id)
    requires Valid(w)
    ensures Valid(StartAuction(w, playerId).world)
  {
  }

  lemma PlaceBidPreservesValid(w: World, teamId: Id, playerId: Id, amount: nat)
    requires Valid(w)
    ensures Valid(PlaceBid(w, teamId, playerId, amount).world)
  {
  }

  /** On a valid world, ending the running lot always succeeds and leaves the
      record idle: the charge `addPlayerToTeam` makes cannot throw. */
  lemma EndAuctionSucceedsWhenValid(w: World, playerId: Id, assign: AssignToTeam)
    requires Valid(w)
    requires Status(w).isRunning && Status(w).currentPlayerId == Some(playerId)
    ensures EndAuction(w, playerId, assign).result.Ok?
    ensures Idle(Status(EndAuction(w, playerId, assign).world))
  {
  }

  lemma EndAuctionPreservesValid(w: World, playerId: Id, assign: AssignToTeam)
    requires Valid(w)
    ensures Valid(EndAuction(w, playerId, assign).world)
  {
    var s := Status(w);
    if s.isRunning && s.currentPlayerId == Some(playerId) {
      EndAuctionSucceedsWhenValid(w, playerId, assign);
    }
  }

  lemma UpdateTimerPreservesValid(w: World, seconds: int)
    requires Valid(w)
    ensures Valid(UpdateTimer(w, seconds).world)
  {
  }

  /** A reset leaves no lot running, whatever the world was. */
  lemma ResetAuctionEstablishesValid(w: World)
    ensures Valid(ResetAuction(w))
    ensures Idle(Status(ResetAuction(w)))
    ensures ResetAuction(ResetAuction(w)) == ResetAuction(w)
  {
  }

  /** A non-negative refund never endangers the bid the team holds. */
  lemma RemovePlayerPreservesValid(w: World, teamId: Id, playerId: Id, refund: nat)
    requires Valid(w) && teamId in w.teams
    ensures Valid(w.(teams := TeamsService.RemovePlayerFromTeam(w.teams, teamId, playerId, refund).value.teams))
  {
  }

  /** `removePlayerFromTeam` does not check the refund's sign: a negative
      refund to the holding team that takes its budget below its bid breaks
      the invariant. */
  lemma NegativeRefundBreaksValid(w: World, playerId: Id, refund: int)
    requires Valid(w)
    requires Status(w).isRunning && HasHolder(Status(w))
    requires refund < Status(w).highestBid - w.teams[Status(w).highestBidTeamId.value].budget
    ensures var h := Status(w).highestBidTeamId.value;
      !Valid(w.(teams := TeamsService.RemovePlayerFromTeam(w.teams, h, playerId, refund).value.teams))
  {
  }

  /** `addPlayerToTeam` checks only the team's own budget: charging the
      holding team more than its budget minus its bid succeeds and leaves the
      bid uncovered. */
  lemma ChargeHolderBreaksValid(w: World, playerId: Id, price: nat)
    requires Valid(w)
    requires Status(w).isRunning && HasHolder(Status(w))
    requires var h := Status(w).highestBidTeamId.value;
      w.teams[h].budget - Status(w).highestBid < price <= w.teams[h].budget
    ensures var h := Status(w).highestBidTeamId.value;
      var r := TeamsService.AddPlayerToTeam(w.teams, h, playerId, price);
      r.Ok? && !Valid(w.(teams := r.value.teams))
  {
  }

  /** Charging a team other than the holder leaves the invariant intact. */
  lemma AddPlayerElsewherePreservesValid(w: World, teamId: Id, playerId: Id, price: nat)
    requires Valid(w)
    requires TeamsService.AddPlayerToTeam(w.teams, teamId, playerId, price).Ok?
    requires Status(w).highestBidTeamId != Some(teamId)
    ensures Valid(w.(teams := TeamsService.AddPlayerToTeam(w.teams, teamId, playerId, price).value.teams))
  {
  }

  /** Raising a budget leaves the invariant intact. */
  lemma RaiseBudgetPreservesValid(w: World, teamId: Id, amount: nat)
    requires Valid(w) && teamId in w.teams
    ensures Valid(w.(teams := TeamsService.UpdateBudget(w.teams, teamId, amount).value.teams))
  {
  }

  /** A sale takes exactly the final price out of the teams' total budget; a
      lot that goes unsold leaves every team as it was. */
  lemma EndAuctionLedger(w: World, playerId: Id, assign: AssignToTeam)
    requires EndAuction(w, playerId, assign).result.Ok?
    ensures var r := EndAuction(w, playerId, assign);
      r.result.value.SoldTo? ==>
        TeamsProperties.TotalBudget(r.world.teams) == TeamsProperties.TotalBudget(w.teams) - r.result.value.finalPrice
    ensures var r := EndAuction(w, playerId, assign);
      r.result.value.Unsold? ==> r.world.teams == w.teams
  {
    var r := EndAuction(w, playerId, assign);
    var s := Status(w);
    if r.result.value.SoldTo? {
      var h := s.highestBidTeamId.value;
      TeamsProperties.AddPlayerDebitsLedger(w.teams, h, playerId, s.highestBid);
    }
  }

  /** A second `endAuction` for the same player fails instead of charging the
      team again, and writes nothing. */
  lemma EndAuctionTwiceFails(w: World, playerId: Id, assign: AssignToTeam, assign': AssignToTeam)
    requires EndAuction(w, playerId, assign).result.Ok?
    ensures var w' := EndAuction(w, playerId, assign).world;
      EndAuction(w', playerId, assign') == Step(w', Err(NoActiveAuction))
  {
  }

  /** Accepted bids only go up: a bid that does not beat the one just accepted
      is rejected with a message naming it. */
  lemma BidsStrictlyIncrease(w: World, a: Id, b: Id, playerId: Id, x: nat, y: nat)
    requires PlaceBid(w, a, playerId, x).result.Ok?
    requires y <= x
    ensures PlaceBid(PlaceBid(w, a, playerId, x).world, b, playerId, y).result == Err(BidNotHigher(x))
  {
  }

  /** `startAuction` does not check for a running lot: starting another player
      while one is running leaves two players being auctioned, and the first
      can no longer be ended or bid on. */
  lemma StartWhileRunningOrphansLot(w: World, q: Id, p: Id, t: Id, x: nat, assign: AssignToTeam)
    requires Valid(w)
    requires Status(w).isRunning && Status(w).currentPlayerId == Some(q)
    requires p != q && p in w.players && w.players[p].status == Pending
    ensures var w' := StartAuction(w, p).world;
      && w'.players[q].status == Auctioning
      && w'.players[p].status == Auctioning
      && Status(w').currentPlayerId == Some(p)
      && EndAuction(w', q, assign).result == Err(NotCurrentPlayer)
      && PlaceBid(w', t, q, x).result == Err(NotCurrentPlayer)
      && !SingleLot(w')
  {
  }

  /** Opening a lot while none runs keeps a single lot. */
  lemma StartWhenIdleKeepsSingleLot(w: World, p: Id)
    requires SingleLot(w) && !Status(w).isRunning
    ensures SingleLot(StartAuction(w, p).world)
  {
  }

  lemma PlaceBidKeepsSingleLot(w: World, teamId: Id, playerId: Id, amount: nat)
    requires SingleLot(w)
    ensures SingleLot(PlaceBid(w, teamId, playerId, amount).world)
  {
  }

  /** Ending the lot keeps a single lot, provided the abstract assignment never
      marks the sold player as being auctioned: after a successful end no
      player is being auctioned, and after a charge that throws the lot still
      runs for the same player. */
  lemma EndAuctionKeepsSingleLot(w: World, playerId: Id, assign: AssignToTeam)
    requires SingleLot(w)
    requires forall pl, t, x :: assign(pl, t, x).status != Auctioning
    ensures SingleLot(EndAuction(w, playerId, assign).world)
  {
    var s := Status(w);
    var r := EndAuction(w, playerId, assign);
    if s.isRunning && s.currentPlayerId == Some(playerId) && r.result.Ok? {
      forall q | q in r.world.players
        ensures r.world.players[q].status != Auctioning
      {
        if q != playerId {
          assert r.world.players[q] == w.players[q];
        }
      }
    }
  }

  lemma UpdateTimerKeepsSingleLot(w: World, seconds: int)
    requires SingleLot(w)
    ensures SingleLot(UpdateTimer(w, seconds).world)
  {
  }

  /** After a reset no player is being auctioned. */
  lemma ResetAuctionEstablishesSingleLot(w: World)
    ensures SingleLot(ResetAuction(w))
  {
  }

  /** Lowering the holder's budget below its bid makes `endAuction` throw
      half-way: the player is already assigned to the team, the team is not
      charged, and the lot stays running. */
  lemma BudgetCutBreaksEnd(w: World, playerId: Id, assign: AssignToTeam, cut: int)
    requires Valid(w)
    requires Status(w).isRunning && Status(w).currentPlayerId == Some(playerId) && HasHolder(Status(w))
    requires cut > w.teams[Status(w).highestBidTeamId.value].budget - Status(w).highestBid
    ensures var s := Status(w);
      var h := s.highestBidTeamId.value;
      var cutWorld := w.(teams := TeamsService.UpdateBudget(w.teams, h, -cut).value.teams);
      var r := EndAuction(cutWorld, playerId, assign);
      && r.result.Err? && r.result.error.InsufficientBudget?
      && Status(r.world) == s
      && r.world.players[playerId] == assign(w.players[playerId], h, s.highestBid)
      && r.world.teams == cutWorld.teams
  {
  }

  /** A lot from open to sale: base price 8; team A bids 9; team B's 9 is
      refused naming 9; team B's jump to 20 is accepted (any higher bid will
      do); the sale charges B 20 and appends the player to B's roster. */
  lemma ScenarioJumpBidWins(assign: AssignToTeam)
    ensures
      var w0 := World(None, map["p" := Player(8, Pending)],
                      map["A" := TeamsService.Team("A", 100, []), "B" := TeamsService.Team("B", 100, [])]);
      var start := StartAuction(w0, "p");
      var bidA := PlaceBid(start.world, "A", "p", 9);
      var bidB := PlaceBid(bidA.world, "B", "p", 9);
      var jump := PlaceBid(bidA.world, "B", "p", 20);
      var end := EndAuction(jump.world, "p", assign);
      && start.result.Ok? && start.result.value.highestBid == 8 && start.result.value.timer == 30
      && bidA.result.Ok? && bidA.result.value.highestBid == 9
      && bidB.result == Err(BidNotHigher(9))
      && jump.result.Ok? && jump.result.value.highestBidTeamId == Some("B")
      && end.result == Ok(SoldTo("p", "B", 20))
      && end.world.teams["B"].budget == 80 && end.world.teams["B"].players == ["p"]
      && end.world.teams["A"] == w0.teams["A"]
      && Idle(Status(end.world))
  {
  }
}
