# Realtime auction engine — Dafny model

This project models the auction engine of a player auction: the service that opens a lot, takes bids, and ends it. The lot is one player. It models the team store the engine reads and charges, together with the store's own refund and budget operations, and the persisted auction record with its schema defaults.

The system's state is a `World`:

- the auction record, which is absent until the first call creates it;
- a map of players, each with a base price and a status (`Pending`, `Auctioning` or `Sold`);
- a map of teams, each with a name, a budget and a roster of player ids in insertion order.

Every service call is one pure transition. It returns a `Step`: the world as the store holds it after the call, plus the value returned or the exception thrown. The exceptions are one `Error` variant each, and each variant carries the values its message interpolates. A thrown exception does not undo earlier writes, and the model keeps that. Two behaviours follow from it:

- `getAuctionStatus` creates and stores the idle record even when the bid or end that called it then rejects. `AbsentRecordIsIdle` shows that no operation can tell the stored idle record from a missing one.
- `endAuction` with a holding team stores the player's assignment before `addPlayerToTeam` can throw. If that throw happens, the team is not charged and the lot keeps running (`BudgetCutBreaksEnd`).

What the code does, as the model states it:

- A bid must be strictly greater than the highest bid. Any higher amount is accepted (`ScenarioJumpBidWins`).
- The clock resets to 30 seconds.
- `startAuction` does not check for a running lot. Starting a second lot leaves the first player `Auctioning` with no way to end it (`StartWhileRunningOrphansLot`).
- `resetAuction` deletes the record and returns every player to the pool. It leaves team budgets and rosters as they are.
- The holder check in `endAuction` uses JavaScript truthiness, so an empty team id counts as "no holder" (`HasHolder`).

`placeBid` accepts any higher amount (`src/auction/auction.service.ts:66`), although the auction controller exposes a bid-increment endpoint (`src/auction/auction.controller.ts:41-44`) whose service method has no implementation.

`Valid` is the invariant the engine keeps on its own: a running lot names a stored player in `Auctioning`, and its holding team exists with budget at least the highest bid. Every auction operation preserves it, and so do non-negative refunds, budget raises and charges to other teams. Under it, ending the running lot always sells or returns the player cleanly (`EndAuctionSucceedsWhenValid`). Five team operations on the holding team break it: `updateBudget` with a negative amount (`BudgetCutBreaksEnd`), `removePlayerFromTeam` with a negative refund, `addPlayerToTeam` charging the holding team more than its budget minus its bid (`ChargeHolderBreaksValid`), `update` with a lower budget, and `delete`.

`SingleLot` says every player in `Auctioning` is the running lot. The code keeps it only when `startAuction` is called while no lot runs and the abstract `assignToTeam` never marks the sold player as being auctioned. Whether `Valid` holds makes no difference: an end whose charge throws leaves the same lot running.

## Model

| member | source | states |
|---|---|---|
| AuctionStateSchema.DefaultIsIdle | src/auction/auction-state.schema.ts:8-21 | the schema defaults (no player, bid 0, no holder, timer 0, not running) are idle, and every idle record equals them |
| AuctionService.Status | src/auction/auction.service.ts:144-152 | the record every operation reads: the stored one, or the schema default when none is stored |
| AuctionService.HasHolder | src/auction/auction.service.ts:105 | the truthiness test on the holding team's id: a null or empty id is no holder |
| PlayersService.FindOne | src/auction/auction.service.ts:23 | the player for a known id; a not-found error for an unknown one |
| PlayersService.SetStatus | src/auction/auction.service.ts:128-130 | only the named player's status changes, to the given status, with its base price kept; every other player is unchanged and an unknown id changes nothing |
| PlayersService.Assign | src/auction/auction.service.ts:107-111 | the named player's record becomes the abstract assignment's output for that team and price; every other player is unchanged |
| AuctionService.GetAuctionStatus | src/auction/auction.service.ts:143-155 | always succeeds and leaves the returned record stored; an existing record is returned untouched; with none, the created record equals the schema default; players and teams are not touched |
| AuctionProperties.GetAuctionStatusIdempotent | src/auction/auction.service.ts:143-155 | a second read returns the same record and writes nothing more |
| AuctionProperties.AbsentRecordIsIdle | src/auction/auction.service.ts:143-155 | a missing record and the stored default give identical bids, ends, timer updates and start results |
| AuctionService.StartAuction | src/auction/auction.service.ts:22-47 | unknown player: not-found with nothing written; player not Pending: 'not available' with nothing written; otherwise player becomes Auctioning and the record becomes {player, bid = base price, no holder, timer 30, running}; other players and teams unchanged |
| AuctionProperties.StartAuctionIgnoresRecord | src/auction/auction.service.ts:34-46 | a successful start gives the same world whatever record was stored before |
| AuctionProperties.StartWhileRunningOrphansLot | src/auction/auction.service.ts:22-47 | starting a new lot while one runs leaves both players Auctioning; the old lot can no longer be bid on or ended, and the single-lot property fails |
| AuctionService.PlaceBid | src/auction/auction.service.ts:49-82 | rejections come in order (not running, wrong player, bid not higher naming the highest, team not found, budget short) and write nothing except the lazily created record; acceptance iff all checks pass; accepted: bid strictly raised to the amount, holder = team, timer 30, player and running flag kept, holder's budget covers the bid; never touches players or teams |
| AuctionProperties.BidsStrictlyIncrease | src/auction/auction.service.ts:66-70 | after an accepted bid of x, any bid of at most x is rejected with the error naming x |
| AuctionService.EndAuction | src/auction/auction.service.ts:84-141 | not running and wrong player fail as in a bid; no holder: result unsold, player back to Pending, teams unchanged, record idle; holder: player assigned, team charged exactly the highest bid with the player appended once, result sold to that team at that price, record idle — unless the charge throws, in which case the assignment stays, teams and record do not change |
| AuctionProperties.EndAuctionLedger | src/auction/auction.service.ts:104-131 | a sale lowers the teams' total budget by exactly the final price; an unsold lot leaves all teams unchanged |
| AuctionProperties.EndAuctionTwiceFails | src/auction/auction.service.ts:84-95 | after a successful end, ending the same player again fails with 'No active auction' and writes nothing, so no team is charged twice |
| AuctionProperties.EndAuctionSucceedsWhenValid | src/auction/auction.service.ts:104-138 | under the invariant, ending the running lot succeeds and leaves the record idle |
| AuctionProperties.BudgetCutBreaksEnd | src/auction/auction.service.ts:105-118 | if the holder's budget is cut below its bid, ending throws the insufficient-budget error with the player assigned, the team uncharged and the lot still running |
| AuctionProperties.StartWhenIdleKeepsSingleLot | src/auction/auction.service.ts:22-47 | opening a lot while none runs keeps every auctioned player equal to the running lot |
| AuctionProperties.PlaceBidKeepsSingleLot | src/auction/auction.service.ts:49-82 | a bid keeps the single-lot property |
| AuctionProperties.EndAuctionKeepsSingleLot | src/auction/auction.service.ts:97-138 | if the assignment never marks the player as auctioned, an end keeps every auctioned player equal to the running lot, including when the charge throws |
| AuctionProperties.UpdateTimerKeepsSingleLot | src/auction/auction.service.ts:167-171 | a timer write keeps the single-lot property |
| AuctionProperties.ResetAuctionEstablishesSingleLot | src/auction/auction.service.ts:157-165 | after a reset no player is being auctioned |
| AuctionProperties.StartAuctionPreservesValid | src/auction/auction.service.ts:29-46 | start keeps the invariant |
| AuctionProperties.PlaceBidPreservesValid | src/auction/auction.service.ts:72-81 | a bid keeps the invariant: the new holder can pay |
| AuctionProperties.EndAuctionPreservesValid | src/auction/auction.service.ts:97-138 | end keeps the invariant |
| AuctionProperties.UpdateTimerPreservesValid | src/auction/auction.service.ts:167-171 | a timer write keeps the invariant |
| AuctionProperties.RemovePlayerPreservesValid | src/teams/teams.service.ts:75-88 | a removal with a non-negative refund never breaks the invariant |
| AuctionProperties.NegativeRefundBreaksValid | src/teams/teams.service.ts:85-86 | a refund to the holding team negative enough to take its budget below its bid breaks the invariant |
| AuctionProperties.ChargeHolderBreaksValid | src/teams/teams.service.ts:64-71 | charging the holding team for another player more than its budget minus its bid succeeds and breaks the invariant |
| AuctionProperties.AddPlayerElsewherePreservesValid | src/teams/teams.service.ts:54-73 | charging a team other than the holder keeps the invariant |
| AuctionProperties.RaiseBudgetPreservesValid | src/teams/teams.service.ts:90-98 | a non-negative budget update keeps the invariant |
| AuctionService.UpdateTimer | src/auction/auction.service.ts:167-171 | the record's timer becomes the given seconds, running or not; every other field, players and teams unchanged |
| AuctionService.ResetAuction | src/auction/auction.service.ts:157-165 | the record is deleted (reads as the default again); every player is Pending with its base price; teams unchanged |
| AuctionProperties.ResetAuctionEstablishesValid | src/auction/auction.service.ts:157-165 | after a reset nothing runs, the invariant holds, and a second reset changes nothing |
| AuctionProperties.ScenarioJumpBidWins | src/auction/auction.service.ts:60-81 | base price 8: bid 9 accepted, a second 9 refused naming 9, a jump to 20 accepted, the sale charges 20 and appends the player once |
| PlayersService.ResetAll | src/auction/auction.service.ts:160-164 | every listed player is back to Pending and keeps its base price |
| TeamsService.FindOne | src/teams/teams.service.ts:20-26 | the team for a known id; not-found for an unknown one |
| TeamsService.OpeningBudget | src/teams/teams.service.ts:31 | a positive given budget is kept; absent or 0 falls back to 100 |
| TeamsService.Create | src/teams/teams.service.ts:28-34 | the new team is stored under its id with the given name, budget as above (always positive) and the given roster or an empty one; other teams unchanged |
| TeamsProperties.CreateThenFind | src/teams/teams.service.ts:28-34 | a created team is found with its name and opening budget |
| TeamsService.Update | src/teams/teams.service.ts:36-45 | not-found for an unknown id; otherwise exactly the fields the DTO carries are overwritten |
| TeamsProperties.UpdateIdempotent | src/teams/teams.service.ts:36-45 | repeating an update changes nothing more, and findOne returns the updated team |
| TeamsService.Delete | src/teams/teams.service.ts:47-52 | not-found for an unknown id; otherwise only that team is gone |
| TeamsProperties.DeleteThenFind | src/teams/teams.service.ts:47-52 | after a delete, findOne, addPlayerToTeam and getTeamPlayers on that id all fail with not-found |
| TeamsService.AddPlayerToTeam | src/teams/teams.service.ts:54-73 | unknown team: not-found; budget below price: bad request naming both; success iff neither; success debits exactly the price, appends the player at the end, keeps the name and other teams, and leaves the budget non-negative |
| TeamsService.Without | src/teams/teams.service.ts:85 | the filtered roster has no occurrence of the player, holds exactly the other members, and keeps their multiplicities |
| TeamsProperties.WithoutConcat | src/teams/teams.service.ts:85 | filtering distributes over concatenation, so the remaining members keep their order |
| TeamsProperties.WithoutAbsent | src/teams/teams.service.ts:85 | filtering a roster without the player returns it unchanged |
| TeamsProperties.WithoutIdempotent | src/teams/teams.service.ts:85 | filtering twice is filtering once |
| TeamsService.RemovePlayerFromTeam | src/teams/teams.service.ts:75-88 | not-found for an unknown team; otherwise the roster becomes the filtered roster (every occurrence of the player gone, the rest in their order and multiplicities), and the refund is added with no check |
| TeamsProperties.AddThenRemove | src/teams/teams.service.ts:70-87 | add then remove with the same amount restores the budget, and the whole collection when the player was not on the roster |
| TeamsService.UpdateBudget | src/teams/teams.service.ts:90-98 | not-found for an unknown team; otherwise the budget moves by the signed amount with no lower bound; roster and name kept |
| TeamsProperties.UpdateBudgetComposes | src/teams/teams.service.ts:90-98 | two increments equal one increment by their sum |
| TeamsProperties.UpdateBudgetUndo | src/teams/teams.service.ts:90-98 | an increment by the negated amount restores the collection |
| TeamsService.GetTeamPlayers | src/teams/teams.service.ts:100-109 | the team's roster, or not-found |
| TeamsProperties.AddThenGetTeamPlayers | src/teams/teams.service.ts:70-72 | after a successful add, the roster read back is the old roster with the player appended |
| TeamsProperties.AddPlayerDebitsLedger | src/teams/teams.service.ts:70-72 | a successful add lowers the teams' total budget by exactly the price |
| TeamsProperties.RemovePlayerCreditsLedger | src/teams/teams.service.ts:85-87 | a removal moves the total by exactly the signed refund |
| TeamsProperties.UpdateBudgetMovesLedger | src/teams/teams.service.ts:90-97 | a budget update moves the total by exactly the amount |
| TeamsProperties.CreateFundsLedger | src/teams/teams.service.ts:28-34 | a new team adds its opening budget to the total |
| TeamsProperties.DeleteDrainsLedger | src/teams/teams.service.ts:47-52 | deleting a team removes its budget from the total |

## Left out

- The socket gateway and the HTTP controllers: transport and broadcasting only. The gateway calls `setGateway`, `getCurrentPlayer`, `nextPlayer` and `sellPlayer`, and the auction controller calls `getBidIncrement`. None of these has an implementation in the service, so next-player and sell behaviour are not modelled.
- The player service is an unimplemented stub. It names `assignToTeam(playerId, teamId, soldPrice)` only in a to-do comment (`src/players/players.service.ts:19`) and never mentions `resetPlayerStatus`. Lookup, status update and the listing `resetAuction` walks are modelled as operations on the player map. `resetPlayerStatus` is taken to set the status to Pending, as the comment at its call site says. `update` on an unknown player id is taken to change nothing (`PlayersService.SetStatus`). It is not taken to throw a not-found error, although the team service's `update` does throw one (`src/teams/teams.service.ts:41-43`).
- `assignToTeam` is modelled as a total function parameter of `EndAuction` (`AssignToTeam`). This assumes three things the code cannot confirm:
  - the call never throws;
  - it rewrites only the named player's record, and only when that record exists;
  - it touches neither teams nor other players.
- Because of that first assumption, `EndAuctionSucceedsWhenValid` and `EndAuctionPreservesValid` exclude a failure raised by `assignToTeam` itself.
- AuctionService.EndAuction: says nothing about the sold player's status or price fields, because `assignToTeam` has no implementation to model.
- The player schema's status strings ('unsold', 'sold', 'in-auction') differ from the status enum the service uses. The model uses an abstract three-value status.
- Team fields `remainingBudget`, `playerCount`, `logoUrl` and `ownerName`: no operation maintains them.
- Teams `findAll`: a read of every document in store order, with nothing to state beyond the map itself.
- Document population (`populate('players')`) in team reads: rosters are returned as ids.
- Malformed ids: the store's cast errors are not modelled. Every unknown id is not found.
- TeamsService.Create: takes the fresh id the store generates as a parameter. It requires that id to be unused.
- Countdown: no service method counts the timer down. It changes only through `updateTimer` (`src/auction/auction.service.ts:167-171`).
- Concurrency: each call is one atomic step. Interleavings across `await` and `save()`, and timestamps, are not modelled.
- Numbers: amounts are integers. A player's base price is non-negative, following the `Min(0)` on both player DTOs (`src/players/dto/create-player.dto.ts:11-13`, `src/players/dto/update-player.dto.ts:13-16`), which the global validation pipe enforces (`src/main.ts:9-15`). Bids are non-negative, following the bid DTO's `Min(0)`. Team-creation and update budgets are non-negative too, following those DTOs' `Min(0)`. The price passed to `addPlayerToTeam` is taken to be non-negative, since it is always a bid. The refund of `removePlayerFromTeam` and the amount of `updateBudget` are plain numbers with no constraint, so they are signed integers. JavaScript fractions and NaN are not modelled.
- Seeding, bootstrap, module wiring and the demo clients.
