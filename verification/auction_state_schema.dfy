/** The persisted auction record and the defaults its schema declares. */
module AuctionStateSchema {
  import opened Common

  /** The single auction record. Bids are non-negative amounts; the timer is
      whatever `updateTimer` last wrote, so it is a plain integer. */
  datatype AuctionState = AuctionState(
    currentPlayerId: Option<Id>,
    highestBid: nat,
    highestBidTeamId: Option<Id>,
    timer: int,
    isRunning: bool)

  /** The record the schema's `default` options produce. */
  const Default := AuctionState(
    currentPlayerId := None,
    highestBid := 0,
    highestBidTeamId := None,
    timer := 0,
    isRunning := false)

  /** No lot is open and every field is at rest. */
  predicate Idle(s: AuctionState) {
    && !s.isRunning
    && s.currentPlayerId.None?
    && s.highestBid == 0
    && s.highestBidTeamId.None?
    && s.timer == 0
  }

  /** The schema defaults are exactly the idle record: there is one idle
      record, and it is the default. */
  lemma DefaultIsIdle()
    ensures Idle(Default)
    ensures forall s: AuctionState :: Idle(s) <==> s == Default
  {
  }
}
