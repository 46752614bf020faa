/** Properties relating the team operations to each other: the filter that
    removes a player, the add/remove round trip, budget updates composing, and
    the total budget held by all teams (the ledger). */
module TeamsProperties {
  import opened Common
  import opened TeamsService

  /** Removing a player distributes over concatenation: the rest keep their order. */
  lemma {:induction false} WithoutConcat(a: seq<Id>, b: seq<Id>, x: Id)
    ensures Without(a + b, x) == Without(a, x) + Without(b, x)
    decreases |a|
  {
    if a == [] {
      assert a + b == b;
    } else {
      assert (a + b)[0] == a[0];
      assert (a + b)[1..] == a[1..] + b;
      WithoutConcat(a[1..], b, x);
    }
  }

  /** A roster without the player is left as it is. */
  lemma {:induction false} WithoutAbsent(s: seq<Id>, x: Id)
    requires x !in s
    ensures Without(s, x) == s
    decreases |s|
  {
    if s != [] {
      assert s[0] != x;
      assert x !in s[1..];
      WithoutAbsent(s[1..], x);
      assert s == [s[0]] + s[1..];
    }
  }

  /** Removing twice is removing once. */
  lemma WithoutIdempotent(s: seq<Id>, x: Id)
    ensures Without(Without(s, x), x) == Without(s, x)
  {
    WithoutAbsent(Without(s, x), x);
  }

  /** Removing the player just appended removes it from the original roster. */
  lemma WithoutAppended(s: seq<Id>, x: Id)
    ensures Without(s + [x], x) == Without(s, x)
  {
    WithoutConcat(s, [x], x);
    assert Without([x], x) == [];
    assert Without(s, x) + [] == Without(s, x);
  }

  /** Round trip: a successful `addPlayerToTeam(t, p, x)` followed by
      `removePlayerFromTeam(t, p, x)` gives the budget back, and when `p` was
      not on the roster before, restores the whole collection. */
  lemma AddThenRemove(teams: map<Id, Team>, t: Id, p: Id, x: nat)
    requires AddPlayerToTeam(teams, t, p, x).Ok?
    ensures var added := AddPlayerToTeam(teams, t, p, x).value.teams;
            var removed := RemovePlayerFromTeam(added, t, p, x);
            && removed.Ok?
            && removed.value.team.budget == teams[t].budget
            && removed.value.team.players == Without(teams[t].players, p)
            && (p !in teams[t].players ==> removed.value.teams == teams)
  {
    var added := AddPlayerToTeam(teams, t, p, x).value.teams;
    WithoutAppended(teams[t].players, p);
    if p !in teams[t].players {
      WithoutAbsent(teams[t].players, p);
      var removed := RemovePlayerFromTeam(added, t, p, x).value.teams;
      assert removed[t] == teams[t];
      assert removed == teams;
    }
  }

  /** Two `$inc` updates are one update by their sum. */
  lemma UpdateBudgetComposes(teams: map<Id, Team>, t: Id, a: int, b: int)
    requires t in teams
    ensures UpdateBudget(UpdateBudget(teams, t, a).value.teams, t, b) == UpdateBudget(teams, t, a + b)
  {
    var once := UpdateBudget(teams, t, a).value;
    var twice := UpdateBudget(once.teams, t, b).value;
    var direct := UpdateBudget(teams, t, a + b).value;
    assert twice.team == direct.team;
    assert twice.teams == once.teams[t := twice.team];
    assert once.teams[t := twice.team] == teams[t := direct.team];
  }

  /** An update by `-a` undoes an update by `a`. */
  lemma UpdateBudgetUndo(teams: map<Id, Team>, t: Id, a: int)
    requires t in teams
    ensures UpdateBudget(UpdateBudget(teams, t, a).value.teams, t, -a).value.teams == teams
  {
    UpdateBudgetComposes(teams, t, a, -a);
    assert teams[t].(budget := teams[t].budget + 0) == teams[t];
  }

  /** A created team is found under its id, with the budget it was created with. */
  lemma CreateThenFind(teams: map<Id, Team>, id: Id, dto: CreateTeamDto)
    requires id !in teams
    ensures var found := FindOne(Create(teams, id, dto).teams, id);
            found.Ok? && found.value.budget == OpeningBudget(dto.budget) && found.value.name == dto.name
  {
  }

  /** The roster read back after a successful add ends with the added player,
      after the roster as it was. */
  lemma AddThenGetTeamPlayers(teams: map<Id, Team>, t: Id, p: Id, x: nat)
    requires AddPlayerToTeam(teams, t, p, x).Ok?
    ensures GetTeamPlayers(AddPlayerToTeam(teams, t, p, x).value.teams, t) == Ok(teams[t].players + [p])
  {
  }

  /** Applying the same update twice is applying it once, and the team read
      back afterwards is the one the update returned. */
  lemma UpdateIdempotent(teams: map<Id, Team>, id: Id, dto: UpdateTeamDto)
    requires id in teams
    ensures var once := Update(teams, id, dto).value;
            && Update(once.teams, id, dto) == Ok(once)
            && FindOne(once.teams, id) == Ok(once.team)
  {
    var once := Update(teams, id, dto).value;
    var twice := Update(once.teams, id, dto).value;
    assert twice.team == once.team;
    assert twice.teams == once.teams[id := once.team];
    assert once.teams[id := once.team] == once.teams;
  }

  /** A deleted team is not found any more, and every later team operation on it fails with not-found. */
  lemma DeleteThenFind(teams: map<Id, Team>, id: Id, p: Id, x: nat)
    requires id in teams
    ensures var rest := Delete(teams, id).value;
            && FindOne(rest, id) == Err(TeamNotFound(id))
            && AddPlayerToTeam(rest, id, p, x) == Err(TeamNotFound(id))
            && GetTeamPlayers(rest, id) == Err(TeamNotFound(id))
  {
  }

  /** The total budget held by all teams. */
  ghost function TotalBudget(teams: map<Id, Team>): int
    decreases |teams|
  {
    if teams == map[] then 0
    else
      var k :| k in teams;
      assert |(teams - {k}).Keys| < |teams.Keys| by {
        assert teams.Keys == (teams - {k}).Keys + {k};
      }
      teams[k].budget + TotalBudget(teams - {k})
  }

  /** The total splits into any one team and the rest. */
  lemma {:induction false} TotalBudgetSplit(teams: map<Id, Team>, k: Id)
    requires k in teams
    ensures TotalBudget(teams) == teams[k].budget + TotalBudget(teams - {k})
    decreases |teams|
  {
    var j :| j in teams && TotalBudget(teams) == teams[j].budget + TotalBudget(teams - {j});
    if j != k {
      assert teams.Keys == (teams - {j}).Keys + {j};
      assert teams.Keys == (teams - {k}).Keys + {k};
      TotalBudgetSplit(teams - {j}, k);
      TotalBudgetSplit(teams - {k}, j);
      assert teams - {j} - {k} == teams - {k} - {j};
    }
  }

  /** Rewriting one team changes the total by exactly that team's change. */
  lemma TotalBudgetUpdate(teams: map<Id, Team>, k: Id, t: Team)
    requires k in teams
    ensures TotalBudget(teams[k := t]) == TotalBudget(teams) - teams[k].budget + t.budget
  {
    TotalBudgetSplit(teams, k);
    TotalBudgetSplit(teams[k := t], k);
    assert teams[k := t] - {k} == teams - {k};
  }

  /** Adding a player takes exactly its price out of the ledger. */
  lemma AddPlayerDebitsLedger(teams: map<Id, Team>, t: Id, p: Id, x: nat)
    requires AddPlayerToTeam(teams, t, p, x).Ok?
    ensures TotalBudget(AddPlayerToTeam(teams, t, p, x).value.teams) == TotalBudget(teams) - x
  {
    var r := AddPlayerToTeam(teams, t, p, x).value;
    assert r.teams == teams[t := r.team];
    TotalBudgetUpdate(teams, t, r.team);
  }

  /** Removing a player puts exactly the refund into the ledger. */
  lemma RemovePlayerCreditsLedger(teams: map<Id, Team>, t: Id, p: Id, x: int)
    requires t in teams
    ensures TotalBudget(RemovePlayerFromTeam(teams, t, p, x).value.teams) == TotalBudget(teams) + x
  {
    var r := RemovePlayerFromTeam(teams, t, p, x).value;
    assert r.teams == teams[t := r.team];
    TotalBudgetUpdate(teams, t, r.team);
  }

  /** A budget update moves the ledger by exactly the signed amount. */
  lemma UpdateBudgetMovesLedger(teams: map<Id, Team>, t: Id, amount: int)
    requires t in teams
    ensures TotalBudget(UpdateBudget(teams, t, amount).value.teams) == TotalBudget(teams) + amount
  {
    var r := UpdateBudget(teams, t, amount).value;
    assert r.teams == teams[t := r.team];
    TotalBudgetUpdate(teams, t, r.team);
  }

  /** A new team brings its opening budget into the ledger. */
  lemma CreateFundsLedger(teams: map<Id, Team>, id: Id, dto: CreateTeamDto)
    requires id !in teams
    ensures TotalBudget(Create(teams, id, dto).teams) == TotalBudget(teams) + OpeningBudget(dto.budget)
  {
    var r := Create(teams, id, dto);
    assert r.teams == teams[id := r.team];
    TotalBudgetSplit(r.teams, id);
    assert r.teams - {id} == teams;
  }

  /** Deleting a team takes its budget out of the ledger. */
  lemma DeleteDrainsLedger(teams: map<Id, Team>, id: Id)
    requires id in teams
    ensures TotalBudget(Delete(teams, id).value) == TotalBudget(teams) - teams[id].budget
  {
    TotalBudgetSplit(teams, id);
  }
}
