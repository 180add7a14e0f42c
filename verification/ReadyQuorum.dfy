/** The ready quorum: which READY completes it and who is listed. */
module ReadyQuorum {
  import opened GameStore
  import opened Sequences

  /** The different ids of a list, in the order of their first arrival. */
  function Arrivals(ids: seq<int>): (r: seq<int>)
    ensures |r| <= |ids|
  {
    if ids == [] then [] else
      var front, id := Arrivals(ids[..|ids| - 1]), ids[|ids| - 1];
      if id in front then front else front + [id]
  }

  /** The different players who have sent one of these READYs. */
  function Senders(ids: seq<int>): set<int> { set id | id in ids }

  function Take(s: seq<int>, n: nat): seq<int> { if |s| <= n then s else s[..n] }

  lemma {:induction false} ArrivalsAreTheIds(ids: seq<int>)
    ensures Distinct(Arrivals(ids))
    ensures forall id :: id in Arrivals(ids) <==> id in ids
    ensures |Arrivals(ids)| == |Senders(ids)|
  {
    if ids != [] {
      ArrivalsAreTheIds(ids[..|ids| - 1]);
      assert ids == ids[..|ids| - 1] + [ids[|ids| - 1]];
    }
    DistinctCount(Arrivals(ids));
    assert (set id | id in Arrivals(ids)) == Senders(ids);
  }

  /** The status after initialisation with n and READYs from ids, one call each. */
  function AfterReadies(ready: map<GameId, ReadyStatus>, gameId: GameId, n: int, ids: seq<int>): map<GameId,
                        ReadyStatus> {
    if ids == [] then UpsertReady(ready, gameId, None, Some(n)).0
    else UpsertReady(AfterReadies(ready, gameId, n, ids[..|ids| - 1]), gameId, Some(ids[|ids| - 1]), None).0
  }

  /** The result of the last of these READYs. */
  function LastResult(ready: map<GameId, ReadyStatus>, gameId: GameId, n: int, ids: seq<int>): ReadyOutcome
    requires ids != []
  {
    UpsertReady(AfterReadies(ready, gameId, n, ids[..|ids| - 1]), gameId, Some(ids[|ids| - 1]), None).1
  }

  /** One more READY, by id, after those from ids. */
  lemma OneMoreReady(ready: map<GameId, ReadyStatus>, gameId: GameId, n: nat, ids: seq<int>, id: int)
    requires gameId in ready && ready[gameId] == ReadyStatus(n, Take(Arrivals(ids), n))
    ensures UpsertReady(ready, gameId, Some(id), None).0 ==
      ready[gameId := ReadyStatus(n, Take(Arrivals(ids + [id]), n))]
    ensures UpsertReady(ready, gameId, Some(id), None).1 == Ready(true) <==> |Senders(ids + [id])| >= n
  {
    ArrivalsAreTheIds(ids + [id]);
    TakeOneMore(ids, id, n);
    if |Arrivals(ids)| >= n {
      ReadyToFull(ready, gameId, id);
    } else if id in Arrivals(ids) {
      ReadyAgain(ready, gameId, id);
    } else {
      ReadyListed(ready, gameId, id);
    }
  }

  lemma ReadyToFull(ready: map<GameId, ReadyStatus>, gameId: GameId, id: int)
    requires gameId in ready && |ready[gameId].players| == ready[gameId].expectedNumberOfPlayers
    ensures UpsertReady(ready, gameId, Some(id), None) == (ready[gameId := ready[gameId]], Ready(true))
  {
    assert ready[gameId := ready[gameId]] == ready;
  }

  lemma ReadyAgain(ready: map<GameId, ReadyStatus>, gameId: GameId, id: int)
    requires gameId in ready && |ready[gameId].players| != ready[gameId].expectedNumberOfPlayers
    requires id in ready[gameId].players
    ensures UpsertReady(ready, gameId, Some(id), None) == (ready[gameId := ready[gameId]], AlreadyReady)
  {
    assert ready[gameId := ready[gameId]] == ready;
  }

  lemma ReadyListed(ready: map<GameId, ReadyStatus>, gameId: GameId, id: int)
    requires gameId in ready && |ready[gameId].players| != ready[gameId].expectedNumberOfPlayers
    requires id !in ready[gameId].players
    ensures var gs := ready[gameId];
            var listed := gs.players + [id];
      UpsertReady(ready, gameId, Some(id), None) ==
        (ready[gameId := gs.(players := listed)], Ready(|listed| == gs.expectedNumberOfPlayers))
  {}

  lemma TakeOneMore(ids: seq<int>, id: int, n: nat)
    ensures var front, all := Arrivals(ids), Arrivals(ids + [id]);
      && all == (if id in front then front else front + [id])
      && (|front| >= n ==> |Take(front, n)| == n && Take(all, n) == Take(front, n))
      && (|front| < n ==> Take(front, n) == front && Take(all, n) == all)
  {}

  lemma {:induction false} ListedPlayers(ready: map<GameId, ReadyStatus>, gameId: GameId, n: nat, ids: seq<int>)
    requires gameId !in ready
    ensures AfterReadies(ready, gameId, n, ids) == ready[gameId := ReadyStatus(n, Take(Arrivals(ids), n))]
  {
    if ids != [] {
      var front := ids[..|ids| - 1];
      ListedPlayers(ready, gameId, n, front);
      OneMoreReady(AfterReadies(ready, gameId, n, front), gameId, n, front, ids[|ids| - 1]);
      assert ids == front + [ids[|ids| - 1]];
    }
  }

  /**
   * Initialised with n expected players, the list always holds the first
   * min(n, distinct) different ids in order of arrival, and a READY reports
   * readiness exactly when the READYs so far come from at least n players.
   */
  lemma QuorumReached(ready: map<GameId, ReadyStatus>, gameId: GameId, n: nat, ids: seq<int>)
    requires gameId !in ready && ids != []
    ensures AfterReadies(ready, gameId, n, ids)[gameId] == ReadyStatus(n, Take(Arrivals(ids), n))
    ensures LastResult(ready, gameId, n, ids) == Ready(true) <==> |Senders(ids)| >= n
  {
    var front, id := ids[..|ids| - 1], ids[|ids| - 1];
    ListedPlayers(ready, gameId, n, ids);
    ListedPlayers(ready, gameId, n, front);
    OneMoreReady(AfterReadies(ready, gameId, n, front), gameId, n, front, id);
    assert ids == front + [id];
  }

  lemma {:induction false} ArrivalsGrow(ids: seq<int>, more: seq<int>)
    ensures Arrivals(ids) <= Arrivals(ids + more)
  {
    if more == [] {
      assert ids + more == ids;
    } else {
      ArrivalsGrow(ids, more[..|more| - 1]);
      assert (ids + more)[..|ids + more| - 1] == ids + more[..|more| - 1];
    }
  }

  /** Once full the list is frozen, and every further READY reports readiness, even a repeated one. */
  lemma FrozenOnceFull(ready: map<GameId, ReadyStatus>, gameId: GameId, n: nat, ids: seq<int>, more: seq<int>)
    requires gameId !in ready && ids != [] && LastResult(ready, gameId, n, ids) == Ready(true)
    ensures AfterReadies(ready, gameId, n, ids + more) == AfterReadies(ready, gameId, n, ids)
    ensures LastResult(ready, gameId, n, ids + more) == Ready(true)
  {
    QuorumReached(ready, gameId, n, ids);
    QuorumReached(ready, gameId, n, ids + more);
    ListedPlayers(ready, gameId, n, ids);
    ListedPlayers(ready, gameId, n, ids + more);
    ArrivalsAreTheIds(ids);
    ArrivalsAreTheIds(ids + more);
    ArrivalsGrow(ids, more);
    assert Take(Arrivals(ids), n) == Arrivals(ids)[..n] == Arrivals(ids + more)[..n] == Take(Arrivals(ids + more), n);
  }

  /** Initialising again never changes the list; between the first player and the last it hits the nil pointer. */
  lemma SecondInitialisation(ready: map<GameId, ReadyStatus>, gameId: GameId, number: int)
    requires gameId in ready
    ensures UpsertReady(ready, gameId, None, Some(number)).0 == ready
    ensures UpsertReady(ready, gameId, None, Some(number)).1 == NilPlayer <==>
      ready[gameId].players != [] && |ready[gameId].players| != ready[gameId].expectedNumberOfPlayers
  {}
}
