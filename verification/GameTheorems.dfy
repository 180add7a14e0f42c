/** What holds in every run of the game service. */
module GameTheorems {
  import opened Decimals
  import opened GameRun
  import opened GameService
  import opened GameStore
  import opened GoRuntime
  import opened LeaderBoards
  import opened ReadyQuorum
  import opened Scoring
  import opened Sequences

  // ------------------------------------------------------ questions of a game

  /**
   * Whichever of creation and delivery came first, a document has questions
   * once they were delivered, and then those; exactly those, or with the
   * deadlines of one start made under the match id, which clients are never told.
   */
  lemma DocumentHoldsDelivered(cfg: Config, s: Session, g: GameId)
    requires Reachable(cfg, s) && g in s.store.games
    ensures var game := s.store.games[g];
            var key := game.matchId;
      && (key !in s.delivered ==> game.question == None)
      && (key in s.delivered ==>
            && game.question.Some? && SameButDeadlines(game.question.value, s.delivered[key])
            && (game.question.value == s.delivered[key]
                || Started(cfg.validAnswerTimeOut, s.tasks, key, game.question.value)))
      && (key in s.delivered && (forall t :: t in s.tasks ==> t.gameId != key) ==>
            game.question == Some(s.delivered[key]))
  {
    ReachableSound(cfg, s);
    var game := s.store.games[g];
    assert DocumentHolds(s, g) && DocumentTimed(cfg.validAnswerTimeOut, s, g);
    if game.question.Some? && Unset(game.question.value) {
      UnsetEqual(game.question.value, s.delivered[game.matchId]);
    }
  }

  lemma UnsetEqual(x: seq<Question>, y: seq<Question>)
    requires SameButDeadlines(x, y) && Unset(x) && Unset(y)
    ensures x == y
  {
    forall i | 0 <= i < |x|
      ensures x[i] == y[i]
    {
      assert x[i] in x && y[i] in y;
      assert x[i] == x[i].(validAnswerTime := ZERO_TIME) && y[i] == y[i].(validAnswerTime := ZERO_TIME);
    }
  }

  /** Any cache entry under a real game id agrees with the document on questions and players, deadlines aside. */
  lemma CacheCoherence(cfg: Config, s: Session, g: GameId)
    requires Reachable(cfg, s) && g in s.store.games && g in s.store.cache
    ensures s.store.games[g].question.Some?
    ensures SameButDeadlines(s.store.cache[g].questions, s.store.games[g].question.value)
    ensures s.store.cache[g].players == s.store.games[g].players && s.store.cache[g].currentQuestionIndex == 0
  {
    ReachableSound(cfg, s);
    assert CacheAgrees(s, g);
  }

  /**
   * The two orders of one creation and one delivery lead to the same documents.
   * They differ in the cache: creation first leaves an entry under the id of the
   * game, delivery first one under the match id and one under the nil id.
   */
  lemma OrdersConfluent(st: Store, game: Game, newId: GameId, questions: seq<Question>)
    requires newId !in st.games && newId !in st.cache && newId != NIL_ID && newId != game.matchId
    requires game.matchId !in st.cache
    requires forall g :: g in st.games ==> st.games[g].matchId != game.matchId
    ensures var created := CreateGame(st, game, newId);
            var createdFirst := SaveQuestions(created, game.matchId, questions, Some(newId), Some(newId));
            var deliveredFirst := CreateGame(SaveQuestions(st, game.matchId, questions, None, None), game, newId);
      && createdFirst.games == deliveredFirst.games
      && createdFirst.games[newId].question == Some(questions)
      && newId in createdFirst.cache
      && newId !in deliveredFirst.cache
      && createdFirst.cache == st.cache[newId := GameQuestions(questions, game.players, 0)]
      && deliveredFirst.cache ==
           st.cache[game.matchId := GameQuestions(questions, [], 0)]
                   ["000000000000000000000000" := GameQuestions(questions, [], 0)]
  {}

  /** The cached questions of g in this step: delivered, filled in, or stamped by a start. */
  ghost predicate Rewrites(cfg: Config, s: Session, g: GameId, e: Event)
    requires Enabled(s, e) && g in s.store.games
  {
    Serves(s, g, e) || (e.ReadyUp? && e.gameId == g && |Apply(cfg, s, e).tasks| > |s.tasks|)
  }

  ghost predicate Rewritten(cfg: Config, s: Session, g: GameId, es: seq<Event>)
    requires Valid(cfg, s, es) && g in s.store.games
    decreases |es|
  {
    es != [] &&
      (StepGrows(cfg, s, es[0]);
       Rewrites(cfg, s, g, es[0]) || Rewritten(cfg, Apply(cfg, s, es[0]), g, es[1..]))
  }

  lemma OtherDeliveryKeeps(s: Session, g: GameId, m: string, questions: seq<Question>, updated: Option<GameId>,
                           found: Option<GameId>)
    requires Coherent(s) && Enabled(s, Deliver(m, questions, updated, found))
    requires g in s.store.games && g in s.store.cache && s.store.games[g].matchId != m
    ensures var cache := DeliverStep(s, m, questions, updated, found).store.cache;
      g in cache && cache[g] == s.store.cache[g]
  {}

  lemma OtherReadyKeeps(cfg: Config, s: Session, g: GameId, h: GameId, user: nat, readings: seq<int>, at: int)
    requires Enabled(s, ReadyUp(h, user, readings, at)) && g in s.store.cache
    requires h != g || |ReadyStep(cfg, s, h, user, readings, at).tasks| <= |s.tasks|
    ensures var cache := ReadyStep(cfg, s, h, user, readings, at).store.cache;
      g in cache && cache[g] == s.store.cache[g]
  {}

  lemma StepKeepsEntry(cfg: Config, s: Session, g: GameId, e: Event)
    requires Coherent(s) && Enabled(s, e) && g in s.store.games && g in s.store.cache && !Rewrites(cfg, s, g, e)
    ensures g in Apply(cfg, s, e).store.cache && Apply(cfg, s, e).store.cache[g] == s.store.cache[g]
  {
    match e
    case Create(_, _) =>
    case Deliver(m, questions, updated, found) => OtherDeliveryKeeps(s, g, m, questions, updated, found);
    case ReadGame(_) =>
    case Fill(_) =>
    case Initialise(_, _) =>
    case ReadyUp(h, user, readings, at) =>
      OtherReadyKeeps(cfg, s, g, h, user, readings, at);
    case Answer(_, _, _, _, _) =>
  }

  lemma {:induction false} EntryStays(cfg: Config, s: Session, g: GameId, es: seq<Event>)
    requires Coherent(s) && Valid(cfg, s, es) && g in s.store.games && g in s.store.cache && !Rewritten(cfg, s, g, es)
    ensures g in Final(cfg, s, es).store.cache && Final(cfg, s, es).store.cache[g] == s.store.cache[g]
    decreases |es|
  {
    if es != [] {
      StepCoherent(cfg, s, es[0]);
      StepGrows(cfg, s, es[0]);
      StepKeepsEntry(cfg, s, g, es[0]);
      EntryStays(cfg, Apply(cfg, s, es[0]), g, es[1..]);
    }
  }

  /**
   * The cached questions of a game, deadlines included, stay as they are over
   * every run until they are delivered again, filled in, or the game itself
   * starts: answers, and whatever befalls other games, do not touch them.
   */
  lemma DeadlinesStay(cfg: Config, s: Session, g: GameId, es: seq<Event>)
    requires Reachable(cfg, s) && Valid(cfg, s, es) && g in s.store.games && g in s.store.cache
    requires !Rewritten(cfg, s, g, es)
    ensures g in Final(cfg, s, es).store.cache && Final(cfg, s, es).store.cache[g] == s.store.cache[g]
  {
    assert Coherent(s) by { ReachableSound(cfg, s); }
    EntryStays(cfg, s, g, es);
  }

  /**
   * This step brings questions to the game g: its match's are delivered, or a
   * background fill of its cache entry runs.
   */
  ghost predicate Serves(s: Session, g: GameId, e: Event)
    requires Enabled(s, e) && g in s.store.games
  {
    || (e.Deliver? && e.matchId == s.store.games[g].matchId)
    || (e.Fill? && s.fills[e.index].0 == g)
  }

  ghost predicate Served(cfg: Config, s: Session, g: GameId, es: seq<Event>)
    requires Valid(cfg, s, es) && g in s.store.games
    decreases |es|
  {
    es != [] &&
      (StepGrows(cfg, s, es[0]);
       Serves(s, g, es[0]) || Served(cfg, Apply(cfg, s, es[0]), g, es[1..]))
  }

  lemma ServedIsCached(cfg: Config, s: Session, g: GameId, e: Event)
    requires Coherent(s) && Enabled(s, e) && g in s.store.games && Serves(s, g, e)
    ensures g in Apply(cfg, s, e).store.cache
  {}

  lemma OtherDelivery(s: Session, g: GameId, m: string, questions: seq<Question>, updated: Option<GameId>,
                      found: Option<GameId>)
    requires Coherent(s) && Enabled(s, Deliver(m, questions, updated, found))
    requires g in s.store.games && g !in s.store.cache && s.store.games[g].matchId != m
    ensures g !in DeliverStep(s, m, questions, updated, found).store.cache
  {}

  lemma UnservedStaysOut(cfg: Config, s: Session, g: GameId, e: Event)
    requires Coherent(s) && Enabled(s, e) && g in s.store.games && g !in s.store.cache && !Serves(s, g, e)
    ensures g !in Apply(cfg, s, e).store.cache
  {
    if e.Deliver? {
      OtherDelivery(s, g, e.matchId, e.questions, e.updated, e.found);
    } else {
      OtherStep(cfg, s, g, e);
    }
  }

  lemma OtherStep(cfg: Config, s: Session, g: GameId, e: Event)
    requires Enabled(s, e) && g in s.store.games && g !in s.store.cache && !Serves(s, g, e) && !e.Deliver?
    ensures g !in Apply(cfg, s, e).store.cache
  {}

  /** In every run a game has a cache entry exactly if it had one or has been served since. */
  lemma {:induction false} CachedOnceServed(cfg: Config, s: Session, g: GameId, es: seq<Event>)
    requires Coherent(s) && Valid(cfg, s, es) && g in s.store.games
    ensures g in Final(cfg, s, es).store.cache <==> g in s.store.cache || Served(cfg, s, g, es)
    decreases |es|
  {
    if es != [] {
      var s' := Apply(cfg, s, es[0]);
      StepCoherent(cfg, s, es[0]);
      StepGrows(cfg, s, es[0]);
      if Serves(s, g, es[0]) {
        ServedIsCached(cfg, s, g, es[0]);
      } else if g !in s.store.cache {
        UnservedStaysOut(cfg, s, g, es[0]);
      }
      CachedOnceServed(cfg, s', g, es[1..]);
    }
  }

  ghost predicate Unanswered(s: Session, g: GameId) { forall a :: a in s.store.answers ==> a.gameId != g }

  lemma UncachedTakesNoAnswer(cfg: Config, s: Session, g: GameId, e: Event)
    requires Enabled(s, e) && g !in s.store.cache && Unanswered(s, g)
    ensures Unanswered(Apply(cfg, s, e), g)
  {}

  lemma {:induction false} UnservedUnanswered(cfg: Config, s: Session, g: GameId, es: seq<Event>)
    requires Coherent(s) && Valid(cfg, s, es) && g in s.store.games
    requires g !in s.store.cache && Unanswered(s, g) && !Served(cfg, s, g, es)
    ensures Unanswered(Final(cfg, s, es), g)
    decreases |es|
  {
    if es != [] {
      StepCoherent(cfg, s, es[0]);
      StepGrows(cfg, s, es[0]);
      UnservedStaysOut(cfg, s, g, es[0]);
      UncachedTakesNoAnswer(cfg, s, g, es[0]);
      UnservedUnanswered(cfg, Apply(cfg, s, es[0]), g, es[1..]);
    }
  }

  /**
   * How a game whose questions came first gets played: its document is read
   * back, and the background fill caches the questions and players it holds.
   */
  lemma ReadBackServes(cfg: Config, s: Session, g: GameId)
    requires g in s.store.games && s.store.games[g].question.Some?
    ensures var es := [ReadGame(g), Fill(|s.fills|)];
      && Valid(cfg, s, es)
      && Final(cfg, s, es) ==
           s.(store := s.store.(cache := s.store.cache[
                g := GameQuestions(s.store.games[g].question.value, s.store.games[g].players, 0)]))
  {
    TwoSteps(cfg, s, ReadGame(g), Fill(|s.fills|));
    var s1 := ReadGameStep(s, g);
    assert s1.fills[..|s.fills|] == s.fills && s1.fills[|s.fills| + 1..] == [];
  }

  lemma {:induction false} NoAnswersOf(answers: seq<PlayerAnswer>, g: GameId)
    requires forall a :: a in answers ==> a.gameId != g
    ensures AnswersOf(answers, g) == []
  {
    if answers != [] {
      NoAnswersOf(answers[..|answers| - 1], g);
    }
  }

  lemma NewGameUncached(cfg: Config, s: Session, game: Game, newId: GameId)
    requires Reachable(cfg, s) && Enabled(s, Create(game, newId))
    ensures var created := CreateStep(s, game, newId);
      && newId !in created.store.cache && Unanswered(created, newId)
      && (game.matchId in s.delivered ==> created.store.games[newId].question.Some?)
  {
    ReachableSound(cfg, s);
    assert newId in s.store.cache ==> CacheAgrees(s, newId);
    forall a | a in s.store.answers
      ensures a.gameId != newId
    {
      assert RecordSound(cfg, s, a);
    }
    CreateCoherent(s, game, newId);
    assert DocumentHolds(CreateStep(s, game, newId), newId);
  }

  lemma PlayableOnceServed(cfg: Config, s: Session, g: GameId, es: seq<Event>)
    requires Reachable(cfg, s) && g in s.store.games && g !in s.store.cache && Unanswered(s, g) && Valid(cfg, s, es)
    ensures g in Final(cfg, s, es).store.cache <==> Served(cfg, s, g, es)
    ensures !Served(cfg, s, g, es) ==> AnswersOf(Final(cfg, s, es).store.answers, g) == []
  {
    assert Coherent(s) by { ReachableSound(cfg, s); }
    CachedOnceServed(cfg, s, g, es);
    if !Served(cfg, s, g, es) {
      UnservedUnanswered(cfg, s, g, es);
      NoAnswersOf(Final(cfg, s, es).store.answers, g);
    }
  }

  /**
   * When a new game can be played, over every run: its questions are cached
   * exactly if, since its creation, they were delivered or a background fill of
   * the game has run; exactly until then every answer is refused for want of
   * questions, and none is stored.  So a game whose questions came first has
   * them in its document and still takes no answer.
   */
  lemma QuestionsFirstUnplayable(cfg: Config, s: Session, game: Game, newId: GameId, es: seq<Event>)
    requires Reachable(cfg, s) && Enabled(s, Create(game, newId))
    requires Valid(cfg, CreateStep(s, game, newId), es)
    ensures var created := CreateStep(s, game, newId);
            var later := Final(cfg, created, es);
      && (newId in later.store.cache <==> Served(cfg, created, newId, es))
      && (forall a :: SaveAnswer(cfg, later.store, newId, a).1 == NoQuestions <==> !Served(cfg, created, newId, es))
      && (!Served(cfg, created, newId, es) ==> AnswersOf(later.store.answers, newId) == [])
      && (game.matchId in s.delivered ==> created.store.games[newId].question.Some?)
  {
    NewGameUncached(cfg, s, game, newId);
    ReachableStep(cfg, s, Create(game, newId));
    PlayableOnceServed(cfg, CreateStep(s, game, newId), newId, es);
  }

  // -------------------------------------------------------------- the quorum

  /** Who sent READY for game g, in order. */
  function ReadiesOf(es: seq<Event>, g: GameId): seq<int> {
    if es == [] then [] else ReadyOf(es[0], g) + ReadiesOf(es[1..], g)
  }

  function ReadyOf(e: Event, g: GameId): seq<int> {
    if e.ReadyUp? && e.gameId == g then [Wrap64(e.userId)] else []
  }

  /** The list of game g is what initialisation with n and READYs from ids make it. */
  ghost predicate ListOf(s: Session, g: GameId, n: nat, ids: seq<int>) {
    g in s.store.ready && s.store.ready[g] == ReadyStatus(n, Take(Arrivals(ids), n))
  }

  lemma StepKeepsList(cfg: Config, s: Session, e: Event, g: GameId, n: nat, ids: seq<int>)
    requires Enabled(s, e) && ListOf(s, g, n, ids)
    ensures ListOf(Apply(cfg, s, e), g, n, ids + ReadyOf(e, g))
  {
    if e.ReadyUp? && e.gameId == g {
      OneMoreReady(s.store.ready, g, n, ids, Wrap64(e.userId));
    } else {
      assert ids + ReadyOf(e, g) == ids;
    }
  }

  /**
   * In every run, once game g is initialised with n, its list holds the first n
   * different players among those who have sent READY since, whatever else
   * happens in between, further initialisations included.
   */
  lemma {:induction false} ListInEveryRun(cfg: Config, s: Session, es: seq<Event>, g: GameId, n: nat, ids: seq<int>)
    requires Valid(cfg, s, es) && ListOf(s, g, n, ids)
    ensures ListOf(Final(cfg, s, es), g, n, ids + ReadiesOf(es, g))
    decreases |es|
  {
    if es == [] {
      assert ids + ReadiesOf(es, g) == ids;
    } else {
      StepKeepsList(cfg, s, es[0], g, n, ids);
      ListInEveryRun(cfg, Apply(cfg, s, es[0]), es[1..], g, n, ids + ReadyOf(es[0], g));
      assert ids + (ReadyOf(es[0], g) + ReadiesOf(es[1..], g)) == (ids + ReadyOf(es[0], g)) + ReadiesOf(es[1..], g);
    }
  }

  /** The initialisation of game g, or a READY for it. */
  predicate Calls(e: Event, g: GameId) { (e.Initialise? || e.ReadyUp?) && e.gameId == g }

  predicate Called(es: seq<Event>, g: GameId) { es != [] && (Calls(es[0], g) || Called(es[1..], g)) }

  function FirstCall(es: seq<Event>, g: GameId): (e: Event)
    requires Called(es, g)
    ensures Calls(e, g) && e in es
  {
    if Calls(es[0], g) then es[0] else FirstCall(es[1..], g)
  }

  function AfterFirstCall(es: seq<Event>, g: GameId): seq<Event>
    requires Called(es, g)
  {
    if Calls(es[0], g) then es[1..] else AfterFirstCall(es[1..], g)
  }

  /** The quorum the first call for a game fixes: the players of the match, or two. */
  function QuorumOf(first: Event, players: nat): nat { if first.Initialise? then players else 2 }

  lemma CallStarts(cfg: Config, s: Session, e: Event, g: GameId)
    requires Enabled(s, e) && g in s.store.games && g !in s.store.ready
    ensures Calls(e, g) ==> ListOf(Apply(cfg, s, e), g, QuorumOf(e, |s.store.games[g].players|), [])
    ensures !Calls(e, g) ==> g !in Apply(cfg, s, e).store.ready
  {}

  lemma {:induction false} FirstCallDecides(cfg: Config, s: Session, es: seq<Event>, g: GameId)
    requires Valid(cfg, s, es) && g in s.store.games && g !in s.store.ready
    ensures Called(es, g) ==>
      var n := QuorumOf(FirstCall(es, g), |s.store.games[g].players|);
      ListOf(Final(cfg, s, es), g, n, ReadiesOf(AfterFirstCall(es, g), g))
    ensures !Called(es, g) ==> g !in Final(cfg, s, es).store.ready
    decreases |es|
  {
    if es != [] {
      var s' := Apply(cfg, s, es[0]);
      CallStarts(cfg, s, es[0], g);
      if Calls(es[0], g) {
        ListInEveryRun(cfg, s', es[1..], g, QuorumOf(es[0], |s.store.games[g].players|), []);
        assert [] + ReadiesOf(es[1..], g) == ReadiesOf(es[1..], g);
      } else {
        StepGrows(cfg, s, es[0]);
        FirstCallDecides(cfg, s', es[1..], g);
      }
    }
  }

  /**
   * The first call for a game without a list decides, over every run: its
   * quorum is the size of the match exactly if that call is the initialisation,
   * or the match is one of two, and two otherwise, whatever comes later.  Nobody
   * is listed but for READYs sent after that call: one that comes before the
   * initialisation creates the list and does not count.
   */
  lemma QuorumByFirstCall(cfg: Config, s: Session, es: seq<Event>, g: GameId)
    requires Valid(cfg, s, es) && g in s.store.games && g !in s.store.ready
    ensures g in Final(cfg, s, es).store.ready <==> Called(es, g)
    ensures Called(es, g) ==>
      var list, players := Final(cfg, s, es).store.ready[g], |s.store.games[g].players|;
      var later := ReadiesOf(AfterFirstCall(es, g), g);
      && (list.expectedNumberOfPlayers == players <==> FirstCall(es, g).Initialise? || players == 2)
      && (list.expectedNumberOfPlayers != players ==> list.expectedNumberOfPlayers == 2)
      && list.players == Take(Arrivals(later), list.expectedNumberOfPlayers)
      && (forall id :: id in list.players ==> id in later)
  {
    FirstCallDecides(cfg, s, es, g);
    if Called(es, g) {
      ArrivalsAreTheIds(ReadiesOf(AfterFirstCall(es, g), g));
    }
  }

  /**
   * When an initialisation dereferences the nil player id, after any run:
   * exactly if READYs after the first call for the game have listed a player,
   * but not as many as the quorum that call has fixed.  It never changes a list.
   */
  lemma InitialisationHitsNil(cfg: Config, s: Session, es: seq<Event>, g: GameId, number: int)
    requires Valid(cfg, s, es) && g in s.store.games && g !in s.store.ready
    ensures UpsertReady(Final(cfg, s, es).store.ready, g, None, Some(number)).1 == NilPlayer <==>
      && Called(es, g)
      && 0 < |Senders(ReadiesOf(AfterFirstCall(es, g), g))| < QuorumOf(FirstCall(es, g), |s.store.games[g].players|)
    ensures var ready := Final(cfg, s, es).store.ready;
      Called(es, g) ==> UpsertReady(ready, g, None, Some(number)).0 == ready
  {
    FirstCallDecides(cfg, s, es, g);
    if Called(es, g) {
      SecondInitialisation(Final(cfg, s, es).store.ready, g, number);
      ArrivalsAreTheIds(ReadiesOf(AfterFirstCall(es, g), g));
    }
  }

  /**
   * A game starts, that is, enqueues its completion, with exactly those READYs
   * that find n different players among all who have sent one.
   */
  lemma StartsExactlyAtQuorum(cfg: Config, s: Session, es: seq<Event>, g: GameId, n: nat, userId: nat,
                              readings: seq<int>, enqueuedAt: int)
    requires Valid(cfg, s, es) && ListOf(s, g, n, [])
    requires var e := ReadyUp(g, userId, readings, enqueuedAt); Enabled(Final(cfg, s, es), e)
    ensures var before := Final(cfg, s, es);
            var after := Apply(cfg, before, ReadyUp(g, userId, readings, enqueuedAt));
            var ids := ReadiesOf(es, g) + [Wrap64(userId)];
      |after.tasks| == |before.tasks| + if |Senders(ids)| >= n then 1 else 0
  {
    var ids := ReadiesOf(es, g);
    ListInEveryRun(cfg, s, es, g, n, []);
    assert [] + ids == ids;
    OneMoreReady(Final(cfg, s, es).store.ready, g, n, ids, Wrap64(userId));
  }

  // ------------------------------------------------------------- the answers

  /** A stored answer is never changed, and stays the only one of its player to its question in its game. */
  lemma FirstAnswerStands(cfg: Config, s: Session, es: seq<Event>, i: nat)
    requires Reachable(cfg, s) && Valid(cfg, s, es) && i < |s.store.answers|
    ensures var a, later := s.store.answers[i], Final(cfg, s, es).store.answers;
      && i < |later| && later[i] == a
      && (forall j :: 0 <= j < |later| && SameKey(later[j], a.gameId, a.playerId, a.questionId) ==> j == i)
  {
    ReachableSound(cfg, s);
    RunSound(cfg, s, es);
    RunGrows(cfg, s, es);
    var a, later := s.store.answers[i], Final(cfg, s, es).store.answers;
    forall j | 0 <= j < |later| && j != i
      ensures !SameKey(later[j], a.gameId, a.playerId, a.questionId)
    {
      assert j < i ==> !SameKey(later[i], later[j].gameId, later[j].playerId, later[j].questionId);
    }
  }

  /** The window of the question answered has not opened: the deadline is more than the admission time away. */
  ghost predicate TooSoon(cfg: Config, questions: seq<Question>, questionId: string, now: int)
    requires cfg.validAnswerTimeOut >= 0
  {
    exists i: nat :: FirstWithId(questions, questionId, i)
                     && now <= questions[i].validAnswerTime - Admission(cfg.validAnswerTimeOut)
  }

  /**
   * What becomes of an answer, in any state: it is refused for want of cached
   * questions, or because the window of its question has not opened, or because
   * this player has answered it in this game; else it is accepted.  Only an
   * accepted answer changes anything: it is one more in the log.
   */
  lemma AcceptedExactly(cfg: Config, st: Store, g: GameId, userId: nat, questionId: string, choice: string, now: int)
    requires 0 <= cfg.validAnswerTimeOut <= MAX_INT64 - MILLISECOND
    ensures var (st', outcome) := SaveAnswer(cfg, st, g, NewAnswer(g, questionId, userId, choice, now));
            var early := g in st.cache && TooSoon(cfg, st.cache[g].questions, questionId, now);
            var answered := exists b :: b in st.answers && SameKey(b, g, FormatUint(userId), questionId);
      && (outcome == NoQuestions <==> g !in st.cache)
      && (outcome == Early <==> early)
      && (outcome == Duplicate <==> g in st.cache && !early && answered)
      && (outcome == Accepted <==> g in st.cache && !early && !answered)
      && (outcome != Accepted ==> st' == st)
      && (outcome == Accepted ==> st' == st.(answers := st'.answers))
      && (outcome == Accepted ==> st'.answers[..|st.answers|] == st.answers && |st'.answers| == |st.answers| + 1)
      && (outcome == Accepted ==> SameKey(st'.answers[|st.answers|], g, FormatUint(userId), questionId))
  {
    if g in st.cache {
      EarlyExactly(cfg, st.cache[g].questions, NewAnswer(g, questionId, userId, choice, now));
    }
  }

  lemma EarlyExactly(cfg: Config, questions: seq<Question>, a: PlayerAnswer)
    requires 0 <= cfg.validAnswerTimeOut <= MAX_INT64 - MILLISECOND
    ensures AnsweredEarly(cfg, questions, a) <==> TooSoon(cfg, questions, a.questionId, a.answerTime)
  {
    FindsFirst(questions, a.questionId);
    if i: nat :| FirstWithId(questions, a.questionId, i) {
      TooEarlyExactly(cfg.validAnswerTimeOut, questions[i].validAnswerTime, a.answerTime);
    }
  }

  /** Questions without deadlines can be answered at any time since year one, and earn nothing. */
  lemma UnstartedEarnsNothing(cfg: Config, st: Store, g: GameId, userId: nat, questionId: string, choice: string,
                              now: int)
    requires 0 <= cfg.validAnswerTimeOut <= MAX_INT64 - MILLISECOND && now > -62_135_596_800_000_000_000
    requires g in st.cache && Unset(st.cache[g].questions)
    ensures var (st', outcome) := SaveAnswer(cfg, st, g, NewAnswer(g, questionId, userId, choice, now));
      outcome != Early && (outcome == Accepted ==> st'.answers[|st.answers|].point == 0)
  {
    var q := FindQuestion(st.cache[g].questions, questionId);
    if q.Some? {
      TooEarlyExactly(cfg.validAnswerTimeOut, q.value.validAnswerTime, now);
    }
  }

  // ----------------------------------------------------- what a record holds

  lemma CachedLikeDocument(s: Session, g: GameId, id: string)
    requires Coherent(s) && g in s.store.games && g in s.store.cache
    ensures var cached, own := s.store.cache[g].questions, QuestionsOf(s.store.games[g]);
      && |cached| == |own|
      && (forall i: nat :: i < |own| ==>
            cached[i].(validAnswerTime := ZERO_TIME) == own[i].(validAnswerTime := ZERO_TIME))
      && (forall i: nat :: FirstWithId(own, id, i) <==> FirstWithId(cached, id, i))
  {
    assert CacheAgrees(s, g);
    var cached, own := s.store.cache[g].questions, QuestionsOf(s.store.games[g]);
    forall i: nat | i < |own|
      ensures cached[i].id == own[i].id
    {
      assert cached[i].(validAnswerTime := ZERO_TIME).id == own[i].(validAnswerTime := ZERO_TIME).id;
    }
  }

  /** What r takes from the question q: all but the deadline, which may be another by now. */
  ghost predicate TakenFrom(r: PlayerAnswer, q: Question) {
    r.correctChoice == q.correctAnswer && r.options == q.choices && r.category == q.category
  }

  lemma RecordFollowsDocument(cfg: Config, s: Session, g: GameId, a: PlayerAnswer, r: PlayerAnswer)
    requires Coherent(s) && g in s.store.games && g in s.store.cache
    requires IsRecord(cfg, s.store.cache[g].questions, a, r)
    ensures forall i: nat :: FirstWithId(QuestionsOf(s.store.games[g]), a.questionId, i) ==>
      TakenFrom(r, QuestionsOf(s.store.games[g])[i])
      && i < |s.store.cache[g].questions| && r.validTimeToAnswer == s.store.cache[g].questions[i].validAnswerTime
  {
    CachedLikeDocument(s, g, a.questionId);
    var cached, own := s.store.cache[g].questions, QuestionsOf(s.store.games[g]);
    forall i: nat | FirstWithId(own, a.questionId, i)
      ensures TakenFrom(r, own[i]) && i < |cached| && r.validTimeToAnswer == cached[i].validAnswerTime
    {
      assert FirstWithId(cached, a.questionId, i);
      var p, q := cached[i].(validAnswerTime := ZERO_TIME), own[i].(validAnswerTime := ZERO_TIME);
      assert p.correctAnswer == q.correctAnswer && p.choices == q.choices && p.category == q.category;
    }
  }

  lemma AnswerMakesRecord(cfg: Config, s: Session, g: GameId, user: nat, questionId: string, choice: string, now: int)
    requires ScoresSound(cfg)
    requires var after := AnswerStep(cfg, s, g, user, questionId, choice, now).store.answers;
      |after| > |s.store.answers|
    ensures var sent := PlayerAnswer(g, questionId, FormatUint(user), choice, "", now, ZERO_TIME, 0, [], 0, "");
            var after := AnswerStep(cfg, s, g, user, questionId, choice, now).store.answers;
      && g in s.store.cache
      && |after| == |s.store.answers| + 1
      && IsRecord(cfg, s.store.cache[g].questions, sent, after[|s.store.answers|])
  {
    if g in s.store.cache {
      GradedIsRecord(cfg, s.store.cache[g].questions, NewAnswer(g, questionId, user, choice, now));
    }
  }

  /**
   * The record of an accepted answer, over every run: it tells who sent it, what
   * and when; it is graded by the question as cached at that moment, which is
   * the document's but for the deadline; and so it stays.
   */
  lemma RecordStands(cfg: Config, s: Session, g: GameId, user: nat, questionId: string, choice: string, now: int,
                     es: seq<Event>)
    requires ScoresSound(cfg)
    requires Reachable(cfg, s) && Enabled(s, Answer(g, user, questionId, choice, now))
    requires var after := AnswerStep(cfg, s, g, user, questionId, choice, now);
      |after.store.answers| > |s.store.answers| && Valid(cfg, after, es)
    ensures var sent := PlayerAnswer(g, questionId, FormatUint(user), choice, "", now, ZERO_TIME, 0, [], 0, "");
            var later := Final(cfg, AnswerStep(cfg, s, g, user, questionId, choice, now), es).store.answers;
            var n := |s.store.answers|;
      && g in s.store.cache && n < |later|
      && IsRecord(cfg, s.store.cache[g].questions, sent, later[n])
      && (g in s.store.games ==>
            forall i: nat :: FirstWithId(QuestionsOf(s.store.games[g]), questionId, i) ==>
              TakenFrom(later[n], QuestionsOf(s.store.games[g])[i])
              && i < |s.store.cache[g].questions|
              && later[n].validTimeToAnswer == s.store.cache[g].questions[i].validAnswerTime)
  {
    var sent := PlayerAnswer(g, questionId, FormatUint(user), choice, "", now, ZERO_TIME, 0, [], 0, "");
    var after, n := AnswerStep(cfg, s, g, user, questionId, choice, now), |s.store.answers|;
    AnswerMakesRecord(cfg, s, g, user, questionId, choice, now);
    RunGrows(cfg, after, es);
    if g in s.store.games {
      assert Coherent(s) by { ReachableSound(cfg, s); }
      RecordFollowsDocument(cfg, s, g, sent, after.store.answers[n]);
    }
  }

  lemma {:induction false} AnswersOfMembers(answers: seq<PlayerAnswer>, g: GameId, a: PlayerAnswer)
    ensures a in AnswersOf(answers, g) <==> a in answers && a.gameId == g
  {
    if answers != [] {
      AnswersOfMembers(answers[..|answers| - 1], g, a);
      assert answers == answers[..|answers| - 1] + [answers[|answers| - 1]];
    }
  }

  lemma {:induction false} AnswersOfUnique(answers: seq<PlayerAnswer>, g: GameId)
    requires UniqueAnswers(answers)
    ensures UniqueAnswers(AnswersOf(answers, g))
  {
    if answers != [] {
      var n := |answers| - 1;
      AnswersOfUnique(answers[..n], g);
      forall b | b in AnswersOf(answers[..n], g)
        ensures !SameKey(answers[n], b.gameId, b.playerId, b.questionId)
      {
        AnswersOfMembers(answers[..n], g, b);
        var i :| 0 <= i < n && answers[i] == b;
      }
    }
  }

  // ------------------------------------------------------------ score and cap

  function IdsOf(questions: seq<Question>): seq<string> {
    seq(|questions|, i requires 0 <= i < |questions| => questions[i].id)
  }

  function QuestionsOf(game: Game): seq<Question> {
    match game.question { case Some(questions) => questions case None => [] }
  }

  lemma AnswersCapped(cfg: Config, s: Session, g: GameId, id: string)
    requires cfg.baseScore >= 0 && cfg.maxBonus >= 0
    requires LogSound(cfg, s) && g in s.store.games
    ensures Capped(AnswersOf(s.store.answers, g), id, (set q | q in IdsOf(QuestionsOf(s.store.games[g]))),
                   cfg.baseScore + cfg.maxBonus)
  {
    var answers := AnswersOf(s.store.answers, g);
    var ids := IdsOf(QuestionsOf(s.store.games[g]));
    AnswersOfUnique(s.store.answers, g);
    forall a | a in answers
      ensures a.gameId == g && 0 <= a.point <= cfg.baseScore + cfg.maxBonus && (a.point > 0 ==> a.questionId in ids)
    {
      AnswersOfMembers(s.store.answers, g, a);
      assert RecordSound(cfg, s, a);
      var q := FindQuestion(QuestionsOf(s.store.games[g]), a.questionId);
      if q.Some? {
        ScoreBounds(cfg, a.playerChoice == q.value.correctAnswer, a.answerTime, a.validTimeToAnswer);
        var i :| 0 <= i < |ids| && QuestionsOf(s.store.games[g])[i] == q.value;
        assert ids[i] == a.questionId;
      }
    }
    forall i, j | 0 <= i < j < |answers| && answers[i].playerId == id && answers[j].playerId == id
      ensures answers[i].questionId != answers[j].questionId
    {
      assert answers[i] in answers && answers[j] in answers;
      assert !SameKey(answers[j], answers[i].gameId, answers[i].playerId, answers[i].questionId);
    }
  }

  lemma PointsCapped(cfg: Config, s: Session, g: GameId, id: string)
    requires cfg.baseScore >= 0 && cfg.maxBonus >= 0
    requires LogSound(cfg, s) && g in s.store.games
    ensures 0 <= PointsOf(AnswersOf(s.store.answers, g), id)
              <= |QuestionsOf(s.store.games[g])| * (cfg.baseScore + cfg.maxBonus)
  {
    var cap := cfg.baseScore + cfg.maxBonus;
    var ids := IdsOf(QuestionsOf(s.store.games[g]));
    AnswersCapped(cfg, s, g, id);
    CappedByQuestions(AnswersOf(s.store.answers, g), id, (set q | q in ids), cap);
    ElementCount(ids);
    MulMonotone(|set q | q in ids|, |ids|, cap);
  }

  /**
   * The score cap, over every run: however READYs and ANSWERs interleave, no
   * leaderboard gives a player more than BaseScore + MaxBonus per question of
   * the game, or less than nothing.
   */
  lemma ScoreCap(cfg: Config, s: Session, g: GameId, listed: seq<PlayerAnswer>, board: seq<PlayerPoint>, p: PlayerPoint)
    requires cfg.baseScore >= 0 && cfg.maxBonus >= 0
    requires Reachable(cfg, s) && g in s.store.games
    requires multiset(listed) == multiset(AnswersOf(s.store.answers, g))
    requires IsBoard(board, listed, s.store.games[g].players) && p in board
    ensures 0 <= p.point <= |QuestionsOf(s.store.games[g])| * (cfg.baseScore + cfg.maxBonus)
  {
    ReachableSound(cfg, s);
    PointsCapped(cfg, s, g, p.playerId);
    OrderIrrelevant(listed, AnswersOf(s.store.answers, g), p.playerId);
  }

  /** The choice was the right answer of its question, with this much time left at least. */
  ghost predicate AnsweredRight(questions: seq<Question>, a: PlayerAnswer, spare: int) {
    exists i: nat :: FirstWithId(questions, a.questionId, i) && a.playerChoice == questions[i].correctAnswer
                     && a.validTimeToAnswer - a.answerTime >= spare
  }

  lemma RightWhenFound(questions: seq<Question>, a: PlayerAnswer, spare: int)
    ensures AnsweredRight(questions, a, spare) <==>
      var q := FindQuestion(questions, a.questionId);
      q.Some? && a.playerChoice == q.value.correctAnswer && a.validTimeToAnswer - a.answerTime >= spare
  {
    FindsFirst(questions, a.questionId);
  }

  /**
   * What earns points, in every run: a stored answer has points only if its
   * choice is the right answer of a question of the game and it was not sent
   * after the deadline; with BaseScore > 0 it has points exactly then.
   */
  lemma PointsMeanRight(cfg: Config, s: Session, g: GameId, a: PlayerAnswer)
    requires cfg.baseScore >= 0 && cfg.maxBonus >= 0
    requires Reachable(cfg, s) && g in s.store.games && a in s.store.answers && a.gameId == g
    ensures a.point >= 0
    ensures a.point > 0 ==> AnsweredRight(QuestionsOf(s.store.games[g]), a, 0)
    ensures cfg.baseScore > 0 ==> (a.point > 0 <==> AnsweredRight(QuestionsOf(s.store.games[g]), a, 0))
  {
    ReachableSound(cfg, s);
    assert RecordSound(cfg, s, a);
    var questions := QuestionsOf(s.store.games[g]);
    RightWhenFound(questions, a, 0);
    var q := FindQuestion(questions, a.questionId);
    if q.Some? {
      ScoreBounds(cfg, a.playerChoice == q.value.correctAnswer, a.answerTime, a.validTimeToAnswer);
    }
  }

  lemma CountsExactly(cfg: Config, s: Session, g: GameId, a: PlayerAnswer)
    requires Reachable(cfg, s) && g in s.store.games && a in s.store.answers && a.gameId == g
    ensures a.timeDiff > 0 && a.point > 0 ==> AnsweredRight(QuestionsOf(s.store.games[g]), a, 1_000_000_000)
    ensures cfg.baseScore > 0 && cfg.maxBonus >= 0 && AnsweredRight(QuestionsOf(s.store.games[g]), a, 1_000_000_000) ==>
      a.timeDiff > 0 && a.point > 0
  {
    ReachableSound(cfg, s);
    assert RecordSound(cfg, s, a);
    var questions := QuestionsOf(s.store.games[g]);
    RightWhenFound(questions, a, 1_000_000_000);
    var q := FindQuestion(questions, a.questionId);
    var left := Sub(a.validTimeToAnswer, a.answerTime);
    if left >= 0 {
      QuoAtLeast(left, SECOND, 1);
    }
    if q.Some? && cfg.baseScore > 0 && cfg.maxBonus >= 0 {
      ScoreBounds(cfg, a.playerChoice == q.value.correctAnswer, a.answerTime, a.validTimeToAnswer);
    }
  }

  /**
   * What a mark on a leaderboard says, in every run: it shows the choice of an
   * answer of that player in that game and the right choice of its question; it
   * says correct only if they are the same and a whole second was left, and with
   * BaseScore > 0 exactly then.
   */
  lemma MarkMeansCorrect(cfg: Config, s: Session, g: GameId, listed: seq<PlayerAnswer>, board: seq<PlayerPoint>,
                         p: PlayerPoint, k: nat)
    returns (a: PlayerAnswer)
    requires Reachable(cfg, s) && g in s.store.games
    requires multiset(listed) == multiset(AnswersOf(s.store.answers, g))
    requires IsBoard(board, listed, s.store.games[g].players) && p in board && k < |p.questionCorrectness|
    ensures a in s.store.answers && a.gameId == g && a.playerId == p.playerId
    ensures var mark, right := p.questionCorrectness[k], AnsweredRight(QuestionsOf(s.store.games[g]), a, 1_000_000_000);
      && mark.playerChoice == a.playerChoice && mark.correctChoice == a.correctChoice
      && (mark.isCorrect ==> right && mark.playerChoice == mark.correctChoice)
      && (cfg.baseScore > 0 && cfg.maxBonus >= 0 && right ==> mark.isCorrect)
  {
    var pos := EntryShows(board, listed, s.store.games[g].players, p);
    a := listed[pos[k]];
    assert listed[pos[k]].playerId == p.playerId by { assert pos[k] in pos; }
    SameMembers(listed, AnswersOf(s.store.answers, g));
    AnswersOfMembers(s.store.answers, g, a);
    CountsExactly(cfg, s, g, a);
    RightIsShown(cfg, s, g, a);
  }

  lemma RightIsShown(cfg: Config, s: Session, g: GameId, a: PlayerAnswer)
    requires Reachable(cfg, s) && g in s.store.games && a in s.store.answers && a.gameId == g
    ensures AnsweredRight(QuestionsOf(s.store.games[g]), a, 1_000_000_000) ==> a.playerChoice == a.correctChoice
  {
    ReachableSound(cfg, s);
    assert RecordSound(cfg, s, a);
    RightWhenFound(QuestionsOf(s.store.games[g]), a, 1_000_000_000);
  }

  // ----------------------------------------------------- how totals develop

  lemma OneRecordMore(answers: seq<PlayerAnswer>, record: PlayerAnswer, h: GameId, id: string)
    ensures PointsOf(AnswersOf(answers + [record], h), id) ==
      PointsOf(AnswersOf(answers, h), id) + if record.gameId == h && record.playerId == id then record.point else 0
  {
    assert (answers + [record])[..|answers|] == answers;
    var own := AnswersOf(answers, h);
    assert (own + [record])[..|own|] == own;
  }

  /**
   * An answer changes the points of nobody but its player and game, and those
   * by the score of the question it answers: nothing for a question that is not
   * cached or an answer that is not accepted.
   */
  lemma AnswerAddsItsScore(cfg: Config, st: Store, g: GameId, userId: nat, questionId: string, choice: string, now: int,
                           h: GameId, id: string)
    ensures var a := NewAnswer(g, questionId, userId, choice, now);
            var (st', outcome) := SaveAnswer(cfg, st, g, a);
            var q := if g in st.cache then FindQuestion(st.cache[g].questions, questionId) else None;
            var gain :=
              if outcome == Accepted && q.Some?
              then CalculateScore(cfg, choice == q.value.correctAnswer, now, q.value.validAnswerTime)
              else 0;
      PointsOf(AnswersOf(st'.answers, h), id) ==
        PointsOf(AnswersOf(st.answers, h), id) + if h == g && id == FormatUint(userId) then gain else 0
  {
    var a := NewAnswer(g, questionId, userId, choice, now);
    if SaveAnswer(cfg, st, g, a).1 == Accepted {
      OneRecordMore(st.answers, GradedAgainst(cfg, st.cache[g].questions, a), h, id);
    }
  }

  /**
   * What an answer adds, in any state: nothing to anybody but its player and in
   * its game, nothing unless it is accepted and to a cached question, and then
   * the points IsScore says, so more than nothing only if it is right and in time.
   */
  lemma AnswerGains(cfg: Config, st: Store, g: GameId, userId: nat, questionId: string, choice: string, now: int,
                    h: GameId, id: string)
    requires ScoresSound(cfg)
    ensures var (st', outcome) := SaveAnswer(cfg, st, g, NewAnswer(g, questionId, userId, choice, now));
            var gain := PointsOf(AnswersOf(st'.answers, h), id) - PointsOf(AnswersOf(st.answers, h), id);
      && (outcome != Accepted || h != g || id != FormatUint(userId) ==> gain == 0)
      && (outcome == Accepted && h == g && id == FormatUint(userId) ==>
            && g in st.cache
            && (forall i: nat :: FirstWithId(st.cache[g].questions, questionId, i) ==>
                  var q := st.cache[g].questions[i];
                  IsScore(cfg, choice == q.correctAnswer, now, q.validAnswerTime, gain))
            && ((forall q :: q in st.cache[g].questions ==> q.id != questionId) ==> gain == 0))
  {
    AnswerAddsItsScore(cfg, st, g, userId, questionId, choice, now, h, id);
    if g in st.cache {
      FindsFirst(st.cache[g].questions, questionId);
      var q := FindQuestion(st.cache[g].questions, questionId);
      if q.Some? {
        ScoreExactly(cfg, choice == q.value.correctAnswer, now, q.value.validAnswerTime);
      }
    }
  }

  lemma StepKeepsPoints(cfg: Config, s: Session, e: Event, h: GameId, id: string)
    requires cfg.baseScore >= 0 && cfg.maxBonus >= 0 && Enabled(s, e)
    ensures PointsOf(AnswersOf(s.store.answers, h), id) <= PointsOf(AnswersOf(Apply(cfg, s, e).store.answers, h), id)
  {
    if e.Answer? {
      AnswerAddsItsScore(cfg, s.store, e.gameId, e.userId, e.questionId, e.choice, e.now, h, id);
      if e.gameId in s.store.cache {
        var q := FindQuestion(s.store.cache[e.gameId].questions, e.questionId);
        if q.Some? {
          ScoreBounds(cfg, e.choice == q.value.correctAnswer, e.now, q.value.validAnswerTime);
        }
      }
    }
  }

  /** No player's total on any leaderboard ever goes down. */
  lemma {:induction false} TotalsNeverDecrease(cfg: Config, s: Session, es: seq<Event>, h: GameId, id: string)
    requires cfg.baseScore >= 0 && cfg.maxBonus >= 0 && Valid(cfg, s, es)
    ensures PointsOf(AnswersOf(s.store.answers, h), id) <= PointsOf(AnswersOf(Final(cfg, s, es).store.answers, h), id)
    decreases |es|
  {
    if es != [] {
      StepKeepsPoints(cfg, s, es[0], h, id);
      TotalsNeverDecrease(cfg, Apply(cfg, s, es[0]), es[1..], h, id);
    }
  }

  // -------------------------------------------------------------- completion

  lemma CachedLength(s: Session, g: GameId)
    requires Coherent(s) && g in s.store.games && g in s.store.cache
    ensures s.store.games[g].matchId in s.delivered
    ensures |s.store.cache[g].questions| == |s.delivered[s.store.games[g].matchId]| <= QUESTION_LIMIT
  {
    assert CacheAgrees(s, g) && DocumentHolds(s, g);
  }

  lemma StartCovers(timeOut: int, tasks: seq<Task>, key: string, questions: seq<Question>, q: Question)
    requires 0 <= timeOut <= MAX_INT64 / 55 && |questions| <= QUESTION_LIMIT
    requires Started(timeOut, tasks, key, questions) && q in questions
    ensures exists t :: t in tasks && t.gameId == key && q.validAnswerTime <= t.fireAt
  {
    var readings, enqueuedAt :| FromStart(timeOut, tasks, key, questions, readings, enqueuedAt);
    var i :| 0 <= i < |questions| && questions[i] == q;
    TenQuestionsFit(timeOut, |readings|);
    CompletionAfterDeadlines(timeOut, readings, enqueuedAt, i);
    var t := Task(key, enqueuedAt + DelaySum(timeOut, |readings|));
    assert t in tasks && q.validAnswerTime <= t.fireAt;
  }

  /** The cached questions of a game have no deadlines yet, or those of a start under its id or its match id. */
  lemma CachedTimed(cfg: Config, s: Session, g: GameId)
    requires Reachable(cfg, s) && g in s.store.games && g in s.store.cache
    ensures var qs := s.store.cache[g].questions;
      && |qs| <= QUESTION_LIMIT
      && (|| Unset(qs)
          || Started(cfg.validAnswerTimeOut, s.tasks, g, qs)
          || Started(cfg.validAnswerTimeOut, s.tasks, s.store.games[g].matchId, qs))
  {
    ReachableSound(cfg, s);
    CachedLength(s, g);
    assert EntryTimed(cfg.validAnswerTimeOut, s, g, s.store.cache[g].questions);
  }

  /**
   * In every run, however often deadlines are restamped: a deadline that a game
   * has had at any time is never after all completion tasks under its id or its
   * match id, or under its id alone if no READY has started the match id.
   */
  lemma CompletionCovers(cfg: Config, s: Session, g: GameId, q: Question, es: seq<Event>)
    requires 0 <= cfg.validAnswerTimeOut <= MAX_INT64 / 55
    requires Reachable(cfg, s) && g in s.store.games && g in s.store.cache
    requires q in s.store.cache[g].questions && q.validAnswerTime != ZERO_TIME
    requires Valid(cfg, s, es)
    ensures exists t :: t in Final(cfg, s, es).tasks
                        && (t.gameId == g || t.gameId == s.store.games[g].matchId) && q.validAnswerTime <= t.fireAt
    ensures (forall t :: t in s.tasks ==> t.gameId != s.store.games[g].matchId) ==>
      exists t :: t in Final(cfg, s, es).tasks && t.gameId == g && q.validAnswerTime <= t.fireAt
  {
    var timeOut, questions, m := cfg.validAnswerTimeOut, s.store.cache[g].questions, s.store.games[g].matchId;
    CachedTimed(cfg, s, g);
    var key := if Started(timeOut, s.tasks, g, questions) then g else m;
    StartCovers(timeOut, s.tasks, key, questions, q);
    var t :| t in s.tasks && t.gameId == key && q.validAnswerTime <= t.fireAt;
    RunGrows(cfg, s, es);
    assert t in Final(cfg, s, es).tasks;
  }

  /**
   * In every run the cached questions of a game have no deadlines yet, or those
   * of one start: each at least the time-out after the one before, and no
   * instant earns points on two of them but within the last millisecond before
   * the deadline of the earlier one, the two following one another.
   */
  lemma CachedDeadlinesTile(cfg: Config, s: Session, g: GameId, i: nat, j: nat, answerTime: int)
    requires 0 < cfg.validAnswerTimeOut <= MAX_INT64 / 55 && cfg.baseScore >= 0 && cfg.maxBonus >= 0
    requires Reachable(cfg, s) && g in s.store.games && g in s.store.cache
    requires i < j < |s.store.cache[g].questions|
    ensures var qs := s.store.cache[g].questions;
      Unset(qs) ||
      (&& qs[i].validAnswerTime + cfg.validAnswerTimeOut <= qs[j].validAnswerTime
       && (CanScore(cfg, qs[i].validAnswerTime, answerTime) && CanScore(cfg, qs[j].validAnswerTime, answerTime) ==>
             && qs[i].validAnswerTime - MILLISECOND < answerTime <= qs[i].validAnswerTime
             && (cfg.validAnswerTimeOut >= MILLISECOND ==> j == i + 1)))
  {
    var timeOut, qs, m := cfg.validAnswerTimeOut, s.store.cache[g].questions, s.store.games[g].matchId;
    CachedTimed(cfg, s, g);
    if !Unset(qs) {
      var key := if Started(timeOut, s.tasks, g, qs) then g else m;
      var readings, enqueuedAt :| FromStart(timeOut, s.tasks, key, qs, readings, enqueuedAt);
      TenQuestionsFit(timeOut, |readings|);
      WindowsTile(cfg, readings, i, j, answerTime);
    }
  }

  /**
   * The questions of a game as a start leaves them in the cache: the deadlines
   * increase with the position, and no instant earns points on two of them but
   * within the last millisecond before the deadline of the earlier one.
   */
  lemma StartedGameTiles(cfg: Config, st: Store, tasks: seq<Task>, g: GameId, userId: nat, readings: seq<int>,
                         enqueuedAt: int,
                         i: nat, j: nat, answerTime: int)
    requires 0 < cfg.validAnswerTimeOut <= MAX_INT64 - MILLISECOND && cfg.baseScore >= 0 && cfg.maxBonus >= 0
    requires g in st.cache && |readings| == |st.cache[g].questions| && Nondecreasing(readings)
    requires Fits(cfg.validAnswerTimeOut, |readings|) && i < j < |readings|
    ensures var (after, tasks') := ReadyMessage(cfg, st, tasks, g, userId, readings, enqueuedAt);
            var qs := after.cache[g].questions;
      |tasks'| > |tasks| ==>
      && |qs| == |st.cache[g].questions|
      && qs[i].id == st.cache[g].questions[i].id && qs[j].id == st.cache[g].questions[j].id
      && qs[i].validAnswerTime < qs[j].validAnswerTime
      && (CanScore(cfg, qs[i].validAnswerTime, answerTime) && CanScore(cfg, qs[j].validAnswerTime, answerTime) ==>
            qs[i].validAnswerTime - MILLISECOND < answerTime <= qs[i].validAnswerTime)
  {
    WindowsTile(cfg, readings, i, j, answerTime);
  }

  /**
   * What a start leaves: question i of n has the deadline reading i plus i + 1
   * time-outs and is otherwise as it was, no other cache entry and nothing else
   * in the store changes but the ready list, and the completion is due n(n+1)/2
   * time-outs after it is enqueued.
   */
  lemma StartStamps(cfg: Config, s: Session, g: GameId, readings: seq<int>, at: int, s': Session)
    requires ReadySent(cfg, s, g, readings, at, s') && g in s.store.cache && |s'.tasks| > |s.tasks|
    requires Fits(cfg.validAnswerTimeOut, |readings|)
    ensures var n, timeOut := |readings|, cfg.validAnswerTimeOut;
      && n == |s.store.cache[g].questions|
      && s'.tasks[|s.tasks|] == Task(g, at + timeOut * (n * (n + 1) / 2))
      && g in s'.store.cache && |s'.store.cache[g].questions| == n
      && (forall i :: 0 <= i < n ==>
            s'.store.cache[g].questions[i] ==
              s.store.cache[g].questions[i].(validAnswerTime := readings[i] + timeOut * (i + 1)))
    ensures s'.store.games == s.store.games && s'.store.answers == s.store.answers
    ensures s'.store.cache == s.store.cache[g := s.store.cache[g].(questions := s'.store.cache[g].questions)]
  {
    var n, timeOut := |readings|, cfg.validAnswerTimeOut;
    StartEffect(cfg, s, g, readings, at, s');
    DelayExact(timeOut, n);
    TriangleFormula(n);
    forall i: nat | i < n
      ensures s'.store.cache[g].questions[i] ==
        s.store.cache[g].questions[i].(validAnswerTime := readings[i] + timeOut * (i + 1))
    {
      NoOverflow(timeOut, n, i);
    }
    StartKeepsRest(cfg, s, g, readings, at, s');
  }

  lemma StartKeepsRest(cfg: Config, s: Session, g: GameId, readings: seq<int>, at: int, s': Session)
    requires ReadySent(cfg, s, g, readings, at, s') && g in s.store.cache && |s'.tasks| > |s.tasks|
    ensures s'.store.games == s.store.games && s'.store.answers == s.store.answers
    ensures g in s'.store.cache
    ensures s'.store.cache == s.store.cache[g := s.store.cache[g].(questions := s'.store.cache[g].questions)]
  {}

  // ------------------------------------------------------- repeated starts

  ghost predicate Full(s: Session, g: GameId) {
    g in s.store.ready && |s.store.ready[g].players| == s.store.ready[g].expectedNumberOfPlayers
  }

  lemma {:induction false} FullStays(cfg: Config, s: Session, es: seq<Event>, g: GameId)
    requires Valid(cfg, s, es) && Full(s, g)
    ensures Full(Final(cfg, s, es), g)
    decreases |es|
  {
    if es != [] {
      assert Full(Apply(cfg, s, es[0]), g);
      FullStays(cfg, Apply(cfg, s, es[0]), es[1..], g);
    }
  }

  /** Somebody sends READY for game g; its clock readings and the time of the enqueueing are these. */
  ghost predicate ReadySent(cfg: Config, s: Session, g: GameId, readings: seq<int>, at: int, s': Session) {
    exists user :: Enabled(s, ReadyUp(g, user, readings, at)) && s' == ReadyStep(cfg, s, g, user, readings, at)
  }

  /** What a READY does that starts the game: it leaves the list full, and any READY on a full list starts. */
  lemma StartEffect(cfg: Config, s: Session, g: GameId, readings: seq<int>, at: int, s': Session)
    requires ReadySent(cfg, s, g, readings, at, s') && g in s.store.cache
    requires Full(s, g) || |s'.tasks| > |s.tasks|
    ensures Full(s', g)
    ensures |readings| == |s.store.cache[g].questions| && Nondecreasing(readings)
    ensures readings != [] ==> s.clock <= readings[0]
    ensures |s'.tasks| == |s.tasks| + 1
    ensures s'.tasks[|s.tasks|] == Task(g, at + DelaySum(cfg.validAnswerTimeOut, |readings|))
    ensures g in s'.store.cache
    ensures s'.store.cache[g].questions ==
      Stamped(s.store.cache[g].questions, Deadlines(cfg.validAnswerTimeOut, readings))
  {}

  /** Without cached questions a start stamps nothing, and its completion is due at once. */
  lemma EmptyStartEffect(cfg: Config, s: Session, g: GameId, readings: seq<int>, at: int, s': Session)
    requires ReadySent(cfg, s, g, readings, at, s') && g !in s.store.cache
    requires Full(s, g) || |s'.tasks| > |s.tasks|
    ensures Full(s', g) && g !in s'.store.cache && s'.clock == at
    ensures |s'.tasks| == |s.tasks| + 1 && s.tasks <= s'.tasks
    ensures s'.tasks[|s.tasks|] == Task(g, at)
  {}

  /** Some deadline lies after the time t. */
  ghost predicate Outruns(questions: seq<Question>, t: int) {
    exists q :: q in questions && t < q.validAnswerTime
  }

  /** The last deadline of a start is its latest. */
  lemma LatestDeadline(timeOut: int, questions: seq<Question>, readings: seq<int>, t: int)
    requires |readings| == |questions| && Nondecreasing(readings) && Fits(timeOut, |readings|)
    ensures var n := |readings|;
      Outruns(Stamped(questions, Deadlines(timeOut, readings)), t) <==>
        n > 0 && t < readings[n - 1] + timeOut * n
  {
    var n, stamped := |readings|, Stamped(questions, Deadlines(timeOut, readings));
    forall i | 0 <= i < n
      ensures stamped[i].validAnswerTime == readings[i] + timeOut * (i + 1) <= readings[n - 1] + timeOut * n
    {
      NoOverflow(timeOut, n, i);
      MulMonotone(i + 1, n, timeOut);
      assert (i + 1) * timeOut == timeOut * (i + 1) && n * timeOut == timeOut * n;
    }
    if n > 0 {
      assert stamped[n - 1] in stamped;
    }
  }

  lemma ReadyIsLater(cfg: Config, s: Session, g: GameId, readings: seq<int>, at: int, s': Session)
    requires ReadySent(cfg, s, g, readings, at, s')
    ensures Later(cfg, s, s')
  {
    var user :| Enabled(s, ReadyUp(g, user, readings, at)) && s' == ReadyStep(cfg, s, g, user, readings, at);
    StepIsLater(cfg, s, ReadyUp(g, user, readings, at));
  }

  lemma LengthStays(cfg: Config, s: Session, g: GameId, s': Session)
    requires Reachable(cfg, s) && Later(cfg, s, s') && g in s.store.games && g in s.store.cache
    ensures g in s'.store.cache && |s'.store.cache[g].questions| == |s.store.cache[g].questions|
  {
    var es :| Valid(cfg, s, es) && s' == Final(cfg, s, es);
    ReachableLater(cfg, s, s');
    RunGrows(cfg, s, es);
    SameLength(cfg, s, g, s');
  }

  lemma SameLength(cfg: Config, s: Session, g: GameId, s': Session)
    requires Reachable(cfg, s) && Reachable(cfg, s') && Grows(s, s') && g in s.store.games && g in s.store.cache
    ensures |s'.store.cache[g].questions| == |s.store.cache[g].questions|
  {
    ReachableSound(cfg, s);
    CachedLength(s, g);
    ReachableSound(cfg, s');
    CachedLength(s', g);
  }

  lemma GameStays(cfg: Config, s: Session, g: GameId, s': Session)
    requires Later(cfg, s, s') && g in s.store.games
    ensures g in s'.store.games
  {
    var es :| Valid(cfg, s, es) && s' == Final(cfg, s, es);
    RunGrows(cfg, s, es);
  }

  lemma FullTaskStays(cfg: Config, s: Session, g: GameId, task: Task, s': Session)
    requires Later(cfg, s, s') && Full(s, g) && task in s.tasks
    ensures Full(s', g) && task in s'.tasks
  {
    var es :| Valid(cfg, s, es) && s' == Final(cfg, s, es);
    RunGrows(cfg, s, es);
    FullStays(cfg, s, es, g);
  }

  lemma DeadlinesOutrun(timeOut: int, questions: seq<Question>, readings: seq<int>, at: int, n: nat)
    requires |readings| == |questions| == n && Nondecreasing(readings) && Fits(timeOut, n)
    ensures Outruns(Stamped(questions, Deadlines(timeOut, readings)), at + DelaySum(timeOut, n)) <==>
      n > 0 && readings[n - 1] - at > timeOut * Triangle(n - 1)
  {
    DelayExact(timeOut, n);
    LatestDeadline(timeOut, questions, readings, at + DelaySum(timeOut, n));
    if n > 0 {
      MulSum(timeOut, Triangle(n - 1), n);
    }
  }

  lemma StillStarted(cfg: Config, s: Session, g: GameId, task: Task, n: nat, started: Session, before: Session)
    requires Reachable(cfg, s) && Later(cfg, s, started) && Later(cfg, started, before)
    requires g in s.store.games && g in s.store.cache && |s.store.cache[g].questions| == n
    requires Full(started, g) && task in started.tasks
    ensures Full(before, g) && task in before.tasks
    ensures g in before.store.cache && |before.store.cache[g].questions| == n
  {
    ReachableLater(cfg, s, started);
    GameStays(cfg, s, g, started);
    LengthStays(cfg, s, g, started);
    LengthStays(cfg, started, g, before);
    FullTaskStays(cfg, started, g, task, before);
  }

  /** What a start leaves for later: a full list, as many cached questions, and its task. */
  lemma FirstStart(cfg: Config, s: Session, g: GameId, readings: seq<int>, at: int, started: Session, before: Session)
    requires Reachable(cfg, s) && g in s.store.games && g in s.store.cache
    requires ReadySent(cfg, s, g, readings, at, started) && |started.tasks| > |s.tasks| && Later(cfg, started, before)
    ensures started.tasks[|s.tasks|] == Task(g, at + DelaySum(cfg.validAnswerTimeOut, |readings|))
    ensures Full(before, g) && started.tasks[|s.tasks|] in before.tasks
    ensures g in before.store.cache && |before.store.cache[g].questions| == |readings|
  {
    StartEffect(cfg, s, g, readings, at, started);
    ReadyIsLater(cfg, s, g, readings, at, started);
    StillStarted(cfg, s, g, started.tasks[|s.tasks|], |readings|, started, before);
  }

  /** A start while a completion enqueued at the time at is due. */
  lemma SecondStart(cfg: Config, s: Session, g: GameId, n: nat, at: int, task: Task,
                    readings: seq<int>, later: int, s': Session)
    requires Full(s, g) && g in s.store.cache && |s.store.cache[g].questions| == n && Fits(cfg.validAnswerTimeOut, n)
    requires task in s.tasks && task.fireAt == at + DelaySum(cfg.validAnswerTimeOut, n)
    requires ReadySent(cfg, s, g, readings, later, s')
    ensures task in s'.tasks && |s'.tasks| == |s.tasks| + 1
    ensures |readings| == n && g in s'.store.cache
    ensures Outruns(s'.store.cache[g].questions, task.fireAt) <==>
      n > 0 && readings[n - 1] - at > cfg.validAnswerTimeOut * Triangle(n - 1)
  {
    StartEffect(cfg, s, g, readings, later, s');
    DeadlinesOutrun(cfg.validAnswerTimeOut, s.store.cache[g].questions, readings, at, n);
  }

  function CachedQuestions(st: Store, g: GameId): seq<Question> {
    if g in st.cache then st.cache[g].questions else []
  }

  lemma ClockAdvances(cfg: Config, s: Session, s': Session)
    requires Later(cfg, s, s')
    ensures s.clock <= s'.clock
  {
    var es :| Valid(cfg, s, es) && s' == Final(cfg, s, es);
    RunGrows(cfg, s, es);
  }

  /** A start while a completion is due that was enqueued at once, when no questions were cached. */
  lemma StartAfterEmpty(cfg: Config, s: Session, g: GameId, at: int, task: Task, readings: seq<int>, later: int,
                        s': Session)
    requires Full(s, g) && task in s.tasks && task.fireAt == at <= s.clock && Fits(cfg.validAnswerTimeOut, |readings|)
    requires ReadySent(cfg, s, g, readings, later, s')
    ensures task in s'.tasks && |s'.tasks| == |s.tasks| + 1
    ensures Outruns(CachedQuestions(s'.store, g), task.fireAt) <==>
      var n := |readings|;
      g in s.store.cache && n > 0 && (cfg.validAnswerTimeOut > 0 || readings[n - 1] > at)
  {
    var timeOut, n := cfg.validAnswerTimeOut, |readings|;
    if g in s.store.cache {
      StartEffect(cfg, s, g, readings, later, s');
      LatestDeadline(timeOut, s.store.cache[g].questions, readings, at);
      if n > 0 {
        assert at <= readings[0] <= readings[n - 1];
        MulMonotone(1, n, timeOut);
        assert n * timeOut == timeOut * n;
      }
    } else {
      EmptyStartEffect(cfg, s, g, readings, later, s');
    }
  }

  lemma OutrunsEmptyStart(cfg: Config, s: Session, g: GameId, readings1: seq<int>, at1: int, started: Session,
                          before: Session, readings2: seq<int>, at2: int, after: Session)
    requires g !in s.store.cache
    requires ReadySent(cfg, s, g, readings1, at1, started) && |started.tasks| > |s.tasks|
    requires Later(cfg, started, before) && ReadySent(cfg, before, g, readings2, at2, after)
    requires Fits(cfg.validAnswerTimeOut, |readings2|)
    ensures started.tasks[|s.tasks|] == Task(g, at1)
    ensures started.tasks[|s.tasks|] in after.tasks && |after.tasks| == |before.tasks| + 1
    ensures Outruns(CachedQuestions(after.store, g), started.tasks[|s.tasks|].fireAt) <==>
      var n := |readings2|;
      g in before.store.cache && n > 0 && (cfg.validAnswerTimeOut > 0 || readings2[n - 1] > at1)
  {
    EmptyStartEffect(cfg, s, g, readings1, at1, started);
    FullTaskStays(cfg, started, g, started.tasks[|s.tasks|], before);
    ClockAdvances(cfg, started, before);
    StartAfterEmpty(cfg, before, g, at1, started.tasks[|s.tasks|], readings2, at2, after);
  }

  lemma OneReadingEach(cfg: Config, s: Session, g: GameId, readings: seq<int>, at: int, s': Session)
    requires ReadySent(cfg, s, g, readings, at, s') && g in s.store.cache
    ensures |readings| == |s.store.cache[g].questions|
  {}

  lemma OutrunsStart(cfg: Config, s: Session, g: GameId, readings1: seq<int>, at1: int, started: Session,
                     before: Session, readings2: seq<int>, at2: int, after: Session)
    requires Reachable(cfg, s) && g in s.store.games && g in s.store.cache
    requires ReadySent(cfg, s, g, readings1, at1, started) && |started.tasks| > |s.tasks|
    requires Later(cfg, started, before) && ReadySent(cfg, before, g, readings2, at2, after)
    requires Fits(cfg.validAnswerTimeOut, |readings2|)
    ensures started.tasks[|s.tasks|] == Task(g, at1 + DelaySum(cfg.validAnswerTimeOut, |readings1|))
    ensures started.tasks[|s.tasks|] in after.tasks && |after.tasks| == |before.tasks| + 1
    ensures |readings2| == |readings1| && g in before.store.cache && g in after.store.cache
    ensures Outruns(after.store.cache[g].questions, started.tasks[|s.tasks|].fireAt) <==>
      var n := |readings2|;
      n > 0 && readings2[n - 1] - at1 > cfg.validAnswerTimeOut * Triangle(n - 1)
  {
    FirstStart(cfg, s, g, readings1, at1, started, before);
    OneReadingEach(cfg, before, g, readings2, at2, after);
    SecondStart(cfg, before, g, |readings2|, at1, started.tasks[|s.tasks|], readings2, at2, after);
  }

  lemma CachedGameExists(cfg: Config, s: Session, g: GameId)
    requires Reachable(cfg, s) && g in s.store.cache && IsGameId(g)
    ensures g in s.store.games
  {
    ReachableSound(cfg, s);
    assert CacheAgrees(s, g);
  }

  /** What is cached under a game's id at any time is that game's. */
  lemma GameWasCreated(cfg: Config, s: Session, g: GameId, readings: seq<int>, at: int, started: Session,
                       before: Session)
    requires Reachable(cfg, s) && g in s.store.cache && g in before.store.games
    requires ReadySent(cfg, s, g, readings, at, started) && Later(cfg, started, before)
    ensures g in s.store.games
  {
    ReadyIsLater(cfg, s, g, readings, at, started);
    ReachableLater(cfg, s, started);
    ReachableLater(cfg, started, before);
    assert IsGameId(g) by { ReachableSound(cfg, before); }
    CachedGameExists(cfg, s, g);
  }

  /**
   * But the completion already due need not cover later deadlines.  After a
   * start, a READY repeated at any later point of any run starts once more, and
   * moves some deadline past the completion of the first start exactly if
   * questions are cached by then, and
   * - they were at the first start, and the last reading comes more than
   *   T·n(n-1)/2 after that completion was enqueued; or
   * - they were not, when that completion was due at once, and the time-out or
   *   the time passed since is positive.
   */
  lemma RestampOutrunsCompletion(cfg: Config, s: Session, g: GameId, readings1: seq<int>, at1: int, started: Session,
                                 before: Session, readings2: seq<int>, at2: int, after: Session)
    requires Reachable(cfg, s) && g in before.store.games
    requires ReadySent(cfg, s, g, readings1, at1, started) && |started.tasks| > |s.tasks|
    requires Later(cfg, started, before) && ReadySent(cfg, before, g, readings2, at2, after)
    requires Fits(cfg.validAnswerTimeOut, |readings2|)
    ensures started.tasks[|s.tasks|] ==
      Task(g, at1 + if g in s.store.cache then DelaySum(cfg.validAnswerTimeOut, |readings1|) else 0)
    ensures started.tasks[|s.tasks|] in after.tasks && |after.tasks| == |before.tasks| + 1
    ensures g in s.store.cache ==> |readings2| == |readings1| && g in before.store.cache
    ensures Outruns(CachedQuestions(after.store, g), started.tasks[|s.tasks|].fireAt) <==>
      var n := |readings2|;
      && g in before.store.cache && n > 0
      && if g in s.store.cache
         then readings2[n - 1] - at1 > cfg.validAnswerTimeOut * Triangle(n - 1)
         else cfg.validAnswerTimeOut > 0 || readings2[n - 1] > at1
  {
    if g in s.store.cache {
      GameWasCreated(cfg, s, g, readings1, at1, started, before);
      OutrunsStart(cfg, s, g, readings1, at1, started, before, readings2, at2, after);
    } else {
      OutrunsEmptyStart(cfg, s, g, readings1, at1, started, before, readings2, at2, after);
    }
  }

  // ---------------------------------------------------------------- instances

  /** A new session with one game and its players. */
  lemma OneGame(cfg: Config, g: GameId, game: Game) returns (s: Session)
    requires IsGameId(g) && IsMatchId(game.matchId) && game.question == None
    ensures Reachable(cfg, s)
    ensures s == Session(Store(map[g := game], map[], map[], []), [], 0, map[], [])
  {
    var s0 := Session(Store(map[], map[], map[], []), [], 0, map[], []);
    assert Initial(s0) && Valid(cfg, s0, []) && s0 == Final(cfg, s0, []);
    ReachableStep(cfg, s0, Create(game, g));
    s := Apply(cfg, s0, Create(game, g));
  }

  lemma TwoSteps(cfg: Config, s: Session, e: Event, d: Event)
    requires Enabled(s, e) && Enabled(Apply(cfg, s, e), d)
    ensures Valid(cfg, s, [e, d]) && Final(cfg, s, [e, d]) == Apply(cfg, Apply(cfg, s, e), d)
  {
    var s1 := Apply(cfg, s, e);
    assert [d][1..] == [] && [e, d][1..] == [d];
    assert Valid(cfg, s1, [d]) && Final(cfg, s1, [d]) == Apply(cfg, s1, d);
  }

  /** A READY that overtakes the initialisation: however many play, the quorum is two, and nobody is listed. */
  lemma EarlyReadyIsLost(cfg: Config, g: GameId, game: Game, player: nat) returns (s: Session, es: seq<Event>)
    requires IsGameId(g) && IsMatchId(game.matchId) && game.question == None
    ensures Reachable(cfg, s) && g in s.store.games && s.store.games[g] == game
    ensures es == [ReadyUp(g, player, [], 0), Initialise(g, |game.players|)] && Valid(cfg, s, es)
    ensures Final(cfg, s, es).store.ready == map[g := ReadyStatus(2, [])]
  {
    s := OneGame(cfg, g, game);
    var e, d := ReadyUp(g, player, [], 0), Initialise(g, |game.players|);
    es := [e, d];
    TwoSteps(cfg, s, e, d);
  }

  /** Two READYs that overtake it: the initialisation dereferences nil. */
  lemma EarlyReadiesHitNil(cfg: Config, g: GameId, game: Game, player: nat) returns (s: Session, es: seq<Event>)
    requires IsGameId(g) && IsMatchId(game.matchId) && game.question == None
    ensures Reachable(cfg, s) && g in s.store.games && s.store.games[g] == game
    ensures es == [ReadyUp(g, player, [], 0), ReadyUp(g, player, [], 0)] && Valid(cfg, s, es)
    ensures UpsertReady(Final(cfg, s, es).store.ready, g, None, Some(|game.players|)).1 == NilPlayer
  {
    s := OneGame(cfg, g, game);
    var e := ReadyUp(g, player, [], 0);
    es := [e, e];
    TwoSteps(cfg, s, e, e);
  }

  /** Game g, initialised for its two players, of whom the first has sent READY. */
  lemma OneReady(cfg: Config, g: GameId, m: string) returns (s: Session)
    requires IsGameId(g) && IsMatchId(m)
    ensures Reachable(cfg, s)
    ensures var games, ready := map[g := Game([1, 2], m, [], None)], map[g := ReadyStatus(2, [1])];
      s == Session(Store(games, map[], ready, []), [], 0, map[], [])
  {
    var s0 := OneGame(cfg, g, Game([1, 2], m, [], None));
    ReachableStep(cfg, s0, Initialise(g, 2));
    var s1 := Apply(cfg, s0, Initialise(g, 2));
    assert s1.store.ready == map[g := ReadyStatus(2, [])];
    var e := ReadyUp(g, 1, [], 0);
    ReachableStep(cfg, s1, e);
    s := Apply(cfg, s1, e);
    ReadyListed(s1.store.ready, g, 1);
    assert [] + [1] == [1];
  }

  /** Both have: the game starts, though it has no questions. */
  lemma EmptyStart(cfg: Config, g: GameId, m: string) returns (s: Session, started: Session)
    requires IsGameId(g) && IsMatchId(m)
    ensures Reachable(cfg, s) && g !in s.store.cache
    ensures ReadySent(cfg, s, g, [], 0, started) && |started.tasks| > |s.tasks|
    ensures started.store.games == map[g := Game([1, 2], m, [], None)] && Full(started, g)
    ensures started.delivered == map[] && started.clock == 0
  {
    s := OneReady(cfg, g, m);
    started := ReadyStep(cfg, s, g, 2, [], 0);
    ReadyListed(s.store.ready, g, 2);
    assert Enabled(s, ReadyUp(g, 2, [], 0)) && ReadySent(cfg, s, g, [], 0, started);
  }

  /**
   * A game that starts before its questions come: its completion is due at
   * once, and the deadlines stamped by a READY sent when they have come lie
   * after it, even if no time has passed.
   */
  lemma EmptyStartIsOutrun(cfg: Config, g: GameId, m: string, questions: seq<Question>)
    returns (s: Session, started: Session, before: Session, readings: seq<int>, after: Session)
    requires IsGameId(g) && IsMatchId(m) && 0 < |questions| <= QUESTION_LIMIT && Unset(questions)
    requires cfg.validAnswerTimeOut > 0 && Fits(cfg.validAnswerTimeOut, |questions|)
    ensures Reachable(cfg, s) && g !in s.store.cache
    ensures ReadySent(cfg, s, g, [], 0, started) && |started.tasks| > |s.tasks| && Later(cfg, started, before)
    ensures |readings| == |questions| && (forall i :: 0 <= i < |readings| ==> readings[i] == 0)
    ensures ReadySent(cfg, before, g, readings, 0, after)
    ensures Outruns(CachedQuestions(after.store, g), started.tasks[|s.tasks|].fireAt)
  {
    s, started := EmptyStart(cfg, g, m);
    StepIsLater(cfg, started, Deliver(m, questions, Some(g), Some(g)));
    before := DeliverStep(started, m, questions, Some(g), Some(g));
    readings := seq(|questions|, _ => 0);
    after := ReadyStep(cfg, before, g, 1, readings, 0);
    assert Enabled(before, ReadyUp(g, 1, readings, 0)) && ReadySent(cfg, before, g, readings, 0, after);
    OutrunsEmptyStart(cfg, s, g, [], 0, started, before, readings, 0, after);
  }
}
