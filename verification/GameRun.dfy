/**
 * Whole runs of the game service.  Every repository call is one step; game
 * creation, question delivery, background cache fills, READYs and ANSWERs may
 * come in any order and for any number of games at once.
 */
module GameRun {
  import opened GameService
  import opened GameStore
  import opened GoRuntime
  import opened Scoring

  /** The number of questions the question service asks its database for. */
  const QUESTION_LIMIT: nat := 10

  /**
   * delivered: the questions that have arrived, by match id.  fills: the cache
   * entries that background goroutines have still to write.
   */
  datatype Session = Session(
    store: Store,
    tasks: seq<Task>,
    clock: int,
    delivered: map<string, seq<Question>>,
    fills: seq<(GameId, GameQuestions)>)

  datatype Event =
    | Create(game: Game, newId: GameId)
    | Deliver(matchId: string, questions: seq<Question>, updated: Option<GameId>, found: Option<GameId>)
    | ReadGame(gameId: GameId)
    | Fill(index: nat)
    | Initialise(gameId: GameId, number: int)
    | ReadyUp(gameId: GameId, userId: nat, readings: seq<int>, enqueuedAt: int)
    | Answer(gameId: GameId, userId: nat, questionId: string, choice: string, now: int)

  /** The hexadecimal form of an object id other than the nil id. */
  predicate IsGameId(id: string) { |id| == 24 && id != NIL_ID }

  /** The text of a ULID has 26 characters. */
  predicate IsMatchId(id: string) { |id| == 26 }

  ghost predicate Initial(s: Session) {
    && s.store == Store(map[], map[], map[], [])
    && s.tasks == [] && s.delivered == map[] && s.fills == []
  }

  /** Clock readings that do not go back, between two times. */
  ghost predicate InOrder(from: int, readings: seq<int>, to: int) {
    && from <= to && Nondecreasing(readings)
    && (readings != [] ==> from <= readings[0] && readings[|readings| - 1] <= to)
  }

  /**
   * Mongo issues ids it has not issued before; a match has one game; a match's
   * questions may be delivered again, but not others in their place; the clock
   * does not go back.
   */
  ghost predicate Enabled(s: Session, e: Event) {
    match e
    case Create(game, newId) =>
      && IsGameId(newId) && newId !in s.store.games
      && IsMatchId(game.matchId) && game.question == None
      && (forall g :: g in s.store.games ==> s.store.games[g].matchId != game.matchId)
    case Deliver(matchId, questions, updated, found) =>
      && IsMatchId(matchId) && |questions| <= QUESTION_LIMIT
      && Unset(questions)
      && (matchId in s.delivered ==> questions == s.delivered[matchId])
      && Picks(s.store, matchId, updated) && Picks(s.store, matchId, found)
    case ReadGame(gameId) => gameId in s.store.games && s.store.games[gameId].question.Some?
    case Fill(index) => index < |s.fills|
    case Initialise(gameId, number) => gameId in s.store.games && number == |s.store.games[gameId].players|
    case ReadyUp(gameId, _, readings, enqueuedAt) =>
      && InOrder(s.clock, readings, enqueuedAt)
      && (gameId in s.store.cache ==> |readings| == |s.store.cache[gameId].questions|)
    case Answer(_, _, _, _, now) => s.clock <= now
  }

  ghost function CreateStep(s: Session, game: Game, newId: GameId): Session {
    s.(store := CreateGame(s.store, game, newId))
  }

  ghost function DeliverStep(s: Session, matchId: string, questions: seq<Question>,
                             updated: Option<GameId>, found: Option<GameId>): Session
    requires Picks(s.store, matchId, updated) && Picks(s.store, matchId, found)
  {
    s.(store := SaveQuestions(s.store, matchId, questions, updated, found),
       delivered := s.delivered[matchId := questions])
  }

  ghost function ReadGameStep(s: Session, gameId: GameId): Session
    requires gameId in s.store.games && s.store.games[gameId].question.Some?
  {
    s.(fills := s.fills + [(gameId, EntryOf(s.store.games[gameId]))])
  }

  ghost function FillStep(s: Session, index: nat): Session
    requires index < |s.fills|
  {
    s.(store := PutEntry(s.store, s.fills[index].0, s.fills[index].1),
       fills := s.fills[..index] + s.fills[index + 1..])
  }

  ghost function InitialiseStep(s: Session, gameId: GameId, number: int): Session {
    s.(store := s.store.(ready := UpsertReady(s.store.ready, gameId, None, Some(number)).0))
  }

  ghost function ReadyStep(cfg: Config, s: Session, gameId: GameId, userId: nat, readings: seq<int>,
                           enqueuedAt: int): Session
    requires gameId in s.store.cache ==> |readings| == |s.store.cache[gameId].questions|
  {
    var (store, tasks) := ReadyMessage(cfg, s.store, s.tasks, gameId, userId, readings, enqueuedAt);
    s.(store := store, tasks := tasks, clock := enqueuedAt)
  }

  ghost function AnswerStep(cfg: Config, s: Session, gameId: GameId, userId: nat, questionId: string, choice: string,
                            now: int): Session {
    s.(store := SaveAnswer(cfg, s.store, gameId, NewAnswer(gameId, questionId, userId, choice, now)).0,
       clock := now)
  }

  ghost function Apply(cfg: Config, s: Session, e: Event): Session
    requires Enabled(s, e)
  {
    match e
    case Create(game, newId) => CreateStep(s, game, newId)
    case Deliver(matchId, questions, updated, found) => DeliverStep(s, matchId, questions, updated, found)
    case ReadGame(gameId) => ReadGameStep(s, gameId)
    case Fill(index) => FillStep(s, index)
    case Initialise(gameId, number) => InitialiseStep(s, gameId, number)
    case ReadyUp(gameId, userId, readings, enqueuedAt) => ReadyStep(cfg, s, gameId, userId, readings, enqueuedAt)
    case Answer(gameId, userId, questionId, choice, now) => AnswerStep(cfg, s, gameId, userId, questionId, choice, now)
  }

  ghost predicate Valid(cfg: Config, s: Session, es: seq<Event>)
    decreases |es|
  {
    es == [] || (Enabled(s, es[0]) && Valid(cfg, Apply(cfg, s, es[0]), es[1..]))
  }

  ghost function Final(cfg: Config, s: Session, es: seq<Event>): Session
    requires Valid(cfg, s, es)
    decreases |es|
  {
    if es == [] then s else Final(cfg, Apply(cfg, s, es[0]), es[1..])
  }

  ghost predicate Reachable(cfg: Config, s: Session) {
    exists init, es :: Initial(init) && Valid(cfg, init, es) && s == Final(cfg, init, es)
  }

  // ------------------------------------------- documents, cache and delivery

  ghost predicate SameButDeadlines(x: seq<Question>, y: seq<Question>) {
    && |x| == |y|
    && (forall i :: 0 <= i < |x| ==> x[i].(validAnswerTime := ZERO_TIME) == y[i].(validAnswerTime := ZERO_TIME))
  }

  ghost predicate IdsApart(s: Session) {
    && (forall g :: g in s.store.games ==> IsGameId(g) && IsMatchId(s.store.games[g].matchId))
    && (forall g, h :: g in s.store.games && h in s.store.games ==>
          s.store.games[g].matchId == s.store.games[h].matchId ==> g == h)
  }

  ghost predicate Unset(questions: seq<Question>) {
    forall q :: q in questions ==> q.validAnswerTime == ZERO_TIME
  }

  ghost predicate DeliveredUnset(s: Session) {
    forall m :: m in s.delivered ==> IsMatchId(m) && |s.delivered[m]| <= QUESTION_LIMIT && Unset(s.delivered[m])
  }

  /** The document of a game has questions exactly when they were delivered, and then those, deadlines aside. */
  ghost predicate DocumentHolds(s: Session, g: GameId)
    requires g in s.store.games
  {
    var game := s.store.games[g];
    && (game.question.Some? <==> game.matchId in s.delivered)
    && (game.question.Some? ==> SameButDeadlines(game.question.value, s.delivered[game.matchId]))
  }

  /** A cache entry under a game id has the questions, up to deadlines, and the players of the document. */
  ghost predicate EntryAgrees(s: Session, g: GameId, entry: GameQuestions) {
    && g in s.store.games
    && s.store.games[g].question.Some?
    && SameButDeadlines(entry.questions, s.store.games[g].question.value)
    && entry.players == s.store.games[g].players
    && entry.currentQuestionIndex == 0
  }

  /** What is cached under k: nothing of interest, the questions of a match, or those of a game. */
  ghost predicate CacheAgrees(s: Session, k: string)
    requires k in s.store.cache
  {
    if k == NIL_ID then true
    else if IsMatchId(k) then
      && k in s.delivered && SameButDeadlines(s.store.cache[k].questions, s.delivered[k])
      && s.store.cache[k].players == [] && s.store.cache[k].currentQuestionIndex == 0
    else EntryAgrees(s, k, s.store.cache[k])
  }

  /** Delivered questions are in a document or wait in the cache for one. */
  ghost predicate NotLost(s: Session, m: string) {
    m in s.store.cache || exists g :: g in s.store.games && s.store.games[g].matchId == m
  }

  ghost predicate Coherent(s: Session) {
    && IdsApart(s)
    && DeliveredUnset(s)
    && (forall g :: g in s.store.games ==> DocumentHolds(s, g))
    && (forall k :: k in s.store.cache ==> CacheAgrees(s, k))
    && (forall m :: m in s.delivered ==> NotLost(s, m))
    && (forall f :: f in s.fills ==> EntryAgrees(s, f.0, f.1))
  }

  lemma CreateCoherent(s: Session, game: Game, newId: GameId)
    requires Coherent(s) && Enabled(s, Create(game, newId))
    ensures Coherent(CreateStep(s, game, newId))
  {
    var s' := CreateStep(s, game, newId);
    assert forall g, entry :: EntryAgrees(s, g, entry) ==> EntryAgrees(s', g, entry);
    forall g | g in s'.store.games
      ensures DocumentHolds(s', g)
    {
      if g == newId {
        assert game.matchId in s.delivered ==> NotLost(s, game.matchId);
        assert game.matchId in s.store.cache ==> CacheAgrees(s, game.matchId);
      } else {
        assert DocumentHolds(s, g);
      }
    }
    forall k | k in s'.store.cache
      ensures CacheAgrees(s', k)
    {
      assert CacheAgrees(s, k);
    }
    forall m | m in s'.delivered
      ensures NotLost(s', m)
    {
      assert NotLost(s, m);
      if m !in s.store.cache {
        var g :| g in s.store.games && s.store.games[g].matchId == m;
        assert g in s'.store.games && s'.store.games[g].matchId == m;
      }
    }
  }

  lemma DeliverEffect(s: Session, m: string, questions: seq<Question>, updated: Option<GameId>, found: Option<GameId>,
                      g: GameId)
    requires Coherent(s) && Enabled(s, Deliver(m, questions, updated, found))
    ensures var s' := DeliverStep(s, m, questions, updated, found);
      && (g in s'.store.games <==> g in s.store.games)
      && (g in s.store.games ==>
            s'.store.games[g] ==
              var game := s.store.games[g];
              if game.matchId == m then game.(question := Some(questions)) else game)
  {}

  lemma DeliverDocuments(s: Session, m: string, questions: seq<Question>, updated: Option<GameId>,
                         found: Option<GameId>)
    requires Coherent(s) && Enabled(s, Deliver(m, questions, updated, found))
    ensures var s' := DeliverStep(s, m, questions, updated, found);
      && (forall g :: g in s'.store.games ==> DocumentHolds(s', g))
      && (forall g, entry :: EntryAgrees(s, g, entry) ==> EntryAgrees(s', g, entry))
  {
    var s' := DeliverStep(s, m, questions, updated, found);
    forall g
      ensures g in s'.store.games ==> DocumentHolds(s', g)
      ensures forall entry :: EntryAgrees(s, g, entry) ==> EntryAgrees(s', g, entry)
    {
      DeliverEffect(s, m, questions, updated, found, g);
      if g in s.store.games {
        assert DocumentHolds(s, g);
      }
    }
  }

  lemma DeliverNotLost(s: Session, m: string, questions: seq<Question>, updated: Option<GameId>,
                       found: Option<GameId>, l: string)
    requires Coherent(s) && Enabled(s, Deliver(m, questions, updated, found))
    requires l in s.delivered || l == m
    ensures NotLost(DeliverStep(s, m, questions, updated, found), l)
  {
    var s' := DeliverStep(s, m, questions, updated, found);
    if l == m {
      if updated.Some? {
        DeliverEffect(s, m, questions, updated, found, updated.value);
      }
    } else {
      assert NotLost(s, l);
      if l !in s.store.cache {
        var g :| g in s.store.games && s.store.games[g].matchId == l;
        DeliverEffect(s, m, questions, updated, found, g);
      }
    }
  }

  lemma DeliverIds(s: Session, m: string, questions: seq<Question>, updated: Option<GameId>, found: Option<GameId>)
    requires Coherent(s) && Enabled(s, Deliver(m, questions, updated, found))
    ensures IdsApart(DeliverStep(s, m, questions, updated, found))
  {}

  lemma DeliverCoherent(s: Session, m: string, questions: seq<Question>, updated: Option<GameId>, found: Option<GameId>)
    requires Coherent(s) && Enabled(s, Deliver(m, questions, updated, found))
    ensures Coherent(DeliverStep(s, m, questions, updated, found))
  {
    var s' := DeliverStep(s, m, questions, updated, found);
    DeliverIds(s, m, questions, updated, found);
    DeliverDocuments(s, m, questions, updated, found);
    forall k | k in s'.store.cache
      ensures CacheAgrees(s', k)
    {
      if k in s.store.cache {
        assert CacheAgrees(s, k);
      }
      if found.Some? {
        DeliverEffect(s, m, questions, updated, found, found.value);
      }
    }
    forall l | l in s'.delivered
      ensures NotLost(s', l)
    {
      DeliverNotLost(s, m, questions, updated, found, l);
    }
  }

  /** The parts of a session the cache invariant speaks of. */
  ghost predicate SameLibrary(s: Session, s': Session) {
    && s'.store.games == s.store.games && s'.store.cache == s.store.cache
    && s'.delivered == s.delivered && s'.fills == s.fills
  }

  lemma SameLibraryCoherent(s: Session, s': Session)
    requires Coherent(s) && SameLibrary(s, s')
    ensures Coherent(s')
  {}

  lemma ReadGameCoherent(s: Session, g: GameId)
    requires Coherent(s) && Enabled(s, ReadGame(g))
    ensures Coherent(ReadGameStep(s, g))
  {}

  lemma FillCoherent(s: Session, index: nat)
    requires Coherent(s) && Enabled(s, Fill(index))
    ensures Coherent(FillStep(s, index))
  {}

  /** Restamping the entry under k. */
  lemma StampCoherent(s: Session, k: string, deadlines: seq<int>)
    requires Coherent(s) && k in s.store.cache && |deadlines| == |s.store.cache[k].questions|
    ensures var gq := s.store.cache[k];
      Coherent(s.(store := s.store.(cache := s.store.cache[k := gq.(questions := Stamped(gq.questions, deadlines))])))
  {
    var gq := s.store.cache[k];
    var entry := gq.(questions := Stamped(gq.questions, deadlines));
    var s' := s.(store := s.store.(cache := s.store.cache[k := entry]));
    StampedAgrees(gq.questions, deadlines);
    forall l | l in s'.store.cache
      ensures CacheAgrees(s', l)
    {
      assert CacheAgrees(s, l);
    }
    forall g | g in s.store.games
      ensures DocumentHolds(s', g)
    {
      assert DocumentHolds(s, g);
    }
  }

  lemma StampedAgrees(questions: seq<Question>, deadlines: seq<int>)
    requires |deadlines| == |questions|
    ensures forall other :: SameButDeadlines(questions, other) ==>
      SameButDeadlines(Stamped(questions, deadlines), other)
  {}

  lemma ReadyCoherent(cfg: Config, s: Session, k: GameId, userId: nat, readings: seq<int>, enqueuedAt: int)
    requires Coherent(s) && Enabled(s, ReadyUp(k, userId, readings, enqueuedAt))
    ensures Coherent(ReadyStep(cfg, s, k, userId, readings, enqueuedAt))
  {
    var s' := ReadyStep(cfg, s, k, userId, readings, enqueuedAt);
    if |s'.tasks| > |s.tasks| && k in s.store.cache {
      var deadlines := Deadlines(cfg.validAnswerTimeOut, readings);
      StampCoherent(s, k, deadlines);
      var gq := s.store.cache[k];
      SameLibraryCoherent(
        s.(store := s.store.(cache := s.store.cache[k := gq.(questions := Stamped(gq.questions, deadlines))])), s');
    } else {
      SameLibraryCoherent(s, s');
    }
  }

  lemma StepCoherent(cfg: Config, s: Session, e: Event)
    requires Coherent(s) && Enabled(s, e)
    ensures Coherent(Apply(cfg, s, e))
  {
    match e
    case Create(game, newId) => CreateCoherent(s, game, newId);
    case Deliver(m, questions, updated, found) => DeliverCoherent(s, m, questions, updated, found);
    case ReadGame(g) => ReadGameCoherent(s, g);
    case Fill(index) => FillCoherent(s, index);
    case Initialise(g, number) => SameLibraryCoherent(s, InitialiseStep(s, g, number));
    case ReadyUp(g, userId, readings, enqueuedAt) => ReadyCoherent(cfg, s, g, userId, readings, enqueuedAt);
    case Answer(g, userId, questionId, choice, now) =>
      SameLibraryCoherent(s, AnswerStep(cfg, s, g, userId, questionId, choice, now));
  }

  // -------------------------------------------------------------- the answers

  ghost predicate UniqueAnswers(answers: seq<PlayerAnswer>) {
    forall i, j :: 0 <= i < j < |answers| ==>
      !SameKey(answers[j], answers[i].gameId, answers[i].playerId, answers[i].questionId)
  }

  /** An answer as the processor sends it on: who answered what, when and how, and nothing else. */
  ghost predicate Bare(a: PlayerAnswer) {
    && a.correctChoice == "" && a.options == [] && a.category == "" && a.validTimeToAnswer == ZERO_TIME
    && a.timeDiff == 0 && a.point == 0
  }

  /**
   * The record carries the right answer, the choices and the category, the whole
   * seconds left and the score of its question; without a question, nothing.
   */
  ghost predicate GradedRight(cfg: Config, questions: seq<Question>, a: PlayerAnswer) {
    match FindQuestion(questions, a.questionId)
    case None => Bare(a)
    case Some(q) =>
      && a.correctChoice == q.correctAnswer && a.options == q.choices && a.category == q.category
      && a.timeDiff == WholeSeconds(Sub(a.validTimeToAnswer, a.answerTime))
      && a.point == CalculateScore(cfg, a.playerChoice == q.correctAnswer, a.answerTime, a.validTimeToAnswer)
  }

  ghost predicate RecordSound(cfg: Config, s: Session, a: PlayerAnswer) {
    if a.gameId in s.store.games then
      s.store.games[a.gameId].question.Some? && GradedRight(cfg, s.store.games[a.gameId].question.value, a)
    else a.gameId == NIL_ID || IsMatchId(a.gameId)
  }

  ghost predicate LogSound(cfg: Config, s: Session) {
    && UniqueAnswers(s.store.answers)
    && (forall a :: a in s.store.answers ==> RecordSound(cfg, s, a))
  }

  lemma {:induction false} FindAgrees(x: seq<Question>, y: seq<Question>, id: string)
    requires SameButDeadlines(x, y)
    ensures FindQuestion(x, id).Some? <==> FindQuestion(y, id).Some?
    ensures FindQuestion(x, id).Some? ==>
      var p, q := FindQuestion(x, id).value, FindQuestion(y, id).value;
      p.(validAnswerTime := ZERO_TIME) == q.(validAnswerTime := ZERO_TIME)
  {
    if x != [] {
      assert x[0].(validAnswerTime := ZERO_TIME).id == y[0].(validAnswerTime := ZERO_TIME).id;
      FindAgrees(x[1..], y[1..], id);
    }
  }

  lemma GradedAgrees(cfg: Config, x: seq<Question>, y: seq<Question>, a: PlayerAnswer)
    requires SameButDeadlines(x, y) && GradedRight(cfg, x, a)
    ensures GradedRight(cfg, y, a)
  {
    FindAgrees(x, y, a.questionId);
    if FindQuestion(x, a.questionId).Some? {
      var p, q := FindQuestion(x, a.questionId).value, FindQuestion(y, a.questionId).value;
      assert p == p.(validAnswerTime := ZERO_TIME).(validAnswerTime := p.validAnswerTime);
      assert q.(validAnswerTime := p.validAnswerTime) == p;
    }
  }

  /** Steps that leave answers alone and change documents in the deadlines of their questions at most. */
  lemma SameAnswersSound(cfg: Config, s: Session, s': Session)
    requires LogSound(cfg, s) && s'.store.answers == s.store.answers
    requires forall g :: g in s.store.games && s.store.games[g].question.Some? ==>
      g in s'.store.games && s'.store.games[g].question.Some?
      && SameButDeadlines(s.store.games[g].question.value, s'.store.games[g].question.value)
    requires forall g :: g in s'.store.games && g !in s.store.games ==> IsGameId(g)
    ensures LogSound(cfg, s')
  {
    forall a | a in s'.store.answers
      ensures RecordSound(cfg, s', a)
    {
      assert RecordSound(cfg, s, a);
      if a.gameId in s.store.games {
        GradedAgrees(cfg, s.store.games[a.gameId].question.value, s'.store.games[a.gameId].question.value, a);
      }
    }
  }

  lemma DeliverSound(cfg: Config, s: Session, m: string, questions: seq<Question>, updated: Option<GameId>,
                     found: Option<GameId>)
    requires Coherent(s) && LogSound(cfg, s) && Enabled(s, Deliver(m, questions, updated, found))
    ensures LogSound(cfg, DeliverStep(s, m, questions, updated, found))
  {
    var s' := DeliverStep(s, m, questions, updated, found);
    forall g
      ensures g in s.store.games && s.store.games[g].question.Some? ==>
        g in s'.store.games && s'.store.games[g].question.Some?
        && SameButDeadlines(s.store.games[g].question.value, s'.store.games[g].question.value)
      ensures g in s'.store.games ==> g in s.store.games
    {
      DeliverEffect(s, m, questions, updated, found, g);
      if g in s.store.games {
        assert DocumentHolds(s, g);
      }
    }
    SameAnswersSound(cfg, s, s');
  }

  lemma GradingIsRight(cfg: Config, questions: seq<Question>, a: PlayerAnswer)
    requires Bare(a)
    ensures GradedRight(cfg, questions, GradedAgainst(cfg, questions, a))
  {}

  /** What is graded from the cache entry of g is sound against the document. */
  lemma NewRecordSound(cfg: Config, s: Session, g: GameId, a: PlayerAnswer)
    requires Coherent(s) && g in s.store.cache
    requires a.gameId == g && Bare(a)
    ensures RecordSound(cfg, s, GradedAgainst(cfg, s.store.cache[g].questions, a))
  {
    var questions := s.store.cache[g].questions;
    GradingIsRight(cfg, questions, a);
    assert CacheAgrees(s, g);
    if EntryAgrees(s, g, s.store.cache[g]) {
      GradedAgrees(cfg, questions, s.store.games[g].question.value, GradedAgainst(cfg, questions, a));
    }
  }

  lemma OneMoreUnique(answers: seq<PlayerAnswer>, record: PlayerAnswer)
    requires UniqueAnswers(answers) && !HasAnswer(answers, record.gameId, record.playerId, record.questionId)
    ensures UniqueAnswers(answers + [record])
  {
    forall i | 0 <= i < |answers|
      ensures !SameKey(record, answers[i].gameId, answers[i].playerId, answers[i].questionId)
    {
      assert answers[i] in answers;
    }
  }

  lemma OneMoreSound(cfg: Config, s: Session, s': Session, record: PlayerAnswer)
    requires LogSound(cfg, s) && s'.store.games == s.store.games
    requires s'.store.answers == s.store.answers + [record]
    requires RecordSound(cfg, s, record)
    requires !HasAnswer(s.store.answers, record.gameId, record.playerId, record.questionId)
    ensures LogSound(cfg, s')
  {
    OneMoreUnique(s.store.answers, record);
    forall b | b in s'.store.answers
      ensures RecordSound(cfg, s', b)
    {
      assert b == record || b in s.store.answers;
      assert RecordSound(cfg, s, b);
    }
  }

  lemma AnswerSound(cfg: Config, s: Session, g: GameId, userId: nat, questionId: string, choice: string, now: int)
    requires Coherent(s) && LogSound(cfg, s)
    ensures LogSound(cfg, AnswerStep(cfg, s, g, userId, questionId, choice, now))
  {
    var s' := AnswerStep(cfg, s, g, userId, questionId, choice, now);
    var a := NewAnswer(g, questionId, userId, choice, now);
    if SaveAnswer(cfg, s.store, g, a).1 == Accepted {
      NewRecordSound(cfg, s, g, a);
      OneMoreSound(cfg, s, s', GradedAgainst(cfg, s.store.cache[g].questions, a));
    } else {
      SameAnswersSound(cfg, s, s');
    }
  }

  lemma StepSound(cfg: Config, s: Session, e: Event)
    requires Coherent(s) && LogSound(cfg, s) && Enabled(s, e)
    ensures LogSound(cfg, Apply(cfg, s, e))
  {
    match e
    case Create(game, newId) => SameAnswersSound(cfg, s, CreateStep(s, game, newId));
    case Deliver(m, questions, updated, found) => DeliverSound(cfg, s, m, questions, updated, found);
    case ReadGame(g) => SameAnswersSound(cfg, s, ReadGameStep(s, g));
    case Fill(index) => SameAnswersSound(cfg, s, FillStep(s, index));
    case Initialise(g, number) => SameAnswersSound(cfg, s, InitialiseStep(s, g, number));
    case ReadyUp(g, userId, readings, enqueuedAt) =>
      SameAnswersSound(cfg, s, ReadyStep(cfg, s, g, userId, readings, enqueuedAt));
    case Answer(g, userId, questionId, choice, now) => AnswerSound(cfg, s, g, userId, questionId, choice, now);
  }

  // ----------------------------------------------------- tasks and deadlines

  /**
   * The deadlines of these questions come from one start: its clock readings
   * did not go back, and its completion, enqueued under key after them, is among
   * the tasks.
   */
  ghost predicate FromStart(timeOut: int, tasks: seq<Task>, key: string, questions: seq<Question>,
                            readings: seq<int>, enqueuedAt: int) {
    && |readings| == |questions| && Nondecreasing(readings)
    && (readings != [] ==> readings[|readings| - 1] <= enqueuedAt)
    && (forall i :: 0 <= i < |questions| ==> questions[i].validAnswerTime == Deadlines(timeOut, readings)[i])
    && Task(key, enqueuedAt + DelaySum(timeOut, |readings|)) in tasks
  }

  ghost predicate Started(timeOut: int, tasks: seq<Task>, key: string, questions: seq<Question>) {
    exists readings, enqueuedAt :: FromStart(timeOut, tasks, key, questions, readings, enqueuedAt)
  }

  /** No deadlines yet, or those of one start under key. */
  ghost predicate Timed(timeOut: int, tasks: seq<Task>, key: string, questions: seq<Question>) {
    Unset(questions) || Started(timeOut, tasks, key, questions)
  }

  ghost predicate DocumentTimed(timeOut: int, s: Session, g: GameId)
    requires g in s.store.games
  {
    var game := s.store.games[g];
    game.question.Some? ==> Timed(timeOut, s.tasks, game.matchId, game.question.value)
  }

  ghost predicate EntryTimed(timeOut: int, s: Session, k: string, questions: seq<Question>) {
    && (IsMatchId(k) ==> Timed(timeOut, s.tasks, k, questions))
    && (k in s.store.games ==>
          Timed(timeOut, s.tasks, s.store.games[k].matchId, questions) || Started(timeOut, s.tasks, k, questions))
  }

  /** All deadlines stem from starts, those in the cache of a game from starts under its id or its match id. */
  ghost predicate AllTimed(timeOut: int, s: Session) {
    && (forall g :: g in s.store.games ==> DocumentTimed(timeOut, s, g))
    && (forall k :: k in s.store.cache ==> EntryTimed(timeOut, s, k, s.store.cache[k].questions))
    && (forall f :: f in s.fills ==>
          f.0 in s.store.games && Timed(timeOut, s.tasks, s.store.games[f.0].matchId, f.1.questions))
  }

  lemma CreateTimed(timeOut: int, s: Session, game: Game, newId: GameId)
    requires Coherent(s) && AllTimed(timeOut, s) && Enabled(s, Create(game, newId))
    ensures AllTimed(timeOut, CreateStep(s, game, newId))
  {
    var s' := CreateStep(s, game, newId);
    assert newId in s.store.cache ==> CacheAgrees(s, newId);
    forall g | g in s'.store.games
      ensures DocumentTimed(timeOut, s', g)
    {
      if g == newId {
        var m := game.matchId;
        assert m in s.store.cache ==> EntryTimed(timeOut, s, m, s.store.cache[m].questions);
      } else {
        assert DocumentTimed(timeOut, s, g);
      }
    }
    forall k | k in s'.store.cache
      ensures EntryTimed(timeOut, s', k, s'.store.cache[k].questions)
    {
      assert EntryTimed(timeOut, s, k, s.store.cache[k].questions);
    }
  }

  lemma DeliverTimed(timeOut: int, s: Session, m: string, questions: seq<Question>, updated: Option<GameId>,
                     found: Option<GameId>)
    requires Coherent(s) && AllTimed(timeOut, s) && Enabled(s, Deliver(m, questions, updated, found))
    ensures AllTimed(timeOut, DeliverStep(s, m, questions, updated, found))
  {
    var s' := DeliverStep(s, m, questions, updated, found);
    forall g
      ensures g in s'.store.games ==>
        g in s.store.games && s'.store.games[g].matchId == s.store.games[g].matchId && DocumentTimed(timeOut, s', g)
      ensures g in s.store.games ==> g in s'.store.games
    {
      DeliverEffect(s, m, questions, updated, found, g);
      assert g in s.store.games ==> DocumentTimed(timeOut, s, g);
    }
    forall k | k in s'.store.cache
      ensures EntryTimed(timeOut, s', k, s'.store.cache[k].questions)
    {
      assert k in s.store.cache ==> EntryTimed(timeOut, s, k, s.store.cache[k].questions);
    }
  }

  lemma ReadGameTimed(timeOut: int, s: Session, g: GameId)
    requires AllTimed(timeOut, s) && Enabled(s, ReadGame(g))
    ensures AllTimed(timeOut, ReadGameStep(s, g))
  {
    var s' := ReadGameStep(s, g);
    assert DocumentTimed(timeOut, s, g);
    assert forall k, questions :: EntryTimed(timeOut, s, k, questions) ==> EntryTimed(timeOut, s', k, questions);
    assert forall h :: h in s.store.games && DocumentTimed(timeOut, s, h) ==> DocumentTimed(timeOut, s', h);
  }

  lemma FillTimed(timeOut: int, s: Session, index: nat)
    requires Coherent(s) && AllTimed(timeOut, s) && Enabled(s, Fill(index))
    ensures AllTimed(timeOut, FillStep(s, index))
  {
    var s' := FillStep(s, index);
    assert s.fills[index] in s.fills;
    assert forall k, questions :: EntryTimed(timeOut, s, k, questions) ==> EntryTimed(timeOut, s', k, questions);
    assert forall h :: h in s.store.games && DocumentTimed(timeOut, s, h) ==> DocumentTimed(timeOut, s', h);
  }

  lemma MoreTasks(timeOut: int, tasks: seq<Task>, task: Task, key: string, questions: seq<Question>)
    requires Timed(timeOut, tasks, key, questions)
    ensures Timed(timeOut, tasks + [task], key, questions)
    ensures Started(timeOut, tasks, key, questions) ==> Started(timeOut, tasks + [task], key, questions)
  {
    if readings, enqueuedAt :| FromStart(timeOut, tasks, key, questions, readings, enqueuedAt) {
      assert FromStart(timeOut, tasks + [task], key, questions, readings, enqueuedAt);
    }
  }

  /** What a start makes of the cached questions. */
  lemma StampStarts(timeOut: int, tasks: seq<Task>, key: string, questions: seq<Question>, readings: seq<int>,
                    enqueuedAt: int)
    requires |readings| == |questions| && Nondecreasing(readings)
    requires readings != [] ==> readings[|readings| - 1] <= enqueuedAt
    ensures Started(timeOut, tasks + [Task(key, enqueuedAt + DelaySum(timeOut, |readings|))], key,
                    Stamped(questions, Deadlines(timeOut, readings)))
  {
    assert FromStart(timeOut, tasks + [Task(key, enqueuedAt + DelaySum(timeOut, |readings|))], key,
                     Stamped(questions, Deadlines(timeOut, readings)), readings, enqueuedAt);
  }

  lemma SameLibraryTimed(timeOut: int, s: Session, s': Session)
    requires AllTimed(timeOut, s) && SameLibrary(s, s') && s'.tasks == s.tasks
    ensures AllTimed(timeOut, s')
  {
    assert forall k, questions :: EntryTimed(timeOut, s, k, questions) ==> EntryTimed(timeOut, s', k, questions);
    assert forall h :: h in s.store.games && DocumentTimed(timeOut, s, h) ==> DocumentTimed(timeOut, s', h);
  }

  lemma OneTaskTimed(timeOut: int, s: Session, s': Session, task: Task)
    requires AllTimed(timeOut, s) && SameLibrary(s, s') && s'.tasks == s.tasks + [task]
    ensures AllTimed(timeOut, s')
  {
    forall key, questions | Timed(timeOut, s.tasks, key, questions)
      ensures Timed(timeOut, s'.tasks, key, questions)
      ensures Started(timeOut, s.tasks, key, questions) ==> Started(timeOut, s'.tasks, key, questions)
    {
      MoreTasks(timeOut, s.tasks, task, key, questions);
    }
    forall g | g in s.store.games
      ensures DocumentTimed(timeOut, s', g)
    {
      assert DocumentTimed(timeOut, s, g);
    }
    forall k | k in s.store.cache
      ensures EntryTimed(timeOut, s', k, s.store.cache[k].questions)
    {
      assert EntryTimed(timeOut, s, k, s.store.cache[k].questions);
    }
  }

  lemma StampTimed(timeOut: int, s: Session, s': Session, k: string, entry: GameQuestions)
    requires AllTimed(timeOut, s) && Started(timeOut, s.tasks, k, entry.questions)
    requires s'.store.games == s.store.games && s'.store.cache == s.store.cache[k := entry]
    requires s'.tasks == s.tasks && s'.fills == s.fills
    ensures AllTimed(timeOut, s')
  {
    forall g | g in s.store.games
      ensures DocumentTimed(timeOut, s', g)
    {
      assert DocumentTimed(timeOut, s, g);
    }
    forall l | l in s'.store.cache
      ensures EntryTimed(timeOut, s', l, s'.store.cache[l].questions)
    {
      assert l in s.store.cache ==> EntryTimed(timeOut, s, l, s.store.cache[l].questions);
    }
  }

  lemma ReadyTimed(cfg: Config, s: Session, k: GameId, userId: nat, readings: seq<int>, enqueuedAt: int)
    requires AllTimed(cfg.validAnswerTimeOut, s) && Enabled(s, ReadyUp(k, userId, readings, enqueuedAt))
    ensures AllTimed(cfg.validAnswerTimeOut, ReadyStep(cfg, s, k, userId, readings, enqueuedAt))
  {
    var timeOut, s' := cfg.validAnswerTimeOut, ReadyStep(cfg, s, k, userId, readings, enqueuedAt);
    if |s'.tasks| == |s.tasks| {
      SameLibraryTimed(timeOut, s, s');
    } else {
      var s1 := s.(tasks := s'.tasks);
      OneTaskTimed(timeOut, s, s1, s'.tasks[|s.tasks|]);
      if k in s.store.cache {
        StampStarts(timeOut, s.tasks, k, s.store.cache[k].questions, readings, enqueuedAt);
        StampTimed(timeOut, s1, s', k, s'.store.cache[k]);
      } else {
        SameLibraryTimed(timeOut, s1, s');
      }
    }
  }

  lemma StepTimed(cfg: Config, s: Session, e: Event)
    requires Coherent(s) && AllTimed(cfg.validAnswerTimeOut, s) && Enabled(s, e)
    ensures AllTimed(cfg.validAnswerTimeOut, Apply(cfg, s, e))
  {
    var timeOut := cfg.validAnswerTimeOut;
    match e
    case Create(game, newId) => CreateTimed(timeOut, s, game, newId);
    case Deliver(m, questions, updated, found) => DeliverTimed(timeOut, s, m, questions, updated, found);
    case ReadGame(g) => ReadGameTimed(timeOut, s, g);
    case Fill(index) => FillTimed(timeOut, s, index);
    case Initialise(g, number) => SameLibraryTimed(timeOut, s, InitialiseStep(s, g, number));
    case ReadyUp(g, userId, readings, enqueuedAt) => ReadyTimed(cfg, s, g, userId, readings, enqueuedAt);
    case Answer(g, userId, questionId, choice, now) =>
      SameLibraryTimed(timeOut, s, AnswerStep(cfg, s, g, userId, questionId, choice, now));
  }

  // ------------------------------------------------------------- over all runs

  lemma {:induction false} RunSound(cfg: Config, s: Session, es: seq<Event>)
    requires Valid(cfg, s, es) && Coherent(s) && LogSound(cfg, s) && AllTimed(cfg.validAnswerTimeOut, s)
    ensures var later := Final(cfg, s, es);
      Coherent(later) && LogSound(cfg, later) && AllTimed(cfg.validAnswerTimeOut, later)
    decreases |es|
  {
    if es != [] {
      StepCoherent(cfg, s, es[0]);
      StepSound(cfg, s, es[0]);
      StepTimed(cfg, s, es[0]);
      RunSound(cfg, Apply(cfg, s, es[0]), es[1..]);
    }
  }

  lemma ReachableSound(cfg: Config, s: Session)
    requires Reachable(cfg, s)
    ensures Coherent(s) && LogSound(cfg, s) && AllTimed(cfg.validAnswerTimeOut, s)
  {
    var init, es :| Initial(init) && Valid(cfg, init, es) && s == Final(cfg, init, es);
    RunSound(cfg, init, es);
  }

  // -------------------------------------------------- what no step takes away

  /**
   * Games with their players and match, cache entries, delivered questions, tasks
   * and answers stay; the clock advances.
   */
  ghost predicate Grows(s: Session, s': Session) {
    && (forall g :: g in s.store.games ==>
          && g in s'.store.games
          && s'.store.games[g].players == s.store.games[g].players
          && s'.store.games[g].matchId == s.store.games[g].matchId)
    && (forall k :: k in s.store.cache ==> k in s'.store.cache)
    && (forall m :: m in s.delivered ==> m in s'.delivered && s'.delivered[m] == s.delivered[m])
    && s.tasks <= s'.tasks
    && s.store.answers <= s'.store.answers
    && s.clock <= s'.clock
  }

  lemma DeliverGrows(s: Session, m: string, questions: seq<Question>, updated: Option<GameId>, found: Option<GameId>)
    requires Enabled(s, Deliver(m, questions, updated, found))
    ensures Grows(s, DeliverStep(s, m, questions, updated, found))
  {}

  lemma ReadyGrows(cfg: Config, s: Session, g: GameId, userId: nat, readings: seq<int>, enqueuedAt: int)
    requires Enabled(s, ReadyUp(g, userId, readings, enqueuedAt))
    ensures Grows(s, ReadyStep(cfg, s, g, userId, readings, enqueuedAt))
  {}

  lemma AnswerGrows(cfg: Config, s: Session, g: GameId, userId: nat, questionId: string, choice: string, now: int)
    requires s.clock <= now
    ensures Grows(s, AnswerStep(cfg, s, g, userId, questionId, choice, now))
  {}

  lemma StepGrows(cfg: Config, s: Session, e: Event)
    requires Enabled(s, e)
    ensures Grows(s, Apply(cfg, s, e))
  {
    match e
    case Create(_, _) =>
    case Deliver(m, questions, updated, found) => DeliverGrows(s, m, questions, updated, found);
    case ReadGame(_) =>
    case Fill(_) =>
    case Initialise(_, _) =>
    case ReadyUp(g, userId, readings, enqueuedAt) => ReadyGrows(cfg, s, g, userId, readings, enqueuedAt);
    case Answer(g, userId, questionId, choice, now) => AnswerGrows(cfg, s, g, userId, questionId, choice, now);
  }

  lemma {:induction false} RunGrows(cfg: Config, s: Session, es: seq<Event>)
    requires Valid(cfg, s, es)
    ensures Grows(s, Final(cfg, s, es))
    decreases |es|
  {
    if es != [] {
      StepGrows(cfg, s, es[0]);
      RunGrows(cfg, Apply(cfg, s, es[0]), es[1..]);
    }
  }

  // ------------------------------------------------------------ runs in parts

  ghost predicate Later(cfg: Config, s: Session, s': Session) {
    exists es :: Valid(cfg, s, es) && s' == Final(cfg, s, es)
  }

  lemma {:induction false} OneStepMore(cfg: Config, s: Session, es: seq<Event>, e: Event)
    requires Valid(cfg, s, es) && Enabled(Final(cfg, s, es), e)
    ensures Valid(cfg, s, es + [e]) && Final(cfg, s, es + [e]) == Apply(cfg, Final(cfg, s, es), e)
    decreases |es|
  {
    var all := es + [e];
    if es == [] {
      assert all[0] == e && all[1..] == [];
    } else {
      OneStepMore(cfg, Apply(cfg, s, es[0]), es[1..], e);
      assert all[0] == es[0] && all[1..] == es[1..] + [e];
    }
  }

  lemma ReachableStep(cfg: Config, s: Session, e: Event)
    requires Reachable(cfg, s) && Enabled(s, e)
    ensures Reachable(cfg, Apply(cfg, s, e))
  {
    var init, es :| Initial(init) && Valid(cfg, init, es) && s == Final(cfg, init, es);
    OneStepMore(cfg, init, es, e);
  }

  lemma {:induction false} ReachableRun(cfg: Config, s: Session, es: seq<Event>)
    requires Reachable(cfg, s) && Valid(cfg, s, es)
    ensures Reachable(cfg, Final(cfg, s, es))
    decreases |es|
  {
    if es != [] {
      ReachableStep(cfg, s, es[0]);
      ReachableRun(cfg, Apply(cfg, s, es[0]), es[1..]);
    }
  }

  lemma ReachableLater(cfg: Config, s: Session, s': Session)
    requires Reachable(cfg, s) && Later(cfg, s, s')
    ensures Reachable(cfg, s')
  {
    var es :| Valid(cfg, s, es) && s' == Final(cfg, s, es);
    ReachableRun(cfg, s, es);
  }

  lemma StepIsLater(cfg: Config, s: Session, e: Event)
    requires Enabled(s, e)
    ensures Later(cfg, s, Apply(cfg, s, e))
  {
    var es := [e];
    assert es[1..] == [];
    assert Valid(cfg, s, es) && Final(cfg, s, es) == Apply(cfg, s, e);
  }
}
