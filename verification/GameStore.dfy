/**
 * What the game service keeps: the game documents and answers in MongoDB, the
 * question cache and ready lists in Redis, and how each repository call
 * changes them.
 */
module GameStore {
  import opened Catalogue
  import opened Decimals
  import opened GoRuntime
  import opened Scoring

  datatype Option<T> = None | Some(value: T)

  datatype Question = Question(
    id: string,
    content: string,
    correctAnswer: string,
    status: string,
    choices: seq<string>,
    category: Category,
    validAnswerTime: int,
    difficulty: Difficulty)

  datatype GameQuestions = GameQuestions(questions: seq<Question>, players: seq<nat>, currentQuestionIndex: int)

  datatype Game = Game(
    players: seq<nat>,
    matchId: string,
    category: seq<Category>,
    question: Option<seq<Question>>)

  datatype ReadyStatus = ReadyStatus(expectedNumberOfPlayers: int, players: seq<int>)

  datatype PlayerAnswer = PlayerAnswer(
    gameId: string,
    questionId: string,
    playerId: string,
    playerChoice: string,
    correctChoice: string,
    answerTime: int,
    validTimeToAnswer: int,
    timeDiff: int,
    options: seq<string>,
    point: int,
    category: Category)

  /** What FindOne leaves in its target when nothing matches. */
  const NO_ANSWER: PlayerAnswer := PlayerAnswer("", "", "", "", "", ZERO_TIME, ZERO_TIME, 0, [], 0, "")

  type GameId = string

  /** primitive.ObjectID{}.Hex(), the id a lookup that found nothing leaves behind. */
  const NIL_ID: GameId := "000000000000000000000000"

  /** cache holds the entries under QuestionsPrefix, keyed by game ids and by match ids alike. */
  datatype Store = Store(
    games: map<GameId, Game>,
    cache: map<string, GameQuestions>,
    ready: map<GameId, ReadyStatus>,
    answers: seq<PlayerAnswer>)

  // --------------------------------------------------- games and their cache

  /** A new game takes the questions cached under its match id, if they came first. */
  function CreateGame(st: Store, game: Game, newId: GameId): Store {
    var question := if game.matchId in st.cache then Some(st.cache[game.matchId].questions) else game.question;
    st.(games := st.games[newId := game.(question := question)])
  }

  /** The document Mongo may pick for a match id: any that carries it, none only when there is none. */
  predicate Picks(st: Store, matchId: string, pick: Option<GameId>) {
    match pick
    case Some(g) => g in st.games && st.games[g].matchId == matchId
    case None => forall g :: g in st.games ==> st.games[g].matchId != matchId
  }

  function WithQuestions(st: Store, updated: Option<GameId>, questions: seq<Question>): Store
    requires updated.Some? ==> updated.value in st.games
  {
    match updated
    case Some(g) => st.(games := st.games[g := st.games[g].(question := Some(questions))])
    case None => st
  }

  /**
   * The questions of a match arrive: into the document that UpdateOne picks, or
   * into the cache under the match id when there is none; then into the cache
   * under the id of the document FindOne picks, or the nil id.
   */
  function SaveQuestions(st: Store, matchId: string, questions: seq<Question>,
                         updated: Option<GameId>, found: Option<GameId>): Store
    requires Picks(st, matchId, updated) && Picks(st, matchId, found)
  {
    var st1 := WithQuestions(st, updated, questions);
    var cache1 := if updated.None? then st1.cache[matchId := GameQuestions(questions, [], 0)] else st1.cache;
    var key, players :=
      match found { case Some(g) => g case None => NIL_ID },
      match found { case Some(g) => st1.games[g].players case None => [] };
    st1.(cache := cache1[key := GameQuestions(questions, players, 0)])
  }

  /** The cache entry GetGame writes in the background. */
  function EntryOf(game: Game): GameQuestions
    requires game.question.Some?
  {
    GameQuestions(game.question.value, game.players, 0)
  }

  function PutEntry(st: Store, gameId: GameId, entry: GameQuestions): Store {
    st.(cache := st.cache[gameId := entry])
  }

  // --------------------------------------------------------- the ready list

  datatype ReadyOutcome = Ready(ready: bool) | AlreadyReady | NilPlayer

  /**
   * The first call for a game stores the expected number and no player; later
   * calls add a player until the list is full.  NilPlayer is the nil pointer
   * that a second initialisation dereferences once a player is listed.
   */
  function UpsertReady(ready: map<GameId, ReadyStatus>, gameId: GameId, playerId: Option<int>, number: Option<int>)
    : (map<GameId, ReadyStatus>, ReadyOutcome)
  {
    if gameId !in ready then
      (ready[gameId := ReadyStatus(match number { case Some(n) => n case None => 2 }, [])], Ready(false))
    else
      var gs := ready[gameId];
      if gs.expectedNumberOfPlayers - |gs.players| == 0 then (ready, Ready(true))
      else if playerId.None? then
        if gs.players != [] then (ready, NilPlayer)
        else (ready, Ready(|gs.players| == gs.expectedNumberOfPlayers))
      else if playerId.value in gs.players then (ready, AlreadyReady)
      else
        var players := gs.players + [playerId.value];
        (ready[gameId := gs.(players := players)], Ready(|players| == gs.expectedNumberOfPlayers))
  }

  // ----------------------------------------------------------------- stamping

  function Stamped(questions: seq<Question>, deadlines: seq<int>): seq<Question>
    requires |deadlines| == |questions|
  {
    seq(|questions|, i requires 0 <= i < |questions| => questions[i].(validAnswerTime := deadlines[i]))
  }

  function Stamp(timeOut: int, st: Store, gameId: GameId, clock: seq<int>): Store
    requires gameId in st.cache ==> |clock| == |st.cache[gameId].questions|
  {
    if gameId !in st.cache then st else
      var gq := st.cache[gameId];
      st.(cache := st.cache[gameId := gq.(questions := Stamped(gq.questions, Deadlines(timeOut, clock)))])
  }

  // ------------------------------------------------------------------ answers

  datatype AnswerOutcome = Accepted | NoQuestions | Early | Duplicate

  /** The first question with the id asked for. */
  function FindQuestion(questions: seq<Question>, id: string): (r: Option<Question>)
    ensures r.Some? ==> r.value in questions && r.value.id == id
    ensures r.None? ==> forall q :: q in questions ==> q.id != id
  {
    if questions == [] then None
    else if questions[0].id == id then Some(questions[0])
    else FindQuestion(questions[1..], id)
  }

  /** time.Duration(d.Seconds()): the number of whole seconds, read as nanoseconds. */
  function WholeSeconds(d: int): int { Quo(d, SECOND) }

  function Graded(cfg: Config, q: Question, a: PlayerAnswer): PlayerAnswer {
    a.(correctChoice := q.correctAnswer,
       options := q.choices,
       category := q.category,
       validTimeToAnswer := q.validAnswerTime,
       timeDiff := WholeSeconds(Sub(q.validAnswerTime, a.answerTime)),
       point := CalculateScore(cfg, a.playerChoice == q.correctAnswer, a.answerTime, q.validAnswerTime))
  }

  /** An answer to a question that is not in the list is recorded as it came. */
  function GradedAgainst(cfg: Config, questions: seq<Question>, a: PlayerAnswer): PlayerAnswer {
    match FindQuestion(questions, a.questionId)
    case Some(q) => Graded(cfg, q, a)
    case None => a
  }

  /** questions[i] is the question an answer to id is held against: the first with that id. */
  predicate FirstWithId(questions: seq<Question>, id: string, i: nat) {
    i < |questions| && questions[i].id == id && forall j :: 0 <= j < i ==> questions[j].id != id
  }

  lemma {:induction false} FindsFirst(questions: seq<Question>, id: string)
    ensures FindQuestion(questions, id).Some? <==> exists i: nat :: FirstWithId(questions, id, i)
    ensures forall i: nat :: FirstWithId(questions, id, i) ==> FindQuestion(questions, id) == Some(questions[i])
  {
    if questions != [] {
      if questions[0].id == id {
        assert FirstWithId(questions, id, 0);
      } else {
        FindsFirst(questions[1..], id);
        forall i: nat | FirstWithId(questions, id, i)
          ensures FindQuestion(questions, id) == Some(questions[i])
        {
          assert FirstWithId(questions[1..], id, i - 1);
        }
        if i: nat :| FirstWithId(questions[1..], id, i) {
          assert FirstWithId(questions, id, i + 1);
        }
      }
    }
  }

  /** n is the number of whole seconds from t to the deadline, negative after it; Go holds a difference to int64. */
  ghost predicate IsWholeSeconds(t: int, deadline: int, n: int) {
    var d := if deadline - t > 9_223_372_036_854_775_807 then 9_223_372_036_854_775_807
             else if deadline - t < -9_223_372_036_854_775_808 then -9_223_372_036_854_775_808
             else deadline - t;
    if d >= 0 then 1_000_000_000 * n <= d < 1_000_000_000 * n + 1_000_000_000
    else 1_000_000_000 * n - 1_000_000_000 < d <= 1_000_000_000 * n
  }

  /**
   * r is the record of an answer a: as it was sent, and graded by the first
   * question of its id, if there is one.
   */
  ghost predicate IsRecord(cfg: Config, questions: seq<Question>, a: PlayerAnswer, r: PlayerAnswer) {
    && SameKey(r, a.gameId, a.playerId, a.questionId)
    && r.playerChoice == a.playerChoice && r.answerTime == a.answerTime
    && (forall i: nat :: FirstWithId(questions, a.questionId, i) ==>
          var q := questions[i];
          && r.correctChoice == q.correctAnswer && r.options == q.choices && r.category == q.category
          && r.validTimeToAnswer == q.validAnswerTime
          && IsWholeSeconds(a.answerTime, q.validAnswerTime, r.timeDiff)
          && IsScore(cfg, a.playerChoice == q.correctAnswer, a.answerTime, q.validAnswerTime, r.point))
    && ((forall q :: q in questions ==> q.id != a.questionId) ==> r == a)
  }

  lemma WholeSecondsExactly(t: int, deadline: int)
    ensures IsWholeSeconds(t, deadline, WholeSeconds(Sub(deadline, t)))
  {
    QuoTruncates(Sub(deadline, t), SECOND);
    QuoTruncates(-Sub(deadline, t), SECOND);
  }

  lemma GradedIsRecord(cfg: Config, questions: seq<Question>, a: PlayerAnswer)
    requires ScoresSound(cfg)
    ensures IsRecord(cfg, questions, a, GradedAgainst(cfg, questions, a))
  {
    FindsFirst(questions, a.questionId);
    forall i: nat | FirstWithId(questions, a.questionId, i)
      ensures var q := questions[i];
        IsWholeSeconds(a.answerTime, q.validAnswerTime, WholeSeconds(Sub(q.validAnswerTime, a.answerTime)))
      ensures var q := questions[i];
              var isRight := a.playerChoice == q.correctAnswer;
        IsScore(cfg, isRight, a.answerTime, q.validAnswerTime,
                CalculateScore(cfg, isRight, a.answerTime, q.validAnswerTime))
    {
      var q := questions[i];
      WholeSecondsExactly(a.answerTime, q.validAnswerTime);
      ScoreExactly(cfg, a.playerChoice == q.correctAnswer, a.answerTime, q.validAnswerTime);
    }
  }

  predicate AnsweredEarly(cfg: Config, questions: seq<Question>, a: PlayerAnswer) {
    match FindQuestion(questions, a.questionId)
    case Some(q) => TooEarly(cfg.validAnswerTimeOut, q.validAnswerTime, a.answerTime)
    case None => false
  }

  predicate SameKey(b: PlayerAnswer, gameId: string, playerId: string, questionId: string) {
    b.gameId == gameId && b.playerId == playerId && b.questionId == questionId
  }

  predicate HasAnswer(answers: seq<PlayerAnswer>, gameId: string, playerId: string, questionId: string) {
    exists b :: b in answers && SameKey(b, gameId, playerId, questionId)
  }

  /**
   * The duplicate check compares the looked-up record, or an empty one, with
   * the answer; an answer whose game, player and question ids are all empty
   * therefore counts as a duplicate even on an empty log.
   */
  predicate IsDuplicate(answers: seq<PlayerAnswer>, gameId: string, a: PlayerAnswer) {
    if HasAnswer(answers, gameId, a.playerId, a.questionId) then a.gameId == gameId
    else a.playerId == "" && a.gameId == "" && a.questionId == ""
  }

  /** What looking up the record of a player's answer leaves: one that is stored, or an empty one if there is none. */
  ghost predicate LookedUp(answers: seq<PlayerAnswer>, gameId: string, playerId: string, questionId: string,
                           found: PlayerAnswer) {
    || (found in answers && SameKey(found, gameId, playerId, questionId))
    || (found == NO_ANSWER && forall b :: b in answers ==> !SameKey(b, gameId, playerId, questionId))
  }

  /** An answer counts as a duplicate exactly if the record looked up has its ids. */
  lemma DuplicateByLookup(answers: seq<PlayerAnswer>, gameId: string, a: PlayerAnswer)
    ensures IsDuplicate(answers, gameId, a) <==>
      exists found :: LookedUp(answers, gameId, a.playerId, a.questionId, found)
                      && SameKey(found, a.gameId, a.playerId, a.questionId)
  {
    if b :| b in answers && SameKey(b, gameId, a.playerId, a.questionId) {
      assert LookedUp(answers, gameId, a.playerId, a.questionId, b);
    } else {
      assert LookedUp(answers, gameId, a.playerId, a.questionId, NO_ANSWER);
    }
  }

  function SaveAnswer(cfg: Config, st: Store, gameId: string, a: PlayerAnswer): (Store, AnswerOutcome) {
    if gameId !in st.cache then (st, NoQuestions)
    else if AnsweredEarly(cfg, st.cache[gameId].questions, a) then (st, Early)
    else if IsDuplicate(st.answers, gameId, a) then (st, Duplicate)
    else (st.(answers := st.answers + [GradedAgainst(cfg, st.cache[gameId].questions, a)]), Accepted)
  }

  /** The record the answer processor builds: one game id for the call and the record. */
  function NewAnswer(gameId: string, questionId: string, playerId: nat, choice: string, now: int): PlayerAnswer {
    NO_ANSWER.(gameId := gameId,
               questionId := questionId,
               playerId := FormatUint(playerId),
               playerChoice := choice,
               answerTime := now)
  }

  function AnswersOf(answers: seq<PlayerAnswer>, gameId: string): seq<PlayerAnswer> {
    if answers == [] then [] else
      var front, a := AnswersOf(answers[..|answers| - 1], gameId), answers[|answers| - 1];
      if a.gameId == gameId then front + [a] else front
  }
}
