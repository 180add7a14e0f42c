/** The game service: its repository calls, and the message branches that use them. */
module GameService {
  import opened Catalogue
  import opened GameStore
  import opened GoRuntime
  import opened LeaderBoards
  import opened Scoring

  datatype LeaderBoard = LeaderBoard(gameId: string, playersPoint: seq<PlayerPoint>)

  /** A delayed "game:completed" task. */
  datatype Task = Task(gameId: GameId, fireAt: int)

  /** A match as the game service decodes it from the broker. */
  datatype MatchedUsers = MatchedUsers(matchId: string, gameId: GameId, category: seq<Category>, userId: seq<nat>)

  /**
   * The READY branch: list the player; if the list is full, stamp the deadlines
   * and enqueue the completion.  Without cached questions the delay stays zero.
   */
  function ReadyMessage(cfg: Config, st: Store, tasks: seq<Task>, gameId: GameId, userId: nat, clock: seq<int>,
                        enqueuedAt: int)
    : (Store, seq<Task>)
    requires gameId in st.cache ==> |clock| == |st.cache[gameId].questions|
  {
    var (ready, outcome) := UpsertReady(st.ready, gameId, Some(Wrap64(userId)), None);
    var st1 := st.(ready := ready);
    if outcome != Ready(true) then (st1, tasks) else
      var delay := if gameId in st.cache then DelaySum(cfg.validAnswerTimeOut, |clock|) else 0;
      (Stamp(cfg.validAnswerTimeOut, st1, gameId, clock), tasks + [Task(gameId, enqueuedAt + delay)])
  }

  function NewGame(user: MatchedUsers): Game {
    Game(user.userId, user.matchId, user.category, None)
  }

  /** One game per match, in order. */
  function CreateGames(st: Store, users: seq<MatchedUsers>, newIds: seq<GameId>): Store
    requires |newIds| == |users|
  {
    if users == [] then st else
      var n := |users| - 1;
      CreateGame(CreateGames(st, users[..n], newIds[..n]), NewGame(users[n]), newIds[n])
  }

  /** One ready list per game, expecting as many players as the match has. */
  function InitialiseGames(ready: map<GameId, ReadyStatus>, users: seq<MatchedUsers>): map<GameId, ReadyStatus> {
    if users == [] then ready else
      var n := |users| - 1;
      UpsertReady(InitialiseGames(ready, users[..n]), users[n].gameId, None, Some(|users[n].userId|)).0
  }

  function WithIds(users: seq<MatchedUsers>, newIds: seq<GameId>): seq<MatchedUsers>
    requires |newIds| == |users|
  {
    seq(|users|, i requires 0 <= i < |users| => users[i].(gameId := newIds[i]))
  }

  function ConsumeMatches(st: Store, users: seq<MatchedUsers>, newIds: seq<GameId>): Store
    requires |newIds| == |users|
  {
    var created := CreateGames(st, users, newIds);
    created.(ready := InitialiseGames(created.ready, WithIds(users, newIds)))
  }

  class GameRepository {
    const config: Config
    var games: map<GameId, Game>
    var cache: map<string, GameQuestions>
    var ready: map<GameId, ReadyStatus>
    var answers: seq<PlayerAnswer>

    constructor (config: Config)
      ensures this.config == config && View() == Store(map[], map[], map[], [])
    {
      this.config := config;
      games, cache, ready, answers := map[], map[], map[], [];
    }

    ghost function View(): Store
      reads this
    {
      Store(games, cache, ready, answers)
    }

    /** newId is the id Mongo gives the inserted document. */
    method CreateGame(game: Game, newId: GameId) returns (id: GameId)
      modifies this
      ensures View() == GameStore.CreateGame(old(View()), game, newId) && id == newId
    {
      var stored := game;
      if game.matchId in cache {
        stored := stored.(question := Some(cache[game.matchId].questions));
      }
      games := games[newId := stored];
      return newId;
    }

    /** FindOne and UpdateOne take any document with the match id. */
    method PickByMatchId(matchId: string) returns (pick: Option<GameId>)
      ensures Picks(View(), matchId, pick)
    {
      var matching := set g | g in games && games[g].matchId == matchId;
      if matching == {} {
        assert forall g :: g in games && games[g].matchId == matchId ==> g in matching;
        return None;
      }
      var g :| g in matching;
      return Some(g);
    }

    method SaveQuestionsByMatchId(matchId: string, questions: seq<Question>)
      modifies this
      ensures exists updated, found ::
        && Picks(old(View()), matchId, updated) && Picks(old(View()), matchId, found)
        && View() == SaveQuestions(old(View()), matchId, questions, updated, found)
    {
      var updated := PickByMatchId(matchId);
      match updated {
        case Some(g) => games := games[g := games[g].(question := Some(questions))];
        case None => cache := cache[matchId := GameQuestions(questions, [], 0)];
      }
      var found := PickByMatchId(matchId);
      assert Picks(old(View()), matchId, found) by {
        assert forall g :: g in old(games) ==> g in games && games[g].matchId == old(games)[g].matchId;
      }
      match found {
        case Some(g) => cache := cache[g := GameQuestions(questions, games[g].players, 0)];
        case None => cache := cache[NIL_ID := GameQuestions(questions, [], 0)];
      }
      assert View() == SaveQuestions(old(View()), matchId, questions, updated, found);
    }

    /**
     * Reads a document back and starts a goroutine that will cache its
     * questions; without questions there is a nil pointer and nothing to cache.
     */
    method GetGame(gameId: GameId) returns (game: Option<Game>, fill: Option<GameQuestions>)
      ensures game == if gameId in games then Some(games[gameId]) else None
      ensures fill.Some? <==> gameId in games && games[gameId].question.Some?
      ensures fill.Some? ==> fill.value == EntryOf(games[gameId])
    {
      if gameId !in games {
        return None, None;
      }
      var document := games[gameId];
      if document.question.None? {
        return Some(document), None;
      }
      return Some(document), Some(GameQuestions(document.question.value, document.players, 0));
    }

    /** What that goroutine does, whenever it gets to run. */
    method SaveQuestionByGameId(gameId: GameId, gameQuestions: GameQuestions)
      modifies this
      ensures View() == PutEntry(old(View()), gameId, gameQuestions)
    {
      cache := cache[gameId := gameQuestions];
    }

    method UpsertReadyPlayer(gameId: GameId, playerId: Option<int>, number: Option<int>) returns (outcome: ReadyOutcome)
      modifies this
      ensures View() == old(View()).(ready := UpsertReady(old(ready), gameId, playerId, number).0)
      ensures outcome == UpsertReady(old(ready), gameId, playerId, number).1
    {
      if gameId !in ready {
        var players := 2;
        if number.Some? {
          players := number.value;
        }
        ready := ready[gameId := ReadyStatus(players, [])];
        return Ready(false);
      }
      var gs := ready[gameId];
      if gs.expectedNumberOfPlayers - |gs.players| == 0 {
        return Ready(true);
      }
      for i := 0 to |gs.players|
        invariant playerId.None? ==> i == 0
        invariant playerId.Some? ==> playerId.value !in gs.players[..i]
      {
        if playerId.None? {
          return NilPlayer;
        }
        if gs.players[i] == playerId.value {
          return AlreadyReady;
        }
      }
      if playerId.Some? {
        gs := gs.(players := gs.players + [playerId.value]);
      }
      ready := ready[gameId := gs];
      return Ready(|gs.players| == gs.expectedNumberOfPlayers);
    }

    /** The clock is read once for every question. */
    method SetValidAnswerTimeForQuestions(gameId: GameId, clock: seq<int>) returns (finalTTL: Option<int>)
      requires gameId in cache ==> |clock| == |cache[gameId].questions|
      modifies this
      ensures View() == Stamp(config.validAnswerTimeOut, old(View()), gameId, clock)
      ensures finalTTL ==
        if gameId in old(cache) then Some(DelaySum(config.validAnswerTimeOut, |clock|)) else None
    {
      if gameId !in cache {
        return None;
      }
      var gameQuestions := cache[gameId];
      var before := gameQuestions.questions;
      var questions, total := before, 0;
      var deadlines := Deadlines(config.validAnswerTimeOut, clock);
      for i := 0 to |before|
        invariant |questions| == |before|
        invariant questions[..i] == Stamped(before, deadlines)[..i] && questions[i..] == before[i..]
        invariant total == DelaySum(config.validAnswerTimeOut, i)
      {
        var ttl := Wrap64(config.validAnswerTimeOut * (i + 1));
        total := Wrap64(total + ttl);
        var stamped := questions[i].(validAnswerTime := clock[i] + ttl);
        assert questions[i] == before[i] by {
          assert questions[i..][0] == before[i..][0];
        }
        assert stamped == Stamped(before, deadlines)[i];
        assert questions[i := stamped][i + 1..] == questions[i..][1..];
        questions := questions[i := stamped];
      }
      assert questions == questions[..|before|];
      assert Stamped(before, deadlines) == Stamped(before, deadlines)[..|before|];
      cache := cache[gameId := gameQuestions.(questions := questions)];
      return Some(total);
    }

    method SavePlayerAnswer(gameId: string, a: PlayerAnswer) returns (outcome: AnswerOutcome)
      modifies this
      ensures (View(), outcome) == SaveAnswer(config, old(View()), gameId, a)
      ensures outcome == Accepted && ScoresSound(config) ==>
        gameId in cache && exists r ::
          answers == old(answers) + [r] && IsRecord(config, cache[gameId].questions, a, r)
    {
      if gameId !in cache {
        return NoQuestions;
      }
      var questions := cache[gameId].questions;
      var record, questionIdFound := a, false;
      for i := 0 to |questions|
        invariant !questionIdFound ==> record == a
        invariant !questionIdFound ==>
          FindQuestion(questions, a.questionId) == FindQuestion(questions[i..], a.questionId)
        invariant questionIdFound ==> FindQuestion(questions, a.questionId).Some?
        invariant questionIdFound ==> !AnsweredEarly(config, questions, a)
        invariant questionIdFound ==> record == Graded(config, FindQuestion(questions, a.questionId).value, a)
      {
        var question := questions[i];
        if !questionIdFound && a.questionId == question.id {
          record := record.(correctChoice := question.correctAnswer,
                            options := question.choices,
                            category := question.category,
                            validTimeToAnswer := question.validAnswerTime);
          var left := Sub(question.validAnswerTime, a.answerTime);
          if Quo(left, MILLISECOND) > Quo(config.validAnswerTimeOut, MILLISECOND) {
            return Early;
          }
          var isCorrect := a.playerChoice == question.correctAnswer;
          record := record.(timeDiff := WholeSeconds(left),
                            point := CalculateScore(config, isCorrect, a.answerTime, question.validAnswerTime));
          questionIdFound := true;
        }
      }
      var stored := NO_ANSWER;
      if i :| 0 <= i < |answers| && SameKey(answers[i], gameId, a.playerId, a.questionId) {
        stored := answers[i];
        assert answers[i] in answers;
      }
      if && stored.playerId == record.playerId
         && stored.gameId == record.gameId
         && stored.questionId == record.questionId {
        return Duplicate;
      }
      answers := answers + [record];
      if ScoresSound(config) {
        GradedIsRecord(config, questions, a);
      }
      return Accepted;
    }

    /** Mongo lists the answers of a game in any order. */
    method FindAnswers(gameId: string) returns (listed: seq<PlayerAnswer>)
      ensures multiset(listed) == multiset(AnswersOf(answers, gameId))
    {
      listed := [];
      for i := 0 to |answers|
        invariant multiset(listed) == multiset(AnswersOf(answers[..i], gameId))
      {
        assert answers[..i + 1][..i] == answers[..i];
        if answers[i].gameId == gameId {
          var first: bool := *;
          listed := if first then [answers[i]] + listed else listed + [answers[i]];
        }
      }
      assert answers[..|answers|] == answers;
    }

    method GetLeaderBoard(gameId: GameId) returns (board: Option<LeaderBoard>)
      ensures board.Some? <==> gameId in games
      ensures board.Some? ==> board.value.gameId == gameId && exists listed ::
        && multiset(listed) == multiset(AnswersOf(answers, gameId))
        && IsBoard(board.value.playersPoint, listed, games[gameId].players)
    {
      if gameId !in games {
        return None;
      }
      var listed := FindAnswers(gameId);
      var points := BuildLeaderBoard(listed, games[gameId].players);
      return Some(LeaderBoard(gameId, points));
    }
  }

  class Service {
    const repository: GameRepository
    var tasks: seq<Task>

    constructor (repository: GameRepository)
      ensures this.repository == repository && tasks == []
    {
      this.repository := repository;
      tasks := [];
    }

    /** Errors count as not ready. */
    method SaveGameStatus(gameId: GameId, userId: Option<nat>, number: Option<int>) returns (isGameReady: bool)
      modifies repository
      ensures var id := if userId.Some? then Some(Wrap64(userId.value)) else None;
              var (ready, outcome) := UpsertReady(old(repository.ready), gameId, id, number);
        repository.View() == old(repository.View()).(ready := ready) && isGameReady == (outcome == Ready(true))
    {
      var id: Option<int> := None;
      if userId.Some? {
        id := Some(Wrap64(userId.value));
      }
      var outcome := repository.UpsertReadyPlayer(gameId, id, number);
      return outcome == Ready(true);
    }

    method HandleReady(gameId: GameId, userId: nat, clock: seq<int>, enqueuedAt: int)
      requires gameId in repository.cache ==> |clock| == |repository.cache[gameId].questions|
      modifies this, repository
      ensures (repository.View(), tasks) ==
        ReadyMessage(repository.config, old(repository.View()), old(tasks), gameId, userId, clock, enqueuedAt)
    {
      var isGameReady := SaveGameStatus(gameId, Some(userId), None);
      if isGameReady {
        var finalTTL := repository.SetValidAnswerTimeForQuestions(gameId, clock);
        var delay := match finalTTL { case Some(ttl) => ttl case None => 0 };
        tasks := tasks + [Task(gameId, enqueuedAt + delay)];
      }
    }

    /** Stores the answer of a player and returns the new leaderboard of the game. */
    method SavePlayerAnswer(playerId: nat, gameId: GameId, questionId: string, choice: string, now: int)
      returns (outcome: AnswerOutcome, board: Option<LeaderBoard>)
      modifies repository
      ensures (repository.View(), outcome) ==
        SaveAnswer(repository.config, old(repository.View()), gameId,
                   NewAnswer(gameId, questionId, playerId, choice, now))
      ensures board.Some? <==> outcome == Accepted && gameId in repository.games
      ensures board.Some? ==> exists listed ::
        && multiset(listed) == multiset(AnswersOf(repository.answers, gameId))
        && IsBoard(board.value.playersPoint, listed, repository.games[gameId].players)
    {
      outcome := repository.SavePlayerAnswer(gameId, NewAnswer(gameId, questionId, playerId, choice, now));
      board := None;
      if outcome == Accepted {
        board := repository.GetLeaderBoard(gameId);
      }
    }

    /** Creates a game for every match, then initialises the ready list of every game. */
    method ConsumeMatchCreated(users: seq<MatchedUsers>, newIds: seq<GameId>)
      requires |newIds| == |users|
      modifies repository
      ensures repository.View() == ConsumeMatches(old(repository.View()), users, newIds)
    {
      var created: seq<MatchedUsers> := [];
      for i := 0 to |users|
        invariant repository.View() == CreateGames(old(repository.View()), users[..i], newIds[..i])
        invariant created == WithIds(users, newIds)[..i]
      {
        assert users[..i + 1][..i] == users[..i] && newIds[..i + 1][..i] == newIds[..i];
        var id := repository.CreateGame(NewGame(users[i]), newIds[i]);
        created := created + [users[i].(gameId := id)];
      }
      assert users[..|users|] == users && newIds[..|users|] == newIds;
      assert created == WithIds(users, newIds);
      ghost var st := repository.View();
      for i := 0 to |created|
        invariant repository.View() == st.(ready := InitialiseGames(st.ready, created[..i]))
      {
        assert created[..i + 1][..i] == created[..i];
        var _ := SaveGameStatus(created[i].gameId, None, Some(|created[i].userId|));
      }
      assert created[..|created|] == created;
    }
  }
}
