/**
 * From the matcher to the game: the messages between the services, the mappers
 * on both sides, and the games made of what the matcher publishes.
 */
module Link {
  import opened Catalogue
  import opened GoRuntime
  import GameRun
  import GameService
  import GameStore
  import Matching
  import MatchRun
  import opened Sequences

  datatype MatchMessage = MatchMessage(userId: seq<nat>, category: seq<string>, matchId: string)

  datatype QuestionMessage = QuestionMessage(
    questionId: string,
    content: string,
    correctAnswer: string,
    choices: seq<string>,
    category: string,
    difficulty: string)

  datatype QuestionsMessage = QuestionsMessage(matchId: string, questions: seq<QuestionMessage>)

  /** A match as the question service decodes it. */
  datatype QuizRequest = QuizRequest(matchId: string, category: seq<Category>, userId: seq<nat>)

  /** A question as the question service keeps it; category and difficulty are whatever its database holds. */
  datatype StoredQuestion = StoredQuestion(
    id: string,
    content: string,
    correctAnswer: string,
    choices: seq<string>,
    category: string,
    difficulty: string)

  // ------------------------------------------------------------ one by one

  function EncodeMatch(m: Matching.MatchedUsers): MatchMessage {
    MatchMessage(m.userId, m.category, m.id)
  }

  function Categories(names: seq<string>): seq<Category> {
    seq(|names|, i requires 0 <= i < |names| => MapToCategory(names[i]))
  }

  function QuizCategories(names: seq<string>): seq<Category> {
    seq(|names|, i requires 0 <= i < |names| => MapToQuestionCategory(names[i]))
  }

  function DecodeMatch(m: MatchMessage): GameService.MatchedUsers {
    GameService.MatchedUsers(m.matchId, "", Categories(m.category), m.userId)
  }

  function DecodeQuizRequest(m: MatchMessage): QuizRequest {
    QuizRequest(m.matchId, QuizCategories(m.category), m.userId)
  }

  function EncodeQuestion(q: StoredQuestion): QuestionMessage {
    QuestionMessage(q.id, q.content, q.correctAnswer, q.choices, q.category, q.difficulty)
  }

  function DecodeQuestion(q: QuestionMessage): GameStore.Question {
    GameStore.Question(q.questionId, q.content, q.correctAnswer, "", q.choices,
                       MapToCategory(q.category), ZERO_TIME, MapToDifficulty(q.difficulty))
  }

  function DecodeMatches(ms: seq<MatchMessage>): seq<GameService.MatchedUsers> {
    seq(|ms|, i requires 0 <= i < |ms| => DecodeMatch(ms[i]))
  }

  function EncodeMatches(fs: seq<Matching.MatchedUsers>): seq<MatchMessage> {
    seq(|fs|, i requires 0 <= i < |fs| => EncodeMatch(fs[i]))
  }

  function DecodeQuizRequests(ms: seq<MatchMessage>): seq<QuizRequest> {
    seq(|ms|, i requires 0 <= i < |ms| => DecodeQuizRequest(ms[i]))
  }

  // ------------------------------------------------------------- the mappers

  method MapFromEntityToProtoMessage(matchedUsers: seq<Matching.MatchedUsers>) returns (message: seq<MatchMessage>)
    ensures message == EncodeMatches(matchedUsers)
    ensures |message| == |matchedUsers|
    ensures forall i :: 0 <= i < |message| ==>
      var m, user := message[i], matchedUsers[i];
      m.matchId == user.id && m.userId == user.userId && m.category == user.category
  {
    message := [];
    for i := 0 to |matchedUsers|
      invariant message == EncodeMatches(matchedUsers)[..i]
    {
      var user := matchedUsers[i];
      var categories: seq<string> := [];
      for j := 0 to |user.category|
        invariant categories == user.category[..j]
      {
        categories := categories + [user.category[j]];
      }
      assert categories == user.category;
      message := message + [MatchMessage(user.userId, categories, user.id)];
    }
  }

  method MapFromProtoMessageToEntity(message: seq<MatchMessage>) returns (users: seq<GameService.MatchedUsers>)
    ensures users == DecodeMatches(message)
    ensures |users| == |message|
    ensures forall i :: 0 <= i < |users| ==>
      && users[i].matchId == message[i].matchId && users[i].userId == message[i].userId
      && |users[i].category| == |message[i].category|
      && forall j :: 0 <= j < |users[i].category| ==> users[i].category[j] == MapToCategory(message[i].category[j])
  {
    users := [];
    for i := 0 to |message|
      invariant users == DecodeMatches(message)[..i]
    {
      var user := message[i];
      var categories: seq<Category> := [];
      for j := 0 to |user.category|
        invariant categories == Categories(user.category)[..j]
      {
        categories := categories + [MapToCategory(user.category[j])];
      }
      assert categories == Categories(user.category);
      users := users + [GameService.MatchedUsers(user.matchId, "", categories, user.userId)];
    }
  }

  method MapFromProtoMessageToQuizRequests(message: seq<MatchMessage>) returns (users: seq<QuizRequest>)
    ensures users == DecodeQuizRequests(message)
    ensures |users| == |message|
    ensures forall i :: 0 <= i < |users| ==>
      && users[i].matchId == message[i].matchId && users[i].userId == message[i].userId
      && |users[i].category| == |message[i].category|
      && forall j :: 0 <= j < |users[i].category| ==>
           users[i].category[j] == MapToQuestionCategory(message[i].category[j])
  {
    users := [];
    for i := 0 to |message|
      invariant users == DecodeQuizRequests(message)[..i]
    {
      var user := message[i];
      var categories: seq<Category> := [];
      for j := 0 to |user.category|
        invariant categories == QuizCategories(user.category)[..j]
      {
        categories := categories + [MapToQuestionCategory(user.category[j])];
      }
      assert categories == QuizCategories(user.category);
      users := users + [QuizRequest(user.matchId, categories, user.userId)];
    }
  }

  method MapQuestionsToProtoMessage(matchId: string, questions: seq<StoredQuestion>) returns (message: QuestionsMessage)
    ensures message.matchId == matchId && |message.questions| == |questions|
    ensures forall i :: 0 <= i < |questions| ==> message.questions[i] == EncodeQuestion(questions[i])
  {
    var encoded: seq<QuestionMessage> := [];
    for i := 0 to |questions|
      invariant |encoded| == i
      invariant forall j :: 0 <= j < i ==> encoded[j] == EncodeQuestion(questions[j])
    {
      var q := questions[i];
      encoded := encoded + [QuestionMessage(q.id, q.content, q.correctAnswer, q.choices, q.category, q.difficulty)];
    }
    return QuestionsMessage(matchId, encoded);
  }

  method MapFromProtoMessageToQuestionsEntity(message: QuestionsMessage)
    returns (questions: seq<GameStore.Question>, matchId: string)
    ensures matchId == message.matchId && |questions| == |message.questions|
    ensures forall i :: 0 <= i < |questions| ==> questions[i] == DecodeQuestion(message.questions[i])
  {
    questions := [];
    for i := 0 to |message.questions|
      invariant |questions| == i
      invariant forall j :: 0 <= j < i ==> questions[j] == DecodeQuestion(message.questions[j])
    {
      var q := message.questions[i];
      questions := questions + [GameStore.Question(q.questionId, q.content, q.correctAnswer, "", q.choices,
                                                   MapToCategory(q.category), ZERO_TIME,
                                                   MapToDifficulty(q.difficulty))];
    }
    matchId := message.matchId;
  }

  // ------------------------------------------------------ what survives a trip

  /**
   * The two decoders agree on a category name exactly when it is one a player can
   * wait in; any other the game service sends to UNKNOWN and the question service
   * to MUSIC.
   */
  lemma DecodersAgreeExactly(name: string)
    ensures GetCategories() == ["SPORT", "MUSIC", "TECH"]
    ensures MapToCategory(name) == MapToQuestionCategory(name) <==> name in GetCategories()
    ensures name in GetCategories() ==> MapToCategory(name) == name
    ensures name !in GetCategories() ==> MapToCategory(name) == "UNKNOWN" && MapToQuestionCategory(name) == "MUSIC"
  {
    UnknownNames(name);
  }

  /**
   * A stored question reaches the game unchanged, and without a deadline, exactly
   * when its category and difficulty are names the game knows; a name it does not
   * know becomes UNKNOWN.
   */
  lemma QuestionRoundTrip(q: StoredQuestion)
    ensures var d := DecodeQuestion(EncodeQuestion(q));
      && d.id == q.id && d.content == q.content && d.correctAnswer == q.correctAnswer && d.choices == q.choices
      && (d.category == q.category && d.difficulty == q.difficulty <==>
            q.category in GetCategories() + [UNKNOWN] && q.difficulty in [EASY, MEDIUM, HARD, UNKNOWN])
      && d.category in [q.category, "UNKNOWN"] && d.difficulty in [q.difficulty, "UNKNOWN"]
      && d.validAnswerTime == ZERO_TIME == -62_135_596_800_000_000_000 && d.status == ""
  {
    UnknownNames(q.category);
    UnknownNames(q.difficulty);
  }

  /** So up to ten questions of the question service can be delivered in any session that has not got them yet. */
  lemma DecodedIsDeliverable(s: GameRun.Session, m: string, stored: seq<StoredQuestion>,
                             questions: seq<GameStore.Question>, updated: GameStore.Option<GameStore.GameId>,
                             found: GameStore.Option<GameStore.GameId>)
    requires GameRun.IsMatchId(m) && m !in s.delivered && |questions| == |stored| <= 10
    requires forall i :: 0 <= i < |stored| ==> questions[i] == DecodeQuestion(EncodeQuestion(stored[i]))
    requires GameStore.Picks(s.store, m, updated) && GameStore.Picks(s.store, m, found)
    ensures GameRun.Enabled(s, GameRun.Deliver(m, questions, updated, found))
  {
    forall q | q in questions
      ensures q.validAnswerTime == ZERO_TIME
    {
      var i :| 0 <= i < |questions| && questions[i] == q;
      QuestionRoundTrip(stored[i]);
    }
  }

  /** What the matcher can publish: a drawn id, one known category, an even number of at least two different users. */
  lemma PublishedMatch(span: int, s: MatchRun.State, e: MatchRun.Event, f: Matching.MatchedUsers)
    requires MatchRun.Reachable(span, s) && e.Publish? && MatchRun.Enabled(span, s, e)
    requires f in MatchRun.BatchOf(e.order, e.ids)
    ensures |f.category| == 1 && f.category[0] in GetCategories()
    ensures |f.userId| >= 2 && |f.userId| % 2 == 0 && Distinct(f.userId)
    ensures exists i :: 0 <= i < |e.ids| && e.ids[i] == f.id && Matching.Groups(e.order)[i].category == f.category
  {
    MatchRun.ReachableSafe(span, s);
    MatchRun.PublishSound(span, s, e, f);
    Matching.TickMatches(e.order, e.ids);
  }

  /**
   * Both consumers decode a published match to the same match id, users and
   * category, despite their different defaults.
   */
  lemma PublishedMatchDecodes(span: int, s: MatchRun.State, e: MatchRun.Event, f: Matching.MatchedUsers)
    requires MatchRun.Reachable(span, s) && e.Publish? && MatchRun.Enabled(span, s, e)
    requires f in MatchRun.BatchOf(e.order, e.ids)
    ensures DecodeMatch(EncodeMatch(f)) == GameService.MatchedUsers(f.id, "", f.category, f.userId)
    ensures DecodeQuizRequest(EncodeMatch(f)) == QuizRequest(f.id, f.category, f.userId)
  {
    PublishedMatch(span, s, e, f);
    assert MapToCategory(f.category[0]) == f.category[0] == MapToQuestionCategory(f.category[0]);
    assert Categories(f.category) == f.category;
    assert QuizCategories(f.category) == f.category;
  }

  // -------------------------------------------------------- games from matches

  ghost predicate FreshIds(st: GameStore.Store, newIds: seq<GameStore.GameId>) {
    && Distinct(newIds)
    && (forall id :: id in newIds ==> id !in st.games && id !in st.ready)
  }

  lemma {:induction false} GamesCreated(st: GameStore.Store, users: seq<GameService.MatchedUsers>,
                                        newIds: seq<GameStore.GameId>, i: nat)
    requires |newIds| == |users| && FreshIds(st, newIds) && i < |users|
    ensures var after := GameService.CreateGames(st, users, newIds);
      && after.cache == st.cache && after.ready == st.ready
      && newIds[i] in after.games
      && after.games[newIds[i]].(question := GameStore.None) == GameService.NewGame(users[i])
      && after.games[newIds[i]].question ==
           if users[i].matchId in st.cache then GameStore.Some(st.cache[users[i].matchId].questions) else GameStore.None
  {
    var n := |users| - 1;
    if n > 0 {
      GamesCreated(st, users[..n], newIds[..n], if i < n then i else 0);
    }
    if i < n {
      assert newIds[i] != newIds[n];
      assert users[..n][i] == users[i] && newIds[..n][i] == newIds[i];
    } else if n == 0 {
      assert GameService.CreateGames(st, users[..0], newIds[..0]) == st;
    }
  }

  lemma {:induction false} ListsInitialised(ready: map<GameStore.GameId, GameStore.ReadyStatus>,
                                            users: seq<GameService.MatchedUsers>, id: GameStore.GameId)
    requires forall i, j :: 0 <= i < j < |users| ==> users[i].gameId != users[j].gameId
    requires forall u :: u in users ==> u.gameId !in ready
    ensures var after := GameService.InitialiseGames(ready, users);
      && (forall u :: u in users && u.gameId == id ==>
            id in after && after[id] == GameStore.ReadyStatus(|u.userId|, []))
      && ((forall u :: u in users ==> u.gameId != id) ==> (id in after <==> id in ready))
  {
    if users != [] {
      var n := |users| - 1;
      assert users == users[..n] + [users[n]];
      ListsInitialised(ready, users[..n], id);
      ListsInitialised(ready, users[..n], users[n].gameId);
    }
  }

  /**
   * End to end: for every match of every batch the matcher can publish, the
   * game service creates one game with the same users, and initialises its ready
   * list to expect exactly that many; the number is even and at least two, and
   * no user plays twice.
   */
  lemma MatchBecomesGame(span: int, s: MatchRun.State, e: MatchRun.Event, st: GameStore.Store,
                         newIds: seq<GameStore.GameId>, i: nat)
    requires MatchRun.Reachable(span, s) && e.Publish? && MatchRun.Enabled(span, s, e)
    requires var batch := MatchRun.BatchOf(e.order, e.ids);
      i < |batch| && |newIds| == |batch| && FreshIds(st, newIds)
    ensures var batch := MatchRun.BatchOf(e.order, e.ids);
            var after := GameService.ConsumeMatches(st, DecodeMatches(EncodeMatches(batch)), newIds);
            var id := newIds[i];
      && id in after.games
      && after.games[id].players == batch[i].userId
      && after.games[id].matchId == batch[i].id && after.games[id].matchId in e.ids
      && after.games[id].category == batch[i].category
      && after.games[id].question ==
           (if batch[i].id in st.cache then GameStore.Some(st.cache[batch[i].id].questions) else GameStore.None)
      && id in after.ready
      && after.ready[id] == GameStore.ReadyStatus(|after.games[id].players|, [])
      && |after.games[id].players| >= 2 && |after.games[id].players| % 2 == 0
      && Distinct(after.games[id].players)
  {
    var batch := MatchRun.BatchOf(e.order, e.ids);
    var users := DecodeMatches(EncodeMatches(batch));
    var withIds := GameService.WithIds(users, newIds);
    PublishedMatch(span, s, e, batch[i]);
    PublishedMatchDecodes(span, s, e, batch[i]);
    assert users[i] == DecodeMatch(EncodeMatch(batch[i]));
    GamesCreated(st, users, newIds, i);
    forall u | u in withIds
      ensures u.gameId !in st.ready
    {
      var k :| 0 <= k < |withIds| && withIds[k] == u;
      assert newIds[k] in newIds;
    }
    ListsInitialised(st.ready, withIds, newIds[i]);
    assert withIds[i] in withIds && withIds[i].gameId == newIds[i];
  }

  /** And if the draws of the tick differ, no two of its games are under one match id. */
  lemma MatchesStayApart(span: int, s: MatchRun.State, e: MatchRun.Event, st: GameStore.Store,
                         newIds: seq<GameStore.GameId>, i: nat, j: nat)
    requires MatchRun.Reachable(span, s) && e.Publish? && MatchRun.Enabled(span, s, e) && Distinct(e.ids)
    requires var batch := MatchRun.BatchOf(e.order, e.ids);
      i < j < |batch| && |newIds| == |batch| && FreshIds(st, newIds)
    ensures var batch := MatchRun.BatchOf(e.order, e.ids);
            var after := GameService.ConsumeMatches(st, DecodeMatches(EncodeMatches(batch)), newIds);
      && newIds[i] in after.games && newIds[j] in after.games
      && after.games[newIds[i]].matchId != after.games[newIds[j]].matchId
  {
    Matching.TickMatches(e.order, e.ids);
    MatchBecomesGame(span, s, e, st, newIds, i);
    MatchBecomesGame(span, s, e, st, newIds, j);
  }
}
