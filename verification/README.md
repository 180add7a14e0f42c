# BrainBlitz: matchmaking and game sessions

A Dafny model of the two stateful protocols of BrainBlitz, and of the link between them.

* **The matchmaker** (`Matching`, `WaitingLists`, `MatchService`, `MatchRun`). Players join a waiting list per
  category; a periodic tick reads a time window of every list, sorts the members, groups them by category, keeps the
  largest even prefix of each group, hands the batch to the broker and removes its members.
* **The game session** (`Scoring`, `GameStore`, `LeaderBoards`, `ReadyQuorum`, `GameService`, `GameRun`,
  `GameTheorems`). A ready list that starts the game, deadlines stamped on its questions, a log of graded answers, a
  leaderboard recomputed from the log, and a question cache beside the game documents.
* **The link** (`Link`). The messages and mappers that carry matches and questions from one service to another, and
  the games made of published matches.

`Sequences`, `Sorting`, `GoRuntime`, `Decimals` and `Catalogue` hold what both sides need: facts about sequences,
`sort.Slice`, Go's integer and time arithmetic, decimal user ids, and the category names.

Code that changes state is a class whose methods are proved against functions on values; the runs of `MatchRun` and
`GameRun` are sequences of steps built from those same functions, and their theorems quantify over every run.

## Reading notes

* Time is an integer number of nanoseconds. Durations and the deadline arithmetic are wrapped at 64 bits where the
  source uses `int64`, `time.Time.Sub` saturates, and Go's `/` truncates toward zero. The clock is an input that does
  not go back.
* Every repository call is one atomic step. In the matchmaker each category read, each hand-over and each single
  removal is a step of its own, and joins may fall between any two; one tick is in flight at a time.
* `sort.Slice` is unstable and Redis and Mongo list entries as they like, so a run may use any arrangement the
  contract of the sort allows, and listing methods choose their order freely.
* A waiting list maps users to microseconds. Members are stored as decimal strings; `Decimals.MemberRoundTrip` says
  for which ids reading them back gives the same user, and the model's ids are of that kind.
* Game ids are 24-character object ids that Mongo never issues twice, match ids 26-character ULIDs of one match each;
  a match's question list has at most ten questions and may be delivered repeatedly, but not exchanged for another.
* The source initialises ready lists in a goroutine (services/game_app/service/match_consumer.go:48), so a list may not
  exist when the handler returns, and a READY can overtake it. `GameService.Service.ConsumeMatchCreated` and
  `Link.MatchBecomesGame` show the state once that goroutine is through; in `GameRun` creation and initialisation are
  separate steps with anything in between.
* A client chooses the id it sends with READY, so runs include READYs under match ids and under ids of no game. A task
  under a match id completes no game, since its 26 characters are no object id (services/game_app/repository/game.go:81
  and 410); `GameTheorems.CompletionCovers` needs one only for deadlines that a READY under the match id has stamped, and
  says so.
* Where the documentation differs the model follows the code: matched members are removed even when the broker refuses
  the batch (docs/business/02-business-flows.md says they stay). `MatchService.Service.PublishFinalUsers` states both
  effects.

Properties one might expect and the code does not have are stated with the exact condition under which it meets them:

* A user who joins while a tick runs may lose that join. At the end of the tick the user waits exactly if the tick had not
  matched it before the join and does not match it later, or if it joins again after its removal
  (`MatchRun.JoinSurvivesTick`; `MatchRun.RejoinBeforeRemovalIsLost` reaches a join that is lost). When the join is made
  it is certain to last if the tick has read the category without that user, or has handed over and is not about to
  remove it (`MatchRun.UnseenJoinIsSafe`); if the tick has seen the user, the sort decides
  (`MatchRun.SeenJoinIsDecidedBySort`).
* The members read do not decide who is left out: the sort may go either way exactly for a member of an odd category
  that nobody follows and that shares its time with another (`Matching.TiesMayGoEitherWay`; `Matching.TwoTiedOfThree` is
  an instance).
* The quorum is the size of the match exactly if the initialisation is the first call that reaches the game's list, or the
  match is one of two; a READY that comes first fixes the quorum at two and is not counted
  (`GameTheorems.QuorumByFirstCall`; `GameTheorems.EarlyReadyIsLost` reaches such a list).
* An initialisation that comes after READYs dereferences a nil player id, in a goroutine that nothing recovers, exactly if
  a player is listed and the list is not full (`GameTheorems.InitialisationHitsNil`; `GameTheorems.EarlyReadiesHitNil`
  reaches it). The runs go on afterwards as if only that call had failed.
* A game whose questions came before its document has them and still takes no answer; it is playable exactly once, after
  its creation, its questions are delivered (once more) or a background fill of its cache entry has run
  (`GameTheorems.QuestionsFirstUnplayable`; `GameTheorems.ReadBackServes`).
* A READY repeated after the start stamps new deadlines. If n questions were cached at the start, some deadline then lies
  after the completion already due exactly if the last clock reading comes more than T·n(n-1)/2 after that completion was
  enqueued. If none were, that completion is due at once, and the deadlines stamped once there are questions lie after it
  whenever the time-out or the time passed is positive (`GameTheorems.RestampOutrunsCompletion`;
  `GameTheorems.EmptyStartIsOutrun` reaches such a session without any time passing).

## Model

| member | source | states |
|---|---|---|
| Matching.OneGroupPerCategory | services/match_app/service/service.go:98-115 | grouping yields exactly one group for each category that occurs, holding that category alone and its members in list order |
| Matching.CategoriesInOrder | services/match_app/service/service.go:98-115 | the groups stand in the order of their categories' earliest members, each category once |
| Matching.TickMatches | services/match_app/service/service.go:98-132 | for any arrangement of the members read, the matches are the even prefixes of the categories with two members or more, in order of each category's earliest member, one category per match, each under the ULID drawn for its group; different draws make different match ids |
| Matching.TickHandsOver | services/match_app/service/service.go:157-165 | the members to remove are exactly the matched ones, none twice; users in a match are distinct |
| Matching.HandedOrder | services/match_app/service/service.go:157-165 | they are removed match by match, and within a match in the order of its users |
| Matching.LeftOutIsLatest | services/match_app/service/service.go:116-123 | at most one member of a category is left out, and nobody matched in its place came later |
| Matching.SomeOrderLeavesOut | services/match_app/service/service.go:95-123 | whatever members were read, some oldest-first arrangement leaves a given one out exactly if its category is odd in number and nobody in it is later |
| Matching.SomeOrderMatches | services/match_app/service/service.go:95-123 | some oldest-first arrangement matches a given member exactly if its category is even in number or another in it is no earlier |
| Matching.TiesMayGoEitherWay | services/match_app/service/service.go:95-123 | the sort has a choice about a member exactly if its category is odd in number, nobody in it is later, and another has the very same time |
| WaitingLists.SortedSets.ZAdd | adapter/redis/adapter.go:43-53 | a member's score is set or overwritten, nothing else changes |
| WaitingLists.SortedSets.ZDelete | adapter/redis/adapter.go:55-62 | exactly the named member of the named set goes |
| WaitingLists.SortedSets.ZRange | adapter/redis/adapter.go:64-79 | each member of the set with a score in the closed range once, nothing else |
| WaitingLists.MatchMakingRepository.AddToWaitingList | services/match_app/repository/match.go:32-39 | a join, or re-join, at time t stores the microsecond s with 1000·s ≤ t < 1000·s + 1000 ns, and leaves everybody else's as it was |
| WaitingLists.MatchMakingRepository.GetWaitingListByCategory | services/match_app/repository/match.go:41-59 | lists exactly the members of the category whose microsecond overlaps the window between the two clock readings, each once |
| WaitingLists.MatchMakingRepository.RemoveWaitingMember | services/match_app/repository/match.go:61-73 | removes exactly the given members from their categories |
| MatchService.Service.ConsumeJoinMatchQueueRequest | services/match_app/service/service.go:174-198 | a known category adds the user, an unknown one changes nothing |
| MatchService.Service.IndexOf | services/match_app/service/service.go:99-106 | the first group with the category, or -1 when there is none |
| MatchService.Service.GroupByCategory | services/match_app/service/service.go:98-115 | the index-and-append loop computes the per-category filter of the list |
| MatchService.Service.TakeEvenPrefixes | services/match_app/service/service.go:116-132 | the loop skips groups below two and keeps the even prefix of the others, under the ULID drawn for the group |
| MatchService.Service.PublishFinalUsers | services/match_app/service/service.go:141-172 | the batch reaches the broker only when it is up; its members are removed either way |
| MatchService.Service.MatchWaitUsers | services/match_app/service/service.go:73-139 | an uninterrupted tick publishes and removes the matches of some oldest-first arrangement of exactly the members in the windows |
| MatchService.TickConserves | services/match_app/service/service.go:116-133 | waiting splits into matched and still waiting with nothing lost, duplicated or changed; only in-window members are matched, at most one in-window member per category stays, and nobody matched came after it |
| MatchService.TickWindow | services/match_app/repository/match.go:41-59 | the window of a tick on the clock itself: a member is in it exactly if its microsecond overlaps the time from the first reading for its own category, less the span, to the second |
| MatchRun.EveryMatchConsumesAJoin | services/match_app/service/service.go:141-169 | in every run, joins of a slot = times matched + joins absorbed by an entry already waiting + one if it waits unmatched |
| MatchRun.JoinGoesLast | services/match_app/repository/match.go:32-39 | in every run a join or re-join puts the user behind everybody waiting and moves nobody else |
| MatchRun.LaterJoinGoesBehind | services/match_app/repository/match.go:32-39 | in every run a join comes strictly after every join made 1000 ns earlier or more |
| MatchRun.WindowSees | services/match_app/repository/match.go:41-59 | in every run a user who last joined at t is read if now0+span ≤ t ≤ now1, and only if now0+span < t + 1000 ns and t < now1 + 1000 ns |
| MatchRun.PublishHands | services/match_app/service/service.go:79-94 | in every run a tick hands over only slots that are still waiting, each once |
| MatchRun.OnlySoundBatches | services/match_app/service/service.go:116-139 | in every run only known categories have waiting lists, and every batch published has a match, each of one known category and an even number, two or more, of different users |
| MatchRun.LaterMemberForcesMatch | services/match_app/service/service.go:95-133 | in every run a member with a strictly later one of its category in what the tick read is matched by that tick |
| MatchRun.BoundedWait | services/match_app/repository/match.go:41-59 | over every run: a user passed over by one tick and seen by the next without re-joining is matched then, unless everybody else seen in the category has the very same microsecond; any rival that differs came later |
| MatchRun.JoinSurvivesTick | services/match_app/service/service.go:73-172 | over every run, a user who joins while a tick is in flight waits at its end exactly if it was not matched before and is not matched later by that tick, or joins anew after its removal |
| MatchRun.UnseenJoinIsSafe | services/match_app/service/service.go:79-94 | in every run a user who joins unseen by a tick that has read its category, or after the hand-over without being up for removal, waits until another tick begins |
| MatchRun.SeenJoinIsDecidedBySort | services/match_app/service/service.go:79-133 | in every run a user the tick has read who joins again before the hand-over waits at the end of the tick exactly if the sort leaves it out, or if it joins anew after its removal |
| MatchRun.RemovalsDrain | services/match_app/repository/match.go:61-73 | removing member by member, left alone, ends with exactly the matched slots gone |
| Decimals.MemberRoundTrip | services/match_app/repository/match.go:50-52 | a stored member is read back as its user exactly when the id fits int64, a larger one as the largest int64 |
| Decimals.SpellingsAgree | services/game_app/repository/game.go:467-469 | the leaderboard's and the answers' spelling of a player id agree exactly when the id fits int64; a larger id is spelled as a negative number |
| Decimals.FormatInjective | services/game_app/service/answer_processor.go:72 | different users never share the spelling of an id |
| Scoring.ScoreThreshold | services/game_app/repository/game.go:498-513 | a correct answer in time scores BaseScore + k or more exactly when remaining·MaxBonus ≥ k·BonusDeadline |
| Scoring.ScoreExactly | services/game_app/repository/game.go:498-513 | the score is nothing unless right and in time, else BaseScore and every bonus point k ≤ MaxBonus with (deadline - time)·MaxBonus ≥ k·BonusDeadline; Scoring.ScoreUnique shows that this leaves one number only |
| Scoring.ScoreBounds | services/game_app/repository/game.go:498-513 | scores lie in 0..BaseScore+MaxBonus; correct in time earns at least BaseScore, wrong or late nothing |
| Scoring.ScoreMonotone | services/game_app/repository/game.go:503-512 | an earlier correct answer never scores less |
| Scoring.DelayIsTriangle | services/game_app/repository/game.go:294-298 | the completion delay is T·n(n+1)/2 modulo 2^64, and exactly that iff it fits int64 |
| Scoring.TenQuestionsFit | services/question_app/service/service.go:40 | with at most ten questions and T ≤ (2^63-1)/55 ns the delay fits |
| Scoring.NoOverflow | services/game_app/repository/game.go:294-298 | when the delay fits no offset wraps, and the delay is at least every offset |
| Scoring.CompletionAfterDeadlines | services/game_app/service/websocket_handler.go:190-213 | a task enqueued after stamping fires no earlier than any deadline of that start |
| Scoring.TooEarlyExactly | services/game_app/repository/game.go:336-353 | the truncated-millisecond check refuses exactly the answers at or before deadline minus admission time |
| Scoring.ScoringWindow | services/game_app/repository/game.go:336-357 | points can be earned only in (D - w, D] with T < w ≤ T + 1 ms: everywhere there if BaseScore is positive, otherwise exactly where the bonus comes to a point |
| Scoring.WindowsTile | services/game_app/repository/game.go:294-298 | deadlines of one start are at least T apart; two questions can both score only in the last millisecond before the earlier deadline |
| ReadyQuorum.QuorumReached | services/game_app/repository/game.go:231-260 | the list is the first min(n, distinct) ids in order of arrival; a READY reports ready iff n different players have sent one |
| ReadyQuorum.FrozenOnceFull | services/game_app/repository/game.go:236-238 | a full list never changes and every later READY reports ready |
| LeaderBoards.BuildLeaderBoard | services/game_app/repository/game.go:440-488 | points descending, nobody twice, listed exactly the players and answerers under the decimal spelling of their ids, each with the sum and the marks of its answers |
| LeaderBoards.OneEntryEach | services/game_app/repository/game.go:468-475 | if only players answered, the board has one entry for each different player |
| LeaderBoards.EntryShows | services/game_app/repository/game.go:443-465 | an entry has the sum of the points of its player's answers, and its k-th mark the choice sent in the k-th of them, the right choice, and whether it counted |
| LeaderBoards.PointsConserved | services/game_app/repository/game.go:443-488 | the points on the board add up to those of all listed answers |
| LeaderBoards.BoardsAgree | services/game_app/repository/game.go:428-488 | the order of the Mongo result, of the map and of the unstable sort changes neither who is listed, nor anyone's points or marks, nor the sequence of points |
| LeaderBoards.CappedByQuestions | services/game_app/repository/game.go:443-465 | one answer per question and at most cap each: a player has at most cap times the number of questions |
| GameService.GameRepository.CreateGame | services/game_app/repository/game.go:56-75 | stores the game, with the questions cached under its match id if there are any |
| GameService.GameRepository.SaveQuestionsByMatchId | services/game_app/repository/game.go:112-165 | questions go to a document of the match, or under the match id; then under the id of the document found, or the nil id |
| GameService.GameRepository.GetGame | services/game_app/repository/game.go:77-110 | returns the stored document, and the cache entry its goroutine will write exactly when the document has questions |
| GameService.GameRepository.SaveQuestionByGameId | services/game_app/repository/game.go:309-316 | writes that entry under the game id and touches nothing else |
| GameService.GameRepository.UpsertReadyPlayer | services/game_app/repository/game.go:209-261 | initialises, lists, rejects a listed player, reports readiness, or hits the nil pointer, as the ready-list function says |
| GameService.GameRepository.SetValidAnswerTimeForQuestions | services/game_app/repository/game.go:285-307 | the in-place loop stamps the deadlines and returns their summed delay; nothing happens without cached questions |
| GameService.GameRepository.SavePlayerAnswer | services/game_app/repository/game.go:318-401 | refuses without questions, too early, or a second time; otherwise appends the record of the answer, which holds what was sent and what the first question of its id says, choices and category included |
| GameService.GameRepository.GetLeaderBoard | services/game_app/repository/game.go:403-496 | a leaderboard of exactly the stored answers of the game, or none for an unknown game |
| GameService.Service.SaveGameStatus | services/game_app/service/game_lifecycle.go:23-40 | READY and initialisation reach the ready list; an error counts as not ready |
| GameService.Service.HandleReady | services/game_app/service/websocket_handler.go:185-220 | a READY that completes the list stamps deadlines and enqueues the completion, any other only lists the player |
| GameService.Service.SavePlayerAnswer | services/game_app/service/answer_processor.go:64-113 | an accepted answer is stored and answered with the leaderboard of the new log |
| GameService.Service.ConsumeMatchCreated | services/game_app/service/match_consumer.go:21-48 | one game per match, each ready list expecting as many players as the match has |
| GameTheorems.DocumentHoldsDelivered | services/game_app/repository/game.go:56-75 | in every run, in either order of creation and delivery, the document has questions exactly once they have come: those delivered, as they were or with the deadlines of one start made under the match id |
| GameTheorems.CacheCoherence | services/game_app/repository/game.go:94-107 | in every run a cache entry under a game id has the document's players, its questions up to deadlines, and question index 0 |
| GameTheorems.DeadlinesStay | services/game_app/repository/game.go:285-307 | over every run the cached questions of a game, deadlines included, stay until they are delivered again, filled in, or that game starts |
| GameTheorems.OrdersConfluent | services/game_app/repository/game.go:112-165 | creation and delivery commute on documents; creation first caches the questions with the players under the game id, delivery first without players under the match id and the nil id |
| GameTheorems.QuestionsFirstUnplayable | services/game_app/repository/game.go:167-180 | over every run from its creation, a game has cached questions exactly if they were delivered or a fill of it has run since; exactly until then it refuses every answer for want of questions, and none is stored, even when its document got the questions |
| GameTheorems.ReadBackServes | services/game_app/repository/game.go:94-107 | reading a document back and running the fill caches the questions and players it holds, and changes nothing else |
| GameTheorems.ListInEveryRun | services/game_app/repository/game.go:231-260 | whatever else happens, an initialised game's list is the first n different players among its READYs |
| GameTheorems.QuorumByFirstCall | services/game_app/repository/game.go:209-229 | over every run the quorum is the match size exactly if the first call for the game is the initialisation or the match is of two, and two otherwise; only READYs after that call are listed |
| GameTheorems.InitialisationHitsNil | services/game_app/repository/game.go:231-248 | after any run an initialisation dereferences nil exactly if the game has been called and the different senders of READY since its first call are more than none and fewer than the quorum; it never changes a list |
| GameTheorems.StartsExactlyAtQuorum | services/game_app/service/websocket_handler.go:185-213 | over every run a READY enqueues a completion exactly when n different players have sent READY |
| GameTheorems.FirstAnswerStands | services/game_app/repository/game.go:373-398 | in every run a stored answer never changes and stays the only one for its game, player and question |
| GameTheorems.AcceptedExactly | services/game_app/repository/game.go:318-398 | an answer is refused for want of cached questions, else because its window has not opened, else because the player has answered it, and accepted otherwise; only then anything changes, and that is one record more |
| GameStore.DuplicateByLookup | services/game_app/repository/game.go:373-387 | an answer counts as a duplicate exactly if the record looked up, or an empty one when there is none, has its game, player and question ids |
| GameTheorems.UnstartedEarnsNothing | services/game_app/repository/game.go:336-357 | an answer to a question without a deadline is never too early and earns nothing |
| GameTheorems.RecordStands | services/game_app/repository/game.go:329-400 | over every run the record of an accepted answer has the sender's id, choice and time; the right answer, choices and category of its question in the document and the deadline cached at that moment; and the score and whole seconds these give; and it keeps them to the end |
| GameTheorems.PointsMeanRight | services/game_app/repository/game.go:354-357 | in every run a stored answer has points only if its choice is the right answer of a question of the game and was not sent after the deadline; with BaseScore > 0 exactly then |
| GameTheorems.ScoreCap | services/game_app/repository/game.go:318-400 | in every run every leaderboard entry is between 0 and BaseScore+MaxBonus per question of the game |
| GameTheorems.MarkMeansCorrect | services/game_app/repository/game.go:443-465 | in every run a mark on a leaderboard shows the choice of an answer of that player in that game and the right choice; it says correct only if they are the same with a whole second left, and with BaseScore > 0 exactly then |
| GameTheorems.AnswerGains | services/game_app/repository/game.go:354-392 | an answer changes only its player's points in its game, only if it is accepted and of a cached question, and by exactly the points that question gives a right answer in time; nothing otherwise |
| GameTheorems.TotalsNeverDecrease | services/game_app/service/answer_processor.go:77-83 | over every run nobody's total goes down |
| GameTheorems.CompletionCovers | services/game_app/repository/game.go:285-306 | in every run with T ≤ (2^63-1)/55 ns, restamping included, a deadline a game has had at any time is covered for good by a completion task under its id or its match id, and under its id itself if the match id has no task |
| GameTheorems.CachedDeadlinesTile | services/game_app/repository/game.go:285-306 | in every reachable state a game's cached questions have no deadlines, or deadlines at least T apart of which two neighbours at most can score at one instant, in the last millisecond before the earlier one |
| GameTheorems.StartedGameTiles | services/game_app/repository/game.go:294-300 | a start leaves the cached questions in place with increasing deadlines whose scoring windows overlap by less than a millisecond |
| GameTheorems.StartStamps | services/game_app/repository/game.go:285-307 | a start gives question i the deadline reading i + (i+1)·T and changes nothing else of it, no other cache entry, document or answer; the completion is due T·n(n+1)/2 after it is enqueued |
| GameTheorems.RestampOutrunsCompletion | services/game_app/service/websocket_handler.go:188-213 | over every run a READY after a start starts again, and, the delay fitting int64, moves a deadline past the first completion exactly if questions are cached by then and either they were at the start and its last reading comes more than T·n(n-1)/2 after the first enqueueing, or they were not and T or the time since is positive |
| Link.MapFromEntityToProtoMessage | services/match_app/service/helper.go:5-22 | encodes every match with its id, users and category names |
| Link.MapFromProtoMessageToEntity | services/game_app/service/helper.go:8-22 | decodes every match with its id, users and category names, unknown categories to UNKNOWN |
| Link.MapFromProtoMessageToQuizRequests | services/question_app/service/helper.go:8-22 | decodes every match with its id, users and category names, unknown categories to MUSIC |
| Link.MapQuestionsToProtoMessage | services/question_app/service/helper.go:24-42 | encodes every question field by field under the match id |
| Link.MapFromProtoMessageToQuestionsEntity | services/game_app/service/helper.go:24-39 | decodes every question with no deadline yet |
| Link.DecodersAgreeExactly | services/question_app/service/entity.go:18-29 | the two decoders agree on a category name exactly when players can wait in it; others become UNKNOWN in the one and MUSIC in the other |
| Link.QuestionRoundTrip | services/game_app/service/helper.go:24-39 | content always survives, without a deadline; category and difficulty exactly when the game knows their names, which otherwise become UNKNOWN |
| Link.DecodedIsDeliverable | services/game_app/service/helper.go:24-39 | up to ten questions of the question service, decoded, are what a delivery in a run takes |
| Link.PublishedMatch | services/match_app/service/service.go:116-131 | in every run a published match has an id drawn by that tick for its category, one known category and an even number, at least two, of distinct users |
| Link.PublishedMatchDecodes | services/match_app/service/helper.go:5-22 | both consumers decode it to the same match id, users and category |
| Link.MatchBecomesGame | services/game_app/service/match_consumer.go:21-48 | every match of every published batch becomes one game of the same, distinct users under the drawn match id, and its quorum is their even number |
| Link.MatchesStayApart | services/match_app/service/service.go:124-131 | if the ULIDs a tick draws differ, no two of its games are under one match id |

## Left out

- Float64: scores, bonus and seconds use exact integer arithmetic in place of floating point.
- Sub-call races: a repository call is one step, so the gap between a lookup and the write that follows it in CreateGame, UpsertReadyPlayer and SavePlayerAnswer is not modelled; nor are overlapping ticks.
- Failures and expiry: Redis and Mongo calls succeed and entries do not expire; only the broker may refuse a batch.
- ULIDs: match ids are inputs; that two groups of one tick draw different ids is not claimed.
- GetGame on a game without questions: the background goroutine would dereference a nil pointer; the run model reads a document back only when it has questions.
- IncreaseGameQuestionCurrentIndex has no caller and is not modelled.
- ProcessGameCompletion, sendQuestionToPlayer and writeMessage only read state and write to connections.
- AddToWaitingList over HTTP ends in the same repository call as the broker path and adds only validation.
- The ADD_TO_WAITING_LIST branch only forwards a request, an unknown category included (the flow document says it stops there); the model starts where the matcher receives it and drops such a category.
- User status strings, the connection map, WebSocket framing, Kafka, HTTP and gRPC handlers, logging, configuration and migrations.
- User accounts, tokens and the SQL selection of questions; byte encodings of JSON, BSON and protobuf are taken as lossless.
- Sorting.SortSlice: Go's own algorithm is not part of this model; a selection sort stands in for it and callers see only its contract.
