/** The leaderboard: answers folded into one entry per player, best first. */
module LeaderBoards {
  import opened Decimals
  import opened GameStore
  import opened GoRuntime
  import opened Sequences
  import opened Sorting

  datatype QuestionCorrectness = QuestionCorrectness(
    questionId: string,
    playerChoice: string,
    correctChoice: string,
    isCorrect: bool)

  datatype PlayerPoint = PlayerPoint(
    playerId: string,
    point: int,
    questionCorrectness: seq<QuestionCorrectness>)

  /** What the leaderboard calls a correct answer. */
  predicate CountsAsCorrect(a: PlayerAnswer) { a.timeDiff > 0 && a.point > 0 }

  /** The question id is left empty. */
  function MarkOf(a: PlayerAnswer): QuestionCorrectness {
    QuestionCorrectness("", a.playerChoice, a.correctChoice, CountsAsCorrect(a))
  }

  function PlayerKey(player: nat): string { FormatInt(Wrap64(player)) }

  // ----------------------------------------------------------- specification

  function PointsOf(answers: seq<PlayerAnswer>, id: string): int {
    if answers == [] then 0 else
      var a := answers[|answers| - 1];
      PointsOf(answers[..|answers| - 1], id) + if a.playerId == id then a.point else 0
  }

  function MarksOf(answers: seq<PlayerAnswer>, id: string): seq<QuestionCorrectness> {
    if answers == [] then [] else
      var a := answers[|answers| - 1];
      MarksOf(answers[..|answers| - 1], id) + if a.playerId == id then [MarkOf(a)] else []
  }

  function EntryFor(answers: seq<PlayerAnswer>, id: string): PlayerPoint {
    PlayerPoint(id, PointsOf(answers, id), MarksOf(answers, id))
  }

  predicate Answered(answers: seq<PlayerAnswer>, id: string) {
    exists a :: a in answers && a.playerId == id
  }

  predicate Plays(players: seq<nat>, id: string) {
    exists p :: p in players && PlayerKey(p) == id
  }

  function Ids(board: seq<PlayerPoint>): seq<string> {
    seq(|board|, i requires 0 <= i < |board| => board[i].playerId)
  }

  function Points(board: seq<PlayerPoint>): seq<int> {
    seq(|board|, i requires 0 <= i < |board| => board[i].point)
  }

  /** One entry for everybody who plays or answered, with the sum and the list of their answers. */
  ghost predicate IsTable(board: seq<PlayerPoint>, answers: seq<PlayerAnswer>, players: seq<nat>) {
    && Distinct(Ids(board))
    && (forall id :: id in Ids(board) <==> Answered(answers, id) || Plays(players, id))
    && (forall p :: p in board ==> p == EntryFor(answers, p.playerId))
  }

  /** Such a table, most points first. */
  ghost predicate IsBoard(board: seq<PlayerPoint>, answers: seq<PlayerAnswer>, players: seq<nat>) {
    IsTable(board, answers, players) && Descending(Points(board))
  }

  // --------------------------------------------- what a leaderboard must show

  /**
   * Most points first, nobody twice, and listed are the players of the game and
   * whoever has answered, under the decimal spelling of their ids; ids beyond
   * int64 aside, which the game spells as negative numbers.
   */
  ghost predicate ListsRight(board: seq<PlayerPoint>, answers: seq<PlayerAnswer>, players: seq<nat>) {
    && (forall i, j :: 0 <= i < j < |board| ==>
          board[i].playerId != board[j].playerId && board[i].point >= board[j].point)
    && ((forall p :: p in players ==> p <= 9_223_372_036_854_775_807) ==>
          forall id :: id in Ids(board) <==>
            (exists p :: p in players && FormatUint(p) == id) || (exists a :: a in answers && a.playerId == id))
  }

  lemma BoardLists(board: seq<PlayerPoint>, answers: seq<PlayerAnswer>, players: seq<nat>)
    requires IsBoard(board, answers, players)
    ensures ListsRight(board, answers, players)
  {
    forall i, j | 0 <= i < j < |board|
      ensures board[i].playerId != board[j].playerId && board[i].point >= board[j].point
    {
      assert Ids(board)[i] != Ids(board)[j] && Points(board)[i] >= Points(board)[j];
    }
    if forall p :: p in players ==> p <= 9_223_372_036_854_775_807 {
      forall p | p in players
        ensures PlayerKey(p) == FormatUint(p)
      {
        SpellingsAgree(p);
      }
    }
  }

  ghost function Spellings(players: set<nat>): set<string> { Image<nat, string>(players, FormatUint) }

  lemma SpellingCount(players: set<nat>)
    ensures |Spellings(players)| == |players|
  {
    forall p, q | FormatUint(p) == FormatUint(q)
      ensures p == q
    {
      FormatInjective(p, q);
    }
    ImageCount<nat, string>(players, FormatUint);
  }

  lemma SpelledPlayers(board: seq<PlayerPoint>, answers: seq<PlayerAnswer>, players: seq<nat>)
    requires ListsRight(board, answers, players)
    requires forall p :: p in players ==> p <= 9_223_372_036_854_775_807
    requires forall a :: a in answers ==> exists p :: p in players && FormatUint(p) == a.playerId
    ensures Elements(Ids(board)) == Spellings(Elements(players))
    ensures forall p :: p in players ==> FormatUint(p) in Ids(board)
  {
    var spellings := Spellings(Elements(players));
    forall id
      ensures id in Ids(board) <==> id in spellings
    {
      if id in Ids(board) {
        assert exists p :: p in players && FormatUint(p) == id;
      }
    }
  }

  /** If only players have answered, the leaderboard has one entry for each of them. */
  lemma OneEntryEach(board: seq<PlayerPoint>, answers: seq<PlayerAnswer>, players: seq<nat>)
    requires IsBoard(board, answers, players)
    requires forall p :: p in players ==> p <= 9_223_372_036_854_775_807
    requires forall a :: a in answers ==> exists p :: p in players && FormatUint(p) == a.playerId
    ensures |board| == |Elements(players)|
    ensures forall p :: p in players ==> FormatUint(p) in Ids(board)
  {
    BoardLists(board, answers, players);
    SpelledPlayers(board, answers, players);
    SpellingCount(Elements(players));
    DistinctElements(Ids(board));
  }

  /** pos lists, in order, where the answers of id stand. */
  ghost predicate PositionsOf(answers: seq<PlayerAnswer>, id: string, pos: seq<nat>) {
    && (forall i, j :: 0 <= i < j < |pos| ==> pos[i] < pos[j])
    && (forall k :: 0 <= k < |pos| ==> pos[k] < |answers|)
    && (forall i :: 0 <= i < |answers| ==> (i in pos <==> answers[i].playerId == id))
  }

  function PointsThere(answers: seq<PlayerAnswer>, pos: seq<nat>): int
    requires forall k :: 0 <= k < |pos| ==> pos[k] < |answers|
  {
    if pos == [] then 0 else PointsThere(answers, pos[..|pos| - 1]) + answers[pos[|pos| - 1]].point
  }

  /** What a mark shows of an answer. */
  ghost predicate Shows(mark: QuestionCorrectness, a: PlayerAnswer) {
    && mark.playerChoice == a.playerChoice && mark.correctChoice == a.correctChoice && mark.questionId == ""
    && (mark.isCorrect <==> a.timeDiff > 0 && a.point > 0)
  }

  lemma {:induction false} SamePoints(x: seq<PlayerAnswer>, y: seq<PlayerAnswer>, pos: seq<nat>)
    requires x <= y && forall k :: 0 <= k < |pos| ==> pos[k] < |x|
    ensures PointsThere(x, pos) == PointsThere(y, pos)
  {
    if pos != [] {
      SamePoints(x, y, pos[..|pos| - 1]);
    }
  }

  function OwnAnswers(answers: seq<PlayerAnswer>, id: string): (pos: seq<nat>)
    ensures forall k :: 0 <= k < |pos| ==> pos[k] < |answers|
  {
    if answers == [] then [] else
      var n := |answers| - 1;
      OwnAnswers(answers[..n], id) + if answers[n].playerId == id then [n] else []
  }

  lemma {:induction false} OwnPositions(answers: seq<PlayerAnswer>, id: string)
    ensures PositionsOf(answers, id, OwnAnswers(answers, id))
  {
    if answers != [] {
      var n := |answers| - 1;
      OwnPositions(answers[..n], id);
      var front, pos := OwnAnswers(answers[..n], id), OwnAnswers(answers, id);
      forall i | 0 <= i < |answers|
        ensures i in pos <==> answers[i].playerId == id
      {
        assert i in pos <==> i in front || (i == n && answers[n].playerId == id);
        assert i < n ==> answers[..n][i] == answers[i];
      }
    }
  }

  lemma {:induction false} OwnPoints(answers: seq<PlayerAnswer>, id: string)
    ensures PointsOf(answers, id) == PointsThere(answers, OwnAnswers(answers, id))
  {
    if answers != [] {
      var n := |answers| - 1;
      var front := OwnAnswers(answers[..n], id);
      OwnPoints(answers[..n], id);
      SamePoints(answers[..n], answers, front);
      if answers[n].playerId == id {
        assert OwnAnswers(answers, id)[..|front|] == front;
      } else {
        assert OwnAnswers(answers, id) == front;
      }
    }
  }

  lemma {:induction false} OwnMarks(answers: seq<PlayerAnswer>, id: string)
    ensures |MarksOf(answers, id)| == |OwnAnswers(answers, id)|
    ensures forall k :: 0 <= k < |MarksOf(answers, id)| ==>
      Shows(MarksOf(answers, id)[k], answers[OwnAnswers(answers, id)[k]])
  {
    if answers != [] {
      OwnMarks(answers[..|answers| - 1], id);
    }
  }

  /**
   * An entry of the leaderboard: its points are the sum of the points of that
   * player's answers, and its k-th mark shows the choice sent in the k-th of
   * them, the right choice of its question, and whether it counted.
   */
  lemma EntryShows(board: seq<PlayerPoint>, answers: seq<PlayerAnswer>, players: seq<nat>, p: PlayerPoint)
    returns (pos: seq<nat>)
    requires IsBoard(board, answers, players) && p in board
    ensures PositionsOf(answers, p.playerId, pos)
    ensures p.point == PointsThere(answers, pos)
    ensures |p.questionCorrectness| == |pos|
    ensures forall k :: 0 <= k < |pos| ==> Shows(p.questionCorrectness[k], answers[pos[k]])
  {
    pos := OwnAnswers(answers, p.playerId);
    OwnPositions(answers, p.playerId);
    OwnPoints(answers, p.playerId);
    OwnMarks(answers, p.playerId);
  }

  lemma {:induction false} NothingAnswered(answers: seq<PlayerAnswer>, id: string)
    requires !Answered(answers, id)
    ensures PointsOf(answers, id) == 0 && MarksOf(answers, id) == []
  {
    if answers != [] {
      var front, a := answers[..|answers| - 1], answers[|answers| - 1];
      assert a in answers;
      forall b | b in front
        ensures b.playerId != id
      {
        assert b in answers;
      }
      NothingAnswered(front, id);
    }
  }

  lemma OneMoreAnswer(answers: seq<PlayerAnswer>, i: nat)
    requires i < |answers|
    ensures forall id :: Answered(answers[..i + 1], id) <==> Answered(answers[..i], id) || id == answers[i].playerId
    ensures forall id :: id != answers[i].playerId ==> EntryFor(answers[..i + 1], id) == EntryFor(answers[..i], id)
    ensures var id := answers[i].playerId;
      EntryFor(answers[..i + 1], id) ==
        PlayerPoint(id, PointsOf(answers[..i], id) + answers[i].point, MarksOf(answers[..i], id) + [MarkOf(answers[i])])
  {
    var front, a := answers[..i], answers[i];
    assert answers[..i + 1] == front + [a];
    assert (front + [a])[..i] == front;
    assert forall b :: b in front + [a] <==> b in front || b == a;
    assert Answered(front + [a], a.playerId) by {
      assert a in front + [a];
    }
    forall id | Answered(front, id)
      ensures Answered(front + [a], id)
    {
      var b :| b in front && b.playerId == id;
      assert b in front + [a];
    }
  }

  // ---------------------------------------------------------- implementation

  method FoldAnswers(answers: seq<PlayerAnswer>) returns (entries: map<string, PlayerPoint>)
    ensures forall id :: id in entries <==> Answered(answers, id)
    ensures forall id :: id in entries ==> entries[id] == EntryFor(answers, id)
  {
    entries := map[];
    for i := 0 to |answers|
      invariant forall id :: id in entries <==> Answered(answers[..i], id)
      invariant forall id :: id in entries ==> entries[id] == EntryFor(answers[..i], id)
    {
      var a := answers[i];
      OneMoreAnswer(answers, i);
      if a.playerId in entries {
        var player := entries[a.playerId];
        entries := entries[a.playerId := player.(point := player.point + a.point,
                                                 questionCorrectness := player.questionCorrectness + [MarkOf(a)])];
      } else {
        NothingAnswered(answers[..i], a.playerId);
        entries := entries[a.playerId := PlayerPoint(a.playerId, a.point, [MarkOf(a)])];
      }
    }
    assert answers[..|answers|] == answers;
  }

  method AddSilentPlayers(answers: seq<PlayerAnswer>, players: seq<nat>, folded: map<string, PlayerPoint>)
    returns (entries: map<string, PlayerPoint>)
    requires forall id :: id in folded <==> Answered(answers, id)
    requires forall id :: id in folded ==> folded[id] == EntryFor(answers, id)
    ensures forall id :: id in entries <==> Answered(answers, id) || Plays(players, id)
    ensures forall id :: id in entries ==> entries[id] == EntryFor(answers, id)
  {
    entries := folded;
    for i := 0 to |players|
      invariant forall id :: id in entries <==> Answered(answers, id) || Plays(players[..i], id)
      invariant forall id :: id in entries ==> entries[id] == EntryFor(answers, id)
    {
      var playerId := PlayerKey(players[i]);
      assert players[..i + 1] == players[..i] + [players[i]];
      assert players[i] in players[..i + 1];
      assert forall p :: p in players[..i] ==> p in players[..i + 1];
      if playerId !in entries {
        NothingAnswered(answers, playerId);
        entries := entries[playerId := PlayerPoint(playerId, 0, [])];
      }
    }
    assert players[..|players|] == players;
  }

  /** Ranging over a Go map visits its keys in any order. */
  method Flatten(entries: map<string, PlayerPoint>) returns (list: seq<PlayerPoint>)
    requires forall id :: id in entries ==> entries[id].playerId == id
    ensures Distinct(Ids(list))
    ensures forall id :: id in Ids(list) <==> id in entries
    ensures forall p :: p in list ==> p.playerId in entries && p == entries[p.playerId]
  {
    var rest := entries.Keys;
    list := [];
    while rest != {}
      invariant rest <= entries.Keys
      invariant Distinct(Ids(list))
      invariant forall id :: id in Ids(list) <==> id in entries && id !in rest
      invariant forall p :: p in list ==> p.playerId in entries && p == entries[p.playerId]
      decreases rest
    {
      var id :| id in rest;
      var entry := PlayerPoint(id, entries[id].point, entries[id].questionCorrectness);
      assert Ids(list + [entry]) == Ids(list) + [id];
      list := list + [entry];
      rest := rest - {id};
    }
  }

  lemma SameTable(list: seq<PlayerPoint>, board: seq<PlayerPoint>, answers: seq<PlayerAnswer>, players: seq<nat>)
    requires IsTable(list, answers, players) && multiset(board) == multiset(list)
    ensures IsTable(board, answers, players)
  {
    forall i, j | 0 <= i < j < |list|
      ensures list[i] != list[j]
    {
      assert Ids(list)[i] != Ids(list)[j];
    }
    DistinctRearranged(list, board);
    forall i, j | 0 <= i < j < |board|
      ensures Ids(board)[i] != Ids(board)[j]
    {
      assert board[i] in list && board[j] in list;
    }
    forall id
      ensures id in Ids(board) <==> id in Ids(list)
    {
      if id in Ids(board) {
        var i :| 0 <= i < |board| && Ids(board)[i] == id;
        assert board[i] in list;
        var j :| 0 <= j < |list| && list[j] == board[i];
        assert Ids(list)[j] == id;
      }
      if id in Ids(list) {
        var i :| 0 <= i < |list| && Ids(list)[i] == id;
        assert list[i] in board;
        var j :| 0 <= j < |board| && board[j] == list[i];
        assert Ids(board)[j] == id;
      }
    }
  }

  /** The leaderboard of a game, from its answers in the order Mongo happened to list them. */
  method BuildLeaderBoard(answers: seq<PlayerAnswer>, players: seq<nat>) returns (board: seq<PlayerPoint>)
    ensures IsBoard(board, answers, players)
    ensures ListsRight(board, answers, players)
  {
    var entries := FoldAnswers(answers);
    entries := AddSilentPlayers(answers, players, entries);
    var list := Flatten(entries);
    var a := new PlayerPoint[|list|](i requires 0 <= i < |list| => list[i]);
    assert a[..] == list;
    var key := (p: PlayerPoint) => -p.point;
    SortSlice(a, key);
    board := a[..];
    SameTable(list, board, answers, players);
    forall i, j | 0 <= i <= j < |board|
      ensures Points(board)[i] >= Points(board)[j]
    {
      assert key(board[i]) <= key(board[j]);
    }
    BoardLists(board, answers, players);
  }

  // -------------------------------------------------------------- grand total

  function Total(points: seq<int>): int {
    if points == [] then 0 else Total(points[..|points| - 1]) + points[|points| - 1]
  }

  function TotalOf(answers: seq<PlayerAnswer>): int {
    if answers == [] then 0 else TotalOf(answers[..|answers| - 1]) + answers[|answers| - 1].point
  }

  function TotalFor(ids: seq<string>, answers: seq<PlayerAnswer>): int {
    if ids == [] then 0 else TotalFor(ids[..|ids| - 1], answers) + PointsOf(answers, ids[|ids| - 1])
  }

  lemma {:induction false} OneAnswerMore(ids: seq<string>, answers: seq<PlayerAnswer>, a: PlayerAnswer)
    requires Distinct(ids)
    ensures TotalFor(ids, answers + [a]) == TotalFor(ids, answers) + if a.playerId in ids then a.point else 0
  {
    if ids != [] {
      var front, last := ids[..|ids| - 1], ids[|ids| - 1];
      assert ids == front + [last];
      OneAnswerMore(front, answers, a);
      assert (answers + [a])[..|answers|] == answers;
    }
  }

  lemma {:induction false} AllAnswersCounted(ids: seq<string>, answers: seq<PlayerAnswer>)
    requires Distinct(ids) && forall a :: a in answers ==> a.playerId in ids
    ensures TotalFor(ids, answers) == TotalOf(answers)
  {
    if answers == [] {
      NoAnswersNoTotal(ids);
    } else {
      var front, a := answers[..|answers| - 1], answers[|answers| - 1];
      assert answers == front + [a];
      AllAnswersCounted(ids, front);
      OneAnswerMore(ids, front, a);
    }
  }

  lemma {:induction false} NoAnswersNoTotal(ids: seq<string>)
    ensures TotalFor(ids, []) == 0
  {
    if ids != [] {
      NoAnswersNoTotal(ids[..|ids| - 1]);
    }
  }

  lemma {:induction false} BoardTotals(board: seq<PlayerPoint>, answers: seq<PlayerAnswer>)
    requires forall p :: p in board ==> p == EntryFor(answers, p.playerId)
    ensures Total(Points(board)) == TotalFor(Ids(board), answers)
  {
    if board != [] {
      var n := |board| - 1;
      BoardTotals(board[..n], answers);
      assert Points(board)[..n] == Points(board[..n]) && Ids(board)[..n] == Ids(board[..n]);
      assert board[n] == EntryFor(answers, board[n].playerId);
    }
  }

  /** The points on a leaderboard add up to the points of all stored answers of the game. */
  lemma PointsConserved(board: seq<PlayerPoint>, answers: seq<PlayerAnswer>, players: seq<nat>)
    requires IsBoard(board, answers, players)
    ensures Total(Points(board)) == TotalOf(answers)
  {
    forall a | a in answers
      ensures a.playerId in Ids(board)
    {
      assert Answered(answers, a.playerId);
    }
    AllAnswersCounted(Ids(board), answers);
    BoardTotals(board, answers);
  }

  // -------------------------------------------------------------- determinism

  lemma {:induction false} PointsSplit(x: seq<PlayerAnswer>, y: seq<PlayerAnswer>, id: string)
    ensures PointsOf(x + y, id) == PointsOf(x, id) + PointsOf(y, id)
  {
    if y == [] {
      assert x + y == x;
    } else {
      PointsSplit(x, y[..|y| - 1], id);
      assert (x + y)[..|x + y| - 1] == x + y[..|y| - 1];
    }
  }

  lemma {:induction false} MarksSplit(x: seq<PlayerAnswer>, y: seq<PlayerAnswer>, id: string)
    ensures MarksOf(x + y, id) == MarksOf(x, id) + MarksOf(y, id)
  {
    if y == [] {
      assert x + y == x;
    } else {
      MarksSplit(x, y[..|y| - 1], id);
      assert (x + y)[..|x + y| - 1] == x + y[..|y| - 1];
    }
  }

  /** Taking out the answer at position i. */
  lemma OneTaken(y: seq<PlayerAnswer>, i: nat, id: string)
    requires i < |y|
    ensures PointsOf(y, id) == PointsOf(y[..i] + y[i + 1..], id) + PointsOf([y[i]], id)
    ensures multiset(MarksOf(y, id)) == multiset(MarksOf(y[..i] + y[i + 1..], id)) + multiset(MarksOf([y[i]], id))
  {
    var before, a, after := y[..i], y[i], y[i + 1..];
    assert y == before + [a] + after;
    PointsSplit(before, after, id);
    PointsSplit(before + [a], after, id);
    PointsSplit(before, [a], id);
    MarksSplit(before, after, id);
    MarksSplit(before + [a], after, id);
    MarksSplit(before, [a], id);
  }

  /** Points, and marks up to order, do not depend on the order of the answers. */
  lemma {:induction false} OrderIrrelevant(x: seq<PlayerAnswer>, y: seq<PlayerAnswer>, id: string)
    requires multiset(x) == multiset(y)
    ensures PointsOf(x, id) == PointsOf(y, id)
    ensures multiset(MarksOf(x, id)) == multiset(MarksOf(y, id))
    decreases |x|
  {
    if x == [] {
      assert |multiset(y)| == 0;
    } else {
      var n := |x| - 1;
      var i := PullOut(x, y);
      assert y[i] == x[n];
      OrderIrrelevant(x[..n], y[..i] + y[i + 1..], id);
      OneTaken(y, i, id);
      OneTaken(x, n, id);
      assert x[..n] + x[n + 1..] == x[..n];
    }
  }

  function PointsAt(ids: seq<string>, answers: seq<PlayerAnswer>): seq<int> {
    seq(|ids|, i requires 0 <= i < |ids| => PointsOf(answers, ids[i]))
  }

  lemma {:induction false} PointsFollowIds(x: seq<string>, y: seq<string>, answers: seq<PlayerAnswer>)
    requires multiset(x) == multiset(y)
    ensures multiset(PointsAt(x, answers)) == multiset(PointsAt(y, answers))
    decreases |x|
  {
    if x == [] {
      assert |multiset(y)| == 0;
    } else {
      var n := |x| - 1;
      var i := PullOut(x, y);
      var before, after := y[..i], y[i + 1..];
      PointsFollowIds(x[..n], before + after, answers);
      var point := PointsOf(answers, x[n]);
      assert PointsAt(x, answers) == PointsAt(x[..n], answers) + [point];
      assert PointsAt(y, answers) == PointsAt(before, answers) + [point] + PointsAt(after, answers);
      assert PointsAt(before + after, answers) == PointsAt(before, answers) + PointsAt(after, answers);
    }
  }

  lemma SameElements(x: seq<string>, y: seq<string>)
    requires Distinct(x) && Distinct(y) && forall id :: id in x <==> id in y
    ensures multiset(x) == multiset(y)
  {
    forall id
      ensures multiset(x)[id] == multiset(y)[id]
    {
      DistinctMultiplicity(x, id);
      DistinctMultiplicity(y, id);
    }
  }

  /**
   * Neither the order in which Mongo lists the answers, nor the order in which
   * Go visits the map, nor the choices of the unstable sort change who is
   * listed, a player's points, a player's marks up to order, or the sequence of
   * points down the board.
   */
  lemma BoardsAgree(b: seq<PlayerPoint>, c: seq<PlayerPoint>, x: seq<PlayerAnswer>, y: seq<PlayerAnswer>,
                    players: seq<nat>)
    requires IsBoard(b, x, players) && IsBoard(c, y, players) && multiset(x) == multiset(y)
    ensures forall p, q :: p in b && q in c && p.playerId == q.playerId ==>
      p.point == q.point && multiset(p.questionCorrectness) == multiset(q.questionCorrectness)
    ensures forall id :: id in Ids(b) <==> id in Ids(c)
    ensures Points(b) == Points(c)
  {
    SameMembers(x, y);
    forall id
      ensures PointsOf(x, id) == PointsOf(y, id) && multiset(MarksOf(x, id)) == multiset(MarksOf(y, id))
    {
      OrderIrrelevant(x, y, id);
    }
    SameElements(Ids(b), Ids(c));
    PointsFollowIds(Ids(b), Ids(c), x);
    PointsOfBoard(b, x);
    PointsOfBoard(c, y);
    assert PointsAt(Ids(c), x) == PointsAt(Ids(c), y);
    DescendingUnique(Points(b), Points(c));
  }

  lemma PointsOfBoard(b: seq<PlayerPoint>, answers: seq<PlayerAnswer>)
    requires forall p :: p in b ==> p == EntryFor(answers, p.playerId)
    ensures Points(b) == PointsAt(Ids(b), answers)
  {}

  // ---------------------------------------------------------------- score cap

  /** The player answered each question once at most, and earned at most cap, on questions from qids only. */
  ghost predicate Capped(answers: seq<PlayerAnswer>, id: string, qids: set<string>, cap: nat) {
    && (forall i, j :: 0 <= i < j < |answers| && answers[i].playerId == id && answers[j].playerId == id ==>
          answers[i].questionId != answers[j].questionId)
    && (forall a :: a in answers && a.playerId == id ==>
          0 <= a.point <= cap && (a.point > 0 ==> a.questionId in qids))
  }

  /** Without the last answer, and without the question that earned its points. */
  lemma CappedFront(answers: seq<PlayerAnswer>, id: string, qids: set<string>, cap: nat)
    requires Capped(answers, id, qids, cap) && answers != []
    ensures var front, a := answers[..|answers| - 1], answers[|answers| - 1];
      && (a.playerId == id ==> 0 <= a.point <= cap && (a.point > 0 ==> a.questionId in qids))
      && Capped(front, id, if a.playerId == id && a.point > 0 then qids - {a.questionId} else qids, cap)
  {
    var n := |answers| - 1;
    var front, a := answers[..n], answers[n];
    assert a in answers;
    forall b | b in front && b.playerId == id
      ensures b in answers && (a.playerId == id ==> b.questionId != a.questionId)
    {
      var i :| 0 <= i < n && answers[i] == b;
    }
  }

  /** Pigeonhole: at most cap for each of the questions. */
  lemma {:induction false} CappedByQuestions(answers: seq<PlayerAnswer>, id: string, qids: set<string>, cap: nat)
    requires Capped(answers, id, qids, cap)
    ensures 0 <= PointsOf(answers, id) <= |qids| * cap
  {
    if answers != [] {
      var front, a := answers[..|answers| - 1], answers[|answers| - 1];
      CappedFront(answers, id, qids, cap);
      if a.playerId == id && a.point > 0 {
        CappedByQuestions(front, id, qids - {a.questionId}, cap);
        OneMore(qids, a.questionId, cap);
      } else {
        CappedByQuestions(front, id, qids, cap);
      }
    }
  }

  lemma OneMore(qids: set<string>, q: string, cap: nat)
    requires q in qids
    ensures |qids| * cap == |qids - {q}| * cap + cap
  {}
}
