/** The matchmaking service: one tick, the publication of its matches, and joins. */
module MatchService {
  import opened Catalogue
  import opened GoRuntime
  import opened Matching
  import opened Sequences
  import opened Sorting
  import opened WaitingLists

  /** The clock readings of a tick, two for each category in the order of GetCategories. */
  ghost predicate InTickWindow(w: Waiting, span: int, clock: seq<(int, int)>, m: WaitingMember)
    requires |clock| == |GetCategories()|
  {
    exists i :: 0 <= i < |GetCategories()| &&
      InRange(w, GetCategories()[i], UnixMicro(clock[i].0 + span), UnixMicro(clock[i].1), m)
  }

  /** ms holds, each once and oldest first, the members a tick with these clock readings sees. */
  ghost predicate TickOrder(w: Waiting, span: int, clock: seq<(int, int)>, ms: seq<WaitingMember>)
    requires |clock| == |GetCategories()|
  {
    && DistinctSlots(ms)
    && ByTime(ms)
    && (forall m :: m in ms <==> InTickWindow(w, span, clock, m))
  }

  function Draws(n: nat, ulid: nat -> string): (ids: seq<string>)
    ensures |ids| == n && forall i :: 0 <= i < n ==> ids[i] == ulid(i)
  {
    seq(n, i requires 0 <= i < n => ulid(i))
  }

  class Service {
    const repository: MatchMakingRepository
    /** The batches the broker has accepted. */
    var published: seq<seq<MatchedUsers>>

    constructor (repository: MatchMakingRepository)
      ensures this.repository == repository && published == []
    {
      this.repository := repository;
      published := [];
    }

    /** A join request from the broker: an unknown category is dropped. */
    method ConsumeJoinMatchQueueRequest(userId: nat, category: string, now: int)
      modifies repository.db
      ensures repository.db.entries ==
        if category in GetCategories() then Joined(old(repository.db.entries), Slot(category, userId), now)
        else old(repository.db.entries)
    {
      CategoriesDiffer();
      var c := MapToCategory(category);
      if c == UNKNOWN {
        return;
      }
      repository.AddToWaitingList(c, userId, now);
    }

    /** The index of the first group that has the category, or -1. */
    static method IndexOf(ready: seq<MatchedUsers>, c: Category) returns (index: int)
      ensures -1 <= index < |ready|
      ensures index >= 0 ==> c in ready[index].category
      ensures forall i :: 0 <= i < (if index >= 0 then index else |ready|) ==> c !in ready[i].category
    {
      for i := 0 to |ready|
        invariant forall k :: 0 <= k < i ==> c !in ready[k].category
      {
        if c in ready[i].category {
          return i;
        }
      }
      return -1;
    }

    /** The grouping loop: append to the group found by index, or start a new group. */
    static method GroupByCategory(members: seq<WaitingMember>) returns (ready: seq<MatchedUsers>)
      ensures ready == Groups(members)
    {
      ready := [];
      for i := 0 to |members|
        invariant ready == Groups(members[..i])
      {
        var m := members[i];
        assert members[..i + 1] == members[..i] + [m];
        var index := IndexOf(ready, m.category);
        if index != -1 {
          assert ready[index].category == [CategoriesIn(members[..i])[index]];
          GroupJoined(members[..i], m, index);
          ready := ready[index := ready[index].(userId := ready[index].userId + [m.userId])];
        } else {
          forall c | c in CategoriesIn(members[..i])
            ensures c != m.category
          {
            var k :| 0 <= k < |ready| && CategoriesIn(members[..i])[k] == c;
            assert ready[k].category == [c];
          }
          GroupStarted(members[..i], m);
          ready := ready + [MatchedUsers("", [m.category], [m.userId])];
        }
      }
      assert members[..|members|] == members;
    }

    /** The truncation loop: skip groups of fewer than two, drop the last user of an odd group. */
    static method TakeEvenPrefixes(ready: seq<MatchedUsers>, ulid: nat -> string) returns (final: seq<MatchedUsers>)
      ensures final == FinalUsers(ready, Draws(|ready|, ulid))
      ensures forall f :: f in final ==>
        exists i :: 0 <= i < |ready| && CutFrom(ready[i], ulid(i), f)
    {
      final := [];
      for i := 0 to |ready|
        invariant final == FinalUsers(ready[..i], Draws(i, ulid))
      {
        var r := |ready[i].userId|;
        assert ready[..i + 1][..i] == ready[..i] && ready[..i + 1][i] == ready[i];
        assert Draws(i + 1, ulid)[..i] == Draws(i, ulid) && Draws(i + 1, ulid)[i] == ulid(i);
        if r < 2 {
          continue;
        }
        if r % 2 != 0 {
          r := r - 1;
        }
        final := final + [MatchedUsers(ulid(i), ready[i].category, ready[i].userId[..r])];
      }
      assert ready[..|ready|] == ready;
      forall f | f in final
        ensures exists i :: 0 <= i < |ready| && CutFrom(ready[i], ulid(i), f)
      {
        FinalSource(ready, Draws(|ready|, ulid), f);
      }
    }

    static method HandedMembers(users: seq<MatchedUsers>) returns (members: seq<WaitingMember>)
      requires OneCategory(users)
      ensures Slots(members) == Handed(users)
    {
      members := [];
      for i := 0 to |users|
        invariant Slots(members) == Handed(users[..i])
      {
        ghost var before := members;
        for j := 0 to |users[i].userId|
          invariant Slots(members) == Slots(before) + SlotsOf(users[i])[..j]
        {
          var member := WaitingMember(users[i].userId[j], 0, users[i].category[0]);
          assert Slots(members + [member]) == Slots(members) + [SlotOf(member)];
          assert SlotsOf(users[i])[..j + 1] == SlotsOf(users[i])[..j] + [SlotOf(member)];
          members := members + [member];
        }
        assert users[..i + 1][..i] == users[..i];
      }
      assert users[..|users|] == users;
    }

    /** Publishes the matches and removes their members, whether or not the broker took the message. */
    method PublishFinalUsers(users: seq<MatchedUsers>, brokerUp: bool)
      requires OneCategory(users)
      modifies this, repository.db
      ensures published == if brokerUp then old(published) + [users] else old(published)
      ensures repository.db.entries == Without(old(repository.db.entries), Handed(users))
    {
      if brokerUp {
        published := published + [users];
      }
      var members := HandedMembers(users);
      repository.RemoveWaitingMember(members);
    }

    /** The three reads of a tick, gathered in one list. */
    method ReadWaitingMembers(clock: seq<(int, int)>) returns (members: seq<WaitingMember>)
      requires |clock| == |GetCategories()|
      ensures DistinctSlots(members)
      ensures forall m :: m in members <==>
        InTickWindow(repository.db.entries, repository.minTimeSelection, clock, m)
    {
      CategoriesDiffer();
      ghost var w, span := repository.db.entries, repository.minTimeSelection;
      members := [];
      for i := 0 to |GetCategories()|
        invariant DistinctSlots(members)
        invariant forall m :: m in members <==>
          exists k :: 0 <= k < i &&
            InRange(w, GetCategories()[k], UnixMicro(clock[k].0 + span), UnixMicro(clock[k].1), m)
      {
        var result := repository.GetWaitingListByCategory(GetCategories()[i], clock[i].0, clock[i].1);
        forall p, q | 0 <= p < |members| && 0 <= q < |result|
          ensures SlotOf(members[p]) != SlotOf(result[q])
        {
          assert members[p] in members && result[q] in result;
        }
        members := members + result;
      }
    }

    /**
     * One tick with no join in between.  The order an unstable sort leaves the
     * members in is any order that lists them oldest first.
     */
    method MatchWaitUsers(clock: seq<(int, int)>, ulid: nat -> string, brokerUp: bool)
      requires |clock| == |GetCategories()|
      modifies this, repository.db
      ensures exists order ::
        && TickOrder(old(repository.db.entries), repository.minTimeSelection, clock, order)
        && var final := FinalUsers(Groups(order), Draws(|Groups(order)|, ulid));
        && OneCategory(final)
        && repository.db.entries == Without(old(repository.db.entries), Handed(final))
        && published == if final != [] && brokerUp then old(published) + [final] else old(published)
    {
      var members := ReadWaitingMembers(clock);
      var a := new WaitingMember[|members|](i requires 0 <= i < |members| => members[i]);
      assert a[..] == members;
      SortSlice(a, (m: WaitingMember) => m.timeStamp);
      var order := a[..];
      SortedRead(members, order);
      var ready := GroupByCategory(order);
      var final := TakeEvenPrefixes(ready, ulid);
      TickHandsOver(order, Draws(|Groups(order)|, ulid));
      if |final| > 0 {
        PublishFinalUsers(final, brokerUp);
      } else {
        assert Without(repository.db.entries, []) == repository.db.entries;
      }
      assert TickOrder(old(repository.db.entries), repository.minTimeSelection, clock, order);
    }

    static lemma SortedRead(members: seq<WaitingMember>, order: seq<WaitingMember>)
      requires DistinctSlots(members) && multiset(order) == multiset(members)
      requires SortedBy(order, (m: WaitingMember) => m.timeStamp)
      ensures DistinctSlots(order) && ByTime(order)
      ensures forall m :: m in order <==> m in members
    {
      RearrangedSlots(members, order);
      var key := (m: WaitingMember) => m.timeStamp;
      forall i, j | 0 <= i <= j < |order|
        ensures order[i].timeStamp <= order[j].timeStamp
      {
        assert key(order[i]) <= key(order[j]);
      }
    }
  }

  /**
   * Conservation and FIFO across an uninterleaved tick.  The waiting map splits
   * into matched and still waiting; times of those who stay are unchanged;
   * whoever is outside the window stays; in each category at most one member in
   * the window stays, and nobody who was matched came after that one.
   */
  lemma TickConserves(w: Waiting, span: int, clock: seq<(int, int)>, order: seq<WaitingMember>, ids: seq<string>)
    requires |clock| == |GetCategories()|
    requires TickOrder(w, span, clock, order)
    requires |ids| == |Groups(order)|
    requires OneCategory(FinalUsers(Groups(order), ids))
    ensures var handed := Handed(FinalUsers(Groups(order), ids));
            var w' := Without(w, handed);
      && Distinct(handed)
      && w'.Keys + (set k | k in handed) == w.Keys
      && w'.Keys !! (set k | k in handed)
      && (forall k :: k in w' ==> w'[k] == w[k])
      && (forall k :: k in handed ==> InTickWindow(w, span, clock, WaitingMember(k.userId, w[k], k.category)))
      && (forall k, l :: k in w' && InTickWindow(w, span, clock, WaitingMember(k.userId, w[k], k.category))
                         && l in w && l != k && l.category == k.category
                         && InTickWindow(w, span, clock, WaitingMember(l.userId, w[l], l.category)) ==>
            l in handed && w[l] <= w[k])
  {
    TickHandsOver(order, ids);
    var handed := Handed(FinalUsers(Groups(order), ids));
    forall k | k in handed
      ensures k in w && InTickWindow(w, span, clock, WaitingMember(k.userId, w[k], k.category))
    {
      HandedWasRead(order, k);
    }
    forall k, l | k in Without(w, handed) && InTickWindow(w, span, clock, WaitingMember(k.userId, w[k], k.category))
                  && l in w && l != k && l.category == k.category
                  && InTickWindow(w, span, clock, WaitingMember(l.userId, w[l], l.category))
      ensures l in handed && w[l] <= w[k]
    {
      var m := WaitingMember(k.userId, w[k], k.category);
      var other := WaitingMember(l.userId, w[l], l.category);
      assert m in order && other in order;
      LeftOutIsLatest(order, m, other);
    }
  }

  /** The window of a tick, on its clock readings: those of the member's own category. */
  lemma TickWindow(w: Waiting, span: int, clock: seq<(int, int)>, m: WaitingMember, i: nat)
    requires |clock| == |GetCategories()| && i < |clock| && m.category == GetCategories()[i]
    ensures InTickWindow(w, span, clock, m) <==>
      && SlotOf(m) in w && w[SlotOf(m)] == m.timeStamp
      && clock[i].0 + span < 1000 * m.timeStamp + 1000 && 1000 * m.timeStamp <= clock[i].1
  {
    CategoriesDiffer();
    WindowOnTheClock(w, m.category, clock[i].0 + span, clock[i].1, m);
    if InTickWindow(w, span, clock, m) {
      var k :| 0 <= k < |GetCategories()| &&
        InRange(w, GetCategories()[k], UnixMicro(clock[k].0 + span), UnixMicro(clock[k].1), m);
      assert k == i;
    }
  }

  /** A slot among the matched ones belongs to a member that was read. */
  lemma HandedWasRead(order: seq<WaitingMember>, k: Slot)
    requires k.userId in UserIds(MatchedPart(order, k.category))
    ensures exists m :: m in order && SlotOf(m) == k
  {
    var part := MatchedPart(order, k.category);
    var i :| 0 <= i < |part| && UserIds(part)[i] == k.userId;
    assert OfCategory(order, k.category)[i] == part[i];
    OfCategoryMembers(order, k.category, part[i]);
    assert SlotOf(part[i]) == k;
  }
}
