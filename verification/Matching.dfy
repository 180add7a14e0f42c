/**
 * What one matchmaking tick makes of the members it has read: a group for
 * every category, the largest even prefix of each group, and the members to
 * take off the waiting lists.
 */
module Matching {
  import opened Catalogue
  import opened Sequences

  datatype WaitingMember = WaitingMember(userId: nat, timeStamp: int, category: Category)
  datatype MatchedUsers = MatchedUsers(id: string, category: seq<Category>, userId: seq<nat>)

  /** A place in one category's sorted set. */
  datatype Slot = Slot(category: Category, userId: nat)

  function SlotOf(m: WaitingMember): Slot { Slot(m.category, m.userId) }

  ghost predicate ByTime(ms: seq<WaitingMember>) {
    forall i, j :: 0 <= i <= j < |ms| ==> ms[i].timeStamp <= ms[j].timeStamp
  }

  ghost predicate DistinctSlots(ms: seq<WaitingMember>) {
    forall i, j :: 0 <= i < j < |ms| ==> SlotOf(ms[i]) != SlotOf(ms[j])
  }

  // ---------------------------------------------------------------- grouping

  /** The members of category c, in the order of ms. */
  function OfCategory(ms: seq<WaitingMember>, c: Category): seq<WaitingMember> {
    if ms == [] then [] else
      var front, m := OfCategory(ms[..|ms| - 1], c), ms[|ms| - 1];
      if m.category == c then front + [m] else front
  }

  function UserIds(ms: seq<WaitingMember>): seq<nat> {
    seq(|ms|, i requires 0 <= i < |ms| => ms[i].userId)
  }

  /** The categories that occur in ms, in the order in which they first occur. */
  function CategoriesIn(ms: seq<WaitingMember>): seq<Category> {
    if ms == [] then [] else
      var front, c := CategoriesIn(ms[..|ms| - 1]), ms[|ms| - 1].category;
      if c in front then front else front + [c]
  }

  function GroupFor(ms: seq<WaitingMember>, c: Category): MatchedUsers {
    MatchedUsers("", [c], UserIds(OfCategory(ms, c)))
  }

  /** One group per category that occurs, each with exactly one category. */
  function Groups(ms: seq<WaitingMember>): seq<MatchedUsers> {
    var cs := CategoriesIn(ms);
    seq(|cs|, i requires 0 <= i < |cs| => GroupFor(ms, cs[i]))
  }

  /** Where category c first occurs in ms, or |ms|. */
  function FirstAt(ms: seq<WaitingMember>, c: Category): (n: nat)
    ensures n <= |ms|
    ensures n < |ms| ==> ms[n].category == c
    ensures forall i :: 0 <= i < n ==> ms[i].category != c
  {
    if ms == [] then 0 else
      var n := FirstAt(ms[..|ms| - 1], c);
      if n < |ms| - 1 then n else if ms[|ms| - 1].category == c then n else |ms|
  }

  lemma {:induction false} OfCategoryMembers(ms: seq<WaitingMember>, c: Category, m: WaitingMember)
    ensures m in OfCategory(ms, c) <==> m in ms && m.category == c
  {
    if ms != [] {
      OfCategoryMembers(ms[..|ms| - 1], c, m);
      assert ms == ms[..|ms| - 1] + [ms[|ms| - 1]];
    }
  }

  /**
   * A category's part of a time-ordered list is time-ordered, and of a list
   * without repeated slots has no repeated user.
   */
  lemma {:induction false} OfCategoryOrdered(ms: seq<WaitingMember>, c: Category)
    ensures ByTime(ms) ==> ByTime(OfCategory(ms, c))
    ensures DistinctSlots(ms) ==> Distinct(UserIds(OfCategory(ms, c)))
  {
    if ms != [] {
      var front, m := ms[..|ms| - 1], ms[|ms| - 1];
      OfCategoryOrdered(front, c);
      forall x | x in OfCategory(front, c)
        ensures x in front && x.category == c
      {
        OfCategoryMembers(front, c, x);
      }
      if DistinctSlots(ms) && m.category == c {
        var users := UserIds(OfCategory(front, c));
        forall u | u in users
          ensures u !in [m.userId]
        {
          var i :| 0 <= i < |users| && users[i] == u;
          var x := OfCategory(front, c)[i];
          var p :| 0 <= p < |front| && front[p] == x;
          assert SlotOf(ms[p]) != SlotOf(ms[|ms| - 1]);
        }
        DistinctAppend(users, [m.userId]);
        assert UserIds(OfCategory(ms, c)) == users + [m.userId];
      }
    }
  }

  /** Every category that occurs gets a place, in the order of its earliest member. */
  lemma {:induction false} CategoriesInOrder(ms: seq<WaitingMember>)
    ensures forall c :: c in CategoriesIn(ms) <==> FirstAt(ms, c) < |ms|
    ensures forall i, j :: 0 <= i < j < |CategoriesIn(ms)| ==>
      FirstAt(ms, CategoriesIn(ms)[i]) < FirstAt(ms, CategoriesIn(ms)[j])
  {
    if ms != [] {
      CategoriesInOrder(ms[..|ms| - 1]);
    }
  }

  lemma OccursIffCounted(ms: seq<WaitingMember>, c: Category)
    ensures OfCategory(ms, c) != [] <==> c in CategoriesIn(ms)
  {}

  /**
   * Grouping refines filtering: there is exactly one group for each category
   * that occurs, it has that category alone, and it lists the category's members
   * in the order of ms.
   */
  lemma OneGroupPerCategory(ms: seq<WaitingMember>, c: Category)
    ensures (exists m :: m in ms && m.category == c) <==>
      exists i :: 0 <= i < |Groups(ms)| && Groups(ms)[i].category == [c]
    ensures forall i, j :: 0 <= i < j < |Groups(ms)| ==> Groups(ms)[i].category != Groups(ms)[j].category
    ensures forall i :: 0 <= i < |Groups(ms)| && Groups(ms)[i].category == [c] ==>
      Groups(ms)[i].userId == UserIds(OfCategory(ms, c))
  {
    CategoriesInOrder(ms);
    if m :| m in ms && m.category == c {
      assert c in CategoriesIn(ms);
      var i :| 0 <= i < |CategoriesIn(ms)| && CategoriesIn(ms)[i] == c;
      assert Groups(ms)[i].category == [c];
    }
    forall i | 0 <= i < |Groups(ms)| && Groups(ms)[i].category == [c]
      ensures CategoriesIn(ms)[i] == c
    {
      assert Groups(ms)[i].category[0] == c;
    }
  }

  /** What one more member does to the group of category c. */
  lemma GroupStep(ms: seq<WaitingMember>, m: WaitingMember, c: Category)
    ensures GroupFor(ms + [m], c) ==
      if m.category == c then GroupFor(ms, c).(userId := GroupFor(ms, c).userId + [m.userId]) else GroupFor(ms, c)
  {
    assert (ms + [m])[..|ms|] == ms;
  }

  lemma CategoriesStep(ms: seq<WaitingMember>, m: WaitingMember)
    ensures CategoriesIn(ms + [m]) ==
      if m.category in CategoriesIn(ms) then CategoriesIn(ms) else CategoriesIn(ms) + [m.category]
  {
    assert (ms + [m])[..|ms|] == ms;
  }

  /** A member of a category that occurred joins that category's group. */
  lemma GroupJoined(ms: seq<WaitingMember>, m: WaitingMember, k: nat)
    requires k < |CategoriesIn(ms)| && CategoriesIn(ms)[k] == m.category
    ensures Groups(ms + [m]) == Groups(ms)[k := Groups(ms)[k].(userId := Groups(ms)[k].userId + [m.userId])]
  {
    CategoriesInOrder(ms);
    CategoriesStep(ms, m);
    forall i | 0 <= i < |CategoriesIn(ms)|
      ensures Groups(ms + [m])[i] ==
        if i == k then Groups(ms)[k].(userId := Groups(ms)[k].userId + [m.userId]) else Groups(ms)[i]
    {
      GroupStep(ms, m, CategoriesIn(ms)[i]);
      assert CategoriesIn(ms)[i] == m.category ==> i == k;
    }
  }

  /** A member of a new category is alone in its group. */
  lemma AloneInGroup(ms: seq<WaitingMember>, m: WaitingMember)
    requires m.category !in CategoriesIn(ms)
    ensures GroupFor(ms + [m], m.category) == MatchedUsers("", [m.category], [m.userId])
  {
    OccursIffCounted(ms, m.category);
    GroupStep(ms, m, m.category);
    assert GroupFor(ms, m.category).userId == [];
    assert [] + [m.userId] == [m.userId];
  }

  /** A member of a new category starts a group at the end. */
  lemma GroupStarted(ms: seq<WaitingMember>, m: WaitingMember)
    requires m.category !in CategoriesIn(ms)
    ensures Groups(ms + [m]) == Groups(ms) + [MatchedUsers("", [m.category], [m.userId])]
  {
    CategoriesStep(ms, m);
    AloneInGroup(ms, m);
    forall i | 0 <= i < |CategoriesIn(ms)|
      ensures Groups(ms + [m])[i] == Groups(ms)[i]
    {
      GroupStep(ms, m, CategoriesIn(ms)[i]);
    }
  }

  // ------------------------------------------------------- the even prefixes

  /** The number of users of a group that get matched: the largest even number not above its size. */
  function EvenPart(n: nat): (r: nat)
    ensures r <= n && r % 2 == 0 && n - r <= 1
    ensures n >= 2 ==> r >= 2
  {
    n - n % 2
  }

  function Truncated(g: MatchedUsers, id: string): MatchedUsers {
    MatchedUsers(id, g.category, g.userId[..EvenPart(|g.userId|)])
  }

  /** f is what a group of two or more becomes under this id: all its users, or all but the last. */
  ghost predicate CutFrom(g: MatchedUsers, id: string, f: MatchedUsers) {
    && f.id == id && f.category == g.category && |g.userId| >= 2
    && f.userId <= g.userId && |f.userId| % 2 == 0 && |g.userId| - |f.userId| <= 1
  }

  /** The matches of a tick: groups of fewer than two users are skipped; ids[i] is the ULID drawn for group i. */
  function FinalUsers(gs: seq<MatchedUsers>, ids: seq<string>): seq<MatchedUsers>
    requires |ids| == |gs|
  {
    if gs == [] then [] else
      var n := |gs| - 1;
      var front := FinalUsers(gs[..n], ids[..n]);
      if |gs[n].userId| < 2 then front else front + [Truncated(gs[n], ids[n])]
  }

  /** Every match comes from a group of at least two. */
  lemma {:induction false} FinalSource(gs: seq<MatchedUsers>, ids: seq<string>, f: MatchedUsers)
    requires |ids| == |gs|
    ensures f in FinalUsers(gs, ids) <==>
      exists i :: 0 <= i < |gs| && |gs[i].userId| >= 2 && f == Truncated(gs[i], ids[i])
  {
    if gs != [] {
      var n := |gs| - 1;
      FinalSource(gs[..n], ids[..n], f);
      var hit := |gs[n].userId| >= 2 && f == Truncated(gs[n], ids[n]);
      assert f in FinalUsers(gs, ids) <==> f in FinalUsers(gs[..n], ids[..n]) || hit;
      if i :| 0 <= i < |gs| && |gs[i].userId| >= 2 && f == Truncated(gs[i], ids[i]) {
        if i < n {
          assert gs[..n][i] == gs[i] && ids[..n][i] == ids[i];
        }
      }
      if i :| 0 <= i < n && |gs[..n][i].userId| >= 2 && f == Truncated(gs[..n][i], ids[..n][i]) {
        assert gs[i] == gs[..n][i] && ids[i] == ids[..n][i];
      }
    }
  }

  ghost predicate OneCategory(fs: seq<MatchedUsers>) {
    forall i :: 0 <= i < |fs| ==> |fs[i].category| == 1
  }

  /** The order of the groups is kept: whatever rank increases along the groups increases along the matches. */
  lemma {:induction false} FinalOrder(gs: seq<MatchedUsers>, ids: seq<string>, rank: Category -> int)
    requires |ids| == |gs| && OneCategory(gs)
    requires forall i, j :: 0 <= i < j < |gs| ==> rank(gs[i].category[0]) < rank(gs[j].category[0])
    ensures OneCategory(FinalUsers(gs, ids))
    ensures forall i, j :: 0 <= i < j < |FinalUsers(gs, ids)| ==>
      rank(FinalUsers(gs, ids)[i].category[0]) < rank(FinalUsers(gs, ids)[j].category[0])
    ensures gs != [] ==> forall i :: 0 <= i < |FinalUsers(gs, ids)| ==>
      rank(FinalUsers(gs, ids)[i].category[0]) <= rank(gs[|gs| - 1].category[0])
  {
    if gs != [] {
      FinalOrder(gs[..|gs| - 1], ids[..|gs| - 1], rank);
    }
  }

  /** The members of category c that a tick matches: the even prefix of the category's part of ms. */
  function MatchedPart(ms: seq<WaitingMember>, c: Category): seq<WaitingMember> {
    OfCategory(ms, c)[..EvenPart(|OfCategory(ms, c)|)]
  }

  /** Every match carries the id drawn for its group. */
  lemma {:induction false} MatchIds(gs: seq<MatchedUsers>, ids: seq<string>, f: MatchedUsers)
    requires |ids| == |gs| && f in FinalUsers(gs, ids)
    ensures exists i :: 0 <= i < |gs| && gs[i].category == f.category && ids[i] == f.id
  {
    var n := |gs| - 1;
    if f in FinalUsers(gs[..n], ids[..n]) {
      MatchIds(gs[..n], ids[..n], f);
      var i :| 0 <= i < n && gs[..n][i].category == f.category && ids[..n][i] == f.id;
      assert gs[i].category == f.category && ids[i] == f.id;
    } else {
      assert gs[n].category == f.category && ids[n] == f.id;
    }
  }

  /** The groups do not share an id that is drawn once, so different draws make different match ids. */
  lemma {:induction false} MatchIdsDiffer(gs: seq<MatchedUsers>, ids: seq<string>)
    requires |ids| == |gs| && Distinct(ids)
    ensures forall i, j :: 0 <= i < j < |FinalUsers(gs, ids)| ==> FinalUsers(gs, ids)[i].id != FinalUsers(gs, ids)[j].id
  {
    if gs != [] {
      var n := |gs| - 1;
      MatchIdsDiffer(gs[..n], ids[..n]);
      forall f | f in FinalUsers(gs[..n], ids[..n])
        ensures f.id != ids[n]
      {
        MatchIds(gs[..n], ids[..n], f);
      }
    }
  }

  /**
   * The matches of a tick, for any arrangement ms of the members read: each
   * match is the even prefix of one category's part of ms, has exactly that
   * category and the id drawn for it; every category with two members or more
   * has a match; the matches follow the order of the categories' earliest
   * members, so none repeats.
   */
  lemma TickMatches(ms: seq<WaitingMember>, ids: seq<string>)
    requires |ids| == |Groups(ms)|
    ensures var fs := FinalUsers(Groups(ms), ids);
      && (forall f :: f in fs ==>
            |f.category| == 1
            && |OfCategory(ms, f.category[0])| >= 2
            && f.userId == UserIds(MatchedPart(ms, f.category[0]))
            && (exists i :: 0 <= i < |ids| && Groups(ms)[i].category == f.category && ids[i] == f.id))
      && (Distinct(ids) ==> forall i, j :: 0 <= i < j < |fs| ==> fs[i].id != fs[j].id)
      && (forall c :: |OfCategory(ms, c)| >= 2 ==> exists f :: f in fs && f.category == [c])
      && (forall i, j :: 0 <= i < j < |fs| ==>
            FirstAt(ms, fs[i].category[0]) < FirstAt(ms, fs[j].category[0]))
  {
    var fs := FinalUsers(Groups(ms), ids);
    forall f | f in fs
      ensures |f.category| == 1
      ensures |OfCategory(ms, f.category[0])| >= 2
      ensures f.userId == UserIds(MatchedPart(ms, f.category[0]))
      ensures exists i :: 0 <= i < |ids| && Groups(ms)[i].category == f.category && ids[i] == f.id
    {
      FinalSource(Groups(ms), ids, f);
      MatchIds(Groups(ms), ids, f);
    }
    if Distinct(ids) {
      MatchIdsDiffer(Groups(ms), ids);
    }
    forall c | |OfCategory(ms, c)| >= 2
      ensures exists f :: f in fs && f.category == [c]
    {
      OccursIffCounted(ms, c);
      var i :| 0 <= i < |CategoriesIn(ms)| && CategoriesIn(ms)[i] == c;
      var f := Truncated(Groups(ms)[i], ids[i]);
      FinalSource(Groups(ms), ids, f);
      assert f in fs && f.category == [c];
    }
    MatchOrder(ms, ids);
  }

  lemma MatchOrder(ms: seq<WaitingMember>, ids: seq<string>)
    requires |ids| == |Groups(ms)|
    ensures OneCategory(FinalUsers(Groups(ms), ids))
    ensures forall i, j :: 0 <= i < j < |FinalUsers(Groups(ms), ids)| ==>
      FirstAt(ms, FinalUsers(Groups(ms), ids)[i].category[0]) < FirstAt(ms, FinalUsers(Groups(ms), ids)[j].category[0])
  {
    var fs := FinalUsers(Groups(ms), ids);
    var rank := c => FirstAt(ms, c);
    CategoriesInOrder(ms);
    FinalOrder(Groups(ms), ids, rank);
    forall i, j | 0 <= i < j < |fs|
      ensures FirstAt(ms, fs[i].category[0]) < FirstAt(ms, fs[j].category[0])
    {
      assert rank(fs[i].category[0]) < rank(fs[j].category[0]);
    }
  }

  // ------------------------------------------------------ the members handed

  function SlotsOf(f: MatchedUsers): seq<Slot>
    requires |f.category| == 1
  {
    seq(|f.userId|, i requires 0 <= i < |f.userId| => Slot(f.category[0], f.userId[i]))
  }

  /** The slots of all matched users, in the order in which they are removed. */
  function Handed(fs: seq<MatchedUsers>): seq<Slot>
    requires OneCategory(fs)
  {
    if fs == [] then [] else Handed(fs[..|fs| - 1]) + SlotsOf(fs[|fs| - 1])
  }

  lemma {:induction false} HandedMembers(fs: seq<MatchedUsers>, k: Slot)
    requires OneCategory(fs)
    ensures k in Handed(fs) <==> exists f :: f in fs && f.category == [k.category] && k.userId in f.userId
  {
    if fs != [] {
      var front, last := fs[..|fs| - 1], fs[|fs| - 1];
      assert fs == front + [last];
      HandedMembers(front, k);
      assert k in SlotsOf(last) <==> last.category == [k.category] && k.userId in last.userId by {
        if last.category == [k.category] && k.userId in last.userId {
          var i :| 0 <= i < |last.userId| && last.userId[i] == k.userId;
          assert SlotsOf(last)[i] == k;
        }
        if k in SlotsOf(last) {
          var i :| 0 <= i < |SlotsOf(last)| && SlotsOf(last)[i] == k;
          assert last.userId[i] == k.userId && last.category == [k.category];
        }
      }
    }
  }

  function UsersIn(fs: seq<MatchedUsers>): nat {
    if fs == [] then 0 else UsersIn(fs[..|fs| - 1]) + |fs[|fs| - 1].userId|
  }

  /** Match by match, and within a match in the order of its users. */
  lemma {:induction false} HandedOrder(fs: seq<MatchedUsers>, i: nat, j: nat)
    requires OneCategory(fs) && i < |fs| && j < |fs[i].userId|
    ensures |Handed(fs)| == UsersIn(fs)
    ensures UsersIn(fs[..i]) + j < |Handed(fs)|
    ensures Handed(fs)[UsersIn(fs[..i]) + j] == Slot(fs[i].category[0], fs[i].userId[j])
  {
    var n := |fs| - 1;
    HandedCount(fs);
    HandedCount(fs[..n]);
    if i < n {
      HandedOrder(fs[..n], i, j);
      assert fs[..n][..i] == fs[..i];
    }
  }

  lemma {:induction false} HandedCount(fs: seq<MatchedUsers>)
    requires OneCategory(fs)
    ensures |Handed(fs)| == UsersIn(fs)
  {
    if fs != [] {
      HandedCount(fs[..|fs| - 1]);
    }
  }

  ghost predicate DistinctCategories(fs: seq<MatchedUsers>)
    requires OneCategory(fs)
  {
    forall i, j :: 0 <= i < j < |fs| ==> fs[i].category[0] != fs[j].category[0]
  }

  lemma {:induction false} HandedDistinct(fs: seq<MatchedUsers>)
    requires OneCategory(fs) && DistinctCategories(fs)
    requires forall f :: f in fs ==> Distinct(f.userId)
    ensures Distinct(Handed(fs))
  {
    if fs != [] {
      var n := |fs| - 1;
      HandedDistinct(fs[..n]);
      forall k | k in Handed(fs[..n])
        ensures k !in SlotsOf(fs[n])
      {
        HandedMembers(fs[..n], k);
      }
      assert Distinct(fs[n].userId);
      DistinctAppend(Handed(fs[..n]), SlotsOf(fs[n]));
    }
  }

  lemma PartDistinct(ms: seq<WaitingMember>, c: Category)
    requires DistinctSlots(ms)
    ensures Distinct(UserIds(MatchedPart(ms, c)))
  {
    OfCategoryOrdered(ms, c);
    var all := UserIds(OfCategory(ms, c));
    assert UserIds(MatchedPart(ms, c)) == all[..EvenPart(|all|)];
  }

  lemma HandedBySlot(ms: seq<WaitingMember>, fs: seq<MatchedUsers>, k: Slot)
    requires OneCategory(fs)
    requires forall f :: f in fs ==> f.userId == UserIds(MatchedPart(ms, f.category[0]))
    requires |OfCategory(ms, k.category)| >= 2 ==> exists f :: f in fs && f.category == [k.category]
    ensures k in Handed(fs) <==> k.userId in UserIds(MatchedPart(ms, k.category))
  {
    HandedMembers(fs, k);
    if k.userId in UserIds(MatchedPart(ms, k.category)) {
      var f :| f in fs && f.category == [k.category];
      assert k.userId in f.userId;
    }
  }

  /** The slots a tick hands over: no slot twice, and exactly those of the matched members. */
  lemma TickHandsOver(ms: seq<WaitingMember>, ids: seq<string>)
    requires |ids| == |Groups(ms)| && DistinctSlots(ms)
    ensures OneCategory(FinalUsers(Groups(ms), ids))
    ensures Distinct(Handed(FinalUsers(Groups(ms), ids)))
    ensures forall f :: f in FinalUsers(Groups(ms), ids) ==> Distinct(f.userId)
    ensures forall k: Slot :: k in Handed(FinalUsers(Groups(ms), ids)) <==>
      k.userId in UserIds(MatchedPart(ms, k.category))
  {
    var fs := FinalUsers(Groups(ms), ids);
    TickMatches(ms, ids);
    forall i | 0 <= i < |fs|
      ensures |fs[i].category| == 1
    {
      assert fs[i] in fs;
    }
    forall f | f in fs
      ensures Distinct(f.userId)
    {
      PartDistinct(ms, f.category[0]);
    }
    HandedDistinct(fs);
    forall k: Slot
      ensures k in Handed(fs) <==> k.userId in UserIds(MatchedPart(ms, k.category))
    {
      HandedBySlot(ms, fs, k);
    }
  }

  // --------------------------------------------------------- who is left out

  ghost predicate IsHanded(ms: seq<WaitingMember>, m: WaitingMember) {
    m.userId in UserIds(MatchedPart(ms, m.category))
  }

  lemma PartMembers(ms: seq<WaitingMember>, m: WaitingMember)
    requires DistinctSlots(ms) && m in ms
    ensures IsHanded(ms, m) <==> m in MatchedPart(ms, m.category)
    ensures !IsHanded(ms, m) ==>
      var own := OfCategory(ms, m.category);
      |own| % 2 == 1 && m == own[|own| - 1]
  {
    var own := OfCategory(ms, m.category);
    OfCategoryMembers(ms, m.category, m);
    OfCategoryOrdered(ms, m.category);
    var i :| 0 <= i < |own| && own[i] == m;
    var part := MatchedPart(ms, m.category);
    if IsHanded(ms, m) {
      var j :| 0 <= j < |part| && UserIds(part)[j] == m.userId;
      assert UserIds(own)[i] == UserIds(own)[j];
      assert i == j;
    }
    if m in part {
      var j :| 0 <= j < |part| && part[j] == m;
      assert UserIds(part)[j] == m.userId;
    }
    if i < |part| {
      assert part[i] == m;
    }
  }

  /** At most one member of a category is left out, and nobody who is matched came later. */
  lemma LeftOutIsLatest(ms: seq<WaitingMember>, m: WaitingMember, other: WaitingMember)
    requires DistinctSlots(ms) && ByTime(ms)
    requires m in ms && other in ms && m != other && m.category == other.category
    requires !IsHanded(ms, m)
    ensures IsHanded(ms, other) && other.timeStamp <= m.timeStamp
  {
    PartMembers(ms, m);
    PartMembers(ms, other);
    OfCategoryMembers(ms, m.category, other);
    OfCategoryOrdered(ms, m.category);
    var own := OfCategory(ms, m.category);
    var i :| 0 <= i < |own| && own[i] == other;
    assert own[i].timeStamp <= own[|own| - 1].timeStamp;
  }

  // ------------------------------------------------- what the sort may decide

  /** What sort.Slice may make of ms: the same members, oldest first. */
  ghost predicate Arrangement(ms: seq<WaitingMember>, order: seq<WaitingMember>) {
    multiset(order) == multiset(ms) && ByTime(order)
  }

  lemma {:induction false} OfCategorySplit(x: seq<WaitingMember>, y: seq<WaitingMember>, c: Category)
    ensures OfCategory(x + y, c) == OfCategory(x, c) + OfCategory(y, c)
  {
    if y == [] {
      assert x + y == x;
    } else {
      OfCategorySplit(x, y[..|y| - 1], c);
      assert (x + y)[..|x + y| - 1] == x + y[..|y| - 1];
    }
  }

  lemma {:induction false} OfCategoryCount(ms: seq<WaitingMember>, c: Category, x: WaitingMember)
    ensures multiset(OfCategory(ms, c))[x] == if x.category == c then multiset(ms)[x] else 0
  {
    if ms != [] {
      OfCategoryCount(ms[..|ms| - 1], c, x);
      assert ms == ms[..|ms| - 1] + [ms[|ms| - 1]];
    }
  }

  /** Rearranging keeps slots apart, and every category at its size. */
  lemma Rearranged(ms: seq<WaitingMember>, order: seq<WaitingMember>, c: Category)
    requires DistinctSlots(ms) && multiset(order) == multiset(ms)
    ensures DistinctSlots(order)
    ensures forall m :: m in order <==> m in ms
    ensures |OfCategory(order, c)| == |OfCategory(ms, c)|
  {
    RearrangedSlots(ms, order);
    var a, b := multiset(OfCategory(order, c)), multiset(OfCategory(ms, c));
    forall x
      ensures a[x] == b[x]
    {
      OfCategoryCount(order, c, x);
      OfCategoryCount(ms, c, x);
    }
    assert a == b;
    assert |a| == |OfCategory(order, c)| && |b| == |OfCategory(ms, c)|;
  }

  lemma RearrangedSlots(ms: seq<WaitingMember>, order: seq<WaitingMember>)
    requires DistinctSlots(ms) && multiset(order) == multiset(ms)
    ensures DistinctSlots(order)
    ensures forall m :: m in order <==> m in ms
  {
    forall i, j | 0 <= i < j < |ms|
      ensures ms[i] != ms[j]
    {
      assert SlotOf(ms[i]) != SlotOf(ms[j]);
    }
    DistinctRearranged(ms, order);
    forall i, j | 0 <= i < j < |order|
      ensures SlotOf(order[i]) != SlotOf(order[j])
    {
      assert order[i] in ms && order[j] in ms;
      var p :| 0 <= p < |ms| && ms[p] == order[i];
      var q :| 0 <= q < |ms| && ms[q] == order[j];
    }
  }

  /** Where the members later than t begin in a time-ordered list. */
  function LaterFrom(ms: seq<WaitingMember>, t: int): (n: nat)
    requires ByTime(ms)
    ensures n <= |ms|
    ensures forall i :: 0 <= i < n ==> ms[i].timeStamp <= t
    ensures forall i :: n <= i < |ms| ==> ms[i].timeStamp > t
  {
    if ms == [] || ms[|ms| - 1].timeStamp <= t then |ms| else LaterFrom(ms[..|ms| - 1], t)
  }

  /** m put in behind all members not later than it. */
  function Inserted(ms: seq<WaitingMember>, m: WaitingMember): seq<WaitingMember>
    requires ByTime(ms)
  {
    var n := LaterFrom(ms, m.timeStamp);
    ms[..n] + [m] + ms[n..]
  }

  lemma Spliced<T>(a: seq<T>, x: T, b: seq<T>)
    ensures multiset(a + [x] + b) == multiset(a + b) + multiset{x}
  {
    assert multiset(a + [x] + b) == multiset(a + [x]) + multiset(b);
    assert multiset(a + b) == multiset(a) + multiset(b);
  }

  lemma InsertedMembers(ms: seq<WaitingMember>, m: WaitingMember)
    requires ByTime(ms)
    ensures multiset(Inserted(ms, m)) == multiset(ms) + multiset{m}
  {
    var n := LaterFrom(ms, m.timeStamp);
    Spliced(ms[..n], m, ms[n..]);
    assert ms[..n] + ms[n..] == ms;
  }

  lemma InsertedOrdered(ms: seq<WaitingMember>, m: WaitingMember)
    requires ByTime(ms)
    ensures ByTime(Inserted(ms, m))
  {
    var n, order := LaterFrom(ms, m.timeStamp), Inserted(ms, m);
    assert forall p :: 0 <= p < |order| ==> order[p] == if p < n then ms[p] else if p == n then m else ms[p - 1];
  }

  /** Every list has an oldest-first arrangement. */
  lemma {:induction false} Arrangeable(ms: seq<WaitingMember>) returns (order: seq<WaitingMember>)
    ensures Arrangement(ms, order)
  {
    order := [];
    if ms != [] {
      var k := |ms| - 1;
      var front := Arrangeable(ms[..k]);
      order := Inserted(front, ms[k]);
      InsertedMembers(front, ms[k]);
      InsertedOrdered(front, ms[k]);
      assert ms == ms[..k] + [ms[k]];
    }
  }

  lemma {:induction false} NoneOfCategory(ms: seq<WaitingMember>, c: Category)
    requires forall x :: x in ms ==> x.category != c
    ensures OfCategory(ms, c) == []
  {
    if ms != [] {
      NoneOfCategory(ms[..|ms| - 1], c);
    }
  }

  /** Nobody of m's category in ms is later than m. */
  ghost predicate AmongLatest(ms: seq<WaitingMember>, m: WaitingMember) {
    forall x :: x in ms && x.category == m.category ==> x.timeStamp <= m.timeStamp
  }

  /** Put in there, a member nobody of its category is later than comes last in its category. */
  lemma InsertedIsLast(ms: seq<WaitingMember>, m: WaitingMember)
    requires ByTime(ms) && AmongLatest(ms, m)
    ensures var own := OfCategory(Inserted(ms, m), m.category);
      own != [] && own[|own| - 1] == m
  {
    var n := LaterFrom(ms, m.timeStamp);
    OfCategorySplit(ms[..n] + [m], ms[n..], m.category);
    NoneOfCategory(ms[n..], m.category);
    assert (ms[..n] + [m])[..n] == ms[..n];
  }

  /** The last of an odd number is left out. */
  lemma LastOddIsLeftOut(ms: seq<WaitingMember>, m: WaitingMember)
    requires DistinctSlots(ms)
    requires var own := OfCategory(ms, m.category);
      |own| % 2 == 1 && own[|own| - 1] == m
    ensures !IsHanded(ms, m)
  {
    var own := OfCategory(ms, m.category);
    OfCategoryMembers(ms, m.category, m);
    PartMembers(ms, m);
    OfCategoryOrdered(ms, m.category);
    forall j | 0 <= j < |own| - 1
      ensures own[j] != m
    {
      assert UserIds(own)[j] != UserIds(own)[|own| - 1];
    }
  }

  lemma LeftOutAmongLatest(ms: seq<WaitingMember>, order: seq<WaitingMember>, m: WaitingMember)
    requires DistinctSlots(ms) && m in ms && Arrangement(ms, order) && !IsHanded(order, m)
    ensures |OfCategory(ms, m.category)| % 2 == 1 && AmongLatest(ms, m)
  {
    Rearranged(ms, order, m.category);
    PartMembers(order, m);
    forall x | x in ms && x.category == m.category && x != m
      ensures x.timeStamp <= m.timeStamp
    {
      LeftOutIsLatest(order, m, x);
    }
  }

  /** The arrangement that leaves m out sorts the others and puts m in as far back as its time allows. */
  lemma LeaveOut(ms: seq<WaitingMember>, m: WaitingMember) returns (order: seq<WaitingMember>)
    requires DistinctSlots(ms) && m in ms
    requires |OfCategory(ms, m.category)| % 2 == 1 && AmongLatest(ms, m)
    ensures Arrangement(ms, order) && !IsHanded(order, m)
  {
    var i :| 0 <= i < |ms| && ms[i] == m;
    var others := ms[..i] + ms[i + 1..];
    var sorted := Arrangeable(others);
    order := Inserted(sorted, m);
    InsertedMembers(sorted, m);
    InsertedOrdered(sorted, m);
    assert ms == ms[..i] + [m] + ms[i + 1..];
    Spliced(ms[..i], m, ms[i + 1..]);
    SameMembers(others, sorted);
    InsertedIsLast(sorted, m);
    Rearranged(ms, order, m.category);
    LastOddIsLeftOut(order, m);
  }

  /**
   * Who can be left out, whatever members were read: some oldest-first
   * arrangement leaves m out exactly if the members of its category are odd in
   * number and none is later than m.
   */
  lemma SomeOrderLeavesOut(ms: seq<WaitingMember>, m: WaitingMember)
    requires DistinctSlots(ms) && m in ms
    ensures (exists order :: Arrangement(ms, order) && !IsHanded(order, m)) <==>
      |OfCategory(ms, m.category)| % 2 == 1 && AmongLatest(ms, m)
  {
    if order :| Arrangement(ms, order) && !IsHanded(order, m) {
      LeftOutAmongLatest(ms, order, m);
    }
    if |OfCategory(ms, m.category)| % 2 == 1 && AmongLatest(ms, m) {
      var order := LeaveOut(ms, m);
    }
  }

  /** Of an odd number one is left out; where it is not m, it came no earlier. */
  lemma MatchedHasLatest(ms: seq<WaitingMember>, order: seq<WaitingMember>, m: WaitingMember) returns (x: WaitingMember)
    requires DistinctSlots(ms) && m in ms && Arrangement(ms, order) && IsHanded(order, m)
    requires |OfCategory(ms, m.category)| % 2 == 1
    ensures x in ms && x.category == m.category && x != m && x.timeStamp >= m.timeStamp
  {
    Rearranged(ms, order, m.category);
    var own := OfCategory(order, m.category);
    x := own[|own| - 1];
    OfCategoryMembers(order, m.category, x);
    LastOddIsLeftOut(order, x);
    LeftOutIsLatest(order, x, m);
  }

  /** A member left out in one arrangement is matched in another if somebody else of its category is no earlier. */
  lemma MatchedElsewhere(ms: seq<WaitingMember>, sorted: seq<WaitingMember>, m: WaitingMember, x: WaitingMember)
    requires DistinctSlots(ms) && m in ms && Arrangement(ms, sorted) && !IsHanded(sorted, m)
    requires x in ms && x.category == m.category && x != m && x.timeStamp >= m.timeStamp
    ensures exists order :: Arrangement(ms, order) && IsHanded(order, m)
  {
    LeftOutAmongLatest(ms, sorted, m);
    SomeOrderLeavesOut(ms, x);
    var order :| Arrangement(ms, order) && !IsHanded(order, x);
    Rearranged(ms, order, m.category);
    LeftOutIsLatest(order, x, m);
  }

  /**
   * And some oldest-first arrangement matches m unless m is the one of an odd
   * number that is later than all the others.
   */
  lemma SomeOrderMatches(ms: seq<WaitingMember>, m: WaitingMember)
    requires DistinctSlots(ms) && m in ms
    ensures (exists order :: Arrangement(ms, order) && IsHanded(order, m)) <==>
      |OfCategory(ms, m.category)| % 2 == 0
      || exists x :: x in ms && x.category == m.category && x != m && x.timeStamp >= m.timeStamp
  {
    if order :| Arrangement(ms, order) && IsHanded(order, m) {
      if |OfCategory(ms, m.category)| % 2 == 1 {
        var x := MatchedHasLatest(ms, order, m);
      }
    }
    var sorted := Arrangeable(ms);
    if !IsHanded(sorted, m) {
      LeftOutAmongLatest(ms, sorted, m);
      if x :| x in ms && x.category == m.category && x != m && x.timeStamp >= m.timeStamp {
        MatchedElsewhere(ms, sorted, m, x);
      }
    }
  }

  /**
   * So the members alone do not decide who is left out: the arrangement does,
   * and it has a choice about m exactly if the members of its category are odd
   * in number, none is later than m, and another has m's very time.
   */
  lemma TiesMayGoEitherWay(ms: seq<WaitingMember>, m: WaitingMember)
    requires DistinctSlots(ms) && m in ms
    ensures (exists order :: Arrangement(ms, order) && IsHanded(order, m))
            && (exists order :: Arrangement(ms, order) && !IsHanded(order, m))
      <==>
      && |OfCategory(ms, m.category)| % 2 == 1 && AmongLatest(ms, m)
      && exists x :: x in ms && x.category == m.category && x != m && x.timeStamp == m.timeStamp
  {
    SomeOrderLeavesOut(ms, m);
    SomeOrderMatches(ms, m);
  }

  lemma {:induction false} AllOfOneCategory(ms: seq<WaitingMember>, c: Category)
    requires forall m :: m in ms ==> m.category == c
    ensures OfCategory(ms, c) == ms
  {
    if ms != [] {
      AllOfOneCategory(ms[..|ms| - 1], c);
      assert ms == ms[..|ms| - 1] + [ms[|ms| - 1]];
    }
  }

  /**
   * For one: of three players, the last two of whom joined in the same
   * microsecond, either of these may go without a match.
   */
  lemma TwoTiedOfThree(x: WaitingMember, y: WaitingMember, m: WaitingMember)
    requires x.category == y.category == m.category && x.timeStamp <= y.timeStamp == m.timeStamp
    requires x.userId != y.userId && y.userId != m.userId && x.userId != m.userId
    ensures exists order :: Arrangement([x, y, m], order) && IsHanded(order, m)
    ensures exists order :: Arrangement([x, y, m], order) && !IsHanded(order, m)
  {
    var ms := [x, y, m];
    AllOfOneCategory(ms, m.category);
    assert y in ms && m in ms;
    TiesMayGoEitherWay(ms, m);
  }
}
