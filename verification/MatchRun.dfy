/**
 * Whole runs of the matchmaker.  Every Redis call is one step: a join, the read
 * of one category, the hand-over of a batch to the broker, the removal of one
 * member.  Joins may fall anywhere; at most one tick is in flight.
 */
module MatchRun {
  import opened Catalogue
  import opened GoRuntime
  import opened MatchService
  import opened Matching
  import opened Sequences
  import opened WaitingLists

  type Batch = fs: seq<MatchedUsers> | OneCategory(fs) ghost witness []

  /**
   * Where the tick in flight stands: how many categories it has read, what it
   * read and in which windows; or which members it still has to remove.
   */
  datatype Phase =
    | Idle
    | Reading(next: nat, collected: seq<WaitingMember>, lows: seq<int>, highs: seq<int>)
    | Removing(rest: seq<Slot>)

  /** joins counts the joins of a slot, absorbed those that found the slot waiting already. */
  datatype State = State(
    waiting: Waiting,
    phase: Phase,
    clock: int,
    published: seq<Batch>,
    joins: multiset<Slot>,
    absorbed: multiset<Slot>)

  datatype Event =
    | Join(userId: nat, category: string, now: int)
    | BeginTick
    | Read(now0: int, now1: int, result: seq<WaitingMember>)
    | Publish(order: seq<WaitingMember>, ids: seq<string>)
    | RemoveNext

  ghost predicate Initial(s: State) {
    s.waiting == map[] && s.phase == Idle && s.published == [] && s.joins == multiset{} && s.absorbed == multiset{}
  }

  /** The batch a tick makes of what it read, arranged oldest first in any way. */
  ghost function BatchOf(order: seq<WaitingMember>, ids: seq<string>): Batch
    requires |ids| == |Groups(order)|
  {
    TickMatches(order, ids);
    FinalUsers(Groups(order), ids)
  }

  /** span is the (negative) length of the window. */
  ghost predicate Enabled(span: int, s: State, e: Event) {
    match e
    case Join(_, _, now) => s.clock <= now
    case BeginTick => s.phase.Idle?
    case Read(now0, now1, result) =>
      && s.phase.Reading? && s.phase.next < |GetCategories()| && s.clock <= now0 <= now1
      && Listing(s.waiting, GetCategories()[s.phase.next], UnixMicro(now0 + span), UnixMicro(now1), result)
    case Publish(order, ids) =>
      && s.phase.Reading? && s.phase.next == |GetCategories()|
      && ByTime(order) && multiset(order) == multiset(s.phase.collected)
      && |ids| == |Groups(order)|
    case RemoveNext => s.phase.Removing?
  }

  /** A join of k overwrites the time of an earlier one. */
  ghost function JoinStep(s: State, k: Slot, now: int): State {
    s.(waiting := Joined(s.waiting, k, now),
       clock := now,
       joins := s.joins + multiset{k},
       absorbed := if k in s.waiting then s.absorbed + multiset{k} else s.absorbed)
  }

  ghost function ReadStep(span: int, s: State, now0: int, now1: int, result: seq<WaitingMember>): State
    requires s.phase.Reading?
  {
    s.(phase := Reading(s.phase.next + 1, s.phase.collected + result,
                        s.phase.lows + [UnixMicro(now0 + span)], s.phase.highs + [UnixMicro(now1)]),
       clock := now1)
  }

  ghost function PublishStep(s: State, batch: Batch): State {
    if batch == [] then s.(phase := Idle)
    else s.(phase := Removing(Handed(batch)), published := s.published + [batch])
  }

  ghost function RemoveStep(s: State): State
    requires s.phase.Removing?
  {
    if s.phase.rest == [] then s.(phase := Idle)
    else s.(waiting := Without(s.waiting, [s.phase.rest[0]]), phase := Removing(s.phase.rest[1..]))
  }

  ghost function Apply(span: int, s: State, e: Event): State
    requires Enabled(span, s, e)
  {
    match e
    case Join(userId, category, now) =>
      if category in GetCategories() then JoinStep(s, Slot(category, userId), now) else s.(clock := now)
    case BeginTick => s.(phase := Reading(0, [], [], []))
    case Read(now0, now1, result) => ReadStep(span, s, now0, now1, result)
    case Publish(order, ids) => PublishStep(s, BatchOf(order, ids))
    case RemoveNext => RemoveStep(s)
  }

  ghost predicate Valid(span: int, s: State, es: seq<Event>)
    decreases |es|
  {
    es == [] || (Enabled(span, s, es[0]) && Valid(span, Apply(span, s, es[0]), es[1..]))
  }

  ghost function Final(span: int, s: State, es: seq<Event>): State
    requires Valid(span, s, es)
    decreases |es|
  {
    if es == [] then s else Final(span, Apply(span, s, es[0]), es[1..])
  }

  ghost predicate Reachable(span: int, s: State) {
    exists init, es :: Initial(init) && Valid(span, init, es) && s == Final(span, init, es)
  }

  // -------------------------------------------------------------- accounting

  /** How often each slot has been handed to the broker. */
  ghost function Matched(published: seq<Batch>): multiset<Slot> {
    if published == [] then multiset{}
    else Matched(published[..|published| - 1]) + multiset(Handed(published[|published| - 1]))
  }

  ghost predicate Pending(s: State, k: Slot) { s.phase.Removing? && k in s.phase.rest }

  ghost function Credit(s: State, k: Slot): nat {
    if k in s.waiting && !Pending(s, k) then 1 else 0
  }

  /** Every join is matched, was absorbed by an entry already there, or is what keeps the slot waiting. */
  ghost predicate AccountedFor(s: State, k: Slot) {
    s.joins[k] == Matched(s.published)[k] + s.absorbed[k] + Credit(s, k)
  }

  ghost predicate Accounted(s: State) {
    forall k :: AccountedFor(s, k)
  }

  /** m was read within the window of its category. */
  ghost predicate ReadInWindow(p: Phase, m: WaitingMember)
    requires p.Reading? && p.next <= |GetCategories()| && |p.lows| == |p.highs| == p.next
  {
    exists i :: 0 <= i < p.next && m.category == GetCategories()[i] && p.lows[i] <= m.timeStamp <= p.highs[i]
  }

  ghost predicate ReadingSafe(span: int, s: State)
    requires s.phase.Reading?
  {
    var p := s.phase;
    && p.next <= |GetCategories()| && |p.lows| == |p.highs| == p.next
    && DistinctSlots(p.collected)
    && (forall m :: m in p.collected ==> SlotOf(m) in s.waiting && ReadInWindow(p, m))
    && (forall i :: 0 <= i < p.next ==>
          p.highs[i] <= UnixMicro(s.clock) && p.lows[i] <= UnixMicro(s.clock + span))
    && (forall i, k :: 0 <= i < p.next && k in s.waiting && k.category == GetCategories()[i] ==>
          s.waiting[k] < p.lows[i] || p.highs[i] <= s.waiting[k]
          || WaitingMember(k.userId, s.waiting[k], k.category) in p.collected)
  }

  ghost predicate Safe(span: int, s: State) {
    && Accounted(s)
    && (forall k :: k in s.waiting ==> s.waiting[k] <= UnixMicro(s.clock))
    && (s.phase.Reading? ==> ReadingSafe(span, s))
    && (s.phase.Removing? ==> Distinct(s.phase.rest) && forall k :: k in s.phase.rest ==> k in s.waiting)
  }

  lemma AdvanceSafe(span: int, s: State, now: int)
    requires Safe(span, s) && s.clock <= now
    ensures Safe(span, s.(clock := now))
  {
    UnixMicroMonotone(s.clock, now);
    UnixMicroMonotone(s.clock + span, now + span);
    var s' := s.(clock := now);
    assert forall k :: AccountedFor(s, k) ==> AccountedFor(s', k);
  }

  lemma JoinAccounts(s: State, joined: Slot, now: int, k: Slot)
    requires AccountedFor(s, k) && (Pending(s, k) ==> k in s.waiting)
    ensures AccountedFor(JoinStep(s, joined, now), k)
  {}

  lemma JoinSafe(span: int, s: State, k: Slot)
    requires Safe(span, s)
    ensures Safe(span, JoinStep(s, k, s.clock))
  {
    forall l
      ensures AccountedFor(JoinStep(s, k, s.clock), l)
    {
      assert AccountedFor(s, l);
      JoinAccounts(s, k, s.clock, l);
    }
  }

  lemma ReadSafe(span: int, s: State, now0: int, now1: int, result: seq<WaitingMember>)
    requires Safe(span, s) && Enabled(span, s, Read(now0, now1, result))
    ensures Safe(span, ReadStep(span, s, now0, now1, result))
  {
    UnixMicroMonotone(now0 + span, now1 + span);
    AdvanceSafe(span, s, now1);
    var s' := ReadStep(span, s, now0, now1, result);
    assert forall k :: AccountedFor(s, k) ==> AccountedFor(s', k);
    ReadMembersSafe(span, s, now0, now1, result);
    ReadDistinct(span, s, now0, now1, result);
    ReadLeavesOutside(span, s, now0, now1, result);
  }

  lemma ReadMembersSafe(span: int, s: State, now0: int, now1: int, result: seq<WaitingMember>)
    requires Safe(span, s) && Enabled(span, s, Read(now0, now1, result))
    ensures var s' := ReadStep(span, s, now0, now1, result);
      forall m :: m in s'.phase.collected ==> SlotOf(m) in s'.waiting && ReadInWindow(s'.phase, m)
  {}

  lemma ReadDistinct(span: int, s: State, now0: int, now1: int, result: seq<WaitingMember>)
    requires Safe(span, s) && Enabled(span, s, Read(now0, now1, result))
    ensures DistinctSlots(s.phase.collected + result)
  {
    CategoriesDiffer();
    var p := s.phase;
    forall i, j | 0 <= i < |p.collected| && 0 <= j < |result|
      ensures SlotOf(p.collected[i]) != SlotOf(result[j])
    {
      assert p.collected[i] in p.collected && result[j] in result;
      assert ReadInWindow(p, p.collected[i]);
    }
  }

  lemma ReadLeavesOutside(span: int, s: State, now0: int, now1: int, result: seq<WaitingMember>)
    requires Safe(span, s) && Enabled(span, s, Read(now0, now1, result))
    ensures var p' := ReadStep(span, s, now0, now1, result).phase;
      forall i, k :: 0 <= i < p'.next && k in s.waiting && k.category == GetCategories()[i] ==>
        s.waiting[k] < p'.lows[i] || p'.highs[i] <= s.waiting[k]
        || WaitingMember(k.userId, s.waiting[k], k.category) in p'.collected
  {}

  /** Any arrangement of the members read has the same members and slots. */
  lemma OrderOfRead(span: int, s: State, order: seq<WaitingMember>)
    requires Safe(span, s) && s.phase.Reading? && multiset(order) == multiset(s.phase.collected)
    ensures DistinctSlots(order)
    ensures forall m :: m in order <==> m in s.phase.collected
  {
    RearrangedSlots(s.phase.collected, order);
  }

  ghost function HandedBy(e: Event): seq<Slot>
    requires e.Publish? && |e.ids| == |Groups(e.order)|
  {
    Handed(BatchOf(e.order, e.ids))
  }

  lemma HandsWaiting(span: int, s: State, e: Event)
    requires Safe(span, s) && e.Publish? && Enabled(span, s, e)
    ensures Distinct(HandedBy(e))
    ensures forall k :: k in HandedBy(e) ==> k in s.waiting
    ensures forall m :: m in s.phase.collected ==> (SlotOf(m) in HandedBy(e) <==> IsHanded(e.order, m))
  {
    OrderOfRead(span, s, e.order);
    TickHandsOver(e.order, e.ids);
    forall k | k in HandedBy(e)
      ensures k in s.waiting
    {
      HandedWasRead(e.order, k);
    }
  }

  lemma PublishSafe(span: int, s: State, e: Event)
    requires Safe(span, s) && e.Publish? && Enabled(span, s, e)
    ensures Safe(span, PublishStep(s, BatchOf(e.order, e.ids)))
  {
    HandsWaiting(span, s, e);
    var batch := BatchOf(e.order, e.ids);
    forall k
      ensures AccountedFor(PublishStep(s, batch), k)
    {
      PublishAccounts(s, batch, k);
    }
  }

  lemma PublishAccounts(s: State, batch: Batch, k: Slot)
    requires AccountedFor(s, k) && s.phase.Reading?
    requires Distinct(Handed(batch)) && (k in Handed(batch) ==> k in s.waiting)
    ensures AccountedFor(PublishStep(s, batch), k)
  {
    DistinctMultiplicity(Handed(batch), k);
    MatchedStep(s.published, batch);
  }

  lemma MatchedStep(published: seq<Batch>, batch: Batch)
    ensures Matched(published + [batch]) == Matched(published) + multiset(Handed(batch))
  {}

  lemma RemoveSafe(span: int, s: State)
    requires Safe(span, s) && s.phase.Removing?
    ensures Safe(span, RemoveStep(s))
  {
    var s', rest := RemoveStep(s), s.phase.rest;
    if rest != [] {
      assert rest == [rest[0]] + rest[1..];
      assert rest[0] !in rest[1..];
    }
    assert forall k :: AccountedFor(s, k) ==> AccountedFor(s', k);
  }

  lemma StepSafe(span: int, s: State, e: Event)
    requires Safe(span, s) && Enabled(span, s, e)
    ensures Safe(span, Apply(span, s, e))
  {
    match e
    case Join(userId, category, now) =>
      AdvanceSafe(span, s, now);
      JoinSafe(span, s.(clock := now), Slot(category, userId));
    case BeginTick =>
      assert forall k :: AccountedFor(s, k) ==> AccountedFor(s.(phase := Reading(0, [], [], [])), k);
    case Read(now0, now1, result) => ReadSafe(span, s, now0, now1, result);
    case Publish(_, _) => PublishSafe(span, s, e);
    case RemoveNext => RemoveSafe(span, s);
  }

  lemma {:induction false} RunSafe(span: int, s: State, es: seq<Event>)
    requires Safe(span, s) && Valid(span, s, es)
    ensures Safe(span, Final(span, s, es))
    decreases |es|
  {
    if es != [] {
      StepSafe(span, s, es[0]);
      RunSafe(span, Apply(span, s, es[0]), es[1..]);
    }
  }

  lemma ReachableSafe(span: int, s: State)
    requires Reachable(span, s)
    ensures Safe(span, s)
  {
    var init, es :| Initial(init) && Valid(span, init, es) && s == Final(span, init, es);
    RunSafe(span, init, es);
  }

  /**
   * Run safety, with joins anywhere inside a tick: every match membership
   * consumes a join of its own, and the joins that bought nothing are exactly
   * those that found the user waiting already.
   */
  lemma EveryMatchConsumesAJoin(span: int, s: State, k: Slot)
    requires Reachable(span, s)
    ensures s.joins[k] == Matched(s.published)[k] + s.absorbed[k] + Credit(s, k)
    ensures s.joins[k] >= Matched(s.published)[k] + (if k in s.waiting && !Pending(s, k) then 1 else 0)
  {
    ReachableSafe(span, s);
    assert AccountedFor(s, k);
  }

  /**
   * In every run what a tick hands over is waiting, each slot once, and is what
   * the arrangement matches of the members read.
   */
  lemma PublishHands(span: int, s: State, e: Event)
    requires Reachable(span, s) && e.Publish? && Enabled(span, s, e)
    ensures Distinct(HandedBy(e))
    ensures forall k :: k in HandedBy(e) ==> k in s.waiting
    ensures forall m :: m in s.phase.collected ==> (SlotOf(m) in HandedBy(e) <==> IsHanded(e.order, m))
  {
    ReachableSafe(span, s);
    HandsWaiting(span, s, e);
  }

  /** In every run a join puts its user behind everybody who waits, a re-join included. */
  lemma JoinGoesLast(span: int, s: State, userId: nat, category: string, now: int)
    requires Reachable(span, s) && s.clock <= now && category in GetCategories()
    ensures var waiting, k := Apply(span, s, Join(userId, category, now)).waiting, Slot(category, userId);
      && waiting.Keys == s.waiting.Keys + {k}
      && (forall l :: l in waiting ==> waiting[l] <= waiting[k])
      && (forall l :: l in s.waiting && l != k ==> waiting[l] == s.waiting[l])
  {
    ReachableSafe(span, s);
    UnixMicroMonotone(s.clock, now);
  }

  // ------------------------------------------------ joins while a tick runs

  ghost predicate JoinOf(e: Event, k: Slot) { e.Join? && e.category == k.category && e.userId == k.userId }

  /** Some hand-over of the run es hands over k. */
  ghost predicate HandedLater(span: int, s: State, es: seq<Event>, k: Slot)
    requires Valid(span, s, es)
    decreases |es|
  {
    es != [] && ((es[0].Publish? && k in HandedBy(es[0])) || HandedLater(span, Apply(span, s, es[0]), es[1..], k))
  }

  /** Some join of the run es finds k off the lists. */
  ghost predicate JoinsAnew(span: int, s: State, es: seq<Event>, k: Slot)
    requires Valid(span, s, es)
    decreases |es|
  {
    es != [] && ((JoinOf(es[0], k) && k !in s.waiting) || JoinsAnew(span, Apply(span, s, es[0]), es[1..], k))
  }

  ghost predicate NoNewTick(es: seq<Event>) { BeginTick !in es }

  /** A tick hands over once. */
  lemma {:induction false} NothingHandedLater(span: int, s: State, es: seq<Event>, k: Slot)
    requires Valid(span, s, es) && NoNewTick(es) && !s.phase.Reading?
    ensures !HandedLater(span, s, es, k)
    decreases |es|
  {
    if es != [] {
      assert es[0] in es;
      NothingHandedLater(span, Apply(span, s, es[0]), es[1..], k);
    }
  }

  /** What has become of slot k when the tick in flight ends. */
  ghost predicate Stays(span: int, s: State, es: seq<Event>, k: Slot)
    requires Valid(span, s, es)
  {
    JoinsAnew(span, s, es, k) || (k in s.waiting && !Pending(s, k) && !HandedLater(span, s, es, k))
  }

  lemma StaysStep(span: int, s: State, es: seq<Event>, k: Slot)
    requires Safe(span, s) && Valid(span, s, es) && es != [] && NoNewTick(es)
    requires k.category in GetCategories() && (s.phase.Reading? ==> k in s.waiting)
    ensures Stays(span, s, es, k) <==> Stays(span, Apply(span, s, es[0]), es[1..], k)
  {
    var e, s' := es[0], Apply(span, s, es[0]);
    assert e in es;
    if !s'.phase.Reading? {
      NothingHandedLater(span, s', es[1..], k);
    }
    if e.RemoveNext? && s.phase.rest != [] {
      assert s.phase.rest == [s.phase.rest[0]] + s.phase.rest[1..];
      assert s.phase.rest[0] !in s.phase.rest[1..];
    }
  }

  lemma {:induction false} FateAtTickEnd(span: int, s: State, es: seq<Event>, k: Slot)
    requires Safe(span, s) && Valid(span, s, es) && NoNewTick(es) && Final(span, s, es).phase.Idle?
    requires k.category in GetCategories() && (s.phase.Reading? ==> k in s.waiting)
    ensures k in Final(span, s, es).waiting <==> Stays(span, s, es, k)
    decreases |es|
  {
    if es != [] {
      assert es[0] in es;
      StepSafe(span, s, es[0]);
      StaysStep(span, s, es, k);
      FateAtTickEnd(span, Apply(span, s, es[0]), es[1..], k);
    }
  }

  /**
   * When a join survives, over every run and wherever the tick in flight
   * stands: at the end of that tick the user waits exactly if it neither had
   * been matched when it joined nor is matched later on by that tick, or if it
   * joins once more after it has been taken off.
   */
  lemma JoinSurvivesTick(span: int, s: State, k: Slot, now: int, es: seq<Event>)
    requires Reachable(span, s) && !s.phase.Idle? && s.clock <= now && k.category in GetCategories()
    requires var joined := Apply(span, s, Join(k.userId, k.category, now));
      Valid(span, joined, es) && NoNewTick(es) && Final(span, joined, es).phase.Idle?
    ensures var joined := Apply(span, s, Join(k.userId, k.category, now));
      k in Final(span, joined, es).waiting <==>
        (!Pending(s, k) && !HandedLater(span, joined, es, k)) || JoinsAnew(span, joined, es, k)
  {
    var join := Join(k.userId, k.category, now);
    ReachableSafe(span, s);
    StepSafe(span, s, join);
    FateAtTickEnd(span, Apply(span, s, join), es, k);
  }

  /**
   * k waits, and the tick in flight will not hand it over: it has read k's
   * category and not seen k, or is past the hand-over.
   */
  ghost predicate Overlooked(s: State, k: Slot) {
    && k in s.waiting && !Pending(s, k)
    && (s.phase.Reading? ==>
          && (exists i :: 0 <= i < s.phase.next && i < |GetCategories()| && GetCategories()[i] == k.category)
          && (forall m :: m in s.phase.collected ==> SlotOf(m) != k))
  }

  lemma ReadOverlooks(span: int, s: State, now0: int, now1: int, result: seq<WaitingMember>, k: Slot)
    requires Enabled(span, s, Read(now0, now1, result)) && Overlooked(s, k)
    ensures Overlooked(ReadStep(span, s, now0, now1, result), k)
  {
    CategoriesDiffer();
    forall m | m in result
      ensures SlotOf(m) != k
    {
      assert InRange(s.waiting, GetCategories()[s.phase.next], UnixMicro(now0 + span), UnixMicro(now1), m);
    }
  }

  lemma PublishOverlooks(span: int, s: State, e: Event, k: Slot)
    requires Safe(span, s) && e.Publish? && Enabled(span, s, e) && Overlooked(s, k)
    ensures Overlooked(Apply(span, s, e), k)
  {
    OrderOfRead(span, s, e.order);
    TickHandsOver(e.order, e.ids);
    if k in HandedBy(e) {
      HandedWasRead(e.order, k);
    }
  }

  lemma StepOverlooks(span: int, s: State, e: Event, k: Slot)
    requires Safe(span, s) && Enabled(span, s, e) && !e.BeginTick? && Overlooked(s, k)
    ensures Overlooked(Apply(span, s, e), k)
  {
    if e.Read? {
      ReadOverlooks(span, s, e.now0, e.now1, e.result, k);
    } else if e.Publish? {
      PublishOverlooks(span, s, e, k);
    } else if e.RemoveNext? && s.phase.rest != [] {
      assert s.phase.rest == [s.phase.rest[0]] + s.phase.rest[1..];
    }
  }

  lemma {:induction false} StaysOverlooked(span: int, s: State, es: seq<Event>, k: Slot)
    requires Safe(span, s) && Valid(span, s, es) && NoNewTick(es) && Overlooked(s, k)
    ensures Overlooked(Final(span, s, es), k)
    decreases |es|
  {
    if es != [] {
      assert es[0] in es;
      StepSafe(span, s, es[0]);
      StepOverlooks(span, s, es[0], k);
      StaysOverlooked(span, Apply(span, s, es[0]), es[1..], k);
    }
  }

  /**
   * What is certain when the join is made: a user whose category the tick in
   * flight has read without seeing it, or who joins after the hand-over and is
   * not about to be removed, waits for as long as no other tick begins.
   */
  lemma UnseenJoinIsSafe(span: int, s: State, k: Slot, now: int, es: seq<Event>)
    requires Reachable(span, s) && s.clock <= now && k.category in GetCategories() && !Pending(s, k)
    requires s.phase.Reading? ==>
      && (exists i :: 0 <= i < s.phase.next && i < |GetCategories()| && GetCategories()[i] == k.category)
      && (forall m :: m in s.phase.collected ==> SlotOf(m) != k)
    requires Valid(span, Apply(span, s, Join(k.userId, k.category, now)), es) && NoNewTick(es)
    ensures k in Final(span, Apply(span, s, Join(k.userId, k.category, now)), es).waiting
  {
    var join := Join(k.userId, k.category, now);
    ReachableSafe(span, s);
    StepSafe(span, s, join);
    StaysOverlooked(span, Apply(span, s, join), es, k);
  }

  /** Until the hand-over a tick goes on reading, keeps what it has read and removes nobody. */
  lemma {:induction false} ReadingOn(span: int, s: State, es: seq<Event>)
    requires Safe(span, s) && s.phase.Reading? && Valid(span, s, es)
    requires forall e :: e in es ==> !e.Publish?
    ensures var s' := Final(span, s, es);
      && Safe(span, s') && s'.phase.Reading? && s'.waiting.Keys >= s.waiting.Keys
      && (forall m :: m in s.phase.collected ==> m in s'.phase.collected)
    decreases |es|
  {
    if es != [] {
      assert es[0] in es;
      StepSafe(span, s, es[0]);
      ReadingOn(span, Apply(span, s, es[0]), es[1..]);
    }
  }

  /**
   * And what becomes of a user the tick has seen already: it waits at the end
   * of the tick exactly if the arrangement of the members read leaves it out,
   * or if it joins once more after its removal.
   */
  lemma SeenJoinIsDecidedBySort(span: int, s: State, m: WaitingMember, now: int, es: seq<Event>, e: Event,
                                more: seq<Event>)
    requires Reachable(span, s) && s.phase.Reading? && m in s.phase.collected && s.clock <= now
    requires m.category in GetCategories()
    requires Valid(span, Apply(span, s, Join(m.userId, m.category, now)), es) && (forall d :: d in es ==> !d.Publish?)
    requires e.Publish? && Enabled(span, Final(span, Apply(span, s, Join(m.userId, m.category, now)), es), e)
    requires var published := Apply(span, Final(span, Apply(span, s, Join(m.userId, m.category, now)), es), e);
      Valid(span, published, more) && NoNewTick(more) && Final(span, published, more).phase.Idle?
    ensures var published := Apply(span, Final(span, Apply(span, s, Join(m.userId, m.category, now)), es), e);
      SlotOf(m) in Final(span, published, more).waiting <==>
        !IsHanded(e.order, m) || JoinsAnew(span, published, more, SlotOf(m))
  {
    var joined := Apply(span, s, Join(m.userId, m.category, now));
    ReachableSafe(span, s);
    StepSafe(span, s, Join(m.userId, m.category, now));
    ReadingOn(span, joined, es);
    HandedThenGone(span, Final(span, joined, es), m, e, more);
  }

  lemma HandedThenGone(span: int, s: State, m: WaitingMember, e: Event, es: seq<Event>)
    requires Safe(span, s) && e.Publish? && Enabled(span, s, e)
    requires m in s.phase.collected && SlotOf(m) in s.waiting && m.category in GetCategories()
    requires Valid(span, Apply(span, s, e), es) && NoNewTick(es) && Final(span, Apply(span, s, e), es).phase.Idle?
    ensures SlotOf(m) in Final(span, Apply(span, s, e), es).waiting <==>
      !IsHanded(e.order, m) || JoinsAnew(span, Apply(span, s, e), es, SlotOf(m))
  {
    HandsWaiting(span, s, e);
    StepSafe(span, s, e);
    FateAtTickEnd(span, Apply(span, s, e), es, SlotOf(m));
    NothingHandedLater(span, Apply(span, s, e), es, SlotOf(m));
  }

  // -------------------------------------------------------- times on the clock

  /** While k does not join again, its time stays, as long as it waits. */
  lemma {:induction false} TimeStays(span: int, s: State, es: seq<Event>, k: Slot)
    requires Valid(span, s, es) && (forall e :: e in es ==> !JoinOf(e, k))
    ensures k in Final(span, s, es).waiting ==> k in s.waiting && Final(span, s, es).waiting[k] == s.waiting[k]
    decreases |es|
  {
    if es != [] {
      assert es[0] in es;
      TimeStays(span, Apply(span, s, es[0]), es[1..], k);
    }
  }

  /** A join at time t is stored as the microsecond t falls into, over every run without a re-join. */
  lemma JoinTime(span: int, s: State, k: Slot, t: int, es: seq<Event>)
    requires s.clock <= t && k.category in GetCategories()
    requires Valid(span, Apply(span, s, Join(k.userId, k.category, t)), es) && (forall e :: e in es ==> !JoinOf(e, k))
    ensures var w := Final(span, Apply(span, s, Join(k.userId, k.category, t)), es).waiting;
      k in w ==> 1000 * w[k] <= t < 1000 * w[k] + 1000
  {
    TimeStays(span, Apply(span, s, Join(k.userId, k.category, t)), es, k);
  }

  /** In every run, a join comes strictly after every join made a microsecond earlier, or more. */
  lemma LaterJoinGoesBehind(span: int, s: State, k: Slot, t: int, es: seq<Event>, l: Slot, u: int)
    requires s.clock <= t && k.category in GetCategories() && l.category in GetCategories() && l != k
    requires Valid(span, Apply(span, s, Join(k.userId, k.category, t)), es) && (forall e :: e in es ==> !JoinOf(e, k))
    requires Final(span, Apply(span, s, Join(k.userId, k.category, t)), es).clock <= u && t + 1000 <= u
    ensures var before := Final(span, Apply(span, s, Join(k.userId, k.category, t)), es);
            var after := Apply(span, before, Join(l.userId, l.category, u)).waiting;
      k in after ==> after[k] < after[l]
  {
    JoinTime(span, s, k, t, es);
  }

  /**
   * Whom a tick sees, over every run and on the clock itself: a user who last
   * joined at time t and still waits is read if t lies between the beginning
   * and the end of the window, and only if it does but for the last microsecond
   * at the beginning.
   */
  lemma WindowSees(span: int, s: State, k: Slot, t: int, es: seq<Event>, e: Event)
    requires s.clock <= t && k.category in GetCategories()
    requires Valid(span, Apply(span, s, Join(k.userId, k.category, t)), es) && (forall d :: d in es ==> !JoinOf(d, k))
    requires var before := Final(span, Apply(span, s, Join(k.userId, k.category, t)), es);
      && k in before.waiting && e.Read? && Enabled(span, before, e)
      && GetCategories()[before.phase.next] == k.category
    ensures e.now0 + span <= t <= e.now1 ==> exists m :: m in e.result && SlotOf(m) == k
    ensures (exists m :: m in e.result && SlotOf(m) == k) ==> e.now0 + span < t + 1000 && t < e.now1 + 1000
  {
    var before := Final(span, Apply(span, s, Join(k.userId, k.category, t)), es);
    JoinTime(span, s, k, t, es);
    var m := WaitingMember(k.userId, before.waiting[k], k.category);
    assert SlotOf(m) == k;
    WindowOnTheClock(before.waiting, k.category, e.now0 + span, e.now1, m);
    if d :| d in e.result && SlotOf(d) == k {
      assert d == m;
    }
  }

  // ------------------------------------------------- what waits, what is sent

  /** A published match: one known category, an even number, at least two, of different users. */
  ghost predicate SoundMatch(f: MatchedUsers) {
    && |f.category| == 1 && f.category[0] in GetCategories()
    && |f.userId| >= 2 && |f.userId| % 2 == 0 && Distinct(f.userId)
  }

  ghost predicate SoundBatch(batch: Batch) {
    batch != [] && Distinct(Handed(batch)) && forall f :: f in batch ==> SoundMatch(f)
  }

  ghost predicate Orderly(s: State) {
    && (forall k :: k in s.waiting ==> k.category in GetCategories())
    && (forall b :: b in s.published ==> SoundBatch(b))
  }

  lemma PublishSound(span: int, s: State, e: Event, f: MatchedUsers)
    requires Safe(span, s) && e.Publish? && Enabled(span, s, e) && f in BatchOf(e.order, e.ids)
    ensures SoundMatch(f)
  {
    OrderOfRead(span, s, e.order);
    TickMatches(e.order, e.ids);
    TickHandsOver(e.order, e.ids);
    var c := f.category[0];
    var m := OfCategory(e.order, c)[0];
    OfCategoryMembers(e.order, c, m);
    assert ReadInWindow(s.phase, m);
  }

  lemma PublishOrderly(span: int, s: State, e: Event)
    requires Safe(span, s) && Orderly(s) && e.Publish? && Enabled(span, s, e)
    ensures Orderly(PublishStep(s, BatchOf(e.order, e.ids)))
  {
    var batch := BatchOf(e.order, e.ids);
    HandsWaiting(span, s, e);
    forall f | f in batch
      ensures SoundMatch(f)
    {
      PublishSound(span, s, e, f);
    }
  }

  lemma StepOrderly(span: int, s: State, e: Event)
    requires Safe(span, s) && Orderly(s) && Enabled(span, s, e)
    ensures Orderly(Apply(span, s, e))
  {
    if e.Publish? {
      PublishOrderly(span, s, e);
    }
  }

  lemma {:induction false} RunOrderly(span: int, s: State, es: seq<Event>)
    requires Safe(span, s) && Orderly(s) && Valid(span, s, es)
    ensures Orderly(Final(span, s, es))
    decreases |es|
  {
    if es != [] {
      StepSafe(span, s, es[0]);
      StepOrderly(span, s, es[0]);
      RunOrderly(span, Apply(span, s, es[0]), es[1..]);
    }
  }

  /**
   * In every run, only known categories have waiting lists, and every batch that
   * has been handed to the broker holds at least one match, no user twice in a
   * category, and in each match one known category and an even number of at
   * least two different users.
   */
  lemma OnlySoundBatches(span: int, s: State)
    requires Reachable(span, s)
    ensures forall k :: k in s.waiting ==> k.category in GetCategories()
    ensures forall b :: b in s.published ==> SoundBatch(b)
  {
    var init, es :| Initial(init) && Valid(span, init, es) && s == Final(span, init, es);
    RunOrderly(span, init, es);
  }

  // --------------------------------------------------------- bounded waiting

  /**
   * k has waited since time t and was passed over by a tick whose window began
   * at lo: everybody else in its category who is not about to be removed either
   * fell out of the window before that tick or joined no earlier than k.
   */
  ghost predicate LeftBehind(span: int, s: State, k: Slot, t: int, lo: int) {
    && k in s.waiting && s.waiting[k] == t && !Pending(s, k)
    && t <= UnixMicro(s.clock) && lo <= UnixMicro(s.clock + span)
    && (forall l :: l in s.waiting && l.category == k.category && l != k && !Pending(s, l) ==>
          s.waiting[l] < lo || t <= s.waiting[l])
    && (s.phase.Reading? ==>
          forall m :: m in s.phase.collected && m.category == k.category ==>
            t <= m.timeStamp && (m.userId == k.userId ==> m.timeStamp == t))
  }

  lemma PassedOver(span: int, s: State, e: Event, m: WaitingMember) returns (lo: int)
    requires Safe(span, s) && e.Publish? && Enabled(span, s, e)
    requires m in s.phase.collected && s.waiting[SlotOf(m)] == m.timeStamp
    requires SlotOf(m) !in HandedBy(e)
    ensures LeftBehind(span, Apply(span, s, e), SlotOf(m), m.timeStamp, lo)
  {
    var p, s', k := s.phase, Apply(span, s, e), SlotOf(m);
    assert ReadInWindow(p, m);
    var i :| 0 <= i < p.next && m.category == GetCategories()[i] && p.lows[i] <= m.timeStamp <= p.highs[i];
    lo := p.lows[i];
    HandsWaiting(span, s, e);
    OrderOfRead(span, s, e.order);
    forall l | l in s'.waiting && l.category == k.category && l != k && !Pending(s', l)
      ensures s'.waiting[l] < lo || m.timeStamp <= s'.waiting[l]
    {
      var other := WaitingMember(l.userId, s.waiting[l], l.category);
      if other in p.collected {
        LeftOutIsLatest(e.order, m, other);
      }
    }
  }

  lemma StillBehind(span: int, s: State, e: Event, k: Slot, t: int, lo: int)
    requires Safe(span, s) && Enabled(span, s, e) && LeftBehind(span, s, k, t, lo)
    requires !JoinOf(e, k) && !e.Publish?
    ensures LeftBehind(span, Apply(span, s, e), k, t, lo)
  {
    var s' := Apply(span, s, e);
    if e.Join? {
      UnixMicroMonotone(s.clock, e.now);
      UnixMicroMonotone(s.clock + span, e.now + span);
    } else if e.Read? {
      UnixMicroMonotone(s.clock, e.now1);
      UnixMicroMonotone(s.clock + span, e.now0 + span);
      UnixMicroMonotone(s.clock + span, e.now1 + span);
      forall m | m in e.result && m.category == k.category
        ensures t <= m.timeStamp && (m.userId == k.userId ==> m.timeStamp == t)
      {
        assert InRange(s.waiting, m.category, UnixMicro(e.now0 + span), UnixMicro(e.now1), m);
        assert m.userId == k.userId ==> SlotOf(m) == k;
      }
    } else if e.RemoveNext? && s.phase.rest != [] {
      assert s.phase.rest == [s.phase.rest[0]] + s.phase.rest[1..];
    }
  }

  lemma {:induction false} StaysBehind(span: int, s: State, es: seq<Event>, k: Slot, t: int, lo: int)
    requires Safe(span, s) && Valid(span, s, es) && LeftBehind(span, s, k, t, lo)
    requires forall e :: e in es ==> !JoinOf(e, k) && !e.Publish?
    ensures LeftBehind(span, Final(span, s, es), k, t, lo)
    decreases |es|
  {
    if es != [] {
      assert es[0] in es;
      StepSafe(span, s, es[0]);
      StillBehind(span, s, es[0], k, t, lo);
      StaysBehind(span, Apply(span, s, es[0]), es[1..], k, t, lo);
    }
  }

  lemma LaterIsHanded(span: int, s: State, e: Event, m: WaitingMember, later: WaitingMember)
    requires Safe(span, s) && e.Publish? && Enabled(span, s, e)
    requires m in s.phase.collected && later in s.phase.collected
    requires later.category == m.category && later.timeStamp > m.timeStamp
    ensures SlotOf(m) in HandedBy(e)
  {
    HandsWaiting(span, s, e);
    OrderOfRead(span, s, e.order);
    if !IsHanded(e.order, m) {
      LeftOutIsLatest(e.order, m, later);
    }
  }

  /** In every run: someone strictly later in the window means being matched by that very tick. */
  lemma LaterMemberForcesMatch(span: int, s: State, e: Event, m: WaitingMember, later: WaitingMember)
    requires Reachable(span, s) && e.Publish? && Enabled(span, s, e)
    requires m in s.phase.collected && later in s.phase.collected
    requires later.category == m.category && later.timeStamp > m.timeStamp
    ensures SlotOf(m) in HandedBy(e)
  {
    ReachableSafe(span, s);
    LaterIsHanded(span, s, e, m, later);
  }

  /**
   * Bounded waiting over every run: a user passed over at one tick and seen
   * again by the next, without a re-join in between, is matched at the next
   * tick unless everybody else it sees in that category joined in the very same
   * microsecond; a rival that differs in time can only have joined later.
   */
  lemma BoundedWait(span: int, s: State, first: Event, between: seq<Event>, second: Event,
                    m: WaitingMember, rival: WaitingMember)
    requires Reachable(span, s) && first.Publish? && Enabled(span, s, first)
    requires m in s.phase.collected && SlotOf(m) in s.waiting && s.waiting[SlotOf(m)] == m.timeStamp
    requires SlotOf(m) !in HandedBy(first)
    requires Valid(span, Apply(span, s, first), between)
    requires forall e :: e in between ==> !JoinOf(e, SlotOf(m)) && !e.Publish?
    requires second.Publish? && Enabled(span, Final(span, Apply(span, s, first), between), second)
    requires var seen := Final(span, Apply(span, s, first), between).phase.collected;
      m in seen && rival in seen && rival.category == m.category && rival.timeStamp != m.timeStamp
    ensures SlotOf(m) in HandedBy(second)
    ensures rival.timeStamp > m.timeStamp
  {
    ReachableSafe(span, s);
    var lo := PassedOver(span, s, first, m);
    StepSafe(span, s, first);
    var s1 := Apply(span, s, first);
    StaysBehind(span, s1, between, SlotOf(m), m.timeStamp, lo);
    RunSafe(span, s1, between);
    LaterIsHanded(span, Final(span, s1, between), second, m, rival);
  }

  // ------------------------------------------------------- the end of a tick

  /** Left alone, the removals of a tick take exactly the handed slots off the lists. */
  lemma {:induction false} RemovalsDrain(span: int, s: State)
    requires s.phase.Removing?
    ensures var es := seq(|s.phase.rest| + 1, _ => RemoveNext);
      Valid(span, s, es) && Final(span, s, es) == s.(waiting := Without(s.waiting, s.phase.rest), phase := Idle)
    decreases |s.phase.rest|
  {
    var rest := s.phase.rest;
    var es := seq(|rest| + 1, _ => RemoveNext);
    assert es[0] == RemoveNext;
    if rest == [] {
      assert es[1..] == [];
      assert Without(s.waiting, []) == s.waiting;
    } else {
      var s' := Apply(span, s, RemoveNext);
      RemovalsDrain(span, s');
      assert es[1..] == seq(|rest[1..]| + 1, _ => RemoveNext);
      assert rest == [rest[0]] + rest[1..];
      assert Without(s'.waiting, rest[1..]) == Without(s.waiting, rest);
    }
  }

  // ------------------------------------------------------- a join that is lost

  lemma {:induction false} OneStepMore(span: int, s: State, es: seq<Event>, e: Event)
    requires Valid(span, s, es) && Enabled(span, Final(span, s, es), e)
    ensures Valid(span, s, es + [e]) && Final(span, s, es + [e]) == Apply(span, Final(span, s, es), e)
    decreases |es|
  {
    var all := es + [e];
    if es == [] {
      assert all[0] == e && all[1..] == [];
    } else {
      OneStepMore(span, Apply(span, s, es[0]), es[1..], e);
      assert all[0] == es[0] && all[1..] == es[1..] + [e];
    }
  }

  lemma ReachableStep(span: int, s: State, e: Event)
    requires Reachable(span, s) && Enabled(span, s, e)
    ensures Reachable(span, Apply(span, s, e))
  {
    var init, es :| Initial(init) && Valid(span, init, es) && s == Final(span, init, es);
    OneStepMore(span, init, es, e);
  }

  /** Two users wait in one category, and a tick is about to begin. */
  lemma TwoWaiting(span: int, u: nat, v: nat) returns (s: State)
    requires u != v
    ensures Reachable(span, s) && s.phase.Idle? && s.clock == 0
    ensures s.waiting == map[Slot(SPORT, u) := 0, Slot(SPORT, v) := 0]
  {
    var s0 := State(map[], Idle, 0, [], multiset{}, multiset{});
    assert Initial(s0) && Valid(span, s0, []) && s0 == Final(span, s0, []);
    ReachableStep(span, s0, Join(u, SPORT, 0));
    var s1 := Apply(span, s0, Join(u, SPORT, 0));
    ReachableStep(span, s1, Join(v, SPORT, 0));
    s := Apply(span, s1, Join(v, SPORT, 0));
  }

  /** The tick has read them, and nobody else. */
  lemma TwoRead(span: int, u: nat, v: nat) returns (s: State)
    requires u != v && span <= 0
    ensures Reachable(span, s) && s.phase.Reading? && s.phase.next == |GetCategories()| && s.clock == 0
    ensures s.phase.collected == [WaitingMember(u, 0, SPORT), WaitingMember(v, 0, SPORT)]
    ensures s.waiting == map[Slot(SPORT, u) := 0, Slot(SPORT, v) := 0]
  {
    CategoriesDiffer();
    var both := [WaitingMember(u, 0, SPORT), WaitingMember(v, 0, SPORT)];
    var s0 := TwoWaiting(span, u, v);
    ReachableStep(span, s0, BeginTick);
    var s1 := Apply(span, s0, BeginTick);
    ReachableStep(span, s1, Read(0, 0, both));
    var s2 := Apply(span, s1, Read(0, 0, both));
    ReachableStep(span, s2, Read(0, 0, []));
    var s3 := Apply(span, s2, Read(0, 0, []));
    ReachableStep(span, s3, Read(0, 0, []));
    s := Apply(span, s3, Read(0, 0, []));
  }

  lemma BothHanded(span: int, s: State, u: nat, v: nat)
    requires Reachable(span, s) && s.phase.Reading?
    requires s.phase.collected == [WaitingMember(u, 0, SPORT), WaitingMember(v, 0, SPORT)]
    ensures IsHanded(s.phase.collected, s.phase.collected[0])
  {
    var both := s.phase.collected;
    assert DistinctSlots(both) by { ReachableSafe(span, s); }
    AllOfOneCategory(both, SPORT);
    assert both[0] in both;
    PartMembers(both, both[0]);
  }

  /** The tick has handed them over and not yet removed them. */
  lemma TwoPending(span: int, u: nat, v: nat) returns (s: State)
    requires u != v && span <= 0
    ensures Reachable(span, s) && s.clock == 0 && s.phase.Removing?
    ensures Pending(s, Slot(SPORT, u)) && Slot(SPORT, u) in s.waiting
  {
    var s0 := TwoRead(span, u, v);
    var both := s0.phase.collected;
    var e := Publish(both, seq(|Groups(both)|, _ => ""));
    BothHanded(span, s0, u, v);
    PublishHands(span, s0, e);
    assert SlotOf(both[0]) in HandedBy(e);
    ReachableStep(span, s0, e);
    s := Apply(span, s0, e);
  }

  /**
   * For one: two users have been matched and wait to be removed; one of them
   * joins again, the removals go on to the end of the tick, and it is gone.
   */
  lemma RejoinBeforeRemovalIsLost(span: int, u: nat, v: nat) returns (s: State, es: seq<Event>)
    requires u != v && span <= 0
    ensures Reachable(span, s) && s.clock == 0
    ensures var joined := Apply(span, s, Join(u, SPORT, 0));
      && joined.joins[Slot(SPORT, u)] == s.joins[Slot(SPORT, u)] + 1
      && Valid(span, joined, es) && Final(span, joined, es).phase.Idle?
      && Slot(SPORT, u) !in Final(span, joined, es).waiting
  {
    s := TwoPending(span, u, v);
    var joined := Apply(span, s, Join(u, SPORT, 0));
    es := seq(|joined.phase.rest| + 1, _ => RemoveNext);
    RemovalsDrain(span, joined);
  }
}
