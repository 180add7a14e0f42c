/**
 * The waiting lists: one Redis sorted set per category, from user to the
 * microsecond of the last join.
 */
module WaitingLists {
  import opened Catalogue
  import opened GoRuntime
  import opened Matching

  type Waiting = map<Slot, int>

  datatype Z = Z(member: nat, score: int)

  /** m is waiting in category c with a score inside [lo, hi]. */
  ghost predicate InRange(w: Waiting, c: Category, lo: int, hi: int, m: WaitingMember) {
    m.category == c && SlotOf(m) in w && w[SlotOf(m)] == m.timeStamp && lo <= m.timeStamp <= hi
  }

  /** The same on the clock: m waits in c, and its microsecond overlaps the time from `from` to `to`. */
  ghost predicate InWindow(w: Waiting, c: Category, from: int, to: int, m: WaitingMember) {
    && m.category == c && SlotOf(m) in w && w[SlotOf(m)] == m.timeStamp
    && from < 1000 * m.timeStamp + 1000 && 1000 * m.timeStamp <= to
  }

  lemma WindowOnTheClock(w: Waiting, c: Category, from: int, to: int, m: WaitingMember)
    ensures InRange(w, c, UnixMicro(from), UnixMicro(to), m) <==> InWindow(w, c, from, to, m)
  {}

  /** ms lists, in any order and each once, the members of c inside [lo, hi]. */
  ghost predicate Listing(w: Waiting, c: Category, lo: int, hi: int, ms: seq<WaitingMember>) {
    && DistinctSlots(ms)
    && (forall m :: m in ms <==> InRange(w, c, lo, hi, m))
  }

  /** A join, or a re-join, which overwrites the time of the earlier one. */
  function Joined(w: Waiting, k: Slot, now: int): Waiting {
    w[k := UnixMicro(now)]
  }

  function Without(w: Waiting, ks: seq<Slot>): Waiting {
    map k | k in w && k !in ks :: w[k]
  }

  function Slots(ms: seq<WaitingMember>): seq<Slot> {
    seq(|ms|, i requires 0 <= i < |ms| => SlotOf(ms[i]))
  }

  /** The sorted-set operations of the Redis adapter. */
  class SortedSets {
    var entries: Waiting

    constructor ()
      ensures entries == map[]
    {
      entries := map[];
    }

    method ZAdd(c: Category, z: Z)
      modifies this
      ensures entries == old(entries)[Slot(c, z.member) := z.score]
    {
      entries := entries[Slot(c, z.member) := z.score];
    }

    method ZDelete(c: Category, member: nat)
      modifies this
      ensures entries == Without(old(entries), [Slot(c, member)])
    {
      entries := map k | k in entries && k != Slot(c, member) :: entries[k];
    }

    /** ZRANGEBYSCORE; Redis's own order of the result is not relied on anywhere. */
    method ZRange(c: Category, start: int, stop: int) returns (zs: seq<Z>)
      ensures forall i, j :: 0 <= i < j < |zs| ==> zs[i].member != zs[j].member
      ensures forall z :: z in zs <==>
        Slot(c, z.member) in entries && entries[Slot(c, z.member)] == z.score && start <= z.score <= stop
    {
      var rest := set k | k in entries && k.category == c && start <= entries[k] <= stop;
      zs := [];
      while rest != {}
        invariant forall k :: k in rest ==>
          k in entries && k.category == c && start <= entries[k] <= stop
        invariant forall z :: z in zs ==>
          Slot(c, z.member) in entries && entries[Slot(c, z.member)] == z.score && start <= z.score <= stop
        invariant forall k :: k in entries && k.category == c && start <= entries[k] <= stop ==>
          k in rest || Z(k.userId, entries[k]) in zs
        invariant forall z :: z in zs ==> Slot(c, z.member) !in rest
        invariant forall i, j :: 0 <= i < j < |zs| ==> zs[i].member != zs[j].member
        decreases rest
      {
        var k :| k in rest;
        var z := Z(k.userId, entries[k]);
        assert forall i :: 0 <= i < |zs| ==> zs[i] in zs && zs[i].member != z.member;
        zs := zs + [z];
        rest := rest - {k};
      }
    }
  }

  class MatchMakingRepository {
    const db: SortedSets
    /** Config.MinTimeWaitingListSelection: a negative duration, the length of the window. */
    const minTimeSelection: int

    constructor (db: SortedSets, minTimeSelection: int)
      ensures this.db == db && this.minTimeSelection == minTimeSelection
    {
      this.db := db;
      this.minTimeSelection := minTimeSelection;
    }

    method AddToWaitingList(c: Category, userId: nat, now: int)
      modifies db
      ensures db.entries == Joined(old(db.entries), Slot(c, userId), now)
      ensures Slot(c, userId) in db.entries
      ensures 1000 * db.entries[Slot(c, userId)] <= now < 1000 * db.entries[Slot(c, userId)] + 1000
      ensures forall k :: k != Slot(c, userId) ==>
        (k in db.entries <==> k in old(db.entries)) && (k in db.entries ==> db.entries[k] == old(db.entries)[k])
    {
      db.ZAdd(c, Z(userId, UnixMicro(now)));
    }

    /** Reads the clock twice: now0 for the lower end of the window, now1 for the upper end. */
    method GetWaitingListByCategory(c: Category, now0: int, now1: int) returns (result: seq<WaitingMember>)
      ensures Listing(db.entries, c, UnixMicro(now0 + minTimeSelection), UnixMicro(now1), result)
      ensures forall m :: m in result <==>
        && m.category == c && SlotOf(m) in db.entries && db.entries[SlotOf(m)] == m.timeStamp
        && now0 + minTimeSelection < 1000 * m.timeStamp + 1000 && 1000 * m.timeStamp <= now1
    {
      var lo, hi := UnixMicro(now0 + minTimeSelection), UnixMicro(now1);
      var list := db.ZRange(c, lo, hi);
      result := [];
      for i := 0 to |list|
        invariant |result| == i
        invariant forall j :: 0 <= j < i ==> result[j] == WaitingMember(list[j].member, list[j].score, c)
      {
        result := result + [WaitingMember(list[i].member, list[i].score, c)];
      }
      forall m
        ensures m in result <==> InRange(db.entries, c, lo, hi, m)
      {
        if m in result {
          var j :| 0 <= j < |result| && result[j] == m;
          assert list[j] in list;
        }
        if InRange(db.entries, c, lo, hi, m) {
          assert Z(m.userId, m.timeStamp) in list;
          var j :| 0 <= j < |list| && list[j] == Z(m.userId, m.timeStamp);
          assert result[j] == m;
        }
      }
      forall m
        ensures InRange(db.entries, c, lo, hi, m) <==> InWindow(db.entries, c, now0 + minTimeSelection, now1, m)
      {
        WindowOnTheClock(db.entries, c, now0 + minTimeSelection, now1, m);
      }
    }

    /** Deletes one member after the other; only category and user id of a member matter. */
    method RemoveWaitingMember(members: seq<WaitingMember>)
      modifies db
      ensures db.entries == Without(old(db.entries), Slots(members))
    {
      for i := 0 to |members|
        invariant db.entries == Without(old(db.entries), Slots(members[..i]))
      {
        db.ZDelete(members[i].category, members[i].userId);
        assert Slots(members[..i + 1]) == Slots(members[..i]) + [SlotOf(members[i])];
      }
      assert members[..|members|] == members;
    }
  }
}
