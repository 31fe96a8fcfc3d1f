/**
  The process-local replay store (replay.go): what a bounded store that purges
  everything expired would do, what the lazy store is allowed to do, and the
  heap-backed implementation.
 */
module ReplayModel {
  import opened Basics

  /** Nanoseconds since Go's zero time, so that `IsZero` is comparison with 0. */
  type Time = int

  /**
    One reading of a clock.  `time.Now` adds a monotonic reading to the wall time;
    the expiration of a record, made from Unix seconds, has none.
   */
  datatype Reading = Reading(wall: Time, mono: Option<int>)

  /** The zero time.Time. */
  const ZERO := Reading(0, None)

  /** time.Time.Before: by the monotonic readings where both have one, by wall time otherwise. */
  predicate Before(a: Reading, b: Reading) {
    if a.mono.Some? && b.mono.Some? then a.mono.value < b.mono.value else a.wall < b.wall
  }

  /** time.Time.Sub saturates at the range of time.Duration. */
  function Sub(t: Time, u: Time): int {
    if t - u > MAX_INT then MAX_INT else if t - u < -MAX_INT - 1 then -MAX_INT - 1 else t - u
  }

  datatype Identity = Identity(keyID: string, nonce: string)

  datatype Record = Record(identity: Identity, expiresAt: Time)

  datatype Limits = Limits(capacity: int, maxTTL: int, maxKeyIDBytes: int, maxNonceBytes: int)

  datatype Outcome = Accepted | Replayed | AtCapacity | InvalidRecord | Canceled

  type Contents = map<Identity, Time>

  datatype Store = Store(retained: Contents, latest: Reading)

  /** The checks made before the clock is read (replay.go:219-222). */
  predicate Complete(l: Limits, r: Record) {
    && r.identity.keyID != "" && |r.identity.keyID| <= l.maxKeyIDBytes
    && r.identity.nonce != "" && |r.identity.nonce| <= l.maxNonceBytes
    && r.expiresAt != 0
  }

  /** Store time: the caller's clock, never before the one adopted last. */
  function Clamped(latest: Reading, now: Reading): Reading {
    if Before(now, latest) then latest else now
  }

  /** Adopting `now` sets the wall time of the store back. */
  predicate SetsBack(latest: Reading, now: Reading) {
    Clamped(latest, now).wall < latest.wall
  }

  /** That happens exactly when both readings are monotonic, in order, and the wall clock was set back between them. */
  lemma SetsBackExactly(latest: Reading, now: Reading)
    ensures !Before(Clamped(latest, now), latest)
    ensures SetsBack(latest, now)
      <==> latest.mono.Some? && now.mono.Some? && latest.mono.value <= now.mono.value && now.wall < latest.wall
  {
  }

  /** The readings of a clock whose wall time is not set back. */
  ghost predicate Coherent(clock: iset<Reading>) {
    forall a, b :: a in clock && b in clock && a.mono.Some? && b.mono.Some? && a.mono.value <= b.mono.value ==> a.wall <= b.wall
  }

  predicate Admissible(l: Limits, r: Record, t: Time) {
    r.expiresAt > t && Sub(r.expiresAt, t) <= l.maxTTL
  }

  // ----- the simple store: purge everything expired, then decide ----------------

  function Purge(c: Contents, t: Time): Contents {
    map id | id in c && c[id] > t :: c[id]
  }

  function Simple(l: Limits, s: Store, r: Record, now: Reading): (Store, Outcome) {
    var t := Clamped(s.latest, now);
    if !Admissible(l, r, t.wall) then (s.(latest := t), InvalidRecord)
    else
      var live := Purge(s.retained, t.wall);
      if r.identity in live then (Store(live, t), Replayed)
      else if |live| >= l.capacity then (Store(live, t), AtCapacity)
      else (Store(live[r.identity := r.expiresAt], t), Accepted)
  }

  // ----- the lazy store: drop at most one expired record ------------------------

  ghost predicate Oldest(c: Contents, id: Identity) {
    id in c && forall other :: other in c ==> c[id] <= c[other]
  }

  /** A record that expires first is dropped when it has expired; otherwise nothing is. */
  ghost predicate Drops(before: Contents, t: Time, after: Contents) {
    || (after == before && forall id :: id in before ==> before[id] > t)
    || exists id :: Oldest(before, id) && before[id] <= t && after == before - {id}
  }

  ghost predicate Decides(l: Limits, kept: Contents, r: Record, t: Time, after: Contents, outcome: Outcome) {
    if r.identity in kept then
      if kept[r.identity] > t then after == kept && outcome == Replayed
      else after == kept[r.identity := r.expiresAt] && outcome == Accepted
    else if |kept| >= l.capacity then after == kept && outcome == AtCapacity
    else after == kept[r.identity := r.expiresAt] && outcome == Accepted
  }

  /** The critical section of Consume (replay.go:234-264). */
  ghost predicate Lazy(l: Limits, s: Store, r: Record, now: Reading, s': Store, outcome: Outcome) {
    var t := Clamped(s.latest, now).wall;
    && s'.latest == Clamped(s.latest, now)
    && if !Admissible(l, r, t) then s'.retained == s.retained && outcome == InvalidRecord
       else exists kept :: Drops(s.retained, t, kept) && Decides(l, kept, r, t, s'.retained, outcome)
  }

  lemma Refused(l: Limits, s: Store, r: Record, now: Reading)
    requires !Admissible(l, r, Clamped(s.latest, now).wall)
    ensures Lazy(l, s, r, now, s.(latest := Clamped(s.latest, now)), InvalidRecord)
  {
  }

  lemma DropThenDecide(l: Limits, s: Store, r: Record, now: Reading, kept: Contents, s': Store, outcome: Outcome)
    requires var t := Clamped(s.latest, now).wall;
      s'.latest == Clamped(s.latest, now) && Admissible(l, r, t) && Drops(s.retained, t, kept) && Decides(l, kept, r, t, s'.retained, outcome)
    ensures Lazy(l, s, r, now, s', outcome)
  {
  }

  // ----- refinement -----------------------------------------------------------------

  /** Both stores agree on the clock and on every record that is still live. */
  ghost predicate Simulates(lazy: Store, simple: Store) {
    lazy.latest == simple.latest && Purge(lazy.retained, lazy.latest.wall) == Purge(simple.retained, lazy.latest.wall)
  }

  lemma PurgeLater(c: Contents, t: Time, u: Time)
    requires t <= u
    ensures Purge(Purge(c, t), u) == Purge(c, u)
  {
  }

  lemma Smaller<K, V>(c: map<K, V>, d: map<K, V>)
    requires c.Keys <= d.Keys
    ensures |c| <= |d|
  {
    SubsetSize(c.Keys, d.Keys);
    assert |c.Keys| == |c| && |d.Keys| == |d|;
  }

  lemma RemoveSize(c: Contents, id: Identity)
    requires id in c
    ensures |c - {id}| == |c| - 1
  {
    assert (c - {id}).Keys == c.Keys - {id} && |(c - {id}).Keys| == |c - {id}| && |c.Keys| == |c|;
  }

  lemma InsertSize(c: Contents, id: Identity, t: Time)
    ensures |c[id := t]| == if id in c then |c| else |c| + 1
  {
    assert c[id := t].Keys == c.Keys + {id} && |c[id := t].Keys| == |c[id := t]| && |c.Keys| == |c|;
  }

  lemma PurgeInsert(c: Contents, id: Identity, expiresAt: Time, t: Time)
    requires expiresAt > t
    ensures Purge(c[id := expiresAt], t) == Purge(c, t)[id := expiresAt]
  {
  }

  lemma OldestDropped(before: Contents, t: Time, id: Identity)
    requires id in before && before[id] <= t
    ensures Purge(before - {id}, t) == Purge(before, t)
    ensures |Purge(before, t)| <= |before - {id}| == |before| - 1
  {
    RemoveSize(before, id);
    assert Purge(before, t).Keys <= (before - {id}).Keys;
    Smaller(Purge(before, t), before - {id});
  }

  /** While everything is live nothing is dropped. */
  lemma NothingDropped(before: Contents, t: Time, after: Contents)
    requires Drops(before, t, after) && forall id :: id in before ==> before[id] > t
    ensures after == before && Purge(before, t) == before
  {
  }

  /** After the drop the store is full exactly when it is full of live records. */
  lemma DropMakesRoom(l: Limits, before: Contents, t: Time, after: Contents)
    requires Drops(before, t, after) && |before| <= l.capacity
    ensures |after| <= l.capacity
    ensures |after| >= l.capacity <==> |Purge(before, t)| >= l.capacity
    ensures |after| >= l.capacity ==> after == before == Purge(before, t)
    ensures Purge(after, t) == Purge(before, t)
  {
    if forall id :: id in before ==> before[id] > t {
      NothingDropped(before, t, after);
    } else {
      var id :| Oldest(before, id) && before[id] <= t && after == before - {id};
      hide Drops, Oldest, Purge;
      OldestDropped(before, t, id);
    }
  }

  /** The decision taken after the drop is the one taken after the purge. */
  lemma DecisionRefines(l: Limits, kept: Contents, r: Record, t: Time, after: Contents, outcome: Outcome)
    requires |kept| <= l.capacity && (|kept| >= l.capacity ==> kept == Purge(kept, t))
    requires Decides(l, kept, r, t, after, outcome) && r.expiresAt > t
    ensures |after| <= l.capacity
    ensures var live := Purge(kept, t);
      if r.identity in live then outcome == Replayed && Purge(after, t) == live
      else if |live| >= l.capacity then outcome == AtCapacity && Purge(after, t) == live
      else outcome == Accepted && Purge(after, t) == live[r.identity := r.expiresAt]
  {
    InsertSize(kept, r.identity, r.expiresAt);
    PurgeInsert(kept, r.identity, r.expiresAt, t);
    var live := Purge(kept, t);
    assert live.Keys <= kept.Keys;
    Smaller(live, kept);
    if r.identity in kept && kept[r.identity] <= t {
      assert live.Keys <= (kept - {r.identity}).Keys;
      RemoveSize(kept, r.identity);
      Smaller(live, kept - {r.identity});
    }
  }

  lemma FullOnly(l: Limits, kept: Contents, r: Record, t: Time, after: Contents, outcome: Outcome)
    requires Decides(l, kept, r, t, after, outcome)
    ensures outcome == AtCapacity ==> |kept| >= l.capacity
  {
  }

  /** Capacity is refused only when every retained record is live; the bound is kept whatever the clock does. */
  lemma CapacityLive(l: Limits, s: Store, r: Record, now: Reading, s': Store, outcome: Outcome)
    requires Lazy(l, s, r, now, s', outcome) && |s.retained| <= l.capacity
    ensures |s'.retained| <= l.capacity
    ensures outcome == AtCapacity ==> |s.retained| == l.capacity && s.retained == Purge(s.retained, s'.latest.wall)
  {
    hide Purge, Drops, Decides;
    var t := s'.latest.wall;
    if Admissible(l, r, t) {
      var kept :| Drops(s.retained, t, kept) && Decides(l, kept, r, t, s'.retained, outcome);
      DropMakesRoom(l, s.retained, t, kept);
      DecisionRefines(l, kept, r, t, s'.retained, outcome);
      FullOnly(l, kept, r, t, s'.retained, outcome);
    }
  }

  /** One call on the lazy store has the outcome of the call on the simple store, unless it sets the wall time back. */
  lemma StepRefines(l: Limits, s: Store, simple: Store, r: Record, now: Reading, s': Store, outcome: Outcome)
    requires Simulates(s, simple) && |s.retained| <= l.capacity && !SetsBack(s.latest, now)
    requires Lazy(l, s, r, now, s', outcome)
    ensures outcome == Simple(l, simple, r, now).1
    ensures Simulates(s', Simple(l, simple, r, now).0) && |s'.retained| <= l.capacity
  {
    hide Purge, Drops, Decides;
    var t := Clamped(s.latest, now).wall;
    PurgeLater(s.retained, s.latest.wall, t);
    PurgeLater(simple.retained, s.latest.wall, t);
    if Admissible(l, r, t) {
      var kept :| Drops(s.retained, t, kept) && Decides(l, kept, r, t, s'.retained, outcome);
      DropMakesRoom(l, s.retained, t, kept);
      DecisionRefines(l, kept, r, t, s'.retained, outcome);
      PurgeLater(simple.retained, t, t);
      PurgeInsert(Purge(simple.retained, t), r.identity, r.expiresAt, t);
    }
  }

  /** At one clock reading the lazy store refines the simple one, whatever both retain. */
  ghost predicate Refines(l: Limits, latest: Reading, now: Reading) {
    forall s: Store, simple: Store, r: Record, s': Store, outcome: Outcome ::
      s.latest == latest && Simulates(s, simple) && |s.retained| <= l.capacity && Lazy(l, s, r, now, s', outcome)
      ==> outcome == Simple(l, simple, r, now).1
  }

  /**
    A record that has expired by the latest wall time, and is live again by a wall time
    set back, is still retained by the lazy store and gone from the simple one.
   */
  lemma SetBackDiffers(l: Limits, latest: Reading, now: Reading, id: Identity)
    requires l.capacity > 0 && l.maxTTL > 0 && SetsBack(latest, now)
    ensures var t := Clamped(latest, now); var r := Record(id, t.wall + 1);
      var s, simple, s' := Store(map[id := t.wall + 1], latest), Store(map[], latest), Store(map[id := t.wall + 1], t);
      && Simulates(s, simple) && |s.retained| <= l.capacity
      && Lazy(l, s, r, now, s', Replayed) && Simple(l, simple, r, now).1 == Accepted
  {
    var t := Clamped(latest, now);
    var c: Contents := map[id := t.wall + 1];
    assert Drops(c, t.wall, c) && Decides(l, c, Record(id, t.wall + 1), t.wall, c, Replayed);
    assert Purge(c, latest.wall) == map[];
    assert Purge(map[], latest.wall) == map[] && Purge(map[], t.wall) == map[];
  }

  /** The lazy store refines the simple one at a clock reading exactly when the reading does not set the wall time back. */
  lemma RefinesExactly(l: Limits, latest: Reading, now: Reading)
    requires l.capacity > 0 && l.maxTTL > 0
    ensures Refines(l, latest, now) <==> !SetsBack(latest, now)
  {
    hide Simulates, Lazy, Simple;
    if SetsBack(latest, now) {
      var id := Identity("k", "n");
      SetBackDiffers(l, latest, now, id);
      var t := Clamped(latest, now);
      var s, simple, s' := Store(map[id := t.wall + 1], latest), Store(map[], latest), Store(map[id := t.wall + 1], t);
      assert Lazy(l, s, Record(id, t.wall + 1), now, s', Replayed) && Simple(l, simple, Record(id, t.wall + 1), now).1 == Accepted;
    } else {
      forall s: Store, simple: Store, r: Record, s': Store, outcome: Outcome |
        s.latest == latest && Simulates(s, simple) && |s.retained| <= l.capacity && Lazy(l, s, r, now, s', outcome)
        ensures outcome == Simple(l, simple, r, now).1
      {
        StepRefines(l, s, simple, r, now, s', outcome);
      }
    }
  }

  datatype Call = Call(record: Record, now: Reading)

  ghost predicate LazyRun(l: Limits, states: seq<Store>, calls: seq<Call>, outcomes: seq<Outcome>) {
    && |states| == |calls| + 1 && |outcomes| == |calls|
    && forall i :: 0 <= i < |calls| ==> Lazy(l, states[i], calls[i].record, calls[i].now, states[i + 1], outcomes[i])
  }

  function SimpleRun(l: Limits, s: Store, calls: seq<Call>): seq<Outcome>
    decreases |calls|
  {
    if calls == [] then []
    else
      var (s', outcome) := Simple(l, s, calls[0].record, calls[0].now);
      [outcome] + SimpleRun(l, s', calls[1..])
  }

  /** No call of a run sets the wall time of the store back. */
  ghost predicate NeverSetBack(states: seq<Store>, calls: seq<Call>) {
    |states| == |calls| + 1 && forall i :: 0 <= i < |calls| ==> !SetsBack(states[i].latest, calls[i].now)
  }

  /** For every sequence of calls and clock readings that never sets the wall time back the two stores give the same answers. */
  lemma {:induction false} RunRefines(l: Limits, states: seq<Store>, simple: Store, calls: seq<Call>, outcomes: seq<Outcome>)
    requires LazyRun(l, states, calls, outcomes) && NeverSetBack(states, calls)
    requires Simulates(states[0], simple) && |states[0].retained| <= l.capacity
    ensures outcomes == SimpleRun(l, simple, calls)
    decreases |calls|
  {
    hide Lazy, Simulates, Simple;
    if calls != [] {
      StepRefines(l, states[0], simple, calls[0].record, calls[0].now, states[1], outcomes[0]);
      RunRefines(l, states[1..], Simple(l, simple, calls[0].record, calls[0].now).0, calls[1..], outcomes[1..]);
    }
  }

  /** A clock whose wall time is not set back never sets the store's back. */
  lemma {:induction false} CoherentRun(l: Limits, states: seq<Store>, calls: seq<Call>, outcomes: seq<Outcome>, clock: iset<Reading>)
    requires LazyRun(l, states, calls, outcomes) && Coherent(clock)
    requires states[0].latest.mono.Some? ==> states[0].latest in clock
    requires forall i :: 0 <= i < |calls| ==> calls[i].now in clock
    ensures NeverSetBack(states, calls)
    decreases |calls|
  {
    if calls != [] {
      SetsBackExactly(states[0].latest, calls[0].now);
      assert states[1].latest == Clamped(states[0].latest, calls[0].now);
      hide Lazy;
      CoherentRun(l, states[1..], calls[1..], outcomes[1..], clock);
      forall i | 0 <= i < |calls| ensures !SetsBack(states[i].latest, calls[i].now) {
        if i > 0 { assert states[i] == states[1..][i - 1] && calls[i] == calls[1..][i - 1]; }
      }
    }
  }

  // ----- one record accepted twice ------------------------------------------------------------

  /** A record that a call drops, and the clock then makes live again, is accepted a second time. */
  ghost predicate AcceptedTwice(l: Limits, r: Record, other: Record, first: Reading, between: Reading, last: Reading) {
    exists s1, s2, s3, outcome ::
      && Lazy(l, Store(map[], ZERO), r, first, s1, Accepted)
      && Lazy(l, s1, other, between, s2, outcome)
      && Lazy(l, s2, r, last, s3, Accepted)
  }

  lemma FirstAccepted(l: Limits, r: Record, first: Reading, s1: Store)
    requires l.capacity > 0 && first.wall >= 0 && Admissible(l, r, first.wall)
    ensures Lazy(l, Store(map[], ZERO), r, first, s1, Accepted) <==> s1 == Store(map[r.identity := r.expiresAt], first)
  {
    var empty: Contents := map[];
    assert Drops(empty, first.wall, empty);
    assert forall kept :: Drops(empty, first.wall, kept) ==> kept == empty;
    assert empty[r.identity := r.expiresAt] == map[r.identity := r.expiresAt];
    if s1 == Store(map[r.identity := r.expiresAt], first) {
      assert Decides(l, empty, r, first.wall, s1.retained, Accepted);
    }
  }

  /** After the second call the first record is gone exactly when it had expired by then. */
  lemma SecondKeeps(l: Limits, r: Record, other: Record, first: Reading, between: Reading, s2: Store, outcome: Outcome)
    requires l.capacity > 1 && !Before(between, first) && Admissible(l, other, between.wall) && r.identity != other.identity
    requires Lazy(l, Store(map[r.identity := r.expiresAt], first), other, between, s2, outcome)
    ensures s2.latest == between
    ensures s2.retained == if r.expiresAt <= between.wall then map[other.identity := other.expiresAt]
                           else map[r.identity := r.expiresAt, other.identity := other.expiresAt]
  {
    var one: Contents := map[r.identity := r.expiresAt];
    var kept :| Drops(one, between.wall, kept) && Decides(l, kept, other, between.wall, s2.retained, outcome);
    assert Oldest(one, r.identity) && one - {r.identity} == map[];
    assert kept == if r.expiresAt <= between.wall then map[] else one;
  }

  lemma SecondExists(l: Limits, r: Record, other: Record, first: Reading, between: Reading) returns (s2: Store)
    requires l.capacity > 1 && !Before(between, first) && Admissible(l, other, between.wall) && r.identity != other.identity
    requires r.expiresAt <= between.wall
    ensures Lazy(l, Store(map[r.identity := r.expiresAt], first), other, between, s2, Accepted)
  {
    var one, none: Contents := map[r.identity := r.expiresAt], map[];
    s2 := Store(none[other.identity := other.expiresAt], between);
    assert Oldest(one, r.identity) && one - {r.identity} == none;
    assert Drops(one, between.wall, none) && Decides(l, none, other, between.wall, s2.retained, Accepted);
  }

  lemma LastAccepts(l: Limits, r: Record, other: Record, between: Reading, last: Reading) returns (s3: Store)
    requires l.capacity > 1 && !Before(last, between) && Admissible(l, r, last.wall) && r.identity != other.identity
    requires last.wall < other.expiresAt
    ensures Lazy(l, Store(map[other.identity := other.expiresAt], between), r, last, s3, Accepted)
  {
    var one: Contents := map[other.identity := other.expiresAt];
    s3 := Store(one[r.identity := r.expiresAt], last);
    assert Drops(one, last.wall, one) && Decides(l, one, r, last.wall, s3.retained, Accepted);
  }

  lemma LastRefuses(l: Limits, r: Record, other: Record, between: Reading, last: Reading, s3: Store)
    requires !Before(last, between) && r.identity != other.identity && last.wall < r.expiresAt
    ensures !Lazy(l, Store(map[r.identity := r.expiresAt, other.identity := other.expiresAt], between), r, last, s3, Accepted)
  {
    var two: Contents := map[r.identity := r.expiresAt, other.identity := other.expiresAt];
    forall kept | Drops(two, last.wall, kept) ensures r.identity in kept && kept[r.identity] > last.wall {
    }
  }

  lemma AcceptedAdmissible(l: Limits, s: Store, r: Record, now: Reading, s': Store)
    requires Lazy(l, s, r, now, s', Accepted)
    ensures Admissible(l, r, s'.latest.wall)
  {
  }

  /**
    When one record is accepted twice with another call between: exactly when the wall
    clock reached its expiration by that call and was set back before it afterwards.
   */
  lemma TwiceExactly(l: Limits, r: Record, other: Record, first: Reading, between: Reading, last: Reading)
    requires l.capacity > 1 && r.identity != other.identity
    requires first.wall >= 0 && !Before(between, first) && !Before(last, between)
    requires Admissible(l, r, first.wall) && Admissible(l, other, between.wall)
    ensures AcceptedTwice(l, r, other, first, between, last) <==> r.expiresAt <= between.wall && Admissible(l, r, last.wall)
  {
    var s1 := Store(map[r.identity := r.expiresAt], first);
    FirstAccepted(l, r, first, s1);
    if r.expiresAt <= between.wall && Admissible(l, r, last.wall) {
      var s2 := SecondExists(l, r, other, first, between);
      SecondKeeps(l, r, other, first, between, s2, Accepted);
      var s3 := LastAccepts(l, r, other, between, last);
    }
    if AcceptedTwice(l, r, other, first, between, last) {
      var t1, s2, s3, outcome :|
        && Lazy(l, Store(map[], ZERO), r, first, t1, Accepted)
        && Lazy(l, t1, other, between, s2, outcome) && Lazy(l, s2, r, last, s3, Accepted);
      FirstAccepted(l, r, first, t1);
      SecondKeeps(l, r, other, first, between, s2, outcome);
      AcceptedAdmissible(l, s2, r, last, s3);
      if r.expiresAt > between.wall { LastRefuses(l, r, other, between, last, s3); }
    }
    hide Lazy, Admissible;
  }

  /** Such a run: expiration 100, accepted at wall time 50, dropped at 101, accepted again with the wall clock back at 50. */
  lemma SetBackReplays(l: Limits, r: Record, other: Record)
    requires l.capacity > 1 && l.maxTTL >= 100 && r.identity != other.identity && r.expiresAt == 100 && other.expiresAt == 150
    ensures AcceptedTwice(l, r, other, Reading(50, Some(0)), Reading(101, Some(1)), Reading(50, Some(2)))
  {
    TwiceExactly(l, r, other, Reading(50, Some(0)), Reading(101, Some(1)), Reading(50, Some(2)));
    hide AcceptedTwice;
  }
}

module ReplayStore {
  import opened ReplayModel

  class ReplayEntry {
    const identity: Identity
    var expiresAt: Time
    var index: int

    constructor (identity: Identity, expiresAt: Time)
      ensures this.identity == identity && this.expiresAt == expiresAt
    {
      this.identity := identity;
      this.expiresAt := expiresAt;
      this.index := 0;
    }
  }

  // ----- binary heaps of expiration times ------------------------------------------

  function Parent(c: nat): nat
    requires c > 0
  {
    (c - 1) / 2
  }

  /** Among the first `n` times, none is earlier than its parent. */
  ghost predicate Ordered(times: seq<Time>, n: nat)
    requires n <= |times|
  {
    forall c: nat :: 0 < c < n ==> times[Parent(c)] <= times[c]
  }

  /** Only the order between `j` and its parent may be wrong. */
  ghost predicate OrderedUnlessAbove(times: seq<Time>, j: nat) {
    && (forall c: nat :: 0 < c < |times| && c != j ==> times[Parent(c)] <= times[c])
    && (forall c: nat :: 0 < j < c < |times| && Parent(c) == j ==> times[Parent(j)] <= times[c])
  }

  /** Among the first `n` times, only the order between `i` and its children, or its parent, may be wrong. */
  ghost predicate OrderedUnlessAround(times: seq<Time>, i: nat, n: nat)
    requires n <= |times|
  {
    && (forall c: nat :: 0 < c < n && Parent(c) != i && c != i ==> times[Parent(c)] <= times[c])
    && (forall c: nat :: 0 < i < c < n && Parent(c) == i ==> times[Parent(i)] <= times[c])
  }

  ghost predicate ParentOrdered(times: seq<Time>, i: nat) {
    0 < i < |times| ==> times[Parent(i)] <= times[i]
  }

  function Exchanged<T>(s: seq<T>, i: nat, j: nat): seq<T>
    requires i < |s| && j < |s|
  {
    s[i := s[j]][j := s[i]]
  }

  lemma SiftUp(times: seq<Time>, j: nat)
    requires 0 < j < |times| && OrderedUnlessAbove(times, j) && times[j] < times[Parent(j)]
    ensures OrderedUnlessAbove(Exchanged(times, Parent(j), j), Parent(j))
  {
  }

  /** `j` is a child of `i` that is not later than any other. */
  ghost predicate EarliestChild(times: seq<Time>, i: nat, j: nat, n: nat)
    requires n <= |times|
  {
    i < j < n && Parent(j) == i && forall c: nat :: 0 < c < n && Parent(c) == i ==> times[j] <= times[c]
  }

  lemma ChooseChild(times: seq<Time>, i: nat, n: nat)
    requires n <= |times| && 2 * i + 1 < n
    ensures var j := 2 * i + 1;
      EarliestChild(times, i, if j + 1 < n && times[j + 1] < times[j] then j + 1 else j, n)
  {
  }

  lemma SiftDown(times: seq<Time>, i: nat, j: nat, n: nat)
    requires n <= |times| && EarliestChild(times, i, j, n) && times[j] < times[i]
    requires OrderedUnlessAround(times, i, n)
    ensures OrderedUnlessAround(Exchanged(times, i, j), j, n) && ParentOrdered(Exchanged(times, i, j), j)
  {
  }

  /** No child of `i` is earlier, so only the order between `i` and its parent may still be wrong. */
  ghost predicate OrderedExcept(times: seq<Time>, i: nat, n: nat)
    requires n <= |times|
  {
    && (forall c: nat :: 0 < c < n && c != i ==> times[Parent(c)] <= times[c])
    && (forall c: nat :: 0 < i < c < n && Parent(c) == i ==> times[Parent(i)] <= times[c])
  }

  lemma Settled(times: seq<Time>, i: nat, n: nat)
    requires i < |times| && n <= |times| && OrderedUnlessAround(times, i, n)
    requires 2 * i + 1 < n ==> exists j: nat :: EarliestChild(times, i, j, n) && times[i] <= times[j]
    ensures OrderedExcept(times, i, n) && (ParentOrdered(times, i) ==> Ordered(times, n))
  {
  }

  /** Once the root has gone last, only the order below the new root may be wrong. */
  lemma RootAside(times: seq<Time>, last: nat)
    requires |times| == last + 1 && Ordered(times, |times|)
    ensures OrderedUnlessAround(Exchanged(times, 0, last), 0, last)
    ensures ParentOrdered(Exchanged(times, 0, last), 0)
  {
  }

  lemma OrderedPrefix(times: seq<Time>, n: nat)
    requires n <= |times| && Ordered(times, n)
    ensures Ordered(times[..n], n)
  {
  }

  /** A later time in place of slot `i` can only disturb the order around it. */
  lemma Delayed(times: seq<Time>, i: nat, t: Time)
    requires i < |times| && Ordered(times, |times|) && times[i] <= t
    ensures OrderedUnlessAround(times[i := t], i, |times|)
  {
    assert forall c: nat :: 0 < i < c < |times| && Parent(c) == i ==> times[Parent(i)] <= times[i] <= times[c];
  }

  lemma {:induction false} RootFirst(times: seq<Time>, i: nat)
    requires i < |times| && Ordered(times, |times|)
    ensures times[0] <= times[i]
  {
    if i > 0 { RootFirst(times, Parent(i)); }
  }

  predicate Configured(l: Limits) {
    l.capacity > 0 && l.maxTTL > 0 && l.maxKeyIDBytes > 0 && l.maxNonceBytes > 0
  }

  class MemoryReplayStore {
    const limits: Limits
    var entries: map<Identity, ReplayEntry>
    var expiry: seq<ReplayEntry>
    var latestNow: Reading

    // ----- representation -------------------------------------------------------

    ghost function Slots(): set<ReplayEntry>
      reads this`expiry
    {
      set e | e in expiry
    }

    ghost function Times(): (times: seq<Time>)
      reads this`expiry, Slots()
      ensures |times| == |expiry|
    {
      var slots := expiry;
      seq(|slots|, i requires 0 <= i < |slots| reads set e | e in slots => slots[i].expiresAt)
    }

    /** Every slot knows its position: heap[i].index == i. */
    ghost predicate Indexed()
      reads this`expiry, Slots()`index
    {
      forall i :: 0 <= i < |expiry| ==> expiry[i].index == i
    }

    /** The map and the heap hold the same entries. */
    ghost predicate Linked()
      reads this`expiry, this`entries
    {
      && (forall e :: e in Slots() ==> e.identity in entries && entries[e.identity] == e)
      && (forall id :: id in entries ==> entries[id] in Slots() && entries[id].identity == id)
    }

    ghost predicate Valid()
      reads this, Slots()
    {
      Indexed() && Linked() && Ordered(Times(), |expiry|) && |entries| <= limits.capacity
    }

    ghost function Retained(): Contents
      requires Linked()
      reads this`expiry, this`entries, Slots()`expiresAt
    {
      map id | id in entries :: entries[id].expiresAt
    }

    ghost function State(): Store
      requires Linked()
      reads this, Slots()
    {
      Store(Retained(), latestNow)
    }

    // ----- container/heap -------------------------------------------------------

    /** replayExpiryHeap.Swap */
    method Swap(left: nat, right: nat)
      requires left < |expiry| && right < |expiry| && Indexed()
      modifies this`expiry, Slots()`index
      ensures expiry == Exchanged(old(expiry), left, right) && Times() == Exchanged(old(Times()), left, right)
      ensures Slots() == old(Slots()) && Indexed()
    {
      ghost var before := expiry;
      expiry := expiry[left := expiry[right]][right := expiry[left]];
      assert expiry[left] == before[right] && expiry[right] == before[left];
      forall e ensures e in expiry <==> e in before {
        if e in before {
          var i :| 0 <= i < |before| && before[i] == e;
          assert expiry[if i == left then right else if i == right then left else i] == e;
        }
      }
      expiry[left].index := left;
      expiry[right].index := right;
    }

    /** heap.up */
    method Up(start: nat)
      requires start < |expiry| && Indexed() && OrderedUnlessAbove(Times(), start)
      modifies this`expiry, Slots()`index
      ensures Slots() == old(Slots()) && |expiry| == old(|expiry|) && Indexed() && Ordered(Times(), |expiry|)
    {
      var j := start;
      while j > 0 && expiry[j].expiresAt < expiry[Parent(j)].expiresAt
        invariant 0 <= j < |expiry| == old(|expiry|)
        invariant Slots() == old(Slots()) && Indexed() && OrderedUnlessAbove(Times(), j)
      {
        var i := Parent(j);
        SiftUp(Times(), j);
        Swap(i, j);
        j := i;
      }
    }

    /** heap.down */
    method Down(start: nat, n: nat) returns (moved: bool)
      requires start < |expiry| && n <= |expiry| && Indexed() && OrderedUnlessAround(Times(), start, n)
      modifies this`expiry, Slots()`index
      ensures Slots() == old(Slots()) && |expiry| == old(|expiry|) && expiry[n..] == old(expiry)[n..] && Indexed()
      ensures moved || ParentOrdered(Times(), start) ==> Ordered(Times(), n)
      ensures !moved ==> expiry == old(expiry) && OrderedExcept(Times(), start, n)
    {
      hide OrderedUnlessAround, OrderedExcept, ParentOrdered, EarliestChild, Ordered;
      var i := start;
      while true
        invariant start <= i < |expiry| == old(|expiry|)
        invariant Slots() == old(Slots()) && Indexed() && expiry[n..] == old(expiry)[n..]
        invariant OrderedUnlessAround(Times(), i, n)
        invariant i > start ==> ParentOrdered(Times(), i)
        invariant i == start ==> expiry == old(expiry)
        decreases |expiry| - i
      {
        var j := 2 * i + 1;
        if j >= n {
          break;
        }
        ChooseChild(Times(), i, n);
        if j + 1 < n && expiry[j + 1].expiresAt < expiry[j].expiresAt {
          j := j + 1;
        }
        assert EarliestChild(Times(), i, j, n);
        if !(expiry[j].expiresAt < expiry[i].expiresAt) {
          break;
        }
        SiftDown(Times(), i, j, n);
        Swap(i, j);
        i := j;
      }
      Settled(Times(), i, n);
      moved := i > start;
    }

    /** heap.Fix */
    method Fix(i: nat)
      requires i < |expiry| && Indexed() && OrderedUnlessAround(Times(), i, |expiry|)
      modifies this`expiry, Slots()`index
      ensures Slots() == old(Slots()) && |expiry| == old(|expiry|) && Indexed() && Ordered(Times(), |expiry|)
    {
      var moved := Down(i, |expiry|);
      if !moved {
        Up(i);
      }
    }

    /** heap.Push with replayExpiryHeap.Push */
    method Push(entry: ReplayEntry)
      requires entry !in expiry && Indexed() && Ordered(Times(), |expiry|)
      modifies this`expiry, Slots()`index, entry`index
      ensures Slots() == old(Slots()) + {entry} && Indexed() && Ordered(Times(), |expiry|)
    {
      ghost var times := Times();
      entry.index := |expiry|;
      expiry := expiry + [entry];
      assert Times() == times + [entry.expiresAt];
      assert Slots() == old(Slots()) + {entry};
      Up(|expiry| - 1);
    }

    /** heap.Pop with replayExpiryHeap.Pop */
    method Pop() returns (entry: ReplayEntry)
      requires expiry != [] && Indexed() && Ordered(Times(), |expiry|)
      modifies this`expiry, Slots()`index
      ensures entry == old(expiry)[0]
      ensures Slots() == old(Slots()) - {entry} && Indexed() && Ordered(Times(), |expiry|)
    {
      var last := |expiry| - 1;
      RootAside(Times(), last);
      Swap(0, last);
      hide Ordered, OrderedUnlessAround;
      var moved := Down(0, last);
      ghost var full, times := expiry, Times();
      assert full[last..] == [old(expiry)[0]];
      entry := expiry[last];
      expiry := expiry[..last];
      assert full == expiry + [entry];
      forall i | 0 <= i < last ensures expiry[i] != entry { assert full[i].index == i; }
      entry.index := -1;
      assert Times() == times[..last];
      OrderedPrefix(times, last);
    }

    // ----- the store -------------------------------------------------------------

    /** A store for bounds that NewMemoryReplayStore has checked. */
    constructor (limits: Limits)
      requires Configured(limits)
      ensures Valid() && this.limits == limits && State() == Store(map[], ZERO) && Slots() == {}
    {
      this.limits := limits;
      this.entries := map[];
      this.expiry := [];
      this.latestNow := ZERO;
    }

    /** The root of the heap is an oldest retained record. */
    lemma RootOldest()
      requires Valid() && expiry != []
      ensures Oldest(Retained(), expiry[0].identity) && Retained()[expiry[0].identity] == Times()[0]
    {
      assert expiry[0] in Slots();
      forall id | id in entries ensures Times()[0] <= entries[id].expiresAt {
        var i :| 0 <= i < |expiry| && expiry[i] == entries[id];
        RootFirst(Times(), i);
      }
    }

    /** The root leaves the heap and the map (replay.go:278-279). */
    method DropRoot()
      requires Valid() && expiry != []
      modifies this`expiry, this`entries, Slots()`index
      ensures Valid() && Slots() <= old(Slots())
      ensures Retained() == old(Retained()) - {old(expiry)[0].identity}
    {
      hide Ordered;
      assert expiry[0] in Slots();
      var entry := Pop();
      entries := entries - {entry.identity};
      Smaller(entries, old(entries));
    }

    /** removeOldestExpired */
    method RemoveOldestExpired(now: Time)
      requires Valid()
      modifies this`expiry, this`entries, Slots()`index
      ensures Valid() && Slots() <= old(Slots())
      ensures Drops(old(Retained()), now, Retained())
    {
      if |expiry| == 0 || expiry[0].expiresAt > now {
        if |expiry| > 0 { RootOldest(); }
        assert forall id :: id in entries ==> entries[id] in Slots();
        return;
      }
      RootOldest();
      ghost var before, oldest := Retained(), expiry[0].identity;
      DropRoot();
      assert Oldest(before, oldest) && before[oldest] <= now && Retained() == before - {oldest};
    }

    /** The record of an expired entry is renewed in place (replay.go:250-251). */
    method Renew(existing: ReplayEntry, expiresAt: Time)
      requires Valid() && existing in Slots() && existing.expiresAt <= expiresAt
      modifies this`expiry, Slots()
      ensures Valid() && Slots() == old(Slots()) && Retained() == old(Retained())[existing.identity := expiresAt]
    {
      ghost var times, i := Times(), existing.index;
      assert expiry[i] == existing;
      existing.expiresAt := expiresAt;
      assert Times() == times[i := expiresAt];
      Delayed(times, i, expiresAt);
      hide Ordered, OrderedUnlessAround;
      Fix(existing.index);
      assert Retained() == old(Retained())[existing.identity := expiresAt];
    }

    /** A new record enters the map and the heap (replay.go:258-262). */
    method Insert(identity: Identity, expiresAt: Time)
      requires Valid() && identity !in entries && |entries| < limits.capacity
      modifies this`expiry, this`entries, Slots()`index
      ensures Valid() && fresh(Slots() - old(Slots())) && Retained() == old(Retained())[identity := expiresAt]
    {
      hide Ordered;
      var entry := new ReplayEntry(identity, expiresAt);
      assert Times() == old(Times());
      entries := entries[identity := entry];
      assert |entries| == |old(entries)| + 1;
      Push(entry);
      assert Linked();
      assert Retained() == old(Retained())[identity := expiresAt];
    }

    lemma SameSize()
      requires Linked()
      ensures |Retained()| == |entries|
    {
      assert Retained().Keys == entries.Keys && |Retained().Keys| == |Retained()| && |entries.Keys| == |entries|;
    }

    /** The decision on what the drop has left (replay.go:245-264). */
    method Decide(record: Record, t: Time) returns (outcome: Outcome)
      requires Valid() && record.expiresAt > t
      modifies this`expiry, this`entries, Slots()
      ensures Valid() && fresh(Slots() - old(Slots()))
      ensures Decides(limits, old(Retained()), record, t, Retained(), outcome)
    {
      hide Ordered, Indexed;
      SameSize();
      var identity := record.identity;
      if identity in entries {
        var existing := entries[identity];
        if existing.expiresAt > t {
          return Replayed;
        }
        Renew(existing, record.expiresAt);
        return Accepted;
      }
      if |entries| >= limits.capacity {
        return AtCapacity;
      }
      Insert(identity, record.expiresAt);
      return Accepted;
    }

    /** The part of the critical section that changes records (replay.go:243-264). */
    method DropAndDecide(record: Record, t: Time) returns (outcome: Outcome, ghost kept: Contents)
      requires Valid() && record.expiresAt > t
      modifies this`expiry, this`entries, Slots()
      ensures Valid() && fresh(Slots() - old(Slots()))
      ensures Drops(old(Retained()), t, kept) && Decides(limits, kept, record, t, Retained(), outcome)
    {
      hide Ordered, Indexed, Drops, Decides;
      RemoveOldestExpired(t);
      kept := Retained();
      outcome := Decide(record, t);
    }

    /** The critical section (replay.go:234-264); the deferred unlock is a step of its own. */
    method ConsumeLocked(record: Record, now: Reading) returns (outcome: Outcome)
      requires Valid()
      modifies this`expiry, this`entries, this`latestNow, Slots()
      ensures Valid() && fresh(Slots() - old(Slots()))
      ensures Lazy(limits, old(State()), record, now, State(), outcome)
    {
      hide Indexed, Linked, Ordered, Drops, Decides, Lazy;
      ghost var before := State();
      var t := now;
      if Before(t, latestNow) {
        t := latestNow;
      } else {
        latestNow := t;
      }
      if !(record.expiresAt > t.wall) || Sub(record.expiresAt, t.wall) > limits.maxTTL {
        Refused(limits, before, record, now);
        return InvalidRecord;
      }
      ghost var kept;
      outcome, kept := DropAndDecide(record, t.wall);
      DropThenDecide(limits, before, record, now, kept, State(), outcome);
    }

    /** Consume; `canceled` is a cancellation noticed before or while the lock is taken. */
    method Consume(record: Record, now: Reading, canceled: bool) returns (outcome: Outcome)
      requires Valid()
      modifies this`expiry, this`entries, this`latestNow, Slots()
      ensures Valid() && fresh(Slots() - old(Slots()))
      ensures canceled ==> outcome == Canceled && State() == old(State())
      ensures !canceled && !Complete(limits, record) ==> outcome == InvalidRecord && State() == old(State())
      ensures !canceled && Complete(limits, record) ==> Lazy(limits, old(State()), record, now, State(), outcome)
    {
      if canceled {
        return Canceled;
      }
      if !Complete(limits, record) {
        return InvalidRecord;
      }
      outcome := ConsumeLocked(record, now);
    }
  }

  /** NewMemoryReplayStore: null stands for the configuration error. */
  method NewMemoryReplayStore(limits: Limits, hasClock: bool) returns (store: MemoryReplayStore?)
    ensures store != null <==> hasClock && Configured(limits)
    ensures store != null ==> fresh(store) && store.Valid() && store.limits == limits && store.State() == Store(map[], ZERO)
  {
    if limits.capacity <= 0 || limits.maxTTL <= 0 || limits.maxKeyIDBytes <= 0 || limits.maxNonceBytes <= 0 || !hasClock {
      return null;
    }
    store := new MemoryReplayStore(limits);
  }
}
