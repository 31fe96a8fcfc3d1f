/**
  Concurrent callers of one replay store (replay.go:95-143, 205-265).

  Every caller samples its clock before it takes the lock, may be cancelled while
  it waits, and passes through the one-token mutex.  The critical section is the
  lazy store of `ReplayModel`.
 */
module ReplayProtocol {
  import opened ReplayModel

  type Caller = nat

  datatype Phase =
    | Waiting(record: Record, now: Reading)    // before `select` in lockContext
    | Taken(record: Record, now: Reading)      // token received, cancellation not yet rechecked
    | Held(record: Record, now: Reading)       // lock kept
    | Leaving(record: Record, outcome: Outcome)  // critical section left, deferred Unlock pending
    | Done(record: Record, outcome: Outcome)

  /** A record accepted by a caller at a wall time of the store, which by then had reached `peak`. */
  datatype Admission = Admission(caller: Caller, record: Record, at: Time, peak: Time)

  datatype World = World(
    store: Store,
    tokens: nat,                    // tokens in the mutex channel, whose capacity is 1
    panicked: bool,                 // Unlock found a token in the channel
    callers: map<Caller, Phase>,
    log: seq<Admission>,
    peak: Time)                     // the highest wall time the store has adopted

  predicate Holding(p: Phase) {
    p.Taken? || p.Held? || p.Leaving?
  }

  function Holders(w: World): set<Caller> {
    set c | c in w.callers && Holding(w.callers[c])
  }

  function Moved(w: World, c: Caller, p: Phase): World {
    w.(callers := w.callers[c := p])
  }

  /** replayMutex.Unlock */
  function Unlocked(w: World): World {
    if w.tokens == 0 then w.(tokens := 1) else w.(panicked := true)
  }

  ghost predicate Init(l: Limits, w: World) {
    w == World(Store(map[], ZERO), 1, false, map[], [], 0) && l.capacity > 0
  }

  // ----- steps --------------------------------------------------------------------

  /** A call starts: refused at once, or its clock is read and it waits for the lock. */
  ghost predicate Enter(l: Limits, w: World, w': World, c: Caller, r: Record, now: Reading) {
    && c !in w.callers
    && if Complete(l, r) then w' == Moved(w, c, Waiting(r, now)) || w' == Moved(w, c, Done(r, Canceled))
       else w' == Moved(w, c, Done(r, InvalidRecord)) || w' == Moved(w, c, Done(r, Canceled))
  }

  ghost predicate GiveUp(w: World, w': World, c: Caller) {
    c in w.callers && w.callers[c].Waiting? && w' == Moved(w, c, Done(w.callers[c].record, Canceled))
  }

  ghost predicate Take(w: World, w': World, c: Caller) {
    && c in w.callers && w.callers[c].Waiting? && w.tokens > 0
    && w' == Moved(w, c, Taken(w.callers[c].record, w.callers[c].now)).(tokens := w.tokens - 1)
  }

  /** keepLockUnlessCanceled, with and without a cancellation. */
  ghost predicate Recheck(w: World, w': World, c: Caller, canceled: bool) {
    && c in w.callers && w.callers[c].Taken?
    && w' == if canceled then Unlocked(Moved(w, c, Done(w.callers[c].record, Canceled)))
             else Moved(w, c, Held(w.callers[c].record, w.callers[c].now))
  }

  ghost predicate Commit(l: Limits, w: World, w': World, c: Caller, s: Store, outcome: Outcome) {
    && c in w.callers && w.callers[c].Held?
    && var r, peak := w.callers[c].record, if s.latest.wall > w.peak then s.latest.wall else w.peak;
       && Lazy(l, w.store, r, w.callers[c].now, s, outcome)
       && w' == Moved(w, c, Leaving(r, outcome))
                .(store := s, peak := peak,
                  log := if outcome == Accepted then w.log + [Admission(c, r, s.latest.wall, peak)] else w.log)
  }

  ghost predicate Leave(w: World, w': World, c: Caller) {
    && c in w.callers && w.callers[c].Leaving?
    && w' == Unlocked(Moved(w, c, Done(w.callers[c].record, w.callers[c].outcome)))
  }

  ghost predicate CallerStep(l: Limits, w: World, w': World, c: Caller) {
    || (exists r, now :: Enter(l, w, w', c, r, now))
    || GiveUp(w, w', c)
    || Take(w, w', c)
    || Recheck(w, w', c, true)
    || Recheck(w, w', c, false)
    || (exists s, outcome :: Commit(l, w, w', c, s, outcome))
    || Leave(w, w', c)
  }

  ghost predicate Step(l: Limits, w: World, w': World) {
    exists c: Caller :: CallerStep(l, w, w', c)
  }

  ghost predicate Run(l: Limits, states: seq<World>) {
    && states != [] && Init(l, states[0])
    && forall i :: 0 <= i < |states| - 1 ==> Step(l, states[i], states[i + 1])
  }

  // ----- invariants ---------------------------------------------------------------

  /** Tokens in the channel plus lock holders is always one. */
  ghost predicate OneToken(w: World) {
    w.tokens + |Holders(w)| == 1 && !w.panicked
  }

  /** A record is accepted before it expires, and its identity again only after the wall time had reached that expiry. */
  ghost predicate Increasing(log: seq<Admission>) {
    && (forall i :: 0 <= i < |log| ==> log[i].at < log[i].record.expiresAt && log[i].at <= log[i].peak)
    && (forall i, j ::
          0 <= i < j < |log| && log[i].record.identity == log[j].record.identity ==>
          log[i].record.expiresAt <= log[j].peak)
  }

  /** The wall time has reached an accepted record's expiry, or the record is still retained, possibly renewed. */
  ghost predicate Covered(s: Store, peak: Time, a: Admission) {
    || a.record.expiresAt <= peak
    || (a.record.identity in s.retained && a.record.expiresAt <= s.retained[a.record.identity])
  }

  ghost predicate Recorded(w: World) {
    && Increasing(w.log)
    && w.store.latest.wall <= w.peak
    && (forall i :: 0 <= i < |w.log| ==> Covered(w.store, w.peak, w.log[i]))
  }

  predicate Finished(p: Phase) {
    p.Leaving? || p.Done?
  }

  /** The log holds exactly the accepted calls, each once. */
  ghost predicate Attributed(w: World) {
    && (forall i :: 0 <= i < |w.log| ==>
        var a := w.log[i];
        a.caller in w.callers && Finished(w.callers[a.caller]) && w.callers[a.caller].outcome == Accepted
        && w.callers[a.caller].record == a.record)
    && (forall c :: c in w.callers && Finished(w.callers[c]) && w.callers[c].outcome == Accepted ==>
        exists i :: 0 <= i < |w.log| && w.log[i].caller == c)
    && (forall i, j :: 0 <= i < j < |w.log| ==> w.log[i].caller != w.log[j].caller)
  }

  ghost predicate Inv(l: Limits, w: World) {
    OneToken(w) && Recorded(w) && Attributed(w) && |w.store.retained| <= l.capacity
  }

  predicate Holds(w: World, c: Caller) {
    c in w.callers && Holding(w.callers[c])
  }

  lemma RemoveElement<T>(s: set<T>, x: T)
    requires x in s
    ensures |s - {x}| == |s| - 1
  {
  }

  /** A step of one caller that takes and returns the token exactly as it becomes and stops being a holder. */
  lemma OneTokenMoved(w: World, w': World, c: Caller, p: Phase)
    requires OneToken(w) && w'.callers == w.callers[c := p]
    requires Holds(w, c) == Holding(p) ==> w'.tokens == w.tokens && w'.panicked == w.panicked
    requires !Holds(w, c) && Holding(p) ==> w.tokens > 0 && w'.tokens == w.tokens - 1 && w'.panicked == w.panicked
    requires Holds(w, c) && !Holding(p) ==>
      if w.tokens == 0 then w'.tokens == 1 && w'.panicked == w.panicked else w'.panicked
    ensures OneToken(w')
  {
    assert Holders(w') == if Holding(p) then Holders(w) + {c} else Holders(w) - {c};
    if c in Holders(w) {
      RemoveElement(Holders(w), c);
      assert Holders(w) - {c} == {} && Holders(w) == {c};
    } else {
      assert Holders(w) - {c} == Holders(w);
      if Holding(p) { assert Holders(w) == {} && Holders(w') == {c}; }
    }
  }

  lemma TokenStep(l: Limits, w: World, w': World, c: Caller)
    requires OneToken(w) && CallerStep(l, w, w', c)
    ensures OneToken(w')
  {
    hide Lazy, Complete, OneToken, Holders;
    OneTokenMoved(w, w', c, w'.callers[c]);
  }

  lemma LazyParts(l: Limits, s: Store, r: Record, now: Reading, s': Store, outcome: Outcome) returns (kept: Contents)
    requires Lazy(l, s, r, now, s', outcome)
    ensures s'.latest == Clamped(s.latest, now)
    ensures var t := s'.latest.wall;
      if Admissible(l, r, t)
      then Drops(s.retained, t, kept) && Decides(l, kept, r, t, s'.retained, outcome)
      else s'.retained == s.retained && outcome == InvalidRecord
    ensures outcome == Accepted ==> r.identity in s'.retained && s'.retained[r.identity] == r.expiresAt
  {
    kept := s.retained;
    var t := s'.latest.wall;
    if Admissible(l, r, t) {
      kept :| Drops(s.retained, t, kept) && Decides(l, kept, r, t, s'.retained, outcome);
      hide Drops;
    }
  }

  lemma RecordedMore(w: World, w': World, a: Admission)
    requires Recorded(w) && w'.log == w.log + [a] && a.at < a.record.expiresAt && a.at <= a.peak == w'.peak
    requires w'.store.latest.wall <= w'.peak && Covered(w'.store, w'.peak, a)
    requires forall i :: 0 <= i < |w.log| ==>
      && Covered(w'.store, w'.peak, w.log[i])
      && (w.log[i].record.identity == a.record.identity ==> w.log[i].record.expiresAt <= a.peak)
    ensures Recorded(w')
  {
    hide Covered;
  }

  /** A covered admission stays covered, and the wall time has reached its expiry when its identity is accepted again. */
  lemma StillCovered(l: Limits, before: Store, peak: Time, kept: Contents, r: Record, t: Time, s: Store, peak': Time,
                     outcome: Outcome, a: Admission)
    requires peak <= peak' && t == s.latest.wall <= peak' && r.expiresAt > t
    requires Drops(before.retained, t, kept) && Decides(l, kept, r, t, s.retained, outcome) && Covered(before, peak, a)
    ensures Covered(s, peak', a)
    ensures outcome == Accepted && a.record.identity == r.identity ==> a.record.expiresAt <= peak'
  {
  }

  lemma CommitRecords(l: Limits, w: World, w': World, c: Caller, s: Store, outcome: Outcome)
    requires Recorded(w) && Commit(l, w, w', c, s, outcome)
    ensures Recorded(w')
  {
    var r, now, t := w.callers[c].record, w.callers[c].now, s.latest.wall;
    hide Lazy, Drops, Decides;
    var kept := LazyParts(l, w.store, r, now, s, outcome);
    if Admissible(l, r, t) {
      forall i | 0 <= i < |w.log|
        ensures Covered(s, w'.peak, w.log[i])
        ensures outcome == Accepted && w.log[i].record.identity == r.identity ==> w.log[i].record.expiresAt <= w'.peak
      {
        StillCovered(l, w.store, w.peak, kept, r, t, s, w'.peak, outcome, w.log[i]);
      }
      if outcome == Accepted { RecordedMore(w, w', Admission(c, r, t, w'.peak)); }
    }
  }

  lemma CommitAttributes(l: Limits, w: World, w': World, c: Caller, s: Store, outcome: Outcome)
    requires Attributed(w) && Commit(l, w, w', c, s, outcome)
    ensures Attributed(w')
  {
    hide Lazy;
    forall d | d in w'.callers && Finished(w'.callers[d]) && w'.callers[d].outcome == Accepted
      ensures exists i :: 0 <= i < |w'.log| && w'.log[i].caller == d
    {
      if d == c {
        assert w'.log[|w.log|].caller == c;
      } else {
        var i :| 0 <= i < |w.log| && w.log[i].caller == d;
        assert w'.log[i].caller == d;
      }
    }
  }

  /** A step that changes no log entry and turns no call into an accepted one. */
  lemma AttributedMoved(w: World, w': World, c: Caller, p: Phase)
    requires Attributed(w) && w'.log == w.log && w'.callers == w.callers[c := p]
    requires
      if c in w.callers && Finished(w.callers[c])
      then Finished(p) && p.outcome == w.callers[c].outcome && p.record == w.callers[c].record
      else !Finished(p) || p.outcome != Accepted
    ensures Attributed(w')
  {
    forall d | d in w'.callers && Finished(w'.callers[d]) && w'.callers[d].outcome == Accepted
      ensures exists i :: 0 <= i < |w'.log| && w'.log[i].caller == d
    {
      assert d in w.callers && Finished(w.callers[d]) && w.callers[d].outcome == Accepted;
    }
  }

  lemma OtherAttributes(l: Limits, w: World, w': World, c: Caller)
    requires Attributed(w) && CallerStep(l, w, w', c) && !exists s, outcome :: Commit(l, w, w', c, s, outcome)
    ensures Attributed(w') && w'.store == w.store && w'.log == w.log && w'.peak == w.peak
  {
    hide Lazy, Complete, Attributed, Commit;
    AttributedMoved(w, w', c, w'.callers[c]);
  }

  /** The reading of caller `c` is adopted, and what it admits is dated by it. */
  ghost predicate AdoptsFrom(w: World, w': World, c: Caller)
    requires c in w.callers && w.callers[c].Held?
  {
    && w'.store.latest == Clamped(w.store.latest, w.callers[c].now)
    && w'.peak == (if w'.store.latest.wall > w.peak then w'.store.latest.wall else w.peak)
    && (w'.log == w.log
        || (|w'.log| == |w.log| + 1 && w.log == w'.log[..|w.log|]
            && w'.log[|w.log|].at == w'.store.latest.wall && w'.log[|w.log|].peak == w'.peak))
  }

  /** A step leaves the store time alone, or adopts a reading that a caller sampled. */
  ghost predicate Adopts(w: World, w': World) {
    || (w'.store.latest == w.store.latest && w'.log == w.log && w'.peak == w.peak)
    || exists c :: c in w.callers && w.callers[c].Held? && AdoptsFrom(w, w', c)
  }

  /** What every step of every caller keeps. */
  lemma StepKeepsInv(l: Limits, w: World, w': World)
    requires Inv(l, w) && Step(l, w, w')
    ensures Inv(l, w') && Adopts(w, w') && w.log <= w'.log
  {
    var c: Caller :| CallerStep(l, w, w', c);
    TokenStep(l, w, w', c);
    hide OneToken, Lazy, Complete, Increasing, Covered;
    if s, outcome :| Commit(l, w, w', c, s, outcome) {
      CapacityLive(l, w.store, w.callers[c].record, w.callers[c].now, s, outcome);
      var kept := LazyParts(l, w.store, w.callers[c].record, w.callers[c].now, s, outcome);
      assert AdoptsFrom(w, w', c);
      CommitRecords(l, w, w', c, s, outcome);
      CommitAttributes(l, w, w', c, s, outcome);
    } else {
      OtherAttributes(l, w, w', c);
    }
  }

  lemma InitInv(l: Limits, w: World)
    requires Init(l, w)
    ensures Inv(l, w)
  {
    assert Holders(w) == {};
  }

  lemma {:induction false} RunKeepsInv(l: Limits, states: seq<World>, k: nat)
    requires Run(l, states) && k < |states|
    ensures Inv(l, states[k])
  {
    hide Step, Inv;
    if k == 0 {
      InitInv(l, states[0]);
    } else {
      RunKeepsInv(l, states, k - 1);
      StepKeepsInv(l, states[k - 1], states[k]);
    }
  }

  // ----- what holds of every run ----------------------------------------------------

  /** Tokens plus lock holders is always one, and no unlock finds the token already there. */
  lemma MutexHolds(l: Limits, states: seq<World>, k: nat)
    requires Run(l, states) && k < |states|
    ensures states[k].tokens + |Holders(states[k])| == 1 && !states[k].panicked
  {
    RunKeepsInv(l, states, k);
    hide Run, Recorded, Attributed;
  }

  lemma RunAdopts(l: Limits, states: seq<World>, k: nat)
    requires Run(l, states) && k + 1 < |states|
    ensures Adopts(states[k], states[k + 1]) && states[k].log <= states[k + 1].log
  {
    RunKeepsInv(l, states, k);
    assert Step(l, states[k], states[k + 1]);
    hide Inv, Step, Adopts;
    StepKeepsInv(l, states[k], states[k + 1]);
  }

  /** Store time never runs backward: no reading is adopted that is before the one it replaces. */
  lemma TimeNeverBackward(l: Limits, states: seq<World>, k: nat)
    requires Run(l, states) && k + 1 < |states|
    ensures !Before(states[k + 1].store.latest, states[k].store.latest)
  {
    RunAdopts(l, states, k);
    hide Run;
  }

  /** The store had adopted a wall time of `e` or later, and then one before `e`. */
  ghost predicate Crossed(states: seq<World>, k: nat, e: Time)
    requires k < |states|
  {
    exists i, j :: 0 <= i < j <= k && states[j].store.latest.wall < e <= states[i].store.latest.wall
  }

  lemma {:induction false} PeakReached(l: Limits, states: seq<World>, k: nat) returns (i: nat)
    requires Run(l, states) && k < |states|
    ensures i <= k && states[i].store.latest.wall == states[k].peak
  {
    if k == 0 {
      i := 0;
    } else {
      RunAdopts(l, states, k - 1);
      i := PeakReached(l, states, k - 1);
      hide Run;
      if states[k].peak != states[k - 1].peak { i := k; }
    }
  }

  lemma LastDated(w: World, w': World, x: nat)
    requires Adopts(w, w') && |w.log| <= x < |w'.log|
    ensures w'.log[x].at == w'.store.latest.wall && w'.log[x].peak == w'.peak
  {
  }

  /** An admission is dated by a state of the run, and its peak by one no later. */
  lemma {:induction false} AdmissionDated(l: Limits, states: seq<World>, k: nat, x: nat) returns (i: nat, j: nat)
    requires Run(l, states) && k < |states| && x < |states[k].log|
    ensures i <= j <= k
    ensures states[j].store.latest.wall == states[k].log[x].at && states[i].store.latest.wall == states[k].log[x].peak
  {
    if k == 0 {
      assert false;
    } else {
      RunAdopts(l, states, k - 1);
      hide Run, Adopts;
      if x < |states[k - 1].log| {
        i, j := AdmissionDated(l, states, k - 1, x);
        assert states[k - 1].log[x] == states[k].log[x];
      } else {
        i := PeakReached(l, states, k);
        j := k;
        LastDated(states[k - 1], states[k], x);
      }
    }
  }

  lemma AdmissionOf(w: World, c: Caller) returns (i: nat)
    requires Attributed(w) && c in w.callers && Finished(w.callers[c]) && w.callers[c].outcome == Accepted
    ensures i < |w.log| && w.log[i].caller == c && w.log[i].record == w.callers[c].record
  {
    i :| 0 <= i < |w.log| && w.log[i].caller == c;
  }

  /** An identity accepted again was accepted after its record had expired, unless the wall time was set back across that expiry. */
  lemma LiveRecordRefuses(l: Limits, states: seq<World>, k: nat, x: nat, y: nat)
    requires Run(l, states) && k < |states| && x < y < |states[k].log|
    requires states[k].log[x].record.identity == states[k].log[y].record.identity
    ensures states[k].log[y].at < states[k].log[y].record.expiresAt
    ensures states[k].log[x].record.expiresAt <= states[k].log[y].at || Crossed(states, k, states[k].log[x].record.expiresAt)
  {
    RunKeepsInv(l, states, k);
    var i, j := AdmissionDated(l, states, k, y);
    hide Run, Attributed, OneToken;
  }

  /**
    Two accepted calls for one key and nonce carry different expiries, unless the wall
    time of the store was set back across that expiry.
   */
  lemma AtMostOnce(l: Limits, states: seq<World>, k: nat, c: Caller, d: Caller, r: Record, q: Record)
    requires Run(l, states) && k < |states| && c != d
    requires c in states[k].callers && states[k].callers[c] == Done(r, Accepted)
    requires d in states[k].callers && states[k].callers[d] == Done(q, Accepted)
    ensures r.identity == q.identity && r.expiresAt == q.expiresAt ==> Crossed(states, k, r.expiresAt)
  {
    RunKeepsInv(l, states, k);
    var x := AdmissionOf(states[k], c);
    var y := AdmissionOf(states[k], d);
    hide Attributed, Run, Crossed, Recorded, OneToken;
    if r.identity == q.identity && r.expiresAt == q.expiresAt {
      LiveRecordRefuses(l, states, k, if x < y then x else y, if x < y then y else x);
    }
  }

  // ----- clocks that are not set back ----------------------------------------------------------

  /** Every reading that a caller of the run has sampled is one of `clock`. */
  ghost predicate Samples(states: seq<World>, clock: iset<Reading>) {
    forall k, c :: 0 <= k < |states| && c in states[k].callers && states[k].callers[c].Held? ==> states[k].callers[c].now in clock
  }

  lemma {:induction false} WallNeverBackward(l: Limits, states: seq<World>, i: nat, j: nat, clock: iset<Reading>)
    requires Run(l, states) && Samples(states, clock) && Coherent(clock) && i <= j < |states|
    ensures states[i].store.latest.wall <= states[j].store.latest.wall
    ensures states[j].store.latest.mono.Some? ==> states[j].store.latest in clock
    decreases j
  {
    if j > 0 {
      RunAdopts(l, states, j - 1);
      WallNeverBackward(l, states, if i < j then i else j - 1, j - 1, clock);
      hide Run;
      var w, w' := states[j - 1], states[j];
      if w'.store.latest != w.store.latest {
        var c :| c in w.callers && w.callers[c].Held? && AdoptsFrom(w, w', c);
        SetsBackExactly(w.store.latest, w.callers[c].now);
      }
    }
  }

  /** Callers whose wall clock is not set back never set the store's back, whatever they sample and however they interleave. */
  lemma CoherentNeverCrossed(l: Limits, states: seq<World>, k: nat, clock: iset<Reading>, e: Time)
    requires Run(l, states) && Samples(states, clock) && Coherent(clock) && k < |states|
    ensures !Crossed(states, k, e)
  {
    hide Run, Samples, Coherent;
    forall i, j | 0 <= i < j <= k ensures !(states[j].store.latest.wall < e <= states[i].store.latest.wall) {
      WallNeverBackward(l, states, i, j, clock);
    }
  }
}
