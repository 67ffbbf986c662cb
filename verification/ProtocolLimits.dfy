/**
  Where the publish protocol's guarantees end: two service instances on one store, two publishes of
  one ruleset under way at once, a lookup that fails, and writes that fail.
  */
module ProtocolLimits {
  import opened Wrappers
  import opened Faults
  import opened Dsl
  import opened CanonicalJson
  import opened Registry
  import opened PublishProtocol
  import opened Repeats
  import opened Sequential
  import opened Leftovers

  // ---------- Building runs ----------

  ghost function ReadyStore(k: Key, doc: Json): Store {
    EMPTY.(rulesets := {k}, drafts := map[k := doc])
  }

  /** A ruleset is created and given the document as its draft. */
  lemma Ready(env: Env, k: Key, doc: Json) returns (steps: seq<Step>)
    requires Publishable(env, doc)
    ensures OneInstance(steps) && Exec(env, INIT, steps) == Some(State(ReadyStore(k, doc), map[], map[]))
    ensures forall l, h :: AvoidsAll(env, steps, l, h)
  {
    var ops := [CreateOp(k), DraftOp(k, doc)];
    steps := HistoryIsRun(env, ops);
    assert ops[..1] == [CreateOp(k)] && ops[..1][..0] == [];
    assert History(env, ops[..1]) == EMPTY.(rulesets := {k});
    CanonicalIffFixed(doc);
    StrictIffLenientAndComplete(env.parse(doc).value);
    InTwo(env, EMPTY.(rulesets := {k}), DraftGetRuleset(k, doc), ALL_WORK, 0);
    InTwo(env, EMPTY.(rulesets := {k}), DraftStore(k, doc), ALL_WORK, 0);
    assert History(env, ops) == ReadyStore(k, doc);
  }

  /** One access that does not take the lock or end the call. */
  lemma GoOn(env: Env, steps: seq<Step>, s: State, pid: nat) returns (more: seq<Step>, t: State)
    requires Exec(env, INIT, steps) == Some(s) && pid in s.calls && !s.calls[pid].call.PubLock?
    requires Act(env, s.store, s.calls[pid].call, Works, 0).next.Some?
    ensures var m := Act(env, s.store, s.calls[pid].call, Works, 0);
      t == State(m.store, s.locks, s.calls[pid := Running(s.calls[pid].instance, m.next.value)])
    ensures Exec(env, INIT, more) == Some(t)
    ensures forall n | Instances(steps, n) :: Instances(more, n)
    ensures forall k | AvoidsAll(env, steps, k, LostLookup) :: AvoidsAll(env, more, k, LostLookup)
  {
    Take(env, INIT, steps, Go(pid, Works, 0));
    more := steps + [Go(pid, Works, 0)];
    t := Exec(env, INIT, more).value;
    forall k | AvoidsAll(env, steps, k, LostLookup) ensures AvoidsAll(env, more, k, LostLookup) {
      AvoidsSnoc(env, steps, s, Go(pid, Works, 0), k, LostLookup);
    }
  }

  lemma ReachCheck(env: Env, steps: seq<Step>, s: State, pid: nat, instance: nat, k: Key) returns (more: seq<Step>, t: State)
    requires Exec(env, INIT, steps) == Some(s) && pid !in s.calls && k in s.store.rulesets && k in s.store.drafts
    ensures t == s.(calls := s.calls[pid := Running(instance, PubCheck(k, s.store.drafts[k]))]) && Exec(env, INIT, more) == Some(t)
    ensures forall n | Instances(steps, n) && instance < n :: Instances(more, n)
    ensures forall l | AvoidsAll(env, steps, l, LostLookup) :: AvoidsAll(env, more, l, LostLookup)
  {
    more := TakeHarmless(env, steps, s, Begin(pid, instance, PubGetRuleset(k)));
    t := Exec(env, INIT, more).value;
    more, t := GoOn(env, more, t, pid);
    assert t == s.(calls := s.calls[pid := Running(instance, PubGetDraft(k))]);
    more, t := GoOn(env, more, t, pid);
    assert t == s.(calls := s.calls[pid := Running(instance, PubCheck(k, s.store.drafts[k]))]);
  }

  /** A publish begins and comes as far as the lock. */
  lemma ReachLock(env: Env, steps: seq<Step>, s: State, pid: nat, instance: nat, k: Key, doc: Json)
    returns (more: seq<Step>, t: State)
    requires Exec(env, INIT, steps) == Some(s) && s.store == ReadyStore(k, doc) && pid !in s.calls && Publishable(env, doc)
    ensures t == s.(calls := s.calls[pid := Running(instance, PubLock(k, doc))]) && Exec(env, INIT, more) == Some(t)
    ensures forall n | Instances(steps, n) && instance < n :: Instances(more, n)
    ensures forall l | AvoidsAll(env, steps, l, LostLookup) :: AvoidsAll(env, more, l, LostLookup)
  {
    more, t := ReachCheck(env, steps, s, pid, instance, k);
    FirstCheckPasses(env, k, doc);
    more, t := GoOn(env, more, t, pid);
    assert t.calls == s.calls[pid := Running(instance, PubLock(k, doc))];
  }

  lemma FirstCheckPasses(env: Env, k: Key, doc: Json)
    requires Publishable(env, doc)
    ensures Act(env, ReadyStore(k, doc), PubCheck(k, doc), Works, 0) == Move(ReadyStore(k, doc), Some(PubLock(k, doc)))
  {
    CanonicalIffFixed(doc);
  }

  lemma PublishFromLock(env: Env, steps: seq<Step>, s: State, pid: nat, k: Key, doc: Json) returns (more: seq<Step>)
    requires Exec(env, INIT, steps) == Some(s) && Numbered(Rows(s.store, k))
    requires pid in s.calls && s.calls[pid].call == PubLock(k, doc) && s.locks == map[]
    ensures Exec(env, INIT, more) == Some(State(WithVersion(env, s.store, k, doc, 0), map[], s.calls - {pid}))
    ensures forall n | Instances(steps, n) :: Instances(more, n)
    ensures forall l, h | AvoidsAll(env, steps, l, h) :: AvoidsAll(env, more, l, h)
  {
    LockedPart(env, s.store, k, doc, ALL_WORK, 0);
    more := FinishAlone(env, steps, s, pid, ALL_WORK, 0);
    assert s.locks - {LockOf(s.calls[pid])} == map[];
    assert forall l, h :: Harmless(s, pid, ALL_WORK, l, h);
  }

  // ---------- Each hazard repeats a version ----------

  /** Two overlapping publishes, no lookup failing, both find nothing published and then publish the same bytes twice. */
  lemma OverlapRepeats(env: Env, k: Key, doc: Json) returns (steps: seq<Step>)
    requires Publishable(env, doc)
    ensures OneInstance(steps) && Exec(env, INIT, steps).Some? && AvoidsAll(env, steps, k, LostLookup)
    ensures !NoRepeats(Rows(Exec(env, INIT, steps).value.store, k))
  {
    var s: State;
    steps := Ready(env, k, doc);
    steps, s := ReachLock(env, steps, State(ReadyStore(k, doc), map[], map[]), 0, 0, k, doc);
    steps, s := ReachLock(env, steps, s, 1, 0, k, doc);
    steps := PublishFromLock(env, steps, s, 0, k, doc);
    steps := PublishFromLock(env, steps, Exec(env, INIT, steps).value, 1, k, doc);
    RepeatedRows(env, k, doc, Exec(env, INIT, steps).value.store);
  }

  /** The lookup of the latest version fails, and nothing else. */
  const BLIND: Plan := (a: Access) => if a == FindLatest then FailsUndone else Works

  lemma BlindPublish(env: Env, steps: seq<Step>, store: Store, k: Key, doc: Json) returns (more: seq<Step>)
    requires Exec(env, INIT, steps) == Some(State(store, map[], map[])) && OneInstance(steps) && AvoidsAll(env, steps, k, Overlap)
    requires k in store.rulesets && k in store.drafts && store.drafts[k] == doc && Publishable(env, doc)
    requires Numbered(Rows(store, k))
    ensures Exec(env, INIT, more) == Some(State(WithVersion(env, store, k, doc, 0), map[], map[]))
    ensures OneInstance(more) && AvoidsAll(env, more, k, Overlap)
  {
    CanonicalIffFixed(doc);
    ReadsOfPublish(env, store, k, BLIND, 0);
    LockedPart(env, store, k, doc, BLIND, 0);
    more := BeginAndFinish(env, steps, store, PubGetRuleset(k), BLIND, 0);
  }

  /** Two publishes, one after the other, publish the same bytes twice if the lookup of the latest version fails. */
  lemma LostLookupRepeats(env: Env, k: Key, doc: Json) returns (steps: seq<Step>)
    requires Publishable(env, doc)
    ensures OneInstance(steps) && Exec(env, INIT, steps).Some? && AvoidsAll(env, steps, k, Overlap)
    ensures !NoRepeats(Rows(Exec(env, INIT, steps).value.store, k))
  {
    var store := ReadyStore(k, doc);
    steps := Ready(env, k, doc);
    steps := BlindPublish(env, steps, store, k, doc);
    var one := WithVersion(env, store, k, doc, 0);
    steps := BlindPublish(env, steps, one, k, doc);
    RepeatedRows(env, k, doc, Exec(env, INIT, steps).value.store);
  }

  lemma RepeatedRows(env: Env, k: Key, doc: Json, store: Store)
    requires store == WithVersion(env, WithVersion(env, ReadyStore(k, doc), k, doc, 0), k, doc, 0)
    ensures !NoRepeats(Rows(store, k))
  {
    var rows := Rows(store, k);
    assert rows[0].checksum == rows[1].checksum;
  }

  /** In every run of one instance in which only the given hazards occur, adjacent versions differ. */
  ghost predicate NeverRepeats(env: Env, hazards: set<Hazard>) {
    forall steps, k | OneInstance(steps) && Exec(env, INIT, steps).Some? && (forall h | h !in hazards :: AvoidsAll(env, steps, k, h)) ::
      NoRepeats(Rows(Exec(env, INIT, steps).value.store, k))
  }

  /** Adjacent versions differ in every run exactly when neither hazard can occur. */
  lemma NeverRepeatsIffNoHazard(env: Env, hazards: set<Hazard>, doc: Json)
    requires Publishable(env, doc)
    ensures NeverRepeats(env, hazards) <==> hazards == {}
  {
    if hazards == {} {
      forall steps, k | OneInstance(steps) && Exec(env, INIT, steps).Some? && (forall h | h !in hazards :: AvoidsAll(env, steps, k, h))
        ensures NoRepeats(Rows(Exec(env, INIT, steps).value.store, k))
      {
        CalmRunsDoNotRepeat(env, steps, k);
      }
    } else {
      var k := Key("", "");
      var steps;
      if Overlap in hazards {
        steps := OverlapRepeats(env, k, doc);
      } else {
        steps := LostLookupRepeats(env, k, doc);
        var h :| h in hazards;
        assert h == LostLookup;
      }
      forall h | h !in hazards ensures AvoidsAll(env, steps, k, h) {
        assert h == Overlap || h == LostLookup;
      }
    }
  }

  // ---------- Every failure under the lock is reachable ----------

  /**
    Under any plan whose lookups work and whose writes do not all, one instance reaches a state with
    no version and exactly the blobs that such a failure leaves.
    */
  lemma EveryFailureIsReachable(env: Env, k: Key, doc: Json, plan: Plan) returns (steps: seq<Step>)
    requires Publishable(env, doc) && !Succeeds(plan)
    requires plan(FindRuleset).Works? && plan(FindDraft).Works? && plan(FindLatest).Works?
    ensures OneInstance(steps) && Exec(env, INIT, steps).Some?
    ensures var store, bundle := Exec(env, INIT, steps).value.store, Bundle(ManifestOf(env, k, doc, 1, 0), doc);
      && Rows(store, k) == []
      && BlobAt(store.dsls, BlobId(k, 1)) == DslLeft(plan, None, doc)
      && BlobAt(store.bundles, BlobId(k, 1)) == BundleLeft(plan, None, bundle)
  {
    var store := ReadyStore(k, doc);
    steps := Ready(env, k, doc);
    steps := BeginAndFinish(env, steps, store, PubGetRuleset(k), plan, 0);
    CanonicalIffFixed(doc);
    ReadsOfPublish(env, store, k, plan, 0);
    FailedPublishLeaves(env, store, k, doc, plan, 0);
  }

  /** The write of the bundle fails although it took effect, and nothing else fails. */
  const HALF_WRITTEN: Plan := (a: Access) => if a == Access.PutBundle then FailsDone else Works

  /** A ruleset without versions, and the bundle of a version 1 that was never recorded. */
  lemma BundleIsOrphaned(env: Env, k: Key, doc: Json) returns (steps: seq<Step>)
    requires Publishable(env, doc)
    ensures OneInstance(steps) && Exec(env, INIT, steps).Some?
    ensures Rows(Exec(env, INIT, steps).value.store, k) == [] && BlobId(k, 1) in Exec(env, INIT, steps).value.store.bundles
  {
    steps := EveryFailureIsReachable(env, k, doc, HALF_WRITTEN);
  }

  // ---------- Two instances ----------

  lemma RecordedTwice(env: Env, store: Store, k: Key, doc: Json)
    requires Rows(store, k) == [Version(1, env.hash(doc), 0)]
    ensures var end := RunAlone(env, store, PubPutDsl(k, doc, 1, 0), ALL_WORK, 0);
      BlobId(k, 1) !in end.dsls && BlobId(k, 1) !in end.bundles && end.versions == store.versions
  {
    var id := BlobId(k, 1);
    var one := store.(dsls := store.dsls[id := doc]);
    var two := one.(bundles := one.bundles[id := Bundle(ManifestOf(env, k, doc, 1, 0), doc)]);
    assert Rows(two, k) == Rows(store, k) && Rows(two, k)[0].number == 1;
    InTwo(env, store, PubPutDsl(k, doc, 1, 0), ALL_WORK, 0);
    InTwo(env, one, PubPutBundle(k, doc, 1, 0), ALL_WORK, 0);
    InTwo(env, two, PubRecord(k, doc, 1, 0), ALL_WORK, 0);
    InTwo(env, two, PubUndoDsl(k, 1), ALL_WORK, 0);
    InTwo(env, WithoutDsl(two, id), PubUndoBundle(k, 1), ALL_WORK, 0);
  }

  /** A publish that has taken its lock allocates number 1. */
  lemma AllocateFirst(env: Env, steps: seq<Step>, s: State, pid: nat, k: Key, doc: Json) returns (more: seq<Step>, t: State)
    requires Exec(env, INIT, steps) == Some(s) && pid in s.calls && s.calls[pid].call == PubLock(k, doc)
    requires LockOf(s.calls[pid]) !in s.locks && Rows(s.store, k) == []
    ensures Exec(env, INIT, more) == Some(t)
    ensures t == State(s.store, s.locks[LockOf(s.calls[pid]) := pid], s.calls[pid := Running(s.calls[pid].instance, PubPutDsl(k, doc, 1, 0))])
    ensures forall n | Instances(steps, n) :: Instances(more, n)
  {
    Take(env, INIT, steps, Go(pid, Works, 0));
    more := steps + [Go(pid, Works, 0)];
    t := Exec(env, INIT, more).value;
    StoresAgree(Rows(s.store, k));
    more, t := GoOn(env, more, t, pid);
    assert t.calls == s.calls[pid := Running(s.calls[pid].instance, PubPutDsl(k, doc, 1, 0))];
  }

  lemma FirstPublish(env: Env, store: Store, k: Key, doc: Json)
    requires Rows(store, k) == []
    ensures RunAlone(env, store, PubPutDsl(k, doc, 1, 0), ALL_WORK, 0) == WithVersion(env, store, k, doc, 0)
  {
    LockedPart(env, store, k, doc, ALL_WORK, 0);
    StoresAgree(Rows(store, k));
    InTwo(env, store, PubLock(k, doc), ALL_WORK, 0);
    InTwo(env, store, PubAllocate(k, doc), ALL_WORK, 0);
  }

  /** Two instances, each holding its own lock, have both allocated number 1. */
  lemma BothAllocateOne(env: Env, k: Key, doc: Json) returns (steps: seq<Step>, s: State)
    requires Publishable(env, doc)
    ensures Instances(steps, 2) && Exec(env, INIT, steps) == Some(s)
    ensures s.store == ReadyStore(k, doc) && s.locks == map[LockId(0, k) := 0, LockId(1, k) := 1]
    ensures s.calls == map[0 := Running(0, PubPutDsl(k, doc, 1, 0)), 1 := Running(1, PubPutDsl(k, doc, 1, 0))]
  {
    steps := Ready(env, k, doc);
    steps, s := ReachLock(env, steps, State(ReadyStore(k, doc), map[], map[]), 0, 0, k, doc);
    steps, s := ReachLock(env, steps, s, 1, 1, k, doc);
    steps, s := AllocateFirst(env, steps, s, 0, k, doc);
    steps, s := AllocateFirst(env, steps, s, 1, k, doc);
  }

  lemma FinishBoth(env: Env, steps: seq<Step>, s: State, k: Key, doc: Json) returns (more: seq<Step>, last: State)
    requires Instances(steps, 2) && Exec(env, INIT, steps) == Some(s)
    requires s.store == ReadyStore(k, doc) && s.locks == map[LockId(0, k) := 0, LockId(1, k) := 1]
    requires s.calls == map[0 := Running(0, PubPutDsl(k, doc, 1, 0)), 1 := Running(1, PubPutDsl(k, doc, 1, 0))]
    ensures Instances(more, 2) && Exec(env, INIT, more) == Some(last)
    ensures last.store == RunAlone(env, WithVersion(env, s.store, k, doc, 0), PubPutDsl(k, doc, 1, 0), ALL_WORK, 0)
  {
    FirstPublish(env, s.store, k, doc);
    more := FinishAlone(env, steps, s, 0, ALL_WORK, 0);
    var t := Exec(env, INIT, more).value;
    assert t.calls == map[1 := Running(1, PubPutDsl(k, doc, 1, 0))] && t.locks == map[LockId(1, k) := 1];
    more := FinishAlone(env, more, t, 1, ALL_WORK, 0);
    last := Exec(env, INIT, more).value;
  }

  /** Two instances allocate one number; the one that loses the race deletes the other's blobs. */
  lemma TwoInstancesLoseBlobs(env: Env, k: Key, doc: Json) returns (steps: seq<Step>)
    requires Publishable(env, doc)
    ensures Instances(steps, 2) && Exec(env, INIT, steps).Some?
    ensures var store := Exec(env, INIT, steps).value.store;
      Rows(store, k) == [Version(1, env.hash(doc), 0)] && BlobId(k, 1) !in store.dsls && BlobId(k, 1) !in store.bundles
  {
    var s: State, last: State;
    steps, s := BothAllocateOne(env, k, doc);
    steps, last := FinishBoth(env, steps, s, k, doc);
    var one := WithVersion(env, s.store, k, doc, 0);
    RecordedTwice(env, one, k, doc);
    assert Rows(last.store, k) == Rows(one, k);
  }

  ghost predicate AlwaysBacked(env: Env, n: nat) {
    forall steps, k | Instances(steps, n) && Exec(env, INIT, steps).Some? :: KeyOk(env, Exec(env, INIT, steps).value.store, k)
  }

  /** Recorded versions keep their blobs in every run exactly when there is at most one instance. */
  lemma BackedIffOneInstance(env: Env, n: nat, doc: Json)
    requires Publishable(env, doc)
    ensures AlwaysBacked(env, n) <==> n <= 1
  {
    if n <= 1 {
      forall steps, k | Instances(steps, n) && Exec(env, INIT, steps).Some? ensures KeyOk(env, Exec(env, INIT, steps).value.store, k) {
        VersionsAreBacked(env, steps, k);
      }
    } else {
      var k := Key("", "");
      var steps := TwoInstancesLoseBlobs(env, k, doc);
      assert Instances(steps, n);
      var store := Exec(env, INIT, steps).value.store;
      assert !Backed(env, store, k, Rows(store, k)[0]);
      assert !KeyOk(env, store, k);
    }
  }
}
