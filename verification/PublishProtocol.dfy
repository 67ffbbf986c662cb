/**
  The registry as a state machine: many calls in flight, each making one store or blob access per
  step, any access failing, any call dying, and the process crashing between any two steps. The
  publish lock lives in a service instance, so it orders the publishes of that instance only.
  */
module PublishProtocol {
  import opened Wrappers
  import opened Faults
  import opened Dsl
  import opened CanonicalJson
  import opened Registry

  datatype LockId = LockId(instance: nat, key: Key)

  datatype Running = Running(instance: nat, call: Call)

  datatype State = State(store: Store, locks: map<LockId, nat>, calls: map<nat, Running>)

  const INIT := State(EMPTY, map[], map[])

  datatype Step =
    | Begin(pid: nat, instance: nat, call: Call)
    | Go(pid: nat, fate: Fate, now: int)
    | Die(pid: nat)
    | Crash(instance: nat)
    | Create(key: Key)
    | Delete(key: Key)
    | DropDraft(key: Key)

  function LockOf(r: Running): LockId {
    LockId(r.instance, r.call.key)
  }

  /** Dying calls unlock too: the unlock is deferred. */
  function Release(s: State, pid: nat): State
    requires pid in s.calls
  {
    s.(locks := if InCritical(s.calls[pid].call) then s.locks - {LockOf(s.calls[pid])} else s.locks,
       calls := s.calls - {pid})
  }

  /** Taking the lock waits until it is free. */
  predicate Enabled(s: State, step: Step) {
    match step
    case Begin(pid, _, call) => pid !in s.calls && Initial(call)
    case Go(pid, _, _) => pid in s.calls && (s.calls[pid].call.PubLock? ==> LockOf(s.calls[pid]) !in s.locks)
    case Die(pid) => pid in s.calls
    case _ => true
  }

  ghost function AfterGo(env: Env, s: State, pid: nat, fate: Fate, now: int): State
    requires pid in s.calls
  {
    var r := s.calls[pid];
    var m := Act(env, s.store, r.call, fate, now);
    if m.next.None? then Release(s, pid).(store := m.store)
    else
      State(m.store,
            if r.call.PubLock? then s.locks[LockOf(r) := pid] else s.locks,
            s.calls[pid := Running(r.instance, m.next.value)])
  }

  ghost function After(env: Env, s: State, step: Step): State
    requires Enabled(s, step)
  {
    match step
    case Begin(pid, instance, call) => s.(calls := s.calls[pid := Running(instance, call)])
    case Go(pid, fate, now) => AfterGo(env, s, pid, fate, now)
    case Die(pid) => Release(s, pid)
    case Crash(instance) =>
      s.(locks := map l | l in s.locks && l.instance != instance :: s.locks[l],
         calls := map p | p in s.calls && s.calls[p].instance != instance :: s.calls[p])
    case Create(k) => s.(store := CreateRuleset(s.store, k))
    case Delete(k) => s.(store := DeleteRuleset(env.kind, s.store, k))
    case DropDraft(k) => s.(store := DeleteDraft(s.store, k))
  }

  ghost function Exec(env: Env, s: State, steps: seq<Step>): Option<State> {
    if steps == [] then Some(s)
    else
      match Exec(env, s, steps[..|steps| - 1])
      case None => None
      case Some(t) =>
        var step := steps[|steps| - 1];
        if Enabled(t, step) then Some(After(env, t, step)) else None
  }

  /** All calls belong to the first n service instances. */
  ghost predicate Instances(steps: seq<Step>, n: nat) {
    forall i | 0 <= i < |steps| && steps[i].Begin? :: steps[i].instance < n
  }

  ghost predicate OneInstance(steps: seq<Step>) {
    Instances(steps, 1)
  }

  // ---------- The invariant ----------

  ghost predicate HoldsLock(s: State, pid: nat) {
    pid in s.calls && LockOf(s.calls[pid]) in s.locks && s.locks[LockOf(s.calls[pid])] == pid
  }

  ghost predicate LocksOk(s: State) {
    && (forall p | p in s.calls :: s.calls[p].instance == 0)
    && (forall p | p in s.calls && InCritical(s.calls[p].call) :: HoldsLock(s, p))
    && (forall l | l in s.locks ::
          s.locks[l] in s.calls && InCritical(s.calls[s.locks[l]].call) && LockOf(s.calls[s.locks[l]]) == l)
  }

  ghost predicate Inv(env: Env, s: State) {
    && StoreOk(env, s.store) && LocksOk(s)
    && forall p | p in s.calls :: CallOk(env, s.store, s.calls[p].call)
  }

  /** The next access of a call keeps the call within the critical section it is in. */
  lemma ActStaysPut(env: Env, store: Store, c: Call, fate: Fate, now: int)
    ensures var m := Act(env, store, c, fate, now); m.next.Some? ==>
      && m.next.value.key == c.key
      && (InCritical(m.next.value) <==> InCritical(c) || c.PubLock?)
  {
  }

  lemma GoLocks(env: Env, s: State, pid: nat, fate: Fate, now: int)
    requires LocksOk(s) && Enabled(s, Go(pid, fate, now))
    ensures LocksOk(AfterGo(env, s, pid, fate, now))
  {
    var r := s.calls[pid];
    ActStaysPut(env, s.store, r.call, fate, now);
    var t := AfterGo(env, s, pid, fate, now);
    forall p | p in t.calls && InCritical(t.calls[p].call) ensures HoldsLock(t, p) {
      if p != pid {
        assert HoldsLock(s, p);
      }
    }
  }

  lemma GoInv(env: Env, s: State, pid: nat, fate: Fate, now: int)
    requires Inv(env, s) && Enabled(s, Go(pid, fate, now))
    ensures Inv(env, AfterGo(env, s, pid, fate, now))
    ensures forall k :: Keeps(s.store, AfterGo(env, s, pid, fate, now).store, k)
  {
    var c := s.calls[pid].call;
    GoLocks(env, s, pid, fate, now);
    ActKeeps(env, s.store, c, fate, now);
    var t := AfterGo(env, s, pid, fate, now);
    forall p | p in t.calls ensures CallOk(env, t.store, t.calls[p].call) {
      if p != pid {
        var other := s.calls[p].call;
        if InCritical(c) && InCritical(other) {
          assert HoldsLock(s, pid) && HoldsLock(s, p);
        }
        ActSpares(env, s.store, c, fate, now, other);
      }
    }
  }

  lemma LeaveLocks(s: State, t: State)
    requires LocksOk(s)
    requires forall p | p in t.calls :: p in s.calls && t.calls[p] == s.calls[p]
    requires forall l | l in t.locks :: l in s.locks && t.locks[l] == s.locks[l] && t.locks[l] in t.calls
    requires forall p | p in t.calls && InCritical(t.calls[p].call) :: LockOf(t.calls[p]) in t.locks
    ensures LocksOk(t)
  {
    forall p | p in t.calls && InCritical(t.calls[p].call) ensures HoldsLock(t, p) {
      assert HoldsLock(s, p);
    }
  }

  lemma LeaveInv(env: Env, s: State, step: Step)
    requires Inv(env, s) && Enabled(s, step) && (step.Die? || step.Crash?)
    ensures Inv(env, After(env, s, step))
  {
    var t := After(env, s, step);
    forall p | p in t.calls && InCritical(t.calls[p].call) ensures LockOf(t.calls[p]) in t.locks {
      assert HoldsLock(s, p);
      if step.Die? && InCritical(s.calls[step.pid].call) {
        assert HoldsLock(s, step.pid);
      }
    }
    forall l | l in t.locks ensures t.locks[l] in t.calls {
      assert LockOf(s.calls[s.locks[l]]) == l;
    }
    LeaveLocks(s, t);
  }

  /** Steps that only touch rulesets and drafts. */
  lemma ListingInv(env: Env, s: State, step: Step)
    requires Inv(env, s) && (step.Create? || step.Delete? || step.DropDraft?)
    ensures Inv(env, After(env, s, step)) && forall k :: Keeps(s.store, After(env, s, step).store, k)
  {
    var t := After(env, s, step);
    SameVersionsKeep(env, s.store, t.store);
    assert t.locks == s.locks && t.calls == s.calls;
    forall p | p in t.calls ensures CallOk(env, t.store, t.calls[p].call) {
      assert CallOk(env, s.store, s.calls[p].call);
      assert Rows(t.store, t.calls[p].call.key) == Rows(s.store, t.calls[p].call.key);
    }
  }

  lemma StepInv(env: Env, s: State, step: Step)
    requires Inv(env, s) && Enabled(s, step) && (step.Begin? ==> step.instance == 0)
    ensures Inv(env, After(env, s, step)) && forall k :: Keeps(s.store, After(env, s, step).store, k)
  {
    match step
    case Begin(pid, _, call) =>
      var t := After(env, s, step);
      forall p | p in t.calls && InCritical(t.calls[p].call) ensures HoldsLock(t, p) {
        assert HoldsLock(s, p);
      }
    case Go(pid, fate, now) => GoInv(env, s, pid, fate, now);
    case Die(_) => LeaveInv(env, s, step);
    case Crash(_) => LeaveInv(env, s, step);
    case _ => ListingInv(env, s, step);
  }

  lemma {:induction false} RunInv(env: Env, steps: seq<Step>)
    requires OneInstance(steps) && Exec(env, INIT, steps).Some?
    ensures Inv(env, Exec(env, INIT, steps).value)
  {
    if steps != [] {
      var before := steps[..|steps| - 1];
      RunInv(env, before);
      StepInv(env, Exec(env, INIT, before).value, steps[|steps| - 1]);
    }
  }

  // ---------- Over all runs of one instance ----------

  /**
    In every reachable state the versions of a key are numbered 1..n, and each has its DSL blob,
    hashing to the recorded checksum, and its bundle, holding the same bytes and a manifest that
    repeats the record.
    */
  lemma VersionsAreBacked(env: Env, steps: seq<Step>, k: Key)
    requires OneInstance(steps) && Exec(env, INIT, steps).Some?
    ensures KeyOk(env, Exec(env, INIT, steps).value.store, k)
  {
    RunInv(env, steps);
  }

  /** So both kinds of store hand out the same next number and the same latest version. */
  lemma AllocatorsAgree(env: Env, steps: seq<Step>, k: Key)
    requires OneInstance(steps) && Exec(env, INIT, steps).Some?
    ensures var rows := Rows(Exec(env, INIT, steps).value.store, k);
      NextNumber(Sql, rows) == NextNumber(InMemory, rows) == |rows| + 1 && Latest(Sql, rows) == Latest(InMemory, rows)
  {
    RunInv(env, steps);
    var store := Exec(env, INIT, steps).value.store;
    assert KeyOk(env, store, k);
    StoresAgree(Rows(store, k));
  }

  lemma KeepsTransitive(a: Store, b: Store, c: Store, k: Key)
    requires Keeps(a, b, k) && Keeps(b, c, k)
    ensures Keeps(a, c, k)
  {
    forall n | 1 <= n <= |Rows(a, k)| ensures SameBlobs(a, c, BlobId(k, n)) {
      assert SameBlobs(a, b, BlobId(k, n)) && SameBlobs(b, c, BlobId(k, n));
    }
  }

  lemma {:induction false} ExecPrefix(env: Env, s: State, steps: seq<Step>, i: nat)
    requires i <= |steps| && Exec(env, s, steps).Some?
    ensures Exec(env, s, steps[..i]).Some?
    decreases |steps|
  {
    if i == |steps| {
      assert steps[..i] == steps;
    } else {
      assert steps[..|steps| - 1][..i] == steps[..i];
      ExecPrefix(env, s, steps[..|steps| - 1], i);
    }
  }

  /**
    From any point of a run on, the versions recorded so far stay a prefix of the versions recorded
    and their blobs stay as they are, also across deleting and re-creating the ruleset: a number is
    never given twice, and a version's checksum and bytes never change.
    */
  lemma {:induction false} HistoryIsImmutable(env: Env, steps: seq<Step>, i: nat, k: Key)
    requires OneInstance(steps) && i <= |steps| && Exec(env, INIT, steps).Some?
    ensures Exec(env, INIT, steps[..i]).Some?
    ensures Keeps(Exec(env, INIT, steps[..i]).value.store, Exec(env, INIT, steps).value.store, k)
    decreases |steps|
  {
    ExecPrefix(env, INIT, steps, i);
    if i == |steps| {
      assert steps[..i] == steps;
    } else {
      var before := steps[..|steps| - 1];
      assert before[..i] == steps[..i];
      HistoryIsImmutable(env, before, i, k);
      RunInv(env, before);
      StepInv(env, Exec(env, INIT, before).value, steps[|steps| - 1]);
      KeepsTransitive(Exec(env, INIT, steps[..i]).value.store, Exec(env, INIT, before).value.store, Exec(env, INIT, steps).value.store, k);
    }
  }

  // ---------- What Evaluate loads ----------

  /** The bytes Evaluate works on when nothing fails: the latest version's, or the draft's. */
  function Loaded(kind: Kind, store: Store, k: Key): Option<Json> {
    match Latest(kind, Rows(store, k))
    case Some(v) => if BlobId(k, v.number) in store.dsls then Some(store.dsls[BlobId(k, v.number)]) else None
    case None => if k in store.drafts then Some(store.drafts[k]) else None
  }

  lemma RecordedBytesAreFit(env: Env, store: Store, k: Key, n: nat)
    requires DocsOk(env, store) && KeyOk(env, store, k) && 1 <= n <= |Rows(store, k)|
    ensures BlobId(k, n) in store.dsls && Publishable(env, store.dsls[BlobId(k, n)])
    ensures env.hash(store.dsls[BlobId(k, n)]) == Rows(store, k)[n - 1].checksum
  {
    assert Backed(env, store, k, Rows(store, k)[n - 1]);
  }

  /** Once a version exists, Evaluate finds bytes that pass strict validation, and canonical ones. */
  lemma PublishedProgramLoads(env: Env, steps: seq<Step>, k: Key)
    requires OneInstance(steps) && Exec(env, INIT, steps).Some?
    requires Rows(Exec(env, INIT, steps).value.store, k) != []
    ensures var loaded := Loaded(env.kind, Exec(env, INIT, steps).value.store, k);
      loaded.Some? && Canonical(loaded.value) && Strict(env, loaded.value)
  {
    RunInv(env, steps);
    var store := Exec(env, INIT, steps).value.store;
    var rows := Rows(store, k);
    assert KeyOk(env, store, k);
    StoresAgree(rows);
    RecordedBytesAreFit(env, store, k, |rows|);
  }

  /**
    An evaluation goes on to read the bytes of version number |rows|, which are there and hash to the
    last row's checksum, or the draft where there are no rows; and these are the bytes Loaded gives.
    */
  ghost predicate ReadsLatest(env: Env, store: Store, k: Key, now: int) {
    var rows := Rows(store, k);
    var next := if rows != [] then EvalFetch(k, |rows|) else EvalDraft(k);
    && Act(env, store, EvalLatest(k), Works, now) == Move(store, Some(next))
    && Loaded(env.kind, store, k) == BytesRead(store, next)
    && (rows != [] ==>
          && BlobId(k, |rows|) in store.dsls && BytesRead(store, next) == Some(store.dsls[BlobId(k, |rows|)])
          && env.hash(store.dsls[BlobId(k, |rows|)]) == rows[|rows| - 1].checksum)
    && (rows == [] ==> BytesRead(store, next) == if k in store.drafts then Some(store.drafts[k]) else None)
  }

  lemma EvalLatestPicks(env: Env, store: Store, k: Key, now: int)
    requires Numbered(Rows(store, k))
    ensures var rows := Rows(store, k);
      var next := if rows != [] then EvalFetch(k, |rows|) else EvalDraft(k);
      Act(env, store, EvalLatest(k), Works, now) == Move(store, Some(next)) && Loaded(env.kind, store, k) == BytesRead(store, next)
  {
    StoresAgree(Rows(store, k));
  }

  lemma SoundStoreReadsLatest(env: Env, store: Store, k: Key, now: int)
    requires DocsOk(env, store) && KeyOk(env, store, k)
    ensures ReadsLatest(env, store, k, now)
  {
    EvalLatestPicks(env, store, k, now);
    if Rows(store, k) != [] {
      RecordedBytesAreFit(env, store, k, |Rows(store, k)|);
    }
  }

  /** In every reachable state of one instance. */
  lemma EvaluateReadsLatest(env: Env, steps: seq<Step>, k: Key, now: int)
    requires OneInstance(steps) && Exec(env, INIT, steps).Some?
    ensures ReadsLatest(env, Exec(env, INIT, steps).value.store, k, now)
  {
    RunInv(env, steps);
    assert KeyOk(env, Exec(env, INIT, steps).value.store, k);
    SoundStoreReadsLatest(env, Exec(env, INIT, steps).value.store, k, now);
  }

  /** The access reads the bytes of a recorded version, which are valid and hash to its checksum. */
  ghost predicate ReadsRecorded(env: Env, store: Store, c: Call) {
    && c.EvalFetch? && 1 <= c.n <= |Rows(store, c.key)|
    && BytesRead(store, c).Some? && Strict(env, BytesRead(store, c).value)
    && env.hash(BytesRead(store, c).value) == Rows(store, c.key)[c.n - 1].checksum
  }

  lemma SoundStoreReadsRecorded(env: Env, store: Store, c: Call)
    requires DocsOk(env, store) && KeyOk(env, store, c.key) && CallOk(env, store, c) && c.EvalFetch?
    ensures ReadsRecorded(env, store, c)
  {
    RecordedBytesAreFit(env, store, c.key, c.n);
  }

  /** The same for an Evaluate already under way: the version it picked is a recorded one and still has its bytes. */
  lemma PickedVersionLoads(env: Env, steps: seq<Step>, pid: nat)
    requires OneInstance(steps) && Exec(env, INIT, steps).Some?
    requires pid in Exec(env, INIT, steps).value.calls && Exec(env, INIT, steps).value.calls[pid].call.EvalFetch?
    ensures ReadsRecorded(env, Exec(env, INIT, steps).value.store, Exec(env, INIT, steps).value.calls[pid].call)
  {
    RunInv(env, steps);
    var s := Exec(env, INIT, steps).value;
    var c := s.calls[pid].call;
    assert KeyOk(env, s.store, c.key) && CallOk(env, s.store, c);
    SoundStoreReadsRecorded(env, s.store, c);
  }

  /** A call about to fetch a version picked it as the latest there was at that access. */
  lemma PickedNow(env: Env, store: Store, c: Call, fate: Fate, now: int)
    requires Numbered(Rows(store, c.key))
    ensures var next := Act(env, store, c, fate, now).next;
      next.Some? && next.value.EvalFetch? ==> next.value.key == c.key && next.value.n == |Rows(store, c.key)| && next.value.n > 0
  {
    StoresAgree(Rows(store, c.key));
  }

  ghost predicate LatestAt(env: Env, steps: seq<Step>, i: nat, k: Key, n: nat) {
    i <= |steps| && Exec(env, INIT, steps[..i]).Some? && n == |Rows(Exec(env, INIT, steps[..i]).value.store, k)|
  }

  lemma FetchingSince(env: Env, s: State, step: Step, pid: nat)
    requires Enabled(s, step) && forall k :: KeyOk(env, s.store, k)
    requires pid in After(env, s, step).calls && After(env, s, step).calls[pid].call.EvalFetch?
    ensures var c := After(env, s, step).calls[pid].call;
      (pid in s.calls && s.calls[pid].call == c) || (c.n > 0 && c.n == |Rows(s.store, c.key)|)
  {
    if step.Go? && step.pid == pid {
      assert KeyOk(env, s.store, s.calls[pid].call.key);
      PickedNow(env, s.store, s.calls[pid].call, step.fate, step.now);
    }
  }

  lemma {:induction false} PickedAtSomePoint(env: Env, steps: seq<Step>, pid: nat) returns (i: nat)
    requires OneInstance(steps) && Exec(env, INIT, steps).Some?
    requires pid in Exec(env, INIT, steps).value.calls && Exec(env, INIT, steps).value.calls[pid].call.EvalFetch?
    ensures var c := Exec(env, INIT, steps).value.calls[pid].call; LatestAt(env, steps, i, c.key, c.n) && c.n > 0
  {
    var before, step := steps[..|steps| - 1], steps[|steps| - 1];
    var s, c := Exec(env, INIT, before).value, Exec(env, INIT, steps).value.calls[pid].call;
    RunInv(env, before);
    FetchingSince(env, s, step, pid);
    if pid in s.calls && s.calls[pid].call == c {
      i := PickedAtSomePoint(env, before, pid);
      assert before[..i] == steps[..i];
    } else {
      i := |before|;
    }
  }

  /** It was the latest at some point of the run, and its bytes are those it had then. */
  lemma PickedVersionWasLatest(env: Env, steps: seq<Step>, pid: nat) returns (i: nat)
    requires OneInstance(steps) && Exec(env, INIT, steps).Some?
    requires pid in Exec(env, INIT, steps).value.calls && Exec(env, INIT, steps).value.calls[pid].call.EvalFetch?
    ensures var c := Exec(env, INIT, steps).value.calls[pid].call;
      && LatestAt(env, steps, i, c.key, c.n)
      && BytesRead(Exec(env, INIT, steps[..i]).value.store, c) == BytesRead(Exec(env, INIT, steps).value.store, c)
  {
    i := PickedAtSomePoint(env, steps, pid);
    var c := Exec(env, INIT, steps).value.calls[pid].call;
    HistoryIsImmutable(env, steps, i, c.key);
    assert SameBlobs(Exec(env, INIT, steps[..i]).value.store, Exec(env, INIT, steps).value.store, BlobId(c.key, c.n));
  }

  /** What it loads depends on the highest version alone: until one is added, no step changes it. */
  lemma LoadedOnlyByPublishing(env: Env, steps: seq<Step>, i: nat, k: Key)
    requires OneInstance(steps) && i <= |steps| && Exec(env, INIT, steps).Some?
    requires Exec(env, INIT, steps[..i]).Some? && Rows(Exec(env, INIT, steps[..i]).value.store, k) != []
    requires |Rows(Exec(env, INIT, steps).value.store, k)| == |Rows(Exec(env, INIT, steps[..i]).value.store, k)|
    ensures Loaded(env.kind, Exec(env, INIT, steps).value.store, k) == Loaded(env.kind, Exec(env, INIT, steps[..i]).value.store, k)
  {
    HistoryIsImmutable(env, steps, i, k);
    RunInv(env, steps);
    var s, t := Exec(env, INIT, steps[..i]).value.store, Exec(env, INIT, steps).value.store;
    assert Rows(s, k) == Rows(t, k);
    assert KeyOk(env, t, k);
    StoresAgree(Rows(t, k));
    assert SameBlobs(s, t, BlobId(k, |Rows(t, k)|));
  }
}
