/** Calls that do not overlap, and what a sequence of them does when no access fails. */
module Sequential {
  import opened Wrappers
  import opened Faults
  import opened Dsl
  import opened CanonicalJson
  import opened Registry
  import opened PublishProtocol
  import opened Repeats

  datatype Access =
    | FindRuleset | FindDraft | FindLatest | TakeLock | Allocate | PutDsl | PutBundle | RecordVersion
    | UndoDsl | UndoBundle | UndoPut | First | Second

  function AccessOf(c: Call): Access {
    match c
    case PubGetRuleset(_) => FindRuleset
    case PubGetDraft(_) => FindDraft
    case PubCheck(_, _) => FindLatest
    case PubLock(_, _) => TakeLock
    case PubAllocate(_, _) => Allocate
    case PubPutDsl(_, _, _, _) => Access.PutDsl
    case PubPutBundle(_, _, _, _) => Access.PutBundle
    case PubRecord(_, _, _, _) => RecordVersion
    case PubUndoPut(_, _) => UndoPut
    case PubUndoDsl(_, _) => UndoDsl
    case PubUndoBundle(_, _) => UndoBundle
    case DraftGetRuleset(_, _) => First
    case RollbackFetch(_, _) => First
    case RenameCheck(_, _) => First
    case EvalLatest(_) => First
    case DraftStore(_, _) => Second
    case RenameCommit(_, _) => Second
    case EvalFetch(_, _) => Second
    case EvalDraft(_) => Second
  }

  /** How many accesses may still follow. */
  function Remaining(a: Access): nat {
    match a
    case FindRuleset => 10
    case FindDraft => 9
    case FindLatest => 8
    case TakeLock => 7
    case Allocate => 6
    case PutDsl => 5
    case PutBundle => 4
    case RecordVersion => 3
    case UndoDsl => 2
    case UndoBundle => 1
    case UndoPut => 1
    case First => 1
    case Second => 0
  }

  /** What befalls each access of a call. */
  type Plan = Access -> Fate

  const ALL_WORK: Plan := (a: Access) => Works

  /** The store once a call has run to its end with no other call in between. */
  ghost function RunAlone(env: Env, store: Store, c: Call, plan: Plan, now: int): Store
    decreases Remaining(AccessOf(c))
  {
    var m := Act(env, store, c, plan(AccessOf(c)), now);
    if m.next.None? then m.store else RunAlone(env, m.store, m.next.value, plan, now)
  }

  /** One access, and then the rest. */
  lemma InTwo(env: Env, store: Store, c: Call, plan: Plan, now: int)
    ensures var m := Act(env, store, c, plan(AccessOf(c)), now);
      RunAlone(env, store, c, plan, now) == if m.next.None? then m.store else RunAlone(env, m.store, m.next.value, plan, now)
  {
  }

  datatype Op =
    | PublishOp(key: Key, now: int)
    | DraftOp(key: Key, raw: Json)
    | RollbackOp(key: Key, toVersion: nat)
    | RenameOp(key: Key, to: Key)
    | CreateOp(key: Key)
    | DeleteOp(key: Key)
    | DropDraftOp(key: Key)

  ghost function Apply(env: Env, store: Store, op: Op): Store {
    match op
    case PublishOp(k, now) => RunAlone(env, store, PubGetRuleset(k), ALL_WORK, now)
    case DraftOp(k, raw) => RunAlone(env, store, DraftGetRuleset(k, raw), ALL_WORK, 0)
    case RollbackOp(k, v) => RunAlone(env, store, RollbackFetch(k, v), ALL_WORK, 0)
    case RenameOp(k, to) => RunAlone(env, store, RenameCheck(k, to), ALL_WORK, 0)
    case CreateOp(k) => CreateRuleset(store, k)
    case DeleteOp(k) => DeleteRuleset(env.kind, store, k)
    case DropDraftOp(k) => DeleteDraft(store, k)
  }

  ghost function History(env: Env, ops: seq<Op>): Store {
    if ops == [] then EMPTY else Apply(env, History(env, ops[..|ops| - 1]), ops[|ops| - 1])
  }

  // ---------- Sequential histories are runs of the machine ----------

  lemma Take(env: Env, s: State, steps: seq<Step>, step: Step)
    requires Exec(env, s, steps).Some? && Enabled(Exec(env, s, steps).value, step)
    ensures Exec(env, s, steps + [step]) == Some(After(env, Exec(env, s, steps).value, step))
  {
    assert (steps + [step])[..|steps|] == steps;
  }

  /** The call can finish undisturbed: it has its lock, or nobody does. */
  ghost predicate Undisturbed(s: State, pid: nat) {
    pid in s.calls && if InCritical(s.calls[pid].call) then HoldsLock(s, pid) else LockOf(s.calls[pid]) !in s.locks
  }

  ghost function Finished(env: Env, s: State, pid: nat, plan: Plan, now: int): State
    requires pid in s.calls
  {
    State(RunAlone(env, s.store, s.calls[pid].call, plan, now), s.locks - {LockOf(s.calls[pid])}, s.calls - {pid})
  }

  ghost function NextGo(s: State, pid: nat, plan: Plan, now: int): Step
    requires pid in s.calls
  {
    Go(pid, plan(AccessOf(s.calls[pid].call)), now)
  }

  lemma FinishStep(env: Env, s: State, pid: nat, plan: Plan, now: int)
    requires Undisturbed(s, pid)
    ensures Enabled(s, NextGo(s, pid, plan, now))
    ensures var fate := plan(AccessOf(s.calls[pid].call));
      var t, next := AfterGo(env, s, pid, fate, now), Act(env, s.store, s.calls[pid].call, fate, now).next;
      if next.None? then t == Finished(env, s, pid, plan, now)
      else Undisturbed(t, pid) && t.calls[pid].call == next.value && Finished(env, t, pid, plan, now) == Finished(env, s, pid, plan, now)
  {
    var fate := plan(AccessOf(s.calls[pid].call));
    var t, m := AfterGo(env, s, pid, fate, now), Act(env, s.store, s.calls[pid].call, fate, now);
    ActStaysPut(env, s.store, s.calls[pid].call, fate, now);
    if m.next.None? {
      assert t.locks == s.locks - {LockOf(s.calls[pid])};
    } else {
      assert t.calls - {pid} == s.calls - {pid};
      assert t.locks - {LockOf(s.calls[pid])} == s.locks - {LockOf(s.calls[pid])};
    }
  }

  lemma FewerRemain(env: Env, store: Store, c: Call, fate: Fate, now: int)
    ensures var next := Act(env, store, c, fate, now).next; next.Some? ==> Remaining(AccessOf(next.value)) < Remaining(AccessOf(c))
  {
  }

  predicate PastCheck(c: Call) {
    !c.PubGetRuleset? && !c.PubGetDraft? && !c.PubCheck?
  }

  /** Letting the call finish brings no hazard for the ruleset. */
  ghost predicate Harmless(s: State, pid: nat, plan: Plan, k: Key, h: Hazard)
    requires pid in s.calls
  {
    || PastCheck(s.calls[pid].call)
    || match h
       case Overlap => forall q | q != pid :: !Carries(s, q, k)
       case LostLookup => plan(FindLatest).Works?
  }

  lemma HarmlessStep(env: Env, s: State, pid: nat, plan: Plan, now: int, k: Key, h: Hazard)
    requires Undisturbed(s, pid) && Enabled(s, NextGo(s, pid, plan, now)) && Harmless(s, pid, plan, k, h)
    ensures Avoids(env, s, NextGo(s, pid, plan, now), k, h)
    ensures var t := After(env, s, NextGo(s, pid, plan, now)); pid in t.calls ==> Harmless(t, pid, plan, k, h)
  {
    var t := After(env, s, NextGo(s, pid, plan, now));
    assert forall q | q != pid :: Carries(t, q, k) ==> Carries(s, q, k);
  }

  lemma FinishOne(env: Env, steps: seq<Step>, s: State, pid: nat, plan: Plan, now: int) returns (more: seq<Step>, t: State)
    requires Exec(env, INIT, steps) == Some(s) && Undisturbed(s, pid)
    ensures Exec(env, INIT, more) == Some(t) && t == AfterGo(env, s, pid, plan(AccessOf(s.calls[pid].call)), now)
    ensures forall n | Instances(steps, n) :: Instances(more, n)
    ensures forall k, h | AvoidsAll(env, steps, k, h) && Harmless(s, pid, plan, k, h) ::
      AvoidsAll(env, more, k, h) && (pid in t.calls ==> Harmless(t, pid, plan, k, h))
  {
    FinishStep(env, s, pid, plan, now);
    var step := NextGo(s, pid, plan, now);
    Take(env, INIT, steps, step);
    more, t := steps + [step], After(env, s, step);
    forall k, h | AvoidsAll(env, steps, k, h) && Harmless(s, pid, plan, k, h)
      ensures AvoidsAll(env, more, k, h) && (pid in t.calls ==> Harmless(t, pid, plan, k, h))
    {
      HarmlessStep(env, s, pid, plan, now, k, h);
      AvoidsSnoc(env, steps, s, step, k, h);
    }
  }

  /** A call finishes with no other step in between, under any plan of failures. */
  lemma {:induction false} FinishAlone(env: Env, steps: seq<Step>, s: State, pid: nat, plan: Plan, now: int) returns (more: seq<Step>)
    requires Exec(env, INIT, steps) == Some(s) && Undisturbed(s, pid)
    ensures Exec(env, INIT, more) == Some(Finished(env, s, pid, plan, now))
    ensures forall n | Instances(steps, n) :: Instances(more, n)
    ensures forall k, h | AvoidsAll(env, steps, k, h) && Harmless(s, pid, plan, k, h) :: AvoidsAll(env, more, k, h)
    decreases Remaining(AccessOf(s.calls[pid].call))
  {
    var t: State;
    var fate := plan(AccessOf(s.calls[pid].call));
    more, t := FinishOne(env, steps, s, pid, plan, now);
    FinishStep(env, s, pid, plan, now);
    FewerRemain(env, s.store, s.calls[pid].call, fate, now);
    if Act(env, s.store, s.calls[pid].call, fate, now).next.Some? {
      more := FinishAlone(env, more, t, pid, plan, now);
    }
  }

  /** One more step that passes no check. */
  lemma TakeHarmless(env: Env, steps: seq<Step>, s: State, step: Step) returns (more: seq<Step>)
    requires Exec(env, INIT, steps) == Some(s) && Enabled(s, step) && !step.Go?
    ensures more == steps + [step] && Exec(env, INIT, more) == Some(After(env, s, step))
    ensures forall n | Instances(steps, n) && (step.Begin? ==> step.instance < n) :: Instances(more, n)
    ensures forall k, h | AvoidsAll(env, steps, k, h) :: AvoidsAll(env, more, k, h)
  {
    Take(env, INIT, steps, step);
    more := steps + [step];
    forall k, h | AvoidsAll(env, steps, k, h) ensures AvoidsAll(env, more, k, h) {
      AvoidsSnoc(env, steps, s, step, k, h);
    }
  }

  function FirstCall(op: Op): Option<Call> {
    match op
    case PublishOp(k, _) => Some(PubGetRuleset(k))
    case DraftOp(k, raw) => Some(DraftGetRuleset(k, raw))
    case RollbackOp(k, v) => Some(RollbackFetch(k, v))
    case RenameOp(k, to) => Some(RenameCheck(k, to))
    case _ => None
  }

  function AtOnce(op: Op): Step {
    match op
    case CreateOp(k) => Create(k)
    case DeleteOp(k) => Delete(k)
    case _ => DropDraft(op.key)
  }

  lemma BeginAndFinish(env: Env, steps: seq<Step>, store: Store, call: Call, plan: Plan, now: int) returns (more: seq<Step>)
    requires Exec(env, INIT, steps) == Some(State(store, map[], map[])) && Initial(call)
    ensures Exec(env, INIT, more) == Some(State(RunAlone(env, store, call, plan, now), map[], map[]))
    ensures forall n | Instances(steps, n) && n > 0 :: Instances(more, n)
    ensures forall k, h | AvoidsAll(env, steps, k, h) && (h.LostLookup? ==> plan(FindLatest).Works?) :: AvoidsAll(env, more, k, h)
  {
    var s := State(store, map[], map[]);
    more := TakeHarmless(env, steps, s, Begin(0, 0, call));
    var t := State(store, map[], map[0 := Running(0, call)]);
    assert After(env, s, Begin(0, 0, call)) == t;
    more := FinishAlone(env, more, t, 0, plan, now);
    assert Finished(env, t, 0, plan, now) == State(RunAlone(env, store, call, plan, now), map[], map[]);
  }

  /** Every sequential history is a run of one instance of the machine, and one without hazards. */
  lemma {:induction false} HistoryIsRun(env: Env, ops: seq<Op>) returns (steps: seq<Step>)
    ensures OneInstance(steps) && Exec(env, INIT, steps) == Some(State(History(env, ops), map[], map[]))
    ensures forall k, h :: AvoidsAll(env, steps, k, h)
  {
    steps := [];
    if ops != [] {
      steps := HistoryIsRun(env, ops[..|ops| - 1]);
      var op, s := ops[|ops| - 1], Exec(env, INIT, steps).value;
      if FirstCall(op).None? {
        steps := TakeHarmless(env, steps, s, AtOnce(op));
      } else {
        steps := BeginAndFinish(env, steps, s.store, FirstCall(op).value, ALL_WORK, if op.PublishOp? then op.now else 0);
      }
    }
  }

  lemma HistoryOk(env: Env, ops: seq<Op>)
    ensures StoreOk(env, History(env, ops))
  {
    var steps := HistoryIsRun(env, ops);
    RunInv(env, steps);
  }

  // ---------- Publishing, closed form ----------

  datatype Reply = NotFound | Invalid | NoChanges | StoreFailed | Published(version: Version)

  ghost function PublishReply(env: Env, store: Store, k: Key, now: int): Reply {
    if k !in store.rulesets || k !in store.drafts then NotFound
    else if !Strict(env, store.drafts[k]) then Invalid
    else
      var doc, latest := Normalize(store.drafts[k]), Latest(env.kind, Rows(store, k));
      if latest.Some? && latest.value.checksum == env.hash(doc) then NoChanges
      else Published(Version(|Rows(store, k)| + 1, env.hash(doc), now))
  }

  function WithVersion(env: Env, store: Store, k: Key, doc: Json, now: int): Store {
    var n := |Rows(store, k)| + 1;
    store.(dsls := store.dsls[BlobId(k, n) := doc],
           bundles := store.bundles[BlobId(k, n) := Bundle(ManifestOf(env, k, doc, n, now), doc)],
           versions := store.versions[k := Rows(store, k) + [Version(n, env.hash(doc), now)]])
  }

  predicate Succeeds(plan: Plan) {
    plan(Allocate).Works? && plan(Access.PutDsl).Works? && plan(Access.PutBundle).Works? && plan(RecordVersion).Works?
  }

  /** Whatever blobs of the next number were left before, a publish whose writes all work adds the version. */
  lemma LockedPart(env: Env, store: Store, k: Key, doc: Json, plan: Plan, now: int)
    requires Numbered(Rows(store, k)) && Succeeds(plan)
    ensures RunAlone(env, store, PubLock(k, doc), plan, now) == WithVersion(env, store, k, doc, now)
  {
    var n := |Rows(store, k)| + 1;
    StoresAgree(Rows(store, k));
    var one := store.(dsls := store.dsls[BlobId(k, n) := doc]);
    var two := one.(bundles := one.bundles[BlobId(k, n) := Bundle(ManifestOf(env, k, doc, n, now), doc)]);
    assert Rows(two, k) == Rows(store, k);
    assert RunAlone(env, two, PubRecord(k, doc, n, now), plan, now) == WithVersion(env, store, k, doc, now);
    assert RunAlone(env, one, PubPutBundle(k, doc, n, now), plan, now) == WithVersion(env, store, k, doc, now);
    assert RunAlone(env, store, PubPutDsl(k, doc, n, now), plan, now) == WithVersion(env, store, k, doc, now);
    assert RunAlone(env, store, PubAllocate(k, doc), plan, now) == WithVersion(env, store, k, doc, now);
  }

  /** The document a publish takes to the lock, if it comes that far. */
  ghost function TakenToLock(env: Env, store: Store, k: Key, plan: Plan): Option<Json> {
    if !plan(FindRuleset).Works? || k !in store.rulesets || !plan(FindDraft).Works? || k !in store.drafts then None
    else if !Strict(env, store.drafts[k]) then None
    else
      var doc, latest := Normalize(store.drafts[k]), Latest(env.kind, Rows(store, k));
      if plan(FindLatest).Works? && latest.Some? && latest.value.checksum == env.hash(doc) then None else Some(doc)
  }

  lemma ReadsOfPublish(env: Env, store: Store, k: Key, plan: Plan, now: int)
    ensures RunAlone(env, store, PubGetRuleset(k), plan, now)
      == match TakenToLock(env, store, k, plan)
         case None => store
         case Some(doc) => RunAlone(env, store, PubLock(k, doc), plan, now)
  {
    InTwo(env, store, PubGetRuleset(k), plan, now);
    InTwo(env, store, PubGetDraft(k), plan, now);
    if k in store.drafts {
      InTwo(env, store, PubCheck(k, store.drafts[k]), plan, now);
    }
  }

  /** Publishing alone either changes nothing or adds exactly the next version of the draft's normal form. */
  lemma PublishAlone(env: Env, store: Store, k: Key, now: int)
    requires Numbered(Rows(store, k))
    ensures var r := PublishReply(env, store, k, now);
      Apply(env, store, PublishOp(k, now)) == if r.Published? then WithVersion(env, store, k, Normalize(store.drafts[k]), now) else store
  {
    ReadsOfPublish(env, store, k, ALL_WORK, now);
    if k in store.drafts {
      LockedPart(env, store, k, Normalize(store.drafts[k]), ALL_WORK, now);
    }
  }

  // ---------- Adjacent checksums ----------

  /** Without overlapping or failing calls, no two adjacent versions of a key have the same checksum. */
  lemma AdjacentVersionsDiffer(env: Env, ops: seq<Op>, k: Key)
    ensures NoRepeats(Rows(History(env, ops), k))
  {
    var steps := HistoryIsRun(env, ops);
    CalmRunsDoNotRepeat(env, steps, k);
  }

  // ---------- Rolling back and publishing again ----------

  lemma RollbackAlone(env: Env, store: Store, k: Key, v: nat)
    requires BlobId(k, v) in store.dsls
    ensures Apply(env, store, RollbackOp(k, v)) == store.(drafts := store.drafts[k := store.dsls[BlobId(k, v)]])
  {
    InTwo(env, store, RollbackFetch(k, v), ALL_WORK, 0);
    InTwo(env, store, DraftStore(k, store.dsls[BlobId(k, v)]), ALL_WORK, 0);
  }

  /**
    With v's bytes as the draft, publishing answers that nothing changed exactly when v has the
    latest version's checksum, and otherwise adds version n + 1 with v's bytes and checksum.
    */
  ghost predicate Republishes(env: Env, rolled: Store, k: Key, v: nat, now: int) {
    && 1 <= v <= |Rows(rolled, k)| && BlobId(k, v) in rolled.dsls
    && var rows, n, target := Rows(rolled, k), |Rows(rolled, k)|, Rows(rolled, k)[v - 1];
       if rows[n - 1].checksum == target.checksum then
         PublishReply(env, rolled, k, now) == NoChanges && Apply(env, rolled, PublishOp(k, now)) == rolled
       else
         && PublishReply(env, rolled, k, now) == Published(Version(n + 1, target.checksum, now))
         && Apply(env, rolled, PublishOp(k, now)) == WithVersion(env, rolled, k, rolled.dsls[BlobId(k, v)], now)
  }

  lemma FitPublish(env: Env, store: Store, k: Key, now: int)
    requires k in store.rulesets && k in store.drafts && Numbered(Rows(store, k)) && Rows(store, k) != []
    requires Normalize(store.drafts[k]) == store.drafts[k] && Strict(env, store.drafts[k])
    ensures var rows, doc := Rows(store, k), store.drafts[k];
      var same := rows[|rows| - 1].checksum == env.hash(doc);
      && PublishReply(env, store, k, now) == (if same then NoChanges else Published(Version(|rows| + 1, env.hash(doc), now)))
      && Apply(env, store, PublishOp(k, now)) == (if same then store else WithVersion(env, store, k, doc, now))
  {
    StoresAgree(Rows(store, k));
    PublishAlone(env, store, k, now);
  }

  lemma RolledRepublishes(env: Env, rolled: Store, k: Key, v: nat, now: int)
    requires DocsOk(env, rolled) && KeyOk(env, rolled, k) && k in rolled.rulesets && 1 <= v <= |Rows(rolled, k)|
    requires BlobId(k, v) in rolled.dsls && k in rolled.drafts && rolled.drafts[k] == rolled.dsls[BlobId(k, v)]
    ensures Republishes(env, rolled, k, v, now)
  {
    RecordedBytesAreFit(env, rolled, k, v);
    CanonicalIffFixed(rolled.dsls[BlobId(k, v)]);
    FitPublish(env, rolled, k, now);
  }

  /** Rolling back to a recorded version makes its bytes the draft, and they can be published again. */
  lemma RollbackThenPublish(env: Env, ops: seq<Op>, k: Key, v: nat, now: int)
    requires k in History(env, ops).rulesets && 1 <= v <= |Rows(History(env, ops), k)|
    ensures var store := History(env, ops);
      && BlobId(k, v) in store.dsls
      && Apply(env, store, RollbackOp(k, v)) == store.(drafts := store.drafts[k := store.dsls[BlobId(k, v)]])
      && Republishes(env, Apply(env, store, RollbackOp(k, v)), k, v, now)
  {
    var store := History(env, ops);
    HistoryOk(env, ops);
    assert KeyOk(env, store, k);
    RecordedBytesAreFit(env, store, k, v);
    RollbackAlone(env, store, k, v);
    var rolled := History(env, ops + [RollbackOp(k, v)]);
    HistoryOk(env, ops + [RollbackOp(k, v)]);
    assert (ops + [RollbackOp(k, v)])[..|ops|] == ops;
    assert KeyOk(env, rolled, k);
    RolledRepublishes(env, rolled, k, v, now);
  }
}
