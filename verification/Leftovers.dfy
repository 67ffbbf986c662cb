/** What a publish that fails under the lock leaves of the blobs it was writing. */
module Leftovers {
  import opened Wrappers
  import opened Faults
  import opened CanonicalJson
  import opened Registry
  import opened Sequential

  function BlobAt<T>(blobs: map<BlobId, T>, id: BlobId): Option<T> {
    if id in blobs then Some(blobs[id]) else None
  }

  function WithBlob<T>(blobs: map<BlobId, T>, id: BlobId, blob: Option<T>): map<BlobId, T> {
    match blob
    case Some(b) => blobs[id := b]
    case None => blobs - {id}
  }

  /** Its write failed without effect, or was never tried. */
  predicate DslUntouched(plan: Plan) {
    !plan(Allocate).Works? || plan(Access.PutDsl).FailsUndone?
  }

  /** Its write failed but took effect, or the delete that should have followed failed. */
  predicate DslStays(plan: Plan) {
    || plan(Access.PutDsl).FailsDone?
    || (if plan(Access.PutBundle).Works? then plan(UndoDsl).FailsUndone? else plan(UndoPut).FailsUndone?)
  }

  function DslLeft(plan: Plan, was: Option<Json>, doc: Json): Option<Json> {
    if DslUntouched(plan) then was else if DslStays(plan) then Some(doc) else None
  }

  predicate BundleUntouched(plan: Plan) {
    !plan(Allocate).Works? || !plan(Access.PutDsl).Works? || plan(Access.PutBundle).FailsUndone?
  }

  /** No delete follows a bundle write that fails, so one that took effect stays. */
  predicate BundleStays(plan: Plan) {
    plan(Access.PutBundle).FailsDone? || plan(UndoBundle).FailsUndone?
  }

  function BundleLeft(plan: Plan, was: Option<Bundle>, bundle: Bundle): Option<Bundle> {
    if BundleUntouched(plan) then was else if BundleStays(plan) then Some(bundle) else None
  }

  /** The store after a failing publish of number n: only the two blobs of that number can differ. */
  function AfterFailure(env: Env, store: Store, k: Key, doc: Json, n: nat, plan: Plan, now: int): Store {
    var id, bundle := BlobId(k, n), Bundle(ManifestOf(env, k, doc, n, now), doc);
    store.(dsls := WithBlob(store.dsls, id, DslLeft(plan, BlobAt(store.dsls, id), doc)),
           bundles := WithBlob(store.bundles, id, BundleLeft(plan, BlobAt(store.bundles, id), bundle)))
  }

  lemma FailedRecord(env: Env, store: Store, k: Key, doc: Json, n: nat, plan: Plan, now: int)
    requires plan(Allocate).Works? && plan(Access.PutDsl).Works? && plan(Access.PutBundle).Works? && !plan(RecordVersion).Works?
    ensures var id, bundle := BlobId(k, n), Bundle(ManifestOf(env, k, doc, n, now), doc);
      RunAlone(env, store.(dsls := store.dsls[id := doc], bundles := store.bundles[id := bundle]), PubRecord(k, doc, n, now), plan, now)
      == AfterFailure(env, store, k, doc, n, plan, now)
  {
    var id, bundle := BlobId(k, n), Bundle(ManifestOf(env, k, doc, n, now), doc);
    var both := store.(dsls := store.dsls[id := doc], bundles := store.bundles[id := bundle]);
    InTwo(env, both, PubRecord(k, doc, n, now), plan, now);
    assert both.dsls - {id} == store.dsls - {id} && both.bundles - {id} == store.bundles - {id};
  }

  lemma FailedPutBundle(env: Env, store: Store, k: Key, doc: Json, n: nat, plan: Plan, now: int)
    requires plan(Allocate).Works? && plan(Access.PutDsl).Works? && !plan(Access.PutBundle).Works?
    ensures RunAlone(env, store.(dsls := store.dsls[BlobId(k, n) := doc]), PubPutBundle(k, doc, n, now), plan, now)
      == AfterFailure(env, store, k, doc, n, plan, now)
  {
    var id := BlobId(k, n);
    var one := store.(dsls := store.dsls[id := doc]);
    var next := if plan(Access.PutBundle).FailsUndone? then one
                else one.(bundles := one.bundles[id := Bundle(ManifestOf(env, k, doc, n, now), doc)]);
    InTwo(env, one, PubPutBundle(k, doc, n, now), plan, now);
    assert one.dsls - {id} == store.dsls - {id};
  }

  lemma FailedWrites(env: Env, store: Store, k: Key, doc: Json, n: nat, plan: Plan, now: int)
    requires plan(Allocate).Works? && !Succeeds(plan)
    ensures RunAlone(env, store, PubPutDsl(k, doc, n, now), plan, now) == AfterFailure(env, store, k, doc, n, plan, now)
  {
    var one := store.(dsls := store.dsls[BlobId(k, n) := doc]);
    InTwo(env, store, PubPutDsl(k, doc, n, now), plan, now);
    if plan(Access.PutDsl).Works? {
      if plan(Access.PutBundle).Works? {
        InTwo(env, one, PubPutBundle(k, doc, n, now), plan, now);
        FailedRecord(env, store, k, doc, n, plan, now);
      } else {
        FailedPutBundle(env, store, k, doc, n, plan, now);
      }
    }
  }

  /**
    On any stores, also ones where earlier failures left blobs: a publish that fails under the lock
    records nothing and changes at most the two blobs of its number, and each of them stays as it was,
    is the one being written, or is gone, as its failures decide.
    */
  lemma FailedPublishLeaves(env: Env, store: Store, k: Key, doc: Json, plan: Plan, now: int)
    requires Numbered(Rows(store, k)) && !Succeeds(plan)
    ensures RunAlone(env, store, PubLock(k, doc), plan, now) == AfterFailure(env, store, k, doc, |Rows(store, k)| + 1, plan, now)
  {
    var id := BlobId(k, |Rows(store, k)| + 1);
    StoresAgree(Rows(store, k));
    InTwo(env, store, PubLock(k, doc), plan, now);
    InTwo(env, store, PubAllocate(k, doc), plan, now);
    if plan(Allocate).Works? {
      FailedWrites(env, store, k, doc, |Rows(store, k)| + 1, plan, now);
    }
  }

  /** Neither blob of the number is there after a failing publish exactly when this holds. */
  predicate CleansUp(plan: Plan, hadDsl: bool, hadBundle: bool) {
    && (if DslUntouched(plan) then !hadDsl else !DslStays(plan))
    && (if BundleUntouched(plan) then !hadBundle else !BundleStays(plan))
  }

  /**
    So a publish that fails under the lock leaves no blob of its number, whatever was there before,
    exactly when each blob that was there or was written is deleted again; where none was there, that
    is to leave the stores as they were.
    */
  lemma FailedPublishLeavesNothingIff(env: Env, store: Store, k: Key, doc: Json, plan: Plan, now: int)
    requires Numbered(Rows(store, k)) && !Succeeds(plan)
    ensures var id, end := BlobId(k, |Rows(store, k)| + 1), RunAlone(env, store, PubLock(k, doc), plan, now);
      && (id !in end.dsls && id !in end.bundles <==> CleansUp(plan, id in store.dsls, id in store.bundles))
      && (id !in store.dsls && id !in store.bundles ==> (end == store <==> CleansUp(plan, false, false)))
  {
    FailedPublishLeaves(env, store, k, doc, plan, now);
  }
}
