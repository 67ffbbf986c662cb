/**
  The registry service over its two stores, as objects updated in place. Every access takes the fate
  that befalls it; the in-memory stores never fail. Each service method does to the stores exactly
  what the machine's call does when run alone.
  */
module Service {
  import opened Wrappers
  import opened Faults
  import opened Dsl
  import opened CanonicalJson
  import opened Conditions
  import opened Graphs
  import Walk
  import Acceptance
  import opened Registry
  import opened PublishProtocol
  import opened Sequential

  datatype StoreError = NoRow | AlreadyExists | Conflict | VersionImmutable | Broken

  class Datastore {
    const kind: Kind
    var rulesets: set<Key>
    var drafts: map<Key, Json>
    var versions: map<Key, seq<Version>>

    constructor (kind: Kind)
      ensures this.kind == kind && rulesets == {} && drafts == map[] && versions == map[]
    {
      this.kind := kind;
      rulesets, drafts, versions := {}, map[], map[];
    }

    /** The database's part of the stores. */
    function View(): Store
      reads this
    {
      Store(rulesets, drafts, versions, map[], map[])
    }

    method GetRuleset(k: Key, fate: Fate) returns (error: Option<StoreError>)
      ensures error == (if !fate.Works? then Some(Broken) else if k in rulesets then None else Some(NoRow))
    {
      if !fate.Works? {
        return Some(Broken);
      }
      error := if k in rulesets then None else Some(NoRow);
    }

    method CreateRuleset(k: Key) returns (error: Option<StoreError>)
      modifies this`rulesets
      ensures error == if k in old(rulesets) then Some(AlreadyExists) else None
      ensures rulesets == old(rulesets) + {k}
      ensures View() == Registry.CreateRuleset(old(View()), k)
    {
      if k in rulesets {
        return Some(AlreadyExists);
      }
      rulesets := rulesets + {k};
      error := None;
    }

    method DeleteRuleset(k: Key) returns (error: Option<StoreError>)
      modifies this`rulesets, this`drafts
      ensures error == if k in old(rulesets) then None else Some(NoRow)
      ensures rulesets == old(rulesets) - {k}
      ensures drafts == if kind.InMemory? && k in old(rulesets) then old(drafts) - {k} else old(drafts)
      ensures View() == Registry.DeleteRuleset(kind, old(View()), k)
    {
      if k !in rulesets {
        return Some(NoRow);
      }
      rulesets := rulesets - {k};
      if kind.InMemory? {
        drafts := drafts - {k};
      }
      error := None;
    }

    method GetDraft(k: Key, fate: Fate) returns (r: Result<Json, StoreError>)
      ensures r == (if !fate.Works? then Err(Broken) else if k in drafts then Ok(drafts[k]) else Err(NoRow))
    {
      if !fate.Works? {
        return Err(Broken);
      }
      r := if k in drafts then Ok(drafts[k]) else Err(NoRow);
    }

    method UpsertDraft(k: Key, doc: Json, fate: Fate) returns (error: Option<StoreError>)
      modifies this`drafts
      ensures error == if fate.Works? then None else Some(Broken)
      ensures drafts == if fate.FailsUndone? then old(drafts) else old(drafts)[k := doc]
    {
      if !fate.FailsUndone? {
        drafts := drafts[k := doc];
      }
      error := if fate.Works? then None else Some(Broken);
    }

    method DeleteDraft(k: Key) returns (error: Option<StoreError>)
      modifies this`drafts
      ensures error == if k in old(drafts) then None else Some(NoRow)
      ensures drafts == old(drafts) - {k}
      ensures View() == Registry.DeleteDraft(old(View()), k)
    {
      if k !in drafts {
        return Some(NoRow);
      }
      drafts := drafts - {k};
      error := None;
    }

    /** The first row with the number. */
    method GetVersion(k: Key, n: nat, fate: Fate) returns (r: Result<Version, StoreError>)
      ensures !fate.Works? ==> r == Err(Broken)
      ensures fate.Works? ==> (r.Ok? <==> Recorded(RowsIn(versions, k), n)) && (r.Err? ==> r.error.NoRow?)
      ensures r.Ok? ==> r.value in RowsIn(versions, k) && r.value.number == n
    {
      if !fate.Works? {
        return Err(Broken);
      }
      var rows := RowsIn(versions, k);
      for i := 0 to |rows|
        invariant forall j | 0 <= j < i :: rows[j].number != n
      {
        if rows[i].number == n {
          return Ok(rows[i]);
        }
      }
      r := Err(NoRow);
    }

    method GetLatestVersion(k: Key, fate: Fate) returns (r: Result<Version, StoreError>)
      ensures r == if !fate.Works? then Err(Broken)
        else match Latest(kind, RowsIn(versions, k)) case Some(v) => Ok(v) case None => Err(NoRow)
    {
      if !fate.Works? {
        return Err(Broken);
      }
      var latest := Latest(kind, RowsIn(versions, k));
      r := match latest case Some(v) => Ok(v) case None => Err(NoRow);
    }

    method CreateVersion(k: Key, v: Version, fate: Fate) returns (error: Option<StoreError>)
      modifies this`versions
      ensures error == (if Recorded(old(RowsIn(versions, k)), v.number) then Some(VersionImmutable) else if fate.Works? then None else Some(Broken))
      ensures versions == if error.None? then old(versions)[k := old(RowsIn(versions, k)) + [v]] else old(versions)
    {
      var rows := RowsIn(versions, k);
      for i := 0 to |rows|
        invariant forall j | 0 <= j < i :: rows[j].number != v.number
      {
        if rows[i].number == v.number {
          return Some(VersionImmutable);
        }
      }
      if !fate.Works? {
        return Some(Broken);
      }
      versions := versions[k := rows + [v]];
      error := None;
    }

    method NextVersionNumber(k: Key, fate: Fate) returns (r: Result<nat, StoreError>)
      ensures r == if fate.Works? then Ok(NextNumber(kind, RowsIn(versions, k))) else Err(Broken)
    {
      r := if fate.Works? then Ok(NextNumber(kind, RowsIn(versions, k))) else Err(Broken);
    }

    /** Both stores refuse a ruleset that has versions, that is missing, or whose new key is taken. */
    method RenameRuleset(k: Key, to: Key, check: Fate, commit: Fate) returns (error: Option<StoreError>)
      modifies this`rulesets, this`drafts
      ensures error.None? <==> check.Works? && commit.Works? && RowsIn(versions, k) == [] && RenameAllowed(kind, old(View()), k, to)
      ensures View() == if check.Works? && !commit.FailsUndone? && RowsIn(versions, k) == [] && RenameAllowed(kind, old(View()), k, to)
        then Renamed(old(View()), k, to) else old(View())
    {
      if !check.Works? {
        return Some(Broken);
      }
      if |RowsIn(versions, k)| > 0 {
        return Some(Conflict);
      }
      if k !in rulesets {
        return Some(NoRow);
      }
      if to in rulesets && (kind.InMemory? || to != k) {
        return Some(AlreadyExists);
      }
      if kind.Sql? && to != k && k in drafts && to in drafts {
        return Some(Broken);
      }
      if !commit.FailsUndone? {
        rulesets := rulesets - {k} + {to};
        if k in drafts {
          drafts := (drafts - {k})[to := drafts[k]];
        }
      }
      error := if commit.Works? then None else Some(Broken);
    }
  }

  class BlobStore {
    var dsls: map<BlobId, Json>
    var bundles: map<BlobId, Bundle>

    constructor ()
      ensures dsls == map[] && bundles == map[]
    {
      dsls, bundles := map[], map[];
    }

    method PutDsl(id: BlobId, doc: Json, fate: Fate) returns (ok: bool)
      modifies this`dsls
      ensures ok == fate.Works?
      ensures dsls == if fate.FailsUndone? then old(dsls) else old(dsls)[id := doc]
    {
      if !fate.FailsUndone? {
        dsls := dsls[id := doc];
      }
      ok := fate.Works?;
    }

    method GetDsl(id: BlobId, fate: Fate) returns (r: Result<Json, StoreError>)
      ensures r == (if !fate.Works? then Err(Broken) else if id in dsls then Ok(dsls[id]) else Err(NoRow))
    {
      if !fate.Works? {
        return Err(Broken);
      }
      r := if id in dsls then Ok(dsls[id]) else Err(NoRow);
    }

    method DeleteDsl(id: BlobId, fate: Fate)
      modifies this`dsls
      ensures dsls == if fate.FailsUndone? then old(dsls) else old(dsls) - {id}
    {
      if !fate.FailsUndone? {
        dsls := dsls - {id};
      }
    }

    method PutBundle(id: BlobId, bundle: Bundle, fate: Fate) returns (ok: bool)
      modifies this`bundles
      ensures ok == fate.Works?
      ensures bundles == if fate.FailsUndone? then old(bundles) else old(bundles)[id := bundle]
    {
      if !fate.FailsUndone? {
        bundles := bundles[id := bundle];
      }
      ok := fate.Works?;
    }

    method DeleteBundle(id: BlobId, fate: Fate)
      modifies this`bundles
      ensures bundles == if fate.FailsUndone? then old(bundles) else old(bundles) - {id}
    {
      if !fate.FailsUndone? {
        bundles := bundles - {id};
      }
    }
  }

  lemma StoresAgreeIfNumbered(rows: seq<Version>)
    ensures Numbered(rows) ==> NextNumber(Sql, rows) == NextNumber(InMemory, rows) == |rows| + 1 && !Recorded(rows, |rows| + 1)
  {
    if Numbered(rows) {
      StoresAgree(rows);
    }
  }

  /** What may be published or saved: documents that parse to a sound program, for publishing a complete one. */
  lemma FitDocuments(env: Env, doc: Json)
    ensures Strict(env, doc) <==> exists p :: env.parse(doc) == Some(p) && Acceptance.Sound(p) && Acceptance.Ready(p)
    ensures Lenient(env, doc) <==> exists p :: env.parse(doc) == Some(p) && Acceptance.Sound(p)
  {
    if env.parse(doc).Some? {
      Acceptance.ProgramAcceptedIff(env.parse(doc).value);
      Acceptance.DraftAcceptedIff(env.parse(doc).value);
    }
  }

  lemma RenameAlone(env: Env, store: Store, k: Key, to: Key, plan: Plan)
    ensures RunAlone(env, store, RenameCheck(k, to), plan, 0)
      == if plan(First).Works? && Rows(store, k) == [] && !plan(Second).FailsUndone? && RenameAllowed(env.kind, store, k, to)
         then Renamed(store, k, to) else store
  {
    InTwo(env, store, RenameCheck(k, to), plan, 0);
    InTwo(env, store, RenameCommit(k, to), plan, 0);
  }

  lemma LatestIfNumbered(rows: seq<Version>)
    ensures Numbered(rows) && rows != [] ==> Latest(Sql, rows) == Latest(InMemory, rows) == Some(rows[|rows| - 1])
    ensures Numbered(rows) && rows != [] ==> rows[|rows| - 1].number == |rows|
  {
    if Numbered(rows) {
      StoresAgree(rows);
    }
  }

  /** What evaluation replies on these bytes: not found, invalid, or the outcome of a run of their program. */
  ghost predicate AnswersWith(env: Env, bytes: Option<Json>, input: Facts, r: Result<Walk.Answer, Reply>) {
    match bytes
    case None => r == Err(NotFound)
    case Some(doc) =>
      if !Strict(env, doc) then r == Err(Invalid)
      else r.Ok? && Walk.IsAnswer(env.parse(doc).value, input, r.value)
  }

  /**
    After a publish that answers with a version, the ruleset's last row is that version, and what
    evaluation replies on the bytes of its number is a run of the draft that was published.
    */
  lemma PublishedIsEvaluated(env: Env, ops: seq<Sequential.Op>, k: Key, now: int)
    requires PublishReply(env, History(env, ops), k, now).Published?
    ensures var before, after := History(env, ops), Apply(env, History(env, ops), PublishOp(k, now));
      var rows := Rows(after, k);
      && k in before.drafts && Strict(env, before.drafts[k])
      && Numbered(rows) && rows == Rows(before, k) + [PublishReply(env, before, k, now).version]
      && BlobId(k, |rows|) in after.dsls && after.dsls[BlobId(k, |rows|)] == before.drafts[k]
      && forall input, r :: AnswersWith(env, Some(after.dsls[BlobId(k, |rows|)]), input, r)
           <==> r.Ok? && Walk.IsAnswer(env.parse(before.drafts[k]).value, input, r.value)
  {
    var before := History(env, ops);
    HistoryOk(env, ops);
    assert KeyOk(env, before, k);
    PublishAlone(env, before, k, now);
    CanonicalIffFixed(before.drafts[k]);
  }

  class RulesetService {
    const env: Env
    const db: Datastore
    const blobs: BlobStore

    constructor (env: Env)
      ensures this.env == env && fresh(db) && fresh(blobs) && db.kind == env.kind && View() == EMPTY
    {
      this.env := env;
      db := new Datastore(env.kind);
      blobs := new BlobStore();
    }

    function View(): Store
      reads db, blobs
    {
      Store(db.rulesets, db.drafts, db.versions, blobs.dsls, blobs.bundles)
    }

    /** Strict validation of bytes: parsing, then the static check. */
    method ParseAndValidate(doc: Json) returns (program: Option<Program>)
      ensures program.Some? <==> Strict(env, doc)
      ensures program.Some? ==> env.parse(doc) == program
    {
      program := env.parse(doc);
      if program.Some? {
        var ok := Validate(program.value);
        if !ok {
          program := None;
        }
      }
    }

    method UpsertDraft(k: Key, raw: Json, plan: Plan) returns (r: Result<Json, Reply>)
      requires db.kind == env.kind
      modifies db`drafts
      ensures View() == RunAlone(env, old(View()), DraftGetRuleset(k, raw), plan, 0)
      ensures r.Ok? <==> plan(First).Works? && plan(Second).Works? && k in db.rulesets && Lenient(env, raw)
      ensures r.Ok? ==> db.drafts == old(db.drafts)[k := r.value] && Canonical(r.value) && Decode(r.value) == Decode(raw)
      ensures plan(First).Works? && r.Err? && r.error != StoreFailed ==>
        db.drafts == old(db.drafts) && r.error == if k in db.rulesets then Invalid else NotFound
    {
      InTwo(env, View(), DraftGetRuleset(k, raw), plan, 0);
      InTwo(env, View(), DraftStore(k, Normalize(raw)), plan, 0);
      NormalizePreservesMeaning(raw);
      EncodeIsCanonical(Decode(raw));
      var error := db.GetRuleset(k, plan(First));
      if error.Some? {
        return Err(if error.value.NoRow? then NotFound else StoreFailed);
      }
      if env.parse(raw).None? {
        return Err(Invalid);
      }
      var ok := ValidateDraft(env.parse(raw).value);
      if !ok {
        return Err(Invalid);
      }
      error := db.UpsertDraft(k, Normalize(raw), plan(Second));
      r := if error.None? then Ok(Normalize(raw)) else Err(StoreFailed);
    }

    method Rollback(k: Key, toVersion: nat, plan: Plan) returns (r: Result<Json, Reply>)
      modifies db`drafts
      ensures View() == RunAlone(env, old(View()), RollbackFetch(k, toVersion), plan, 0)
      ensures r.Ok? <==> plan(First).Works? && plan(Second).Works? && BlobId(k, toVersion) in blobs.dsls
      ensures r.Ok? ==> r.value == blobs.dsls[BlobId(k, toVersion)]
      ensures plan(First).Works? && BlobId(k, toVersion) !in blobs.dsls ==> r == Err(NotFound) && db.drafts == old(db.drafts)
      ensures r.Ok? ==> db.drafts == old(db.drafts)[k := r.value]
    {
      InTwo(env, View(), RollbackFetch(k, toVersion), plan, 0);
      var bytes := blobs.GetDsl(BlobId(k, toVersion), plan(First));
      if bytes.Err? {
        return Err(if bytes.error.NoRow? then NotFound else StoreFailed);
      }
      InTwo(env, View(), DraftStore(k, bytes.value), plan, 0);
      var error := db.UpsertDraft(k, bytes.value, plan(Second));
      r := if error.None? then Ok(bytes.value) else Err(StoreFailed);
    }

    method RenameRuleset(k: Key, to: Key, plan: Plan) returns (error: Option<StoreError>)
      requires db.kind == env.kind
      modifies db`rulesets, db`drafts
      ensures View() == RunAlone(env, old(View()), RenameCheck(k, to), plan, 0)
      ensures error.None? <==> plan(First).Works? && plan(Second).Works? && RowsIn(db.versions, k) == [] && RenameAllowed(env.kind, old(View()), k, to)
      ensures error.None? ==> View() == Renamed(old(View()), k, to)
    {
      RenameAlone(env, View(), k, to, plan);
      error := db.RenameRuleset(k, to, plan(First), plan(Second));
    }

    /** The last part of Publish: the record, or deleting the blobs again. */
    method RecordOrUndo(k: Key, doc: Json, n: nat, plan: Plan, now: int) returns (r: Reply)
      modifies db`versions, blobs
      ensures View() == RunAlone(env, old(View()), PubRecord(k, doc, n, now), plan, now)
      ensures db.versions == if r.Published? then old(db.versions)[k := old(RowsIn(db.versions, k)) + [r.version]] else old(db.versions)
      ensures r == if plan(RecordVersion).Works? && !Recorded(old(RowsIn(db.versions, k)), n) then Published(Version(n, env.hash(doc), now)) else StoreFailed
    {
      InTwo(env, View(), PubRecord(k, doc, n, now), plan, now);
      var v := Version(n, env.hash(doc), now);
      var error := db.CreateVersion(k, v, plan(RecordVersion));
      if error.Some? {
        InTwo(env, View(), PubUndoDsl(k, n), plan, now);
        blobs.DeleteDsl(BlobId(k, n), plan(UndoDsl));
        InTwo(env, View(), PubUndoBundle(k, n), plan, now);
        blobs.DeleteBundle(BlobId(k, n), plan(UndoBundle));
        return StoreFailed;
      }
      r := Published(v);
    }

    /** The two blobs, or no publish. */
    method WriteBlobs(k: Key, doc: Json, n: nat, plan: Plan, now: int) returns (ok: bool)
      modifies blobs
      ensures RunAlone(env, old(View()), PubPutDsl(k, doc, n, now), plan, now)
        == if ok then RunAlone(env, View(), PubRecord(k, doc, n, now), plan, now) else View()
      ensures ok <==> plan(Access.PutDsl).Works? && plan(Access.PutBundle).Works?
    {
      InTwo(env, View(), PubPutDsl(k, doc, n, now), plan, now);
      ok := blobs.PutDsl(BlobId(k, n), doc, plan(Access.PutDsl));
      if !ok {
        return;
      }
      InTwo(env, View(), PubPutBundle(k, doc, n, now), plan, now);
      ok := blobs.PutBundle(BlobId(k, n), Bundle(ManifestOf(env, k, doc, n, now), doc), plan(Access.PutBundle));
      if !ok {
        InTwo(env, View(), PubUndoPut(k, n), plan, now);
        blobs.DeleteDsl(BlobId(k, n), plan(UndoPut));
      }
    }

    /** The part of Publish under the lock. */
    method PublishLocked(k: Key, doc: Json, plan: Plan, now: int) returns (r: Reply)
      requires db.kind == env.kind
      modifies db`versions, blobs
      ensures View() == RunAlone(env, old(View()), PubAllocate(k, doc), plan, now)
      ensures db.versions == if r.Published? then old(db.versions)[k := old(RowsIn(db.versions, k)) + [r.version]] else old(db.versions)
      ensures var n := NextNumber(env.kind, old(RowsIn(db.versions, k)));
        r == if Succeeds(plan) && !Recorded(old(RowsIn(db.versions, k)), n) then Published(Version(n, env.hash(doc), now)) else StoreFailed
    {
      InTwo(env, View(), PubAllocate(k, doc), plan, now);
      var number := db.NextVersionNumber(k, plan(Allocate));
      if number.Err? {
        return StoreFailed;
      }
      var ok := WriteBlobs(k, doc, number.value, plan, now);
      if !ok {
        return StoreFailed;
      }
      r := RecordOrUndo(k, doc, number.value, plan, now);
    }

    method Publish(k: Key, plan: Plan, now: int) returns (r: Reply)
      requires db.kind == env.kind
      modifies db`versions, blobs
      ensures View() == RunAlone(env, old(View()), PubGetRuleset(k), plan, now)
      ensures r.Published? ==> db.versions == old(db.versions)[k := old(RowsIn(db.versions, k)) + [r.version]]
      ensures !r.Published? ==> db.versions == old(db.versions)
      ensures (forall a :: plan(a).Works?) && Numbered(old(RowsIn(db.versions, k))) ==> r == PublishReply(env, old(View()), k, now)
    {
      ReadsOfPublish(env, View(), k, plan, now);
      StoresAgreeIfNumbered(RowsIn(db.versions, k));
      var error := db.GetRuleset(k, plan(FindRuleset));
      if error.Some? {
        return if error.value.NoRow? then NotFound else StoreFailed;
      }
      var draft := db.GetDraft(k, plan(FindDraft));
      if draft.Err? {
        return if draft.error.NoRow? then NotFound else StoreFailed;
      }
      var program := ParseAndValidate(draft.value);
      if program.None? {
        return Invalid;
      }
      var doc := Normalize(draft.value);
      var latest := db.GetLatestVersion(k, plan(FindLatest));
      if latest.Ok? && latest.value.checksum == env.hash(doc) {
        return NoChanges;
      }
      InTwo(env, View(), PubLock(k, doc), plan, now);
      r := PublishLocked(k, doc, plan, now);
    }

    /**
      The latest version's bytes, or the draft's where there is no version, validated and run on the
      input, provided that walk ends: validation lets programs through on which it does not.
      */
    method Evaluate(k: Key, input: Facts, plan: Plan) returns (r: Result<Walk.Answer, Reply>)
      requires db.kind == env.kind
      requires var doc := Loaded(env.kind, View(), k);
        doc.Some? && Strict(env, doc.value) ==>
          Walk.Ends(GraphOf(env.parse(doc.value).value), env.parse(doc.value).value.entry, input)
      ensures !plan(First).Works? || !plan(Second).Works? ==> r == Err(StoreFailed)
      ensures plan(First).Works? && plan(Second).Works? ==> AnswersWith(env, Loaded(env.kind, View(), k), input, r)
      ensures plan(First).Works? && plan(Second).Works? && Numbered(RowsIn(db.versions, k)) ==>
        var rows := RowsIn(db.versions, k);
        if rows == [] then AnswersWith(env, if k in db.drafts then Some(db.drafts[k]) else None, input, r)
        else if BlobId(k, |rows|) in blobs.dsls then AnswersWith(env, Some(blobs.dsls[BlobId(k, |rows|)]), input, r)
        else r == Err(NotFound)
    {
      LatestIfNumbered(RowsIn(db.versions, k));
      var latest := db.GetLatestVersion(k, plan(First));
      var bytes;
      if latest.Ok? {
        bytes := blobs.GetDsl(BlobId(k, latest.value.number), plan(Second));
      } else if latest.error.NoRow? {
        bytes := db.GetDraft(k, plan(Second));
      } else {
        return Err(StoreFailed);
      }
      if bytes.Err? {
        return Err(if bytes.error.NoRow? then NotFound else StoreFailed);
      }
      var program := ParseAndValidate(bytes.value);
      if program.None? {
        return Err(Invalid);
      }
      var answer, _ := Walk.EvalDsl(program.value, input);
      r := Ok(answer);
    }
  }
}
