/**
  The stores behind the registry and what each call does to them, one store or blob access at a
  time. A document's bytes are its JSON tree; parsing into a program and hashing are parameters.
  */
module Registry {
  import opened Wrappers
  import opened Faults
  import opened Dsl
  import opened CanonicalJson

  datatype Key = Key(workspace: string, name: string)

  datatype BlobId = BlobId(key: Key, version: nat)

  datatype Version = Version(number: nat, checksum: string, createdAt: int)

  datatype Manifest = Manifest(key: Key, version: nat, checksum: string, createdAt: int)

  datatype Bundle = Bundle(manifest: Manifest, dsl: Json)

  datatype Kind = InMemory | Sql

  datatype Env = Env(parse: Json -> Option<Program>, hash: Json -> string, kind: Kind)

  /** Versions are listed per key in the order they were recorded. */
  datatype Store = Store(
    rulesets: set<Key>,
    drafts: map<Key, Json>,
    versions: map<Key, seq<Version>>,
    dsls: map<BlobId, Json>,
    bundles: map<BlobId, Bundle>)

  const EMPTY := Store({}, map[], map[], map[], map[])

  ghost predicate Strict(env: Env, doc: Json) {
    env.parse(doc).Some? && StrictlyValid(env.parse(doc).value)
  }

  ghost predicate Lenient(env: Env, doc: Json) {
    env.parse(doc).Some? && LenientlyValid(env.parse(doc).value)
  }

  // ---------- The version table, as each store keeps it ----------

  function RowsIn(versions: map<Key, seq<Version>>, k: Key): seq<Version> {
    if k in versions then versions[k] else []
  }

  function Rows(store: Store, k: Key): seq<Version> {
    RowsIn(store.versions, k)
  }

  function MaxNumber(rows: seq<Version>): nat {
    if rows == [] then 0
    else if rows[|rows| - 1].number > MaxNumber(rows[..|rows| - 1]) then rows[|rows| - 1].number
    else MaxNumber(rows[..|rows| - 1])
  }

  /** The in-memory store counts its rows; the SQL stores take the highest number. */
  function NextNumber(kind: Kind, rows: seq<Version>): nat {
    match kind
    case InMemory => |rows| + 1
    case Sql => MaxNumber(rows) + 1
  }

  function HighestIndex(rows: seq<Version>): (i: nat)
    requires rows != []
    ensures i < |rows|
    ensures forall j | 0 <= j < |rows| :: rows[j].number <= rows[i].number
  {
    if |rows| == 1 then 0
    else
      var i := HighestIndex(rows[..|rows| - 1]);
      assert forall j | 0 <= j < |rows| - 1 :: rows[j] == rows[..|rows| - 1][j];
      if rows[|rows| - 1].number > rows[i].number then |rows| - 1 else i
  }

  /** The in-memory store returns its last row; the SQL stores the row with the highest number. */
  function Latest(kind: Kind, rows: seq<Version>): Option<Version> {
    if rows == [] then None
    else
      match kind
      case InMemory => Some(rows[|rows| - 1])
      case Sql => Some(rows[HighestIndex(rows)])
  }

  predicate Recorded(rows: seq<Version>, n: nat) {
    exists i | 0 <= i < |rows| :: rows[i].number == n
  }

  /** Version numbers are exactly 1..n, in order. */
  ghost predicate Numbered(rows: seq<Version>) {
    forall i | 0 <= i < |rows| :: rows[i].number == i + 1
  }

  /** The SQL stores' next number is above every number recorded; the in-memory store's need not be. */
  lemma {:induction false} SqlNumberIsNew(rows: seq<Version>)
    ensures forall i | 0 <= i < |rows| :: rows[i].number < NextNumber(Sql, rows)
    ensures NextNumber(Sql, rows) == 1 || Recorded(rows, NextNumber(Sql, rows) - 1)
  {
    if rows != [] {
      var init := rows[..|rows| - 1];
      SqlNumberIsNew(init);
      assert forall i | 0 <= i < |init| :: init[i] == rows[i];
      assert rows[|rows| - 1].number > MaxNumber(init) ==> Recorded(rows, rows[|rows| - 1].number);
    }
  }

  lemma {:induction false} MaxNumberOfNumbered(rows: seq<Version>)
    requires Numbered(rows)
    ensures MaxNumber(rows) == |rows|
  {
    if rows != [] {
      MaxNumberOfNumbered(rows[..|rows| - 1]);
    }
  }

  /** Where numbers are 1..n, both kinds of store allocate and find the same version. */
  lemma StoresAgree(rows: seq<Version>)
    requires Numbered(rows)
    ensures NextNumber(Sql, rows) == NextNumber(InMemory, rows) == |rows| + 1
    ensures Latest(Sql, rows) == Latest(InMemory, rows)
    ensures !Recorded(rows, |rows| + 1)
  {
    MaxNumberOfNumbered(rows);
    if rows != [] {
      var i := HighestIndex(rows);
      assert rows[|rows| - 1].number <= rows[i].number;
    }
  }

  // ---------- Calls in flight ----------

  /** Each constructor is a call about to make its next access. */
  datatype Call =
    | PubGetRuleset(key: Key)
    | PubGetDraft(key: Key)
    | PubCheck(key: Key, draft: Json)
    | PubLock(key: Key, doc: Json)
    | PubAllocate(key: Key, doc: Json)
    | PubPutDsl(key: Key, doc: Json, n: nat, at: int)
    | PubPutBundle(key: Key, doc: Json, n: nat, at: int)
    | PubRecord(key: Key, doc: Json, n: nat, at: int)
    | PubUndoPut(key: Key, n: nat)
    | PubUndoDsl(key: Key, n: nat)
    | PubUndoBundle(key: Key, n: nat)
    | DraftGetRuleset(key: Key, raw: Json)
    | DraftStore(key: Key, doc: Json)
    | RollbackFetch(key: Key, toVersion: nat)
    | RenameCheck(key: Key, to: Key)
    | RenameCommit(key: Key, to: Key)
    | EvalLatest(key: Key)
    | EvalFetch(key: Key, n: nat)
    | EvalDraft(key: Key)

  predicate Initial(c: Call) {
    c.PubGetRuleset? || c.DraftGetRuleset? || c.RollbackFetch? || c.RenameCheck? || c.EvalLatest?
  }

  /** Between taking the publish lock and returning. */
  predicate InCritical(c: Call) {
    || c.PubAllocate? || c.PubPutDsl? || c.PubPutBundle? || c.PubRecord?
    || c.PubUndoPut? || c.PubUndoDsl? || c.PubUndoBundle?
  }

  /** The store after one access, and the access the call makes next, if it does not return. */
  datatype Move = Move(store: Store, next: Option<Call>)

  function ManifestOf(env: Env, k: Key, doc: Json, n: nat, at: int): Manifest {
    Manifest(k, n, env.hash(doc), at)
  }

  /** A recording that fails left no row. */
  function Record(env: Env, store: Store, c: Call): Store
    requires c.PubRecord?
  {
    store.(versions := store.versions[c.key := Rows(store, c.key) + [Version(c.n, env.hash(c.doc), c.at)]])
  }

  function WithoutDsl(store: Store, id: BlobId): Store {
    store.(dsls := store.dsls - {id})
  }

  function WithoutBundle(store: Store, id: BlobId): Store {
    store.(bundles := store.bundles - {id})
  }

  /** The in-memory rename checks for versions and overwrites a draft at the new key; the SQL one refuses the latter. */
  predicate RenameAllowed(kind: Kind, store: Store, k: Key, to: Key) {
    && k in store.rulesets
    && (to !in store.rulesets || (kind.Sql? && to == k))
    && (kind.InMemory? ==> Rows(store, k) == [])
    && (kind.Sql? && to != k && k in store.drafts ==> to !in store.drafts)
  }

  function Renamed(store: Store, k: Key, to: Key): Store {
    store.(rulesets := store.rulesets - {k} + {to},
           drafts := if k in store.drafts then (store.drafts - {k})[to := store.drafts[k]] else store.drafts)
  }

  lemma Replaced<T>(s: set<T>, out: T, into: T)
    requires out in s
    ensures |s - {out} + {into}| == |s| <==> into !in s || into == out
  {
    if into in s && into != out {
      assert s - {out} + {into} == s - {out};
    }
  }

  /**
    With a ruleset there and, in memory, no versions and another name, a rename is allowed exactly when
    it loses no ruleset and, in the SQL stores, no draft.
    */
  lemma RenameAllowedIff(kind: Kind, store: Store, k: Key, to: Key)
    ensures RenameAllowed(kind, store, k, to)
       <==> && k in store.rulesets && |Renamed(store, k, to).rulesets| == |store.rulesets|
            && (kind.InMemory? ==> Rows(store, k) == [] && to != k)
            && (kind.Sql? ==> |Renamed(store, k, to).drafts.Keys| == |store.drafts.Keys|)
  {
    if k in store.rulesets {
      Replaced(store.rulesets, k, to);
    }
    if k in store.drafts {
      Replaced(store.drafts.Keys, k, to);
      assert Renamed(store, k, to).drafts.Keys == store.drafts.Keys - {k} + {to};
    }
  }

  /** A rename moves the ruleset and its draft, and nothing else; renaming back undoes it. */
  lemma RenameMoves(kind: Kind, store: Store, k: Key, to: Key)
    requires RenameAllowed(kind, store, k, to) && to != k
    ensures var t := Renamed(store, k, to);
      && k !in t.rulesets && to in t.rulesets && (forall x | x != k && x != to :: x in t.rulesets <==> x in store.rulesets)
      && k !in t.drafts && (k in store.drafts ==> to in t.drafts && t.drafts[to] == store.drafts[k])
      && (forall x | x != k && x != to :: x in t.drafts <==> x in store.drafts)
      && (forall x | x != k && x != to && x in store.drafts :: t.drafts[x] == store.drafts[x])
      && t.versions == store.versions && t.dsls == store.dsls && t.bundles == store.bundles
    ensures to !in store.drafts ==> Renamed(Renamed(store, k, to), to, k) == store
  {
    var t := Renamed(store, k, to);
    if to !in store.drafts {
      assert t.rulesets - {to} + {k} == store.rulesets;
      if k in store.drafts {
        assert (t.drafts - {to})[k := t.drafts[to]] == store.drafts;
      }
    }
  }

  function CreateRuleset(store: Store, k: Key): Store {
    store.(rulesets := store.rulesets + {k})
  }

  /** The in-memory store drops the draft with the ruleset; the SQL stores keep it. */
  function DeleteRuleset(kind: Kind, store: Store, k: Key): Store {
    if k !in store.rulesets then store
    else store.(rulesets := store.rulesets - {k}, drafts := if kind.InMemory? then store.drafts - {k} else store.drafts)
  }

  function DeleteDraft(store: Store, k: Key): Store {
    store.(drafts := store.drafts - {k})
  }

  /** One access of a call. Publish ignores a failing lookup of the latest version. */
  ghost function Act(env: Env, store: Store, c: Call, fate: Fate, now: int): Move {
    match c
    case PubGetRuleset(k) => Move(store, if fate.Works? && k in store.rulesets then Some(PubGetDraft(k)) else None)
    case PubGetDraft(k) => Move(store, if fate.Works? && k in store.drafts then Some(PubCheck(k, store.drafts[k])) else None)
    case PubCheck(k, draft) =>
      var latest := Latest(env.kind, Rows(store, k));
      if !Strict(env, draft) then Move(store, None)
      else if fate.Works? && latest.Some? && latest.value.checksum == env.hash(Normalize(draft)) then Move(store, None)
      else Move(store, Some(PubLock(k, Normalize(draft))))
    case PubLock(k, doc) => Move(store, Some(PubAllocate(k, doc)))
    case PubAllocate(k, doc) =>
      Move(store, if fate.Works? then Some(PubPutDsl(k, doc, NextNumber(env.kind, Rows(store, k)), now)) else None)
    case PubPutDsl(k, doc, n, at) =>
      Move(if fate.FailsUndone? then store else store.(dsls := store.dsls[BlobId(k, n) := doc]),
           if fate.Works? then Some(PubPutBundle(k, doc, n, at)) else None)
    case PubPutBundle(k, doc, n, at) =>
      Move(if fate.FailsUndone? then store else store.(bundles := store.bundles[BlobId(k, n) := Bundle(ManifestOf(env, k, doc, n, at), doc)]),
           Some(if fate.Works? then PubRecord(k, doc, n, at) else PubUndoPut(k, n)))
    case PubRecord(k, doc, n, at) =>
      if fate.Works? && !Recorded(Rows(store, k), n) then Move(Record(env, store, c), None)
      else Move(store, Some(PubUndoDsl(k, n)))
    case PubUndoPut(k, n) => Move(if fate.FailsUndone? then store else WithoutDsl(store, BlobId(k, n)), None)
    case PubUndoDsl(k, n) => Move(if fate.FailsUndone? then store else WithoutDsl(store, BlobId(k, n)), Some(PubUndoBundle(k, n)))
    case PubUndoBundle(k, n) => Move(if fate.FailsUndone? then store else WithoutBundle(store, BlobId(k, n)), None)
    case DraftGetRuleset(k, raw) =>
      Move(store, if fate.Works? && k in store.rulesets && Lenient(env, raw) then Some(DraftStore(k, Normalize(raw))) else None)
    case DraftStore(k, doc) => Move(if fate.FailsUndone? then store else store.(drafts := store.drafts[k := doc]), None)
    case RollbackFetch(k, v) =>
      Move(store, if fate.Works? && BlobId(k, v) in store.dsls then Some(DraftStore(k, store.dsls[BlobId(k, v)])) else None)
    case RenameCheck(k, to) => Move(store, if fate.Works? && Rows(store, k) == [] then Some(RenameCommit(k, to)) else None)
    case RenameCommit(k, to) => Move(if !fate.FailsUndone? && RenameAllowed(env.kind, store, k, to) then Renamed(store, k, to) else store, None)
    case EvalLatest(k) =>
      var latest := Latest(env.kind, Rows(store, k));
      Move(store, if !fate.Works? then None else if latest.Some? then Some(EvalFetch(k, latest.value.number)) else Some(EvalDraft(k)))
    case EvalFetch(_, _) => Move(store, None)
    case EvalDraft(_) => Move(store, None)
  }

  /** The bytes an access of an evaluation reads. */
  function BytesRead(store: Store, c: Call): Option<Json> {
    match c
    case EvalFetch(k, n) => if BlobId(k, n) in store.dsls then Some(store.dsls[BlobId(k, n)]) else None
    case EvalDraft(k) => if k in store.drafts then Some(store.drafts[k]) else None
    case _ => None
  }

  // ---------- What holds of the stores and of each call ----------

  /** Fit to be published: in canonical form and strictly valid. */
  ghost predicate Publishable(env: Env, doc: Json) {
    Canonical(doc) && Strict(env, doc)
  }

  /** A recorded version has its two blobs, and they say what the record says. */
  ghost predicate Backed(env: Env, store: Store, k: Key, v: Version) {
    var id := BlobId(k, v.number);
    && id in store.dsls && env.hash(store.dsls[id]) == v.checksum
    && id in store.bundles && store.bundles[id] == Bundle(Manifest(k, v.number, v.checksum, v.createdAt), store.dsls[id])
  }

  ghost predicate KeyOk(env: Env, store: Store, k: Key) {
    Numbered(Rows(store, k)) && forall i | 0 <= i < |Rows(store, k)| :: Backed(env, store, k, Rows(store, k)[i])
  }

  ghost predicate DocsOk(env: Env, store: Store) {
    && (forall id | id in store.dsls :: Publishable(env, store.dsls[id]))
    && (forall k | k in store.drafts :: Canonical(store.drafts[k]))
  }

  ghost predicate StoreOk(env: Env, store: Store) {
    DocsOk(env, store) && forall k :: KeyOk(env, store, k)
  }

  /** A call that holds a version number holds the next one. */
  ghost predicate HoldsNext(store: Store, k: Key, n: nat) {
    n == |Rows(store, k)| + 1
  }

  ghost predicate CallOk(env: Env, store: Store, c: Call) {
    match c
    case PubCheck(_, draft) => Canonical(draft)
    case PubLock(_, doc) => Publishable(env, doc)
    case PubAllocate(_, doc) => Publishable(env, doc)
    case PubPutDsl(k, doc, n, _) => Publishable(env, doc) && HoldsNext(store, k, n)
    case PubPutBundle(k, doc, n, _) =>
      Publishable(env, doc) && HoldsNext(store, k, n) && BlobId(k, n) in store.dsls && store.dsls[BlobId(k, n)] == doc
    case PubRecord(k, doc, n, at) =>
      && Publishable(env, doc) && HoldsNext(store, k, n)
      && BlobId(k, n) in store.dsls && store.dsls[BlobId(k, n)] == doc
      && BlobId(k, n) in store.bundles && store.bundles[BlobId(k, n)] == Bundle(ManifestOf(env, k, doc, n, at), doc)
    case PubUndoPut(k, n) => HoldsNext(store, k, n)
    case PubUndoDsl(k, n) => HoldsNext(store, k, n)
    case PubUndoBundle(k, n) => HoldsNext(store, k, n)
    case DraftStore(_, doc) => Canonical(doc)
    case EvalFetch(k, n) => 1 <= n <= |Rows(store, k)|
    case _ => true
  }

  /** Versions are only added, and a recorded one keeps its row and its blobs. */
  ghost predicate Keeps(was: Store, now: Store, k: Key) {
    && Rows(was, k) <= Rows(now, k)
    && forall n | 1 <= n <= |Rows(was, k)| :: SameBlobs(was, now, BlobId(k, n))
  }

  ghost predicate SameBlobs(was: Store, now: Store, id: BlobId) {
    && (id in was.dsls <==> id in now.dsls) && (id in was.dsls ==> was.dsls[id] == now.dsls[id])
    && (id in was.bundles <==> id in now.bundles) && (id in was.bundles ==> was.bundles[id] == now.bundles[id])
  }

  /** `now` differs from `was` at most in drafts, rulesets and the blobs of one id. */
  ghost predicate OnlyBlobs(was: Store, now: Store, id: BlobId) {
    && now.versions == was.versions
    && forall x | x != id :: SameBlobs(was, now, x)
  }

  /** Touching the blobs of the next number leaves every recorded version as it was. */
  lemma NextBlobsKeep(env: Env, a: Store, b: Store, id: BlobId)
    requires OnlyBlobs(a, b, id) && HoldsNext(a, id.key, id.version)
    requires forall k :: KeyOk(env, a, k)
    ensures forall k :: KeyOk(env, b, k) && Keeps(a, b, k)
  {
    forall k ensures KeyOk(env, b, k) && Keeps(a, b, k) {
      assert KeyOk(env, a, k);
      assert Rows(a, k) == Rows(b, k);
      forall n: nat | 1 <= n <= |Rows(a, k)| ensures SameBlobs(a, b, BlobId(k, n)) {
        assert BlobId(k, n) != id;
      }
      forall i | 0 <= i < |Rows(b, k)| ensures Backed(env, b, k, Rows(b, k)[i]) {
        assert Backed(env, a, k, Rows(a, k)[i]);
        assert SameBlobs(a, b, BlobId(k, i + 1));
      }
    }
  }

  lemma SameVersionsKeep(env: Env, a: Store, b: Store)
    requires b.versions == a.versions && b.dsls == a.dsls && b.bundles == a.bundles
    requires forall k :: KeyOk(env, a, k)
    ensures forall k :: KeyOk(env, b, k) && Keeps(a, b, k)
  {
    forall k ensures KeyOk(env, b, k) && Keeps(a, b, k) {
      assert KeyOk(env, a, k);
      assert Rows(a, k) == Rows(b, k);
      forall i | 0 <= i < |Rows(b, k)| ensures Backed(env, b, k, Rows(b, k)[i]) {
        assert Backed(env, a, k, Rows(a, k)[i]);
      }
    }
  }

  lemma RecordedIsBacked(env: Env, store: Store, c: Call, k: Key)
    requires KeyOk(env, store, k) && c.PubRecord? && CallOk(env, store, c)
    ensures KeyOk(env, Record(env, store, c), k) && Keeps(store, Record(env, store, c), k)
  {
    var t := Record(env, store, c);
    if k != c.key {
      assert Rows(t, k) == Rows(store, k);
    }
    forall i | 0 <= i < |Rows(t, k)| ensures Backed(env, t, k, Rows(t, k)[i]) {
      if i < |Rows(store, k)| {
        assert Backed(env, store, k, Rows(store, k)[i]);
      }
    }
  }

  lemma RecordKeeps(env: Env, store: Store, c: Call)
    requires StoreOk(env, store) && c.PubRecord? && CallOk(env, store, c)
    ensures StoreOk(env, Record(env, store, c)) && forall k :: Keeps(store, Record(env, store, c), k)
  {
    forall k ensures KeyOk(env, Record(env, store, c), k) && Keeps(store, Record(env, store, c), k) {
      RecordedIsBacked(env, store, c, k);
    }
  }

  predicate TouchesBlobs(c: Call) {
    c.PubPutDsl? || c.PubPutBundle? || c.PubUndoPut? || c.PubUndoDsl? || c.PubUndoBundle?
  }

  lemma BlobMoveDocs(env: Env, store: Store, c: Call, fate: Fate, now: int)
    requires DocsOk(env, store) && CallOk(env, store, c) && TouchesBlobs(c)
    ensures DocsOk(env, Act(env, store, c, fate, now).store) && HoldsNext(store, c.key, c.n)
  {
    var t := Act(env, store, c, fate, now).store;
    assert t.drafts == store.drafts;
    forall id | id in t.dsls ensures Publishable(env, t.dsls[id]) {
      assert id in store.dsls ==> Publishable(env, store.dsls[id]);
    }
  }

  lemma BlobMoveIsSmall(env: Env, store: Store, c: Call, fate: Fate, now: int)
    requires TouchesBlobs(c)
    ensures OnlyBlobs(store, Act(env, store, c, fate, now).store, BlobId(c.key, c.n))
  {
  }

  lemma BlobMoveKeeps(env: Env, store: Store, c: Call, fate: Fate, now: int)
    requires StoreOk(env, store) && CallOk(env, store, c) && TouchesBlobs(c)
    ensures var t := Act(env, store, c, fate, now).store; StoreOk(env, t) && forall k :: Keeps(store, t, k)
  {
    BlobMoveIsSmall(env, store, c, fate, now);
    BlobMoveDocs(env, store, c, fate, now);
    NextBlobsKeep(env, store, Act(env, store, c, fate, now).store, BlobId(c.key, c.n));
  }

  lemma PlainMove(env: Env, store: Store, c: Call, fate: Fate, now: int)
    requires !TouchesBlobs(c) && !c.PubRecord?
    ensures var t := Act(env, store, c, fate, now).store;
      t.versions == store.versions && t.dsls == store.dsls && t.bundles == store.bundles
  {
  }

  lemma PlainMoveDocs(env: Env, store: Store, c: Call, fate: Fate, now: int)
    requires DocsOk(env, store) && CallOk(env, store, c) && !TouchesBlobs(c) && !c.PubRecord?
    ensures DocsOk(env, Act(env, store, c, fate, now).store)
  {
    PlainMove(env, store, c, fate, now);
    var t := Act(env, store, c, fate, now).store;
    forall k | k in t.drafts ensures Canonical(t.drafts[k]) {
      if c.DraftStore? && k == c.key {
        assert Canonical(c.doc);
      }
    }
  }

  lemma PlainMoveKeeps(env: Env, store: Store, c: Call, fate: Fate, now: int)
    requires StoreOk(env, store) && CallOk(env, store, c) && !TouchesBlobs(c) && !c.PubRecord?
    ensures var t := Act(env, store, c, fate, now).store; StoreOk(env, t) && forall k :: Keeps(store, t, k)
  {
    PlainMove(env, store, c, fate, now);
    PlainMoveDocs(env, store, c, fate, now);
    SameVersionsKeep(env, store, Act(env, store, c, fate, now).store);
  }

  lemma NextCriticalOk(env: Env, store: Store, c: Call, fate: Fate, now: int)
    requires CallOk(env, store, c) && InCritical(c) && Numbered(Rows(store, c.key))
    ensures var m := Act(env, store, c, fate, now); m.next.Some? ==> CallOk(env, m.store, m.next.value)
  {
    StoresAgree(Rows(store, c.key));
    match c
    case PubAllocate(k, doc) =>
    case PubPutDsl(k, doc, n, at) => assert Rows(Act(env, store, c, fate, now).store, k) == Rows(store, k);
    case PubPutBundle(k, doc, n, at) => assert Rows(Act(env, store, c, fate, now).store, k) == Rows(store, k);
    case PubRecord(k, doc, n, at) =>
    case PubUndoPut(k, n) =>
    case PubUndoDsl(k, n) => assert Rows(Act(env, store, c, fate, now).store, k) == Rows(store, k);
    case PubUndoBundle(k, n) =>
  }

  lemma NextCheckOk(env: Env, store: Store, c: Call, fate: Fate, now: int)
    requires CallOk(env, store, c) && c.PubCheck?
    ensures var m := Act(env, store, c, fate, now); m.next.Some? ==> CallOk(env, m.store, m.next.value)
  {
    CanonicalIffFixed(c.draft);
  }

  lemma NextReadOk(env: Env, store: Store, c: Call, fate: Fate, now: int)
    requires DocsOk(env, store) && CallOk(env, store, c) && Numbered(Rows(store, c.key)) && !InCritical(c) && !c.PubCheck?
    ensures var m := Act(env, store, c, fate, now); m.next.Some? ==> CallOk(env, m.store, m.next.value)
  {
    match c
    case DraftGetRuleset(k, raw) => EncodeIsCanonical(Decode(raw));
    case EvalLatest(k) => StoresAgree(Rows(store, k));
    case _ =>
  }

  lemma NextCallOk(env: Env, store: Store, c: Call, fate: Fate, now: int)
    requires DocsOk(env, store) && CallOk(env, store, c) && Numbered(Rows(store, c.key))
    ensures var m := Act(env, store, c, fate, now); m.next.Some? ==> CallOk(env, m.store, m.next.value)
  {
    if InCritical(c) {
      NextCriticalOk(env, store, c, fate, now);
    } else if c.PubCheck? {
      NextCheckOk(env, store, c, fate, now);
    } else {
      NextReadOk(env, store, c, fate, now);
    }
  }

  /** Every access keeps the stores sound, leaves recorded versions alone, and leads to a sound next access. */
  lemma ActKeeps(env: Env, store: Store, c: Call, fate: Fate, now: int)
    requires StoreOk(env, store) && CallOk(env, store, c)
    ensures var m := Act(env, store, c, fate, now);
      && StoreOk(env, m.store) && (forall k :: Keeps(store, m.store, k))
      && (m.next.Some? ==> CallOk(env, m.store, m.next.value))
  {
    assert KeyOk(env, store, c.key);
    NextCallOk(env, store, c, fate, now);
    if TouchesBlobs(c) {
      BlobMoveKeeps(env, store, c, fate, now);
    } else if c.PubRecord? {
      RecordKeeps(env, store, c);
    } else {
      PlainMoveKeeps(env, store, c, fate, now);
    }
  }

  /** The versions and blobs of the ruleset are the same in both. */
  ghost predicate SameKey(a: Store, b: Store, k: Key) {
    Rows(a, k) == Rows(b, k) && forall n :: SameBlobs(a, b, BlobId(k, n))
  }

  lemma ActTouchesOwnKey(env: Env, store: Store, c: Call, fate: Fate, now: int, k: Key)
    requires InCritical(c) ==> c.key != k
    ensures SameKey(store, Act(env, store, c, fate, now).store, k)
  {
    if TouchesBlobs(c) {
      BlobMoveIsSmall(env, store, c, fate, now);
    } else if !c.PubRecord? {
      PlainMove(env, store, c, fate, now);
    }
  }

  lemma SameKeyCallOk(env: Env, a: Store, b: Store, c: Call)
    requires CallOk(env, a, c) && InCritical(c) && SameKey(a, b, c.key)
    ensures CallOk(env, b, c)
  {
    if !c.PubAllocate? {
      assert SameBlobs(a, b, BlobId(c.key, c.n));
    }
  }

  /** What another call relies on survives, unless both are publishing under one key. */
  lemma ActSpares(env: Env, store: Store, c: Call, fate: Fate, now: int, other: Call)
    requires StoreOk(env, store) && CallOk(env, store, c) && CallOk(env, store, other)
    requires InCritical(c) && InCritical(other) ==> c.key != other.key
    ensures CallOk(env, Act(env, store, c, fate, now).store, other)
  {
    if InCritical(other) {
      ActTouchesOwnKey(env, store, c, fate, now, other.key);
      SameKeyCallOk(env, store, Act(env, store, c, fate, now).store, other);
    } else {
      ActKeeps(env, store, c, fate, now);
    }
  }
}
