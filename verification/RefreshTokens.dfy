/**
  Refresh-token rotation as a state machine. Verify, Refresh and Logout run concurrently in small
  steps over the token table; any step may fail, with or without its effect, any call may be
  abandoned, and the process may crash. The SQL stores revoke conditionally, in one statement;
  the in-memory store revokes unconditionally.
  */
module RefreshTokens {
  import opened Wrappers
  import opened Faults

  datatype Token = Token(user: string, hash: string, expires: int, revoked: bool)

  type Table = map<string, Token>

  datatype Store = Sql | InMemory

  // ---------- The statements on the table ----------

  ghost predicate HashTaken(rows: Table, hash: string) {
    exists id | id in rows :: rows[id].hash == hash
  }

  /** What the lookup by hash may answer. */
  ghost predicate IsLookup(rows: Table, hash: string, found: Option<string>) {
    match found
    case None => !HashTaken(rows, hash)
    case Some(id) => id in rows && rows[id].hash == hash
  }

  predicate Revocable(store: Store, rows: Table, id: string) {
    id in rows && (store.Sql? ==> !rows[id].revoked)
  }

  function Revoked(rows: Table, id: string): Table
    requires id in rows
  {
    rows[id := rows[id].(revoked := true)]
  }

  /** The id is the primary key and the hash is unique; the in-memory store checks neither. */
  ghost predicate Insertable(store: Store, rows: Table, id: string, hash: string) {
    store.Sql? ==> id !in rows && !HashTaken(rows, hash)
  }

  // ---------- The machine ----------

  datatype Call =
    | VerifyStore(user: string)
    | RefreshLookup(hash: string)
    | RefreshRevoke(id: string)
    | RefreshStore(spent: string)
    | LogoutLookup(hash: string)
    | LogoutRevoke(id: string)

  /** A successful answer of the service. */
  datatype Event = LoggedIn(token: string) | Refreshed(spent: string, token: string)

  /** `root` remembers the login each token descends from; `log` the successful answers. */
  datatype State = State(rows: Table, clock: int, calls: map<nat, Call>, root: map<string, string>, log: seq<Event>)

  const INIT := State(map[], 0, map[], map[], [])

  datatype Step =
    | Begin(pid: nat, call: Call)
    | Lookup(pid: nat, found: Option<string>)
    | Revoke(pid: nat, fate: Fate)
    | Insert(pid: nat, id: string, hash: string, expires: int, fate: Fate)
    | Abandon(pid: nat)
    | Crash
    | Tick(now: int)

  predicate Initial(c: Call) {
    c.VerifyStore? || c.RefreshLookup? || c.LogoutLookup?
  }

  function Ended(s: State, pid: nat): State {
    s.(calls := s.calls - {pid})
  }

  /** Refresh goes on only with a token that is neither revoked nor expired. */
  function AfterLookup(s: State, pid: nat, found: Option<string>): State
    requires pid in s.calls && (found.Some? ==> found.value in s.rows)
  {
    if found.None? then Ended(s, pid)
    else if s.calls[pid].LogoutLookup? then s.(calls := s.calls[pid := LogoutRevoke(found.value)])
    else if s.rows[found.value].revoked || s.clock > s.rows[found.value].expires then Ended(s, pid)
    else s.(calls := s.calls[pid := RefreshRevoke(found.value)])
  }

  function AfterRevoke(store: Store, s: State, pid: nat, fate: Fate): State
    requires pid in s.calls && (s.calls[pid].RefreshRevoke? || s.calls[pid].LogoutRevoke?)
  {
    var c := s.calls[pid];
    if fate.FailsUndone? || !Revocable(store, s.rows, c.id) then Ended(s, pid)
    else
      var t := s.(rows := Revoked(s.rows, c.id));
      if fate.Works? && c.RefreshRevoke? then t.(calls := t.calls[pid := RefreshStore(c.id)]) else Ended(t, pid)
  }

  ghost function AfterInsert(store: Store, s: State, pid: nat, id: string, hash: string, expires: int, fate: Fate): State
    requires pid in s.calls && (s.calls[pid].VerifyStore? || s.calls[pid].RefreshStore?)
    requires s.calls[pid].RefreshStore? ==> s.calls[pid].spent in s.rows && s.calls[pid].spent in s.root
  {
    var c := s.calls[pid];
    if fate.FailsUndone? || !Insertable(store, s.rows, id, hash) then Ended(s, pid)
    else
      var user := if c.VerifyStore? then c.user else s.rows[c.spent].user;
      var t := s.(rows := s.rows[id := Token(user, hash, expires, false)],
                  root := s.root[id := if c.VerifyStore? then id else s.root[c.spent]]);
      Ended(if fate.Works? then t.(log := t.log + [if c.VerifyStore? then LoggedIn(id) else Refreshed(c.spent, id)]) else t, pid)
  }

  ghost predicate Enabled(store: Store, s: State, step: Step) {
    match step
    case Begin(pid, call) => pid !in s.calls && Initial(call)
    case Lookup(pid, found) =>
      && pid in s.calls && (s.calls[pid].RefreshLookup? || s.calls[pid].LogoutLookup?)
      && IsLookup(s.rows, s.calls[pid].hash, found)
    case Revoke(pid, _) => pid in s.calls && (s.calls[pid].RefreshRevoke? || s.calls[pid].LogoutRevoke?)
    case Insert(pid, _, _, _, _) =>
      && pid in s.calls && (s.calls[pid].VerifyStore? || s.calls[pid].RefreshStore?)
      && (s.calls[pid].RefreshStore? ==> s.calls[pid].spent in s.rows && s.calls[pid].spent in s.root)
    case Abandon(pid) => pid in s.calls
    case Crash => true
    case Tick(now) => s.clock <= now
  }

  ghost function After(store: Store, s: State, step: Step): State
    requires Enabled(store, s, step)
  {
    match step
    case Begin(pid, call) => s.(calls := s.calls[pid := call])
    case Lookup(pid, found) => AfterLookup(s, pid, found)
    case Revoke(pid, fate) => AfterRevoke(store, s, pid, fate)
    case Insert(pid, id, hash, expires, fate) => AfterInsert(store, s, pid, id, hash, expires, fate)
    case Abandon(pid) => Ended(s, pid)
    case Crash => s.(calls := map[])
    case Tick(now) => s.(clock := now)
  }

  /** The state after a run of steps, if every one of them can be taken. */
  ghost function Exec(store: Store, s: State, steps: seq<Step>): Option<State> {
    if steps == [] then Some(s)
    else
      match Exec(store, s, steps[..|steps| - 1])
      case None => None
      case Some(t) =>
        var step := steps[|steps| - 1];
        if Enabled(store, t, step) then Some(After(store, t, step)) else None
  }

  // ---------- What rotation is for ----------

  ghost predicate Redeemed(log: seq<Event>, id: string, i: int) {
    0 <= i < |log| && log[i].Refreshed? && log[i].spent == id
  }

  /** No refresh token has been exchanged for a new one twice. */
  ghost predicate SingleUse(s: State) {
    forall id, i, j | Redeemed(s.log, id, i) && Redeemed(s.log, id, j) :: i == j
  }

  ghost predicate Live(s: State, id: string) {
    id in s.rows && !s.rows[id].revoked
  }

  ghost function LoginOf(s: State, id: string): string {
    if id in s.root then s.root[id] else id
  }

  /** Of the tokens that descend from one login, at most one is not revoked. */
  ghost predicate OneLivePerLogin(s: State) {
    forall a, b | Live(s, a) && Live(s, b) && LoginOf(s, a) == LoginOf(s, b) :: a == b
  }

  // ---------- The invariant ----------

  /** A Refresh that has revoked its token and not yet stored the successor. */
  ghost predicate Storing(s: State, pid: nat) {
    pid in s.calls && s.calls[pid].RefreshStore?
  }

  ghost predicate StoringAlone(s: State) {
    && (forall p | Storing(s, p) :: s.calls[p].spent in s.rows)
    && (forall p, a | Storing(s, p) && Live(s, a) :: LoginOf(s, a) != LoginOf(s, s.calls[p].spent))
    && (forall p, q | Storing(s, p) && Storing(s, q) && LoginOf(s, s.calls[p].spent) == LoginOf(s, s.calls[q].spent) :: p == q)
  }

  ghost predicate SpentStaysSpent(s: State) {
    && (forall id, i | Redeemed(s.log, id, i) :: id in s.rows && !Live(s, id))
    && (forall p, i | Storing(s, p) :: !Redeemed(s.log, s.calls[p].spent, i))
  }

  ghost predicate LoginsKnown(s: State) {
    s.root.Keys == s.rows.Keys && forall a {:trigger LoginOf(s, a)} | a in s.rows :: LoginOf(s, a) in s.rows
  }

  ghost predicate Inv(s: State) {
    LoginsKnown(s) && SingleUse(s) && OneLivePerLogin(s) && StoringAlone(s) && SpentStaysSpent(s)
  }

  /** Revoking tokens and ending calls keep the invariant. */
  lemma FewerInv(s: State, t: State)
    requires Inv(s) && t.root == s.root && t.log == s.log && t.rows.Keys == s.rows.Keys
    requires forall a | Live(t, a) :: Live(s, a)
    requires forall p | Storing(t, p) :: Storing(s, p) && t.calls[p] == s.calls[p]
    ensures Inv(t)
  {
    assert forall a :: LoginOf(t, a) == LoginOf(s, a);
  }

  /** The step from a successful conditional revoke to storing the successor. */
  lemma SpendInv(s: State, pid: nat, id: string)
    requires Inv(s) && Live(s, id) && pid in s.calls && !Storing(s, pid)
    ensures Inv(s.(rows := Revoked(s.rows, id), calls := s.calls[pid := RefreshStore(id)]))
  {
    var t := s.(rows := Revoked(s.rows, id), calls := s.calls[pid := RefreshStore(id)]);
    assert forall a :: LoginOf(t, a) == LoginOf(s, a);
    assert forall a | Live(t, a) :: Live(s, a) && a != id;
    assert forall p | Storing(t, p) && p != pid :: Storing(s, p) && t.calls[p] == s.calls[p];
    forall p, q | Storing(t, p) && Storing(t, q) && LoginOf(t, t.calls[p].spent) == LoginOf(t, t.calls[q].spent) ensures p == q {
      assert p != pid ==> Storing(s, p);
      assert q != pid ==> Storing(s, q);
    }
  }

  lemma RevokeInv(s: State, pid: nat, fate: Fate)
    requires Inv(s) && pid in s.calls && (s.calls[pid].RefreshRevoke? || s.calls[pid].LogoutRevoke?)
    ensures Inv(AfterRevoke(Sql, s, pid, fate))
  {
    var id, t := s.calls[pid].id, AfterRevoke(Sql, s, pid, fate);
    if fate.Works? && s.calls[pid].RefreshRevoke? && Revocable(Sql, s.rows, id) {
      SpendInv(s, pid, id);
    } else {
      FewerInv(s, t);
    }
  }

  function WithToken(s: State, id: string, token: Token, login: string): State {
    s.(rows := s.rows[id := token], root := s.root[id := login])
  }

  lemma OthersUntouched(s: State, id: string, token: Token, login: string)
    ensures forall a | a != id :: LoginOf(WithToken(s, id, token, login), a) == LoginOf(s, a)
    ensures forall a | a != id :: Live(WithToken(s, id, token, login), a) == Live(s, a)
    ensures forall p :: Storing(WithToken(s, id, token, login), p) == Storing(s, p)
  {
  }

  lemma NewTokenAlone(s: State, id: string, token: Token, login: string)
    requires Inv(s) && id !in s.rows && (login == id || login in s.rows)
    requires forall a | Live(s, a) :: LoginOf(s, a) != login
    requires forall p | Storing(s, p) :: LoginOf(s, s.calls[p].spent) != login
    ensures StoringAlone(WithToken(s, id, token, login))
  {
    var t := WithToken(s, id, token, login);
    OthersUntouched(s, id, token, login);
    forall p | Storing(t, p) ensures t.calls[p].spent in s.rows && LoginOf(t, t.calls[p].spent) == LoginOf(s, t.calls[p].spent) {
      assert Storing(s, p);
    }
  }

  /** A new token whose login has no live token and no other call about to store one. */
  lemma NewTokenInv(s: State, id: string, token: Token, login: string)
    requires Inv(s) && id !in s.rows && (login == id || login in s.rows)
    requires forall a | Live(s, a) :: LoginOf(s, a) != login
    requires forall p | Storing(s, p) :: LoginOf(s, s.calls[p].spent) != login
    ensures Inv(WithToken(s, id, token, login))
  {
    OthersUntouched(s, id, token, login);
    NewTokenAlone(s, id, token, login);
  }

  /** Logging an exchange of a spent token that was not logged before. */
  lemma LogInv(s: State, e: Event)
    requires Inv(s)
    requires e.Refreshed? ==> e.spent in s.rows && !Live(s, e.spent)
    requires e.Refreshed? ==> forall i :: !Redeemed(s.log, e.spent, i)
    requires e.Refreshed? ==> forall p | Storing(s, p) :: s.calls[p].spent != e.spent
    ensures Inv(s.(log := s.log + [e]))
  {
    var t := s.(log := s.log + [e]);
    assert forall x, i | Redeemed(t.log, x, i) && i < |s.log| :: Redeemed(s.log, x, i);
    assert forall a :: Live(t, a) == Live(s, a) && LoginOf(t, a) == LoginOf(s, a);
    assert forall p :: Storing(t, p) == Storing(s, p);
  }

  lemma InsertInv(s: State, pid: nat, id: string, hash: string, expires: int, fate: Fate)
    requires Inv(s) && pid in s.calls && (s.calls[pid].VerifyStore? || s.calls[pid].RefreshStore?)
    requires s.calls[pid].RefreshStore? ==> s.calls[pid].spent in s.rows && s.calls[pid].spent in s.root
    ensures Inv(AfterInsert(Sql, s, pid, id, hash, expires, fate))
  {
    var c := s.calls[pid];
    var e := Ended(s, pid);
    FewerInv(s, e);
    if !fate.FailsUndone? && Insertable(Sql, s.rows, id, hash) {
      var login := if c.VerifyStore? then id else s.root[c.spent];
      var token := Token(if c.VerifyStore? then c.user else s.rows[c.spent].user, hash, expires, false);
      assert forall p | Storing(e, p) :: Storing(s, p) && p != pid && e.calls[p] == s.calls[p];
      if c.RefreshStore? {
        assert Storing(s, pid) && LoginOf(s, c.spent) == login;
      }
      NewTokenInv(e, id, token, login);
      var t := WithToken(e, id, token, login);
      if fate.Works? {
        LogInv(t, if c.VerifyStore? then LoggedIn(id) else Refreshed(c.spent, id));
      }
    }
  }

  lemma StepInv(s: State, step: Step)
    requires Inv(s) && Enabled(Sql, s, step)
    ensures Inv(After(Sql, s, step))
  {
    match step
    case Revoke(pid, fate) => RevokeInv(s, pid, fate);
    case Insert(pid, id, hash, expires, fate) => InsertInv(s, pid, id, hash, expires, fate);
    case _ =>
      FewerInv(s, After(Sql, s, step));
  }

  lemma {:induction false} RunInv(steps: seq<Step>)
    requires Exec(Sql, INIT, steps).Some?
    ensures Inv(Exec(Sql, INIT, steps).value)
  {
    if steps != [] {
      RunInv(steps[..|steps| - 1]);
      StepInv(Exec(Sql, INIT, steps[..|steps| - 1]).value, steps[|steps| - 1]);
    }
  }

  /** In every run over the SQL store, each token is redeemed at most once and each login has at most one live token. */
  lemma RotationIsSafe(steps: seq<Step>)
    requires Exec(Sql, INIT, steps).Some?
    ensures SingleUse(Exec(Sql, INIT, steps).value) && OneLivePerLogin(Exec(Sql, INIT, steps).value)
  {
    RunInv(steps);
  }

  // ---------- What can be redeemed ----------

  /** At some point of the run the token was there, not revoked and not expired. */
  ghost predicate WasValidAt(store: Store, steps: seq<Step>, id: string, i: nat) {
    && i <= |steps| && Exec(store, INIT, steps[..i]).Some?
    && var s := Exec(store, INIT, steps[..i]).value;
       id in s.rows && !s.rows[id].revoked && s.clock <= s.rows[id].expires
  }

  ghost predicate WasValid(store: Store, steps: seq<Step>, id: string) {
    exists i: nat :: WasValidAt(store, steps, id, i)
  }

  ghost predicate HoldsValid(store: Store, steps: seq<Step>, c: Call) {
    && (c.RefreshRevoke? ==> WasValid(store, steps, c.id))
    && (c.RefreshStore? ==> WasValid(store, steps, c.spent))
  }

  lemma StillWasValid(store: Store, steps: seq<Step>, id: string)
    requires steps != [] && WasValid(store, steps[..|steps| - 1], id)
    ensures WasValid(store, steps, id)
  {
    var i: nat :| WasValidAt(store, steps[..|steps| - 1], id, i);
    assert steps[..|steps| - 1][..i] == steps[..i];
    assert WasValidAt(store, steps, id, i);
  }

  /** A call holds a token it held before, or one it has just found valid. */
  lemma HeldOrFound(store: Store, s: State, step: Step, p: nat)
    requires Enabled(store, s, step) && p in After(store, s, step).calls
    ensures var c := After(store, s, step).calls[p];
      && (c.RefreshRevoke? ==>
            || (p in s.calls && s.calls[p] == c)
            || (c.id in s.rows && !s.rows[c.id].revoked && s.clock <= s.rows[c.id].expires))
      && (c.RefreshStore? ==> p in s.calls && (s.calls[p] == c || s.calls[p] == RefreshRevoke(c.spent)))
  {
  }

  /** A step logs at most one answer, of a call about to store. */
  lemma LoggedByStoring(store: Store, s: State, step: Step)
    requires Enabled(store, s, step)
    ensures var log := After(store, s, step).log;
      || log == s.log
      || (&& |log| == |s.log| + 1 && log[..|s.log|] == s.log && step.Insert?
          && (log[|s.log|].Refreshed? ==> s.calls[step.pid] == RefreshStore(log[|s.log|].spent)))
  {
  }

  lemma {:induction false} HeldWasValid(store: Store, steps: seq<Step>)
    requires Exec(store, INIT, steps).Some?
    ensures var s := Exec(store, INIT, steps).value;
      && (forall p | p in s.calls :: HoldsValid(store, steps, s.calls[p]))
      && (forall id, i | Redeemed(s.log, id, i) :: WasValid(store, steps, id))
  {
    if steps != [] {
      var before, step := steps[..|steps| - 1], steps[|steps| - 1];
      var s, t := Exec(store, INIT, before).value, Exec(store, INIT, steps).value;
      HeldWasValid(store, before);
      forall p | p in t.calls ensures HoldsValid(store, steps, t.calls[p]) {
        HeldOrFound(store, s, step, p);
        HoldsValidNext(store, steps, p);
      }
      LoggedByStoring(store, s, step);
      forall id, i | Redeemed(t.log, id, i) ensures WasValid(store, steps, id) {
        if i < |s.log| {
          assert s.log[i] == t.log[i];
          assert Redeemed(s.log, id, i);
        } else {
          assert HoldsValid(store, before, s.calls[step.pid]);
        }
        StillWasValid(store, steps, id);
      }
    }
  }

  lemma HoldsValidNext(store: Store, steps: seq<Step>, p: nat)
    requires steps != [] && Exec(store, INIT, steps).Some?
    requires var s := Exec(store, INIT, steps[..|steps| - 1]).value; p in s.calls ==> HoldsValid(store, steps[..|steps| - 1], s.calls[p])
    requires p in Exec(store, INIT, steps).value.calls
    ensures HoldsValid(store, steps, Exec(store, INIT, steps).value.calls[p])
  {
    var before := steps[..|steps| - 1];
    var s, c := Exec(store, INIT, before).value, Exec(store, INIT, steps).value.calls[p];
    HeldOrFound(store, s, steps[|steps| - 1], p);
    if c.RefreshRevoke? || c.RefreshStore? {
      var id := if c.RefreshRevoke? then c.id else c.spent;
      if p in s.calls && (s.calls[p] == c || s.calls[p] == RefreshRevoke(id)) {
        assert HoldsValid(store, before, s.calls[p]);
        StillWasValid(store, steps, id);
      } else {
        assert steps[..|steps| - 1] == before;
        assert WasValidAt(store, steps, id, |steps| - 1);
      }
    }
  }

  /** Over either store, only a token that was unrevoked and unexpired in the run is ever redeemed. */
  lemma OnlyValidTokensAreRedeemed(store: Store, steps: seq<Step>, id: string, i: int)
    requires Exec(store, INIT, steps).Some? && Redeemed(Exec(store, INIT, steps).value.log, id, i)
    ensures WasValid(store, steps, id)
  {
    HeldWasValid(store, steps);
  }

  /** A new token has the user and the login of the one it replaces; a token from Verify is its own login. */
  ghost predicate SucceedsRightly(s: State, e: Event) {
    match e
    case LoggedIn(token) => token in s.rows && LoginOf(s, token) == token
    case Refreshed(spent, token) =>
      && spent in s.rows && token in s.rows
      && s.rows[spent].user == s.rows[token].user && LoginOf(s, spent) == LoginOf(s, token)
  }

  lemma RowsKeepUsers(s: State, step: Step)
    requires Enabled(Sql, s, step)
    requires s.root.Keys == s.rows.Keys
    ensures forall id | id in s.rows :: var t := After(Sql, s, step);
      id in t.rows && t.rows[id].user == s.rows[id].user && LoginOf(t, id) == LoginOf(s, id)
  {
  }

  lemma LoggedSuccessor(s: State, step: Step)
    requires Enabled(Sql, s, step) && s.root.Keys == s.rows.Keys
    ensures var t := After(Sql, s, step); |t.log| > |s.log| ==> SucceedsRightly(t, t.log[|s.log|])
  {
  }

  lemma {:induction false} SuccessorsAreRight(steps: seq<Step>)
    requires Exec(Sql, INIT, steps).Some?
    ensures var s := Exec(Sql, INIT, steps).value; forall i | 0 <= i < |s.log| :: SucceedsRightly(s, s.log[i])
  {
    if steps != [] {
      var s, step := Exec(Sql, INIT, steps[..|steps| - 1]).value, steps[|steps| - 1];
      SuccessorsAreRight(steps[..|steps| - 1]);
      RunInv(steps[..|steps| - 1]);
      RowsKeepUsers(s, step);
      LoggedByStoring(Sql, s, step);
      LoggedSuccessor(s, step);
      var t := After(Sql, s, step);
      forall i | 0 <= i < |t.log| ensures SucceedsRightly(t, t.log[i]) {
        if i < |s.log| {
          assert s.log[i] == t.log[i] && SucceedsRightly(s, s.log[i]);
        }
      }
    }
  }

  // ---------- The unconditional revoke is not enough ----------

  lemma Take(store: Store, s: State, steps: seq<Step>, step: Step)
    requires Exec(store, s, steps).Some? && Enabled(store, Exec(store, s, steps).value, step)
    ensures Exec(store, s, steps + [step]) == Some(After(store, Exec(store, s, steps).value, step))
  {
    assert (steps + [step])[..|steps|] == steps;
  }

  lemma LoginOnce() returns (steps: seq<Step>, s: State)
    ensures Exec(InMemory, INIT, steps) == Some(s)
    ensures s == State(map["a" := Token("u", "ha", 9, false)], 0, map[], map["a" := "a"], [LoggedIn("a")])
  {
    steps := [];
    Take(InMemory, INIT, steps, Begin(0, VerifyStore("u")));
    steps := steps + [Begin(0, VerifyStore("u"))];
    Take(InMemory, INIT, steps, Insert(0, "a", "ha", 9, Works));
    steps := steps + [Insert(0, "a", "ha", 9, Works)];
    s := Exec(InMemory, INIT, steps).value;
    assert s.calls == map[];
  }

  /** One call looks the token up and stops short of revoking it. */
  lemma LookUp(steps: seq<Step>, s: State, pid: nat) returns (more: seq<Step>)
    requires Exec(InMemory, INIT, steps) == Some(s) && pid !in s.calls
    requires s.clock == 0 && s.rows == map["a" := Token("u", "ha", 9, false)]
    ensures Exec(InMemory, INIT, more) == Some(s.(calls := s.calls[pid := RefreshRevoke("a")]))
  {
    Take(InMemory, INIT, steps, Begin(pid, RefreshLookup("ha")));
    more := steps + [Begin(pid, RefreshLookup("ha"))];
    var t := Exec(InMemory, INIT, more).value;
    Take(InMemory, INIT, more, Lookup(pid, Some("a")));
    more := more + [Lookup(pid, Some("a"))];
    assert t.calls[pid := RefreshRevoke("a")] == s.calls[pid := RefreshRevoke("a")];
  }

  /** The call revokes whatever it finds and stores the successor. */
  lemma Spend(steps: seq<Step>, s: State, pid: nat, id: string) returns (more: seq<Step>, t: State)
    requires Exec(InMemory, INIT, steps) == Some(s)
    requires pid in s.calls && s.calls[pid] == RefreshRevoke("a") && "a" in s.rows && "a" in s.root && id != "a"
    ensures Exec(InMemory, INIT, more) == Some(t)
    ensures t.log == s.log + [Refreshed("a", id)] && t.calls == s.calls - {pid} && "a" in t.rows && "a" in t.root
  {
    Take(InMemory, INIT, steps, Revoke(pid, Works));
    more := steps + [Revoke(pid, Works)];
    var u := Exec(InMemory, INIT, more).value;
    Take(InMemory, INIT, more, Insert(pid, id, id, 9, Works));
    more := more + [Insert(pid, id, id, 9, Works)];
    t := Exec(InMemory, INIT, more).value;
    assert t.calls == s.calls - {pid};
  }

  lemma InMemoryRedeemsTwice()
    ensures exists steps :: Exec(InMemory, INIT, steps).Some? && !SingleUse(Exec(InMemory, INIT, steps).value)
  {
    var steps, s := LoginOnce();
    steps := LookUp(steps, s, 1);
    s := Exec(InMemory, INIT, steps).value;
    steps := LookUp(steps, s, 2);
    s := Exec(InMemory, INIT, steps).value;
    steps, s := Spend(steps, s, 1, "b");
    steps, s := Spend(steps, s, 2, "c");
    assert Redeemed(s.log, "a", 1) && Redeemed(s.log, "a", 2);
  }

  /** Tokens are single-use in every run exactly when the store revokes conditionally. */
  lemma SingleUseIffConditional(store: Store)
    ensures (forall steps | Exec(store, INIT, steps).Some? :: SingleUse(Exec(store, INIT, steps).value)) <==> store.Sql?
  {
    if store.Sql? {
      forall steps | Exec(store, INIT, steps).Some? ensures SingleUse(Exec(store, INIT, steps).value) {
        RotationIsSafe(steps);
      }
    } else {
      InMemoryRedeemsTwice();
    }
  }

  // ---------- The SQL table, and a call that runs alone ----------

  /** The unique index on the hashes, which every statement keeps. */
  ghost predicate HashesUnique(rows: Table) {
    forall a, b | a in rows && b in rows && rows[a].hash == rows[b].hash :: a == b
  }

  class TokenTable {
    var rows: Table

    constructor ()
      ensures rows == map[]
    {
      rows := map[];
    }

    method GetByHash(hash: string) returns (found: Option<string>)
      ensures IsLookup(rows, hash, found)
    {
      var rest := rows.Keys;
      while rest != {}
        invariant rest <= rows.Keys
        invariant forall id | id in rows && id !in rest :: rows[id].hash != hash
        decreases rest
      {
        var id :| id in rest;
        if rows[id].hash == hash {
          return Some(id);
        }
        rest := rest - {id};
      }
      return None;
    }

    method RevokeToken(id: string) returns (ok: bool)
      modifies this
      ensures ok <==> Revocable(Sql, old(rows), id)
      ensures rows == if ok then Revoked(old(rows), id) else old(rows)
      ensures HashesUnique(old(rows)) ==> HashesUnique(rows)
    {
      ok := id in rows && !rows[id].revoked;
      if ok {
        rows := rows[id := rows[id].(revoked := true)];
      }
    }

    method Create(id: string, t: Token) returns (ok: bool)
      modifies this
      ensures ok <==> Insertable(Sql, old(rows), id, t.hash)
      ensures rows == if ok then old(rows)[id := t] else old(rows)
      ensures HashesUnique(old(rows)) ==> HashesUnique(rows)
    {
      var twin := GetByHash(t.hash);
      ok := id !in rows && twin.None?;
      if ok {
        rows := rows[id := t];
      }
    }
  }

  predicate Spendable(rows: Table, found: Option<string>, now: int) {
    found.Some? && found.value in rows && !rows[found.value].revoked && now <= rows[found.value].expires
  }

  ghost predicate Succeeds(rows: Table, found: Option<string>, now: int, id: string, hash: string) {
    Spendable(rows, found, now) && Insertable(Sql, Revoked(rows, found.value), id, hash)
  }

  /** A token that was revoked stays revoked when its successor cannot be stored. */
  ghost function RowsAfterRefresh(rows: Table, found: Option<string>, now: int, id: string, hash: string, expires: int): Table {
    if !Spendable(rows, found, now) then rows
    else
      var spent := Revoked(rows, found.value);
      if Insertable(Sql, spent, id, hash) then spent[id := Token(rows[found.value].user, hash, expires, false)] else spent
  }

  ghost function SoloSteps(rows: Table, hash: string, found: Option<string>, now: int, id: string, newHash: string, expires: int): seq<Step> {
    [Begin(0, RefreshLookup(hash)), Lookup(0, found)]
    + if Spendable(rows, found, now) then [Revoke(0, Works), Insert(0, id, newHash, expires, Works)] else []
  }

  lemma SoloBegin(s: State, hash: string, found: Option<string>)
    requires s.calls == map[] && IsLookup(s.rows, hash, found)
    ensures Exec(Sql, s, [Begin(0, RefreshLookup(hash)), Lookup(0, found)])
         == Some(AfterLookup(s.(calls := map[0 := RefreshLookup(hash)]), 0, found))
  {
    var first, second := Begin(0, RefreshLookup(hash)), Lookup(0, found);
    Take(Sql, s, [], first);
    assert s.calls[0 := RefreshLookup(hash)] == map[0 := RefreshLookup(hash)];
    Take(Sql, s, [] + [first], second);
    assert [] + [first] + [second] == [first, second];
  }

  /** The effect of a Refresh that runs alone, nothing failing, is one the machine reaches. */
  lemma SoloRefreshIsRun(s: State, hash: string, found: Option<string>, id: string, newHash: string, expires: int)
    requires s.calls == map[] && s.root.Keys == s.rows.Keys && IsLookup(s.rows, hash, found)
    ensures var r := Exec(Sql, s, SoloSteps(s.rows, hash, found, s.clock, id, newHash, expires));
      && r.Some? && r.value.calls == map[]
      && r.value.rows == RowsAfterRefresh(s.rows, found, s.clock, id, newHash, expires)
      && r.value.log == s.log + if Succeeds(s.rows, found, s.clock, id, newHash) then [Refreshed(found.value, id)] else []
  {
    SoloBegin(s, hash, found);
    var steps := [Begin(0, RefreshLookup(hash)), Lookup(0, found)];
    if Spendable(s.rows, found, s.clock) {
      Take(Sql, s, steps, Revoke(0, Works));
      var t := Exec(Sql, s, steps + [Revoke(0, Works)]).value;
      Take(Sql, s, steps + [Revoke(0, Works)], Insert(0, id, newHash, expires, Works));
      assert steps + [Revoke(0, Works)] + [Insert(0, id, newHash, expires, Works)]
          == SoloSteps(s.rows, hash, found, s.clock, id, newHash, expires);
      assert t.calls - {0} == map[];
    } else {
      assert steps + [] == SoloSteps(s.rows, hash, found, s.clock, id, newHash, expires);
    }
  }

  /** The service's Refresh, run alone; the new id, hash and expiry come from outside. */
  method Refresh(table: TokenTable, hash: string, now: int, id: string, newHash: string, expires: int) returns (ok: bool)
    modifies table
    ensures exists found | IsLookup(old(table.rows), hash, found) ::
      && table.rows == RowsAfterRefresh(old(table.rows), found, now, id, newHash, expires)
      && (ok <==> Succeeds(old(table.rows), found, now, id, newHash))
    ensures HashesUnique(old(table.rows)) && id !in old(table.rows) && !HashTaken(old(table.rows), newHash) ==>
      (ok <==> exists x | x in old(table.rows) ::
         old(table.rows)[x].hash == hash && !old(table.rows)[x].revoked && now <= old(table.rows)[x].expires)
    ensures ok ==> exists x | x in old(table.rows) :: var spent := old(table.rows)[x];
      && spent.hash == hash && !spent.revoked && now <= spent.expires
      && table.rows == old(table.rows)[x := spent.(revoked := true)][id := Token(spent.user, newHash, expires, false)]
  {
    var found := table.GetByHash(hash);
    if found.None? || table.rows[found.value].revoked || now > table.rows[found.value].expires {
      return false;
    }
    var user := table.rows[found.value].user;
    ok := table.RevokeToken(found.value);
    if !ok {
      return;
    }
    ok := table.Create(id, Token(user, newHash, expires, false));
  }

  /** The service's Logout, run alone: afterwards no token with that hash is live. */
  method Logout(table: TokenTable, hash: string)
    requires HashesUnique(table.rows)
    modifies table
    ensures table.rows.Keys == old(table.rows).Keys
    ensures forall id | id in table.rows ::
      table.rows[id] == if old(table.rows)[id].hash == hash then old(table.rows)[id].(revoked := true) else old(table.rows)[id]
  {
    var found := table.GetByHash(hash);
    if found.Some? {
      var _ := table.RevokeToken(found.value);
    }
  }
}
