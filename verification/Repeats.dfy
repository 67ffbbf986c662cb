/**
  When two adjacent versions of a ruleset can be the same. A publish compares its document with the
  latest version before it takes the lock, and goes on if the lookup fails.
  */
module Repeats {
  import opened Wrappers
  import opened Faults
  import opened CanonicalJson
  import opened Registry
  import opened PublishProtocol

  ghost predicate NoRepeats(rows: seq<Version>) {
    forall i | 0 <= i < |rows| - 1 :: rows[i].checksum != rows[i + 1].checksum
  }

  /** Between a publish's check and its record. */
  predicate CarriesDoc(c: Call) {
    c.PubLock? || c.PubAllocate? || c.PubPutDsl? || c.PubPutBundle? || c.PubRecord?
  }

  ghost predicate Carries(s: State, p: nat, k: Key) {
    p in s.calls && CarriesDoc(s.calls[p].call) && s.calls[p].call.key == k
  }

  // ---------- What can go wrong ----------

  /** A check passed while another publish of the ruleset is between check and record, or passed because its lookup failed. */
  datatype Hazard = Overlap | LostLookup

  ghost predicate PassesCheck(env: Env, s: State, step: Step, k: Key) {
    && step.Go? && step.pid in s.calls && s.calls[step.pid].call.PubCheck? && s.calls[step.pid].call.key == k
    && Act(env, s.store, s.calls[step.pid].call, step.fate, step.now).next.Some?
  }

  ghost predicate Avoids(env: Env, s: State, step: Step, k: Key, h: Hazard) {
    PassesCheck(env, s, step, k) ==>
      match h
      case Overlap => forall p :: !Carries(s, p, k)
      case LostLookup => step.fate.Works?
  }

  ghost predicate AvoidsAll(env: Env, steps: seq<Step>, k: Key, h: Hazard) {
    steps == [] ||
    (var before := steps[..|steps| - 1];
     && AvoidsAll(env, before, k, h)
     && (Exec(env, INIT, before).Some? ==> Avoids(env, Exec(env, INIT, before).value, steps[|steps| - 1], k, h)))
  }

  lemma AvoidsSnoc(env: Env, steps: seq<Step>, s: State, step: Step, k: Key, h: Hazard)
    requires Exec(env, INIT, steps) == Some(s) && AvoidsAll(env, steps, k, h) && Avoids(env, s, step, k, h)
    ensures AvoidsAll(env, steps + [step], k, h)
  {
    assert (steps + [step])[..|steps|] == steps;
  }

  // ---------- Without hazards nothing repeats ----------

  /** The document is not the one published last. */
  ghost predicate IsNews(env: Env, rows: seq<Version>, doc: Json) {
    rows != [] ==> rows[|rows| - 1].checksum != env.hash(doc)
  }

  ghost predicate OneCarrier(s: State, k: Key) {
    forall p, q | Carries(s, p, k) && Carries(s, q, k) :: p == q
  }

  ghost predicate CarriesNews(env: Env, s: State, p: nat, k: Key) {
    Carries(s, p, k) ==> IsNews(env, Rows(s.store, k), s.calls[p].call.doc)
  }

  ghost predicate Newsworthy(env: Env, s: State, k: Key) {
    && OneCarrier(s, k)
    && (forall p :: CarriesNews(env, s, p, k))
    && NoRepeats(Rows(s.store, k))
  }

  lemma ActKeepsRows(env: Env, store: Store, c: Call, fate: Fate, now: int, k: Key)
    requires c.PubRecord? ==> c.key != k
    ensures Rows(Act(env, store, c, fate, now).store, k) == Rows(store, k)
  {
  }

  /** A call carries a document because it did before, or because it passed the check. */
  lemma CarriedOrPassed(env: Env, store: Store, c: Call, fate: Fate, now: int)
    ensures var next := Act(env, store, c, fate, now).next;
      next.Some? && CarriesDoc(next.value) ==>
        next.value.key == c.key && !c.PubRecord? && (c.PubCheck? || (CarriesDoc(c) && next.value.doc == c.doc))
  {
  }

  /** Passing the check on a lookup that works makes the document news. */
  lemma CheckFindsNews(env: Env, store: Store, c: Call, now: int)
    requires c.PubCheck? && Numbered(Rows(store, c.key)) && Act(env, store, c, Works, now).next.Some?
    ensures IsNews(env, Rows(store, c.key), Act(env, store, c, Works, now).next.value.doc)
  {
    StoresAgree(Rows(store, c.key));
  }

  lemma GoOneCarrier(env: Env, s: State, pid: nat, fate: Fate, now: int, k: Key)
    requires OneCarrier(s, k) && Enabled(s, Go(pid, fate, now)) && Avoids(env, s, Go(pid, fate, now), k, Overlap)
    ensures OneCarrier(AfterGo(env, s, pid, fate, now), k)
  {
    var t := AfterGo(env, s, pid, fate, now);
    CarriedOrPassed(env, s.store, s.calls[pid].call, fate, now);
    assert Carries(t, pid, k) ==> Carries(s, pid, k) || PassesCheck(env, s, Go(pid, fate, now), k);
    forall p, q | Carries(t, p, k) && Carries(t, q, k) ensures p == q {
      assert p != pid ==> Carries(s, p, k);
      assert q != pid ==> Carries(s, q, k);
    }
  }

  lemma GoCarriesNews(env: Env, s: State, pid: nat, fate: Fate, now: int, k: Key, p: nat)
    requires OneCarrier(s, k) && CarriesNews(env, s, p, k) && Numbered(Rows(s.store, k))
    requires Enabled(s, Go(pid, fate, now)) && Avoids(env, s, Go(pid, fate, now), k, LostLookup)
    ensures CarriesNews(env, AfterGo(env, s, pid, fate, now), p, k)
  {
    var c := s.calls[pid].call;
    var t := AfterGo(env, s, pid, fate, now);
    CarriedOrPassed(env, s.store, c, fate, now);
    if Carries(t, p, k) {
      assert p != pid ==> Carries(s, p, k);
      assert c.PubRecord? && c.key == k ==> Carries(s, pid, k) && p != pid;
      ActKeepsRows(env, s.store, c, fate, now, k);
      if p == pid && c.PubCheck? {
        CheckFindsNews(env, s.store, c, now);
      }
    }
  }

  lemma GoNewsworthy(env: Env, s: State, pid: nat, fate: Fate, now: int, k: Key)
    requires Newsworthy(env, s, k) && Enabled(s, Go(pid, fate, now)) && Numbered(Rows(s.store, k))
    requires forall h :: Avoids(env, s, Go(pid, fate, now), k, h)
    ensures Newsworthy(env, AfterGo(env, s, pid, fate, now), k)
  {
    var c := s.calls[pid].call;
    GoOneCarrier(env, s, pid, fate, now, k);
    forall p: nat ensures CarriesNews(env, AfterGo(env, s, pid, fate, now), p, k) {
      GoCarriesNews(env, s, pid, fate, now, k, p);
    }
    if c.PubRecord? && c.key == k {
      assert CarriesNews(env, s, pid, k) && Carries(s, pid, k);
    } else {
      ActKeepsRows(env, s.store, c, fate, now, k);
    }
  }

  lemma StepNewsworthy(env: Env, s: State, step: Step, k: Key)
    requires Newsworthy(env, s, k) && Enabled(s, step) && Numbered(Rows(s.store, k))
    requires forall h :: Avoids(env, s, step, k, h)
    ensures Newsworthy(env, After(env, s, step), k)
  {
    if step.Go? {
      GoNewsworthy(env, s, step.pid, step.fate, step.now, k);
    } else {
      var t := After(env, s, step);
      assert Rows(t.store, k) == Rows(s.store, k);
      assert forall p :: Carries(t, p, k) ==> Carries(s, p, k) && t.calls[p] == s.calls[p];
      assert forall p :: Carries(t, p, k) ==> CarriesNews(env, s, p, k);
    }
  }

  lemma {:induction false} CalmRunsAreNewsworthy(env: Env, steps: seq<Step>, k: Key)
    requires OneInstance(steps) && Exec(env, INIT, steps).Some? && forall h :: AvoidsAll(env, steps, k, h)
    ensures Newsworthy(env, Exec(env, INIT, steps).value, k)
  {
    if steps != [] {
      var before := steps[..|steps| - 1];
      assert forall h :: AvoidsAll(env, steps, k, h) ==> AvoidsAll(env, before, k, h);
      CalmRunsAreNewsworthy(env, before, k);
      RunInv(env, before);
      var s := Exec(env, INIT, before).value;
      assert KeyOk(env, s.store, k);
      var step := steps[|steps| - 1];
      forall h ensures Avoids(env, s, step, k, h) {
        assert AvoidsAll(env, steps, k, h);
      }
      StepNewsworthy(env, s, step, k);
    }
  }

  /**
    Whatever else is under way, fails or crashes, no two adjacent versions of a ruleset have the same
    checksum so long as no check of it passes while another of its publishes is between check and
    record, and none passes because the lookup failed.
    */
  lemma CalmRunsDoNotRepeat(env: Env, steps: seq<Step>, k: Key)
    requires OneInstance(steps) && Exec(env, INIT, steps).Some? && forall h :: AvoidsAll(env, steps, k, h)
    ensures NoRepeats(Rows(Exec(env, INIT, steps).value.store, k))
  {
    CalmRunsAreNewsworthy(env, steps, k);
  }
}
