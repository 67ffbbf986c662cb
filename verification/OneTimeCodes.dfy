/** The table of one-time codes, whose expiry the SQL store compares as text. */
module OneTimeCodes {
  import opened Wrappers
  import opened TextOrder
  import opened Timestamps

  datatype Code = Code(id: string, user: string, hash: string, expires: Time, used: bool)

  /** The WHERE clause of the lookup. */
  predicate Eligible(c: Code, user: string, now: Time) {
    c.user == user && !c.used && Before(Format(now), Format(c.expires))
  }

  /** What `ORDER BY expires_at DESC LIMIT 1` returns: none later in the text order. */
  ghost predicate IsLookup(rows: seq<Code>, user: string, now: Time, r: Option<Code>) {
    match r
    case None => forall c | c in rows :: !Eligible(c, user, now)
    case Some(code) =>
      && code in rows && Eligible(code, user, now)
      && forall c | c in rows && Eligible(c, user, now) :: !Before(Format(code.expires), Format(c.expires))
  }

  class CodeTable {
    var rows: seq<Code>

    constructor ()
      ensures rows == []
    {
      rows := [];
    }

    method Create(c: Code)
      modifies this
      ensures rows == old(rows) + [c]
    {
      rows := rows + [c];
    }

    method GetUnused(user: string, now: Time) returns (r: Option<Code>)
      ensures IsLookup(rows, user, now, r)
    {
      r := None;
      for i := 0 to |rows|
        invariant IsLookup(rows[..i], user, now, r)
      {
        var c := rows[i];
        assert rows[..i + 1] == rows[..i] + [c];
        if Eligible(c, user, now) && (r.None? || Before(Format(r.value.expires), Format(c.expires))) {
          LookupTakes(rows[..i], user, now, r, c);
          r := Some(c);
        } else {
        }
      }
      assert rows[..|rows|] == rows;
    }

    method MarkUsed(id: string)
      modifies this
      ensures |rows| == |old(rows)|
      ensures forall i | 0 <= i < |rows| ::
        rows[i] == if old(rows)[i].id == id then old(rows)[i].(used := true) else old(rows)[i]
    {
      var out: seq<Code> := [];
      for i := 0 to |rows|
        invariant |out| == i && rows == old(rows)
        invariant forall k | 0 <= k < i :: out[k] == if rows[k].id == id then rows[k].(used := true) else rows[k]
      {
        out := out + [if rows[i].id == id then rows[i].(used := true) else rows[i]];
      }
      rows := out;
    }

    method DeleteExpired(now: Time)
      modifies this
      ensures forall c :: c in rows <==> c in old(rows) && !Before(Format(c.expires), Format(now))
    {
      var out: seq<Code> := [];
      for i := 0 to |rows|
        invariant rows == old(rows)
        invariant forall c :: c in out <==> c in rows[..i] && !Before(Format(c.expires), Format(now))
      {
        assert rows[..i + 1] == rows[..i] + [rows[i]];
        if !Before(Format(rows[i].expires), Format(now)) {
          out := out + [rows[i]];
        }
      }
      assert rows[..|rows|] == rows;
      rows := out;
    }
  }

  lemma LookupTakes(rows: seq<Code>, user: string, now: Time, r: Option<Code>, c: Code)
    requires IsLookup(rows, user, now, r) && Eligible(c, user, now)
    requires r.Some? ==> Before(Format(r.value.expires), Format(c.expires))
    ensures IsLookup(rows + [c], user, now, Some(c))
  {
    BeforeIrreflexive(Format(c.expires));
    forall x | x in rows && Eligible(x, user, now) ensures !Before(Format(c.expires), Format(x.expires)) {
      if Before(Format(c.expires), Format(x.expires)) {
        BeforeTransitive(Format(r.value.expires), Format(c.expires), Format(x.expires));
      }
    }
  }

  ghost predicate ValidTimes(rows: seq<Code>, now: Time) {
    Valid(now) && forall c | c in rows :: Valid(c.expires)
  }

  /**
    The lookup is right up to a second: a code it returns had not expired a second ago, a user with
    an unused code good for another second gets one, and what is returned expires at most a second
    before any other code that would have done.
    */
  lemma LookupIsRightToTheSecond(rows: seq<Code>, user: string, now: Time, r: Option<Code>)
    requires ValidTimes(rows, now) && IsLookup(rows, user, now, r)
    ensures r.Some? ==> r.value.user == user && !r.value.used && Nanos(now) - Nanos(r.value.expires) < SECOND
    ensures (exists c | c in rows :: c.user == user && !c.used && Nanos(c.expires) - Nanos(now) >= SECOND) ==> r.Some?
    ensures r.Some? ==> forall c | c in rows && c.user == user && !c.used && Nanos(c.expires) - Nanos(now) >= SECOND ::
      Nanos(c.expires) - Nanos(r.value.expires) < SECOND
  {
    if r.Some? && Nanos(now) - Nanos(r.value.expires) >= SECOND {
      TextOrderAfterASecond(r.value.expires, now);
    }
    forall c | c in rows && c.user == user && !c.used && Nanos(c.expires) - Nanos(now) >= SECOND
      ensures r.Some? && Nanos(c.expires) - Nanos(r.value.expires) < SECOND
    {
      TextOrderAfterASecond(now, c.expires);
      assert Eligible(c, user, now);
      if r.Some? && Nanos(c.expires) - Nanos(r.value.expires) >= SECOND {
        TextOrderAfterASecond(r.value.expires, c.expires);
      }
    }
  }

  /** An expired code passes the time test exactly when it expired within the current second and its fraction starts the clock's. */
  lemma ExpiredCodePassesIff(c: Code, now: Time)
    requires Valid(c.expires) && Valid(now) && Nanos(c.expires) < Nanos(now)
    ensures Before(Format(now), Format(c.expires))
       <==> Seconds(c.expires) == Seconds(now) && Fraction(c.expires.nanos) <= Fraction(now.nanos)
  {
    TextOrderIff(c.expires, now);
    BeforeTotal(Format(c.expires), Format(now));
    if Before(Format(c.expires), Format(now)) && Before(Format(now), Format(c.expires)) {
      BeforeTransitive(Format(now), Format(c.expires), Format(now));
      BeforeIrreflexive(Format(now));
    }
    if Format(c.expires) == Format(now) {
      FormatInjective(c.expires, now);
      BeforeIrreflexive(Format(now));
    }
  }

  lemma TailsDiffer(m: nat, n: nat)
    requires m < n < SECOND
    ensures Tail(Fraction(m)) != Tail(Fraction(n))
  {
    FractionStarts(m, n);
    var d, e := Fraction(m), Fraction(n);
    assert Tail(e) == "." + e + "Z" && |Tail(e)| == |e| + 2;
    if |d| == |e| {
      assert Tail(d)[1..|d| + 1] == d && Tail(e)[1..|e| + 1] == e;
    }
  }

  lemma FormatInjective(a: Time, b: Time)
    requires Valid(a) && Valid(b) && Nanos(a) < Nanos(b)
    ensures Format(a) != Format(b)
  {
    if Seconds(a) < Seconds(b) {
      DifferentSeconds(a, b);
      BeforeIrreflexive(Format(a));
    } else {
      SecondsByFields(a, b);
      TailsDiffer(a.nanos, b.nanos);
      var p := DateText(a) + ClockText(a);
      assert Format(a)[|p|..] == Tail(Fraction(a.nanos)) && Format(b)[|p|..] == Tail(Fraction(b.nanos));
    }
  }

  /** A code that ran out on the full second still passes nine tenths later, and one with nine tenths left does not. */
  lemma SubSecondMistakes()
    ensures var whole, later := Time(2024, 1, 1, 0, 0, 5, 0), Time(2024, 1, 1, 0, 0, 5, 900_000_000);
      && Eligible(Code("c", "u", "h", whole, false), "u", later) && Nanos(whole) < Nanos(later)
      && !Eligible(Code("c", "u", "h", later, false), "u", whole)
  {
    var whole, later := Time(2024, 1, 1, 0, 0, 5, 0), Time(2024, 1, 1, 0, 0, 5, 900_000_000);
    WholeSecondSortsLast(whole, later);
    if Before(Format(whole), Format(later)) {
      BeforeTransitive(Format(whole), Format(later), Format(whole));
      BeforeIrreflexive(Format(whole));
    }
  }
}
