/** The order of text by its characters: of sorted JSON keys, and of SQLite's text comparison. */
module TextOrder {

  predicate Before(a: string, b: string) {
    if a == [] then b != []
    else b != [] && (a[0] < b[0] || (a[0] == b[0] && Before(a[1..], b[1..])))
  }

  lemma {:induction false} BeforeIrreflexive(a: string)
    ensures !Before(a, a)
  {
    if a != [] {
      BeforeIrreflexive(a[1..]);
    }
  }

  lemma {:induction false} BeforeTransitive(a: string, b: string, c: string)
    requires Before(a, b) && Before(b, c)
    ensures Before(a, c)
  {
    if a != [] && a[0] == b[0] && b[0] == c[0] {
      BeforeTransitive(a[1..], b[1..], c[1..]);
    }
  }

  lemma {:induction false} BeforeTotal(a: string, b: string)
    ensures a == b || Before(a, b) || Before(b, a)
  {
    if a != [] && b != [] && a[0] == b[0] {
      BeforeTotal(a[1..], b[1..]);
      assert a == [a[0]] + a[1..] && b == [b[0]] + b[1..];
    }
  }

  lemma {:induction false} BeforeSamePrefix(p: string, x: string, y: string)
    ensures Before(p + x, p + y) <==> Before(x, y)
  {
    if p == [] {
      assert p + x == x && p + y == y;
    } else {
      BeforeSamePrefix(p[1..], x, y);
      assert (p + x)[1..] == p[1..] + x && (p + y)[1..] == p[1..] + y;
    }
  }

  /** Where neither text starts the other, what follows does not matter. */
  lemma {:induction false} BeforeByPrefix(p: string, q: string, x: string, y: string)
    requires !(p <= q) && !(q <= p)
    ensures Before(p + x, q + y) <==> Before(p, q)
  {
    if p[0] == q[0] {
      assert p == [p[0]] + p[1..] && q == [q[0]] + q[1..];
      BeforeByPrefix(p[1..], q[1..], x, y);
    }
    assert (p + x)[1..] == p[1..] + x && (q + y)[1..] == q[1..] + y;
  }

  lemma BeforeSameLength(p: string, q: string, x: string, y: string)
    requires |p| == |q| && Before(p, q)
    ensures Before(p + x, q + y)
  {
    if p == q {
      BeforeIrreflexive(p);
    }
    BeforeByPrefix(p, q, x, y);
  }

  // ---------- The same order without recursion ----------

  ghost predicate DiffersFirst(a: string, b: string, i: int) {
    0 <= i < |a| && i < |b| && a[..i] == b[..i] && a[i] < b[i]
  }

  /** One text is a proper start of the other, or has the smaller character where they first differ. */
  ghost predicate Ahead(a: string, b: string) {
    (a <= b && |a| < |b|) || exists i :: DiffersFirst(a, b, i)
  }

  lemma {:induction false} BeforeIff(a: string, b: string)
    ensures Before(a, b) <==> Ahead(a, b)
  {
    if a != [] && b != [] && a[0] == b[0] {
      var s, t := a[1..], b[1..];
      BeforeIff(s, t);
      assert a == [a[0]] + s && b == [a[0]] + t;
      if i :| DiffersFirst(s, t, i) {
        assert a[..i + 1] == [a[0]] + s[..i] && b[..i + 1] == [a[0]] + t[..i];
        assert DiffersFirst(a, b, i + 1);
      }
      if i :| DiffersFirst(a, b, i) {
        assert s[..i - 1] == a[..i][1..] && t[..i - 1] == b[..i][1..];
        assert DiffersFirst(s, t, i - 1);
      }
    } else if a != [] && b != [] {
      assert a[..0] == b[..0];
      assert a[0] < b[0] ==> DiffersFirst(a, b, 0);
      assert forall i | 0 < i <= |a| && i <= |b| :: a[..i][0] == a[0] && b[..i][0] == b[0];
    }
  }
}
