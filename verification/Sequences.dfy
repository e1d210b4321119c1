/** Small facts about sequences. */
module Sequences {
  import opened Wrappers

  function Reverse<T>(s: seq<T>): seq<T> {
    seq(|s|, i requires 0 <= i < |s| => s[|s| - 1 - i])
  }

  lemma ConcatAssociates<T>(a: seq<T>, b: seq<T>, c: seq<T>)
    ensures (a + b) + c == a + (b + c)
  {
  }

  lemma ReverseTwice<T>(s: seq<T>)
    ensures Reverse(Reverse(s)) == s
  {
  }

  lemma ReverseMembers<T>(s: seq<T>)
    ensures forall x :: x in Reverse(s) <==> x in s
  {
    forall x | x in s ensures x in Reverse(s) {
      var i :| 0 <= i < |s| && s[i] == x;
      assert Reverse(s)[|s| - 1 - i] == x;
    }
  }

  lemma FirstIsMember<T>(s: seq<T>)
    ensures s != [] ==> s[0] in s
  {
  }

  ghost predicate Distinct<T>(s: seq<T>) {
    forall i, j :: 0 <= i < j < |s| ==> s[i] != s[j]
  }

  lemma DistinctConcat<T>(a: seq<T>, b: seq<T>)
    requires Distinct(a) && Distinct(b)
    requires forall x :: x in a ==> x !in b
    ensures Distinct(a + b)
  {
    forall i, j | 0 <= i < j < |a + b| ensures (a + b)[i] != (a + b)[j] {
      if i < |a| <= j {
        assert (a + b)[i] == a[i] && a[i] in a;
        assert (a + b)[j] == b[j - |a|] && b[j - |a|] in b;
      }
    }
  }

  /** How often `x` occurs. */
  function Times<T(==)>(xs: seq<T>, x: T): nat {
    if xs == [] then 0 else (if xs[0] == x then 1 else 0) + Times(xs[1..], x)
  }

  lemma {:induction false} TimesConcat<T>(a: seq<T>, b: seq<T>, x: T)
    ensures Times(a + b, x) == Times(a, x) + Times(b, x)
    decreases |a|
  {
    if a == [] {
      assert a + b == b;
    } else {
      assert (a + b)[0] == a[0] && (a + b)[1..] == a[1..] + b;
      TimesConcat(a[1..], b, x);
    }
  }

  lemma {:induction false} TimesPositive<T>(xs: seq<T>, x: T)
    ensures Times(xs, x) <= |xs|
    ensures Times(xs, x) > 0 <==> x in xs
  {
    if xs != [] { TimesPositive(xs[1..], x); }
  }

  lemma {:induction false} TimesDistinct<T>(xs: seq<T>, x: T)
    requires Distinct(xs)
    ensures Times(xs, x) <= 1
  {
    if xs != [] {
      TimesDistinct(xs[1..], x);
      TimesPositive(xs[1..], x);
    }
  }

  lemma {:induction false} TimesReversed<T>(xs: seq<T>, x: T)
    ensures Times(Reverse(xs), x) == Times(xs, x)
  {
    if xs == [] {
      assert Reverse(xs) == xs;
    } else {
      TimesReversed(xs[1..], x);
      assert Reverse(xs) == Reverse(xs[1..]) + [xs[0]];
      TimesConcat(Reverse(xs[1..]), [xs[0]], x);
      assert [xs[0]][1..] == [];
    }
  }

  function ProductOf(a: nat, b: nat): nat {
    assert a * b >= 0;
    a * b
  }

  function Product(ns: seq<nat>): nat {
    if ns == [] then 1 else ns[0] * Product(ns[1..])
  }

  lemma {:induction false} ProductConcat(a: seq<nat>, b: seq<nat>)
    ensures Product(a + b) == Product(a) * Product(b)
    decreases |a|
  {
    if a == [] {
      assert a + b == b;
    } else {
      assert (a + b)[0] == a[0] && (a + b)[1..] == a[1..] + b;
      ProductConcat(a[1..], b);
      assert a[0] * (Product(a[1..]) * Product(b)) == (a[0] * Product(a[1..])) * Product(b);
    }
  }

  lemma {:induction false} ProductReversed(ns: seq<nat>)
    ensures Product(Reverse(ns)) == Product(ns)
  {
    if ns == [] {
      assert Reverse(ns) == ns;
    } else {
      ProductReversed(ns[1..]);
      assert Reverse(ns) == Reverse(ns[1..]) + [ns[0]];
      ProductConcat(Reverse(ns[1..]), [ns[0]]);
      assert [ns[0]][1..] == [];
    }
  }

  lemma {:induction false} ProductZero(ns: seq<nat>, i: nat)
    requires i < |ns| && ns[i] == 0
    ensures Product(ns) == 0
  {
    if i > 0 {
      ProductZero(ns[1..], i - 1);
      assert ns[0] * 0 == 0;
    }
  }

  /** `x` is at most `y`, and `y` itself when that is asked for. */
  predicate AtMost(x: nat, y: nat, exact: bool) {
    x <= y && (exact ==> x == y)
  }

  lemma SumAtMost(a: nat, b: nat, c: nat, d: nat, exact: bool)
    requires AtMost(a, b, exact) && AtMost(c, d, exact)
    ensures AtMost(a + c, b + d, exact)
  {
  }

  lemma ProductAtMost(a: nat, b: nat, c: nat, d: nat, exact: bool)
    requires AtMost(a, b, exact) && AtMost(c, d, exact)
    ensures AtMost(a * c, b * d, exact)
  {
    assert a * c <= b * c && b * c <= b * d;
  }

  /** Every row of `rows` behind the prefix `front`. */
  function Prefixed<T>(front: seq<T>, rows: seq<seq<T>>): seq<seq<T>> {
    seq(|rows|, i requires 0 <= i < |rows| => front + rows[i])
  }

  lemma PrefixedMember<T>(front: seq<T>, rows: seq<seq<T>>, row: seq<T>)
    ensures row in Prefixed(front, rows) <==> front <= row && row[|front|..] in rows
  {
    if row in Prefixed(front, rows) {
      var i :| 0 <= i < |rows| && Prefixed(front, rows)[i] == row;
      assert row[|front|..] == rows[i];
    }
    if front <= row && row[|front|..] in rows {
      var i :| 0 <= i < |rows| && rows[i] == row[|front|..];
      assert Prefixed(front, rows)[i] == front + rows[i] == row;
    }
  }

  lemma PrefixedDistinct<T>(front: seq<T>, rows: seq<seq<T>>)
    requires Distinct(rows)
    ensures Distinct(Prefixed(front, rows))
  {
    var ps := Prefixed(front, rows);
    forall i, j | 0 <= i < j < |ps| ensures ps[i] != ps[j] {
      assert ps[i][|front|..] == rows[i] && ps[j][|front|..] == rows[j];
    }
  }

  /** `rows` followed by the rows of `more`, unless `more` ended the process. */
  function Then<T>(rows: seq<T>, more: Outcome<seq<T>>): Outcome<seq<T>> {
    if more.Ok? then Ok(rows + more.value) else Aborted
  }
}
