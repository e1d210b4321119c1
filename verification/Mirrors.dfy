/** Writing a pattern from its other end: the halves change places, the matches do not. */
module Mirrors {
  import opened Wrappers
  import opened Sequences
  import opened AddressSpace
  import opened Pattern
  import opened Matching
  import opened Walks
  import opened Meaning

  // ---------------------------------------------------------------- cross products as bags

  lemma {:induction false} ReverseBag<T>(s: seq<T>)
    ensures multiset(Reverse(s)) == multiset(s)
  {
    if s == [] {
      assert Reverse(s) == [];
    } else {
      ReverseBag(s[1..]);
      assert Reverse(s) == Reverse(s[1..]) + [s[0]];
      assert s == [s[0]] + s[1..];
    }
  }

  predicate Nonempty(rows: seq<Row>) {
    forall row :: row in rows ==> |row| > 0
  }

  lemma {:induction false} CrossConcat(a: seq<Row>, b: seq<Row>, ls: seq<Row>)
    requires Nonempty(ls)
    ensures Cross(a + b, ls) == Cross(a, ls) + Cross(b, ls)
    decreases |a|
  {
    if a == [] {
      assert a + b == b;
    } else {
      assert (a + b)[0] == a[0] && (a + b)[1..] == a[1..] + b;
      CrossConcat(a[1..], b, ls);
    }
  }

  lemma {:induction false} CrossReversedRights(rs: seq<Row>, ls: seq<Row>)
    requires Nonempty(ls)
    ensures multiset(Cross(Reverse(rs), ls)) == multiset(Cross(rs, ls))
  {
    if rs == [] {
      assert Reverse(rs) == rs;
    } else {
      var r, rest := rs[0], rs[1..];
      CrossReversedRights(rest, ls);
      assert Reverse(rs) == Reverse(rest) + [r] && rs == [r] + rest;
      CrossConcat(Reverse(rest), [r], ls);
      CrossConcat([r], rest, ls);
      BagSwap(Cross(Reverse(rest), ls), Cross([r], ls), Cross(rest, ls));
    }
  }

  lemma BagSwap<T>(a: seq<T>, b: seq<T>, c: seq<T>)
    requires multiset(a) == multiset(c)
    ensures multiset(a + b) == multiset(b + c)
  {
  }

  lemma {:induction false} CrossReversedLefts(rs: seq<Row>, ls: seq<Row>)
    requires Nonempty(ls) && Nonempty(Reverse(ls))
    ensures multiset(Cross(rs, Reverse(ls))) == multiset(Cross(rs, ls))
  {
    if rs != [] {
      CrossReversedLefts(rs[1..], ls);
      assert Joined(Reverse(ls), rs[0]) == Reverse(Joined(ls, rs[0]));
      ReverseBag(Joined(ls, rs[0]));
    }
  }

  /** `r` without its first element in front of every row. */
  function InFront(r: Row, ls: seq<Row>): seq<Row>
    requires |r| > 0
  {
    seq(|ls|, i requires 0 <= i < |ls| => r[1..] + ls[i])
  }

  lemma {:induction false} CrossMoreLefts(ls: seq<Row>, r: Row, rs: seq<Row>)
    requires |r| > 0 && Nonempty(rs) && Nonempty([r] + rs)
    ensures multiset(Cross(ls, [r] + rs)) == multiset(InFront(r, ls)) + multiset(Cross(ls, rs))
    decreases |ls|
  {
    if ls == [] {
      assert InFront(r, ls) == [];
    } else {
      var l, rest := ls[0], ls[1..];
      CrossMoreLefts(rest, r, rs);
      assert Joined([r] + rs, l) == [r[1..] + l] + Joined(rs, l);
      assert InFront(r, ls) == [r[1..] + l] + InFront(r, rest);
      BagsInterleaved(r[1..] + l, Joined(rs, l), Cross(rest, [r] + rs), InFront(r, rest), Cross(rest, rs));
    }
  }

  lemma BagsInterleaved<T>(x: T, a: seq<T>, bd: seq<T>, b: seq<T>, d: seq<T>)
    requires multiset(bd) == multiset(b) + multiset(d)
    ensures multiset(([x] + a) + bd) == multiset([x] + b) + multiset(a + d)
  {
  }

  /** A row of the mirrored pattern for a row of the pattern: the two sides of the pivot change
      places, each keeping its order. */
  function MirrorRow(row: Row, idx: nat): Row
    requires idx < |row|
  {
    row[idx + 1..] + [row[idx]] + row[..idx]
  }

  function MirrorRows(rows: seq<Row>, idx: nat): seq<Row>
    requires forall row :: row in rows ==> idx < |row|
  {
    seq(|rows|, i requires 0 <= i < |rows| => assert rows[i] in rows; MirrorRow(rows[i], idx))
  }

  ghost predicate Halves(rows: seq<Row>, n: nat, start: ReferenceDescription) {
    n > 0 && forall row :: row in rows ==> |row| == n && row[0] == start
  }

  lemma JoinedMirrored(r: Row, ls: seq<Row>, start: ReferenceDescription, idx: nat)
    requires |r| > 0 && r[0] == start && Halves(ls, idx + 1, start)
    ensures forall row :: row in Joined(ls, r) ==> idx < |row|
    ensures MirrorRows(Joined(ls, r), idx) == InFront(r, ls)
  {
    var here := Joined(ls, r);
    forall i | 0 <= i < |here| ensures |here[i]| > idx && MirrorRow(here[i], idx) == InFront(r, ls)[i] {
      assert ls[i] in ls && here[i] == ls[i][1..] + r;
      assert ls[i] == [r[0]] + ls[i][1..];
      assert here[i][idx + 1..] == r[1..] && here[i][..idx] == ls[i][1..];
    }
  }

  lemma MirrorRowsConcat(a: seq<Row>, b: seq<Row>, idx: nat)
    requires forall row :: row in a ==> idx < |row|
    requires forall row :: row in b ==> idx < |row|
    ensures forall row :: row in a + b ==> idx < |row|
    ensures MirrorRows(a + b, idx) == MirrorRows(a, idx) + MirrorRows(b, idx)
  {
  }

  lemma {:induction false} CrossSwapped(rs: seq<Row>, ls: seq<Row>, start: ReferenceDescription, idx: nat, m: nat)
    requires Halves(rs, m, start) && Halves(ls, idx + 1, start)
    ensures forall row :: row in Cross(rs, ls) ==> idx < |row|
    ensures Nonempty(rs) && Nonempty(ls)
    ensures multiset(MirrorRows(Cross(rs, ls), idx)) == multiset(Cross(ls, rs))
    decreases |rs|
  {
    if rs == [] {
      NoLefts(ls);
    } else {
      var r, rest := rs[0], rs[1..];
      assert r in rs && (forall row :: row in rest ==> row in rs) && rs == [r] + rest;
      CrossSwapped(rest, ls, start, idx, m);
      JoinedMirrored(r, ls, start, idx);
      MirrorRowsConcat(Joined(ls, r), Cross(rest, ls), idx);
      CrossMoreLefts(ls, r, rest);
    }
  }

  lemma {:induction false} NoLefts(rs: seq<Row>)
    ensures Cross(rs, []) == []
  {
    if rs != [] { NoLefts(rs[1..]); }
  }

  lemma SidesSwapped(rs: seq<Row>, ls: seq<Row>, start: ReferenceDescription, idx: nat, m: nat)
    requires Halves(rs, m, start) && Halves(ls, idx + 1, start)
    ensures Halves(Reverse(rs), m, start) && Halves(Reverse(ls), idx + 1, start)
    ensures forall row :: row in Cross(rs, Reverse(ls)) ==> idx < |row|
    ensures multiset(MirrorRows(Cross(rs, Reverse(ls)), idx)) == multiset(Cross(ls, Reverse(rs)))
  {
    ReverseMembers(ls);
    ReverseMembers(rs);
    CrossSwapped(rs, Reverse(ls), start, idx, m);
    CrossReversedRights(ls, rs);
    CrossReversedLefts(ls, rs);
  }

  // ---------------------------------------------------------------- the mirrored pattern

  /** The rows of a half, or the start alone where the pattern has nothing on that side. */
  function Lefts(s: Space, p: Path, idx: nat, start: ReferenceDescription): seq<Row>
    requires WellFormed(p) && idx < |p.nodes|
  {
    if idx == 0 then [[start]] else LeftRows(s, p, idx, start)
  }

  lemma {:induction false} CrossWithStart(rs: seq<Row>, start: ReferenceDescription)
    ensures Cross(rs, [[start]]) == rs
  {
    if rs != [] {
      CrossWithStart(rs[1..], start);
      assert [start][1..] + rs[0] == rs[0];
      assert Joined([[start]], rs[0]) == [rs[0]];
      assert rs == [rs[0]] + rs[1..];
    }
  }

  lemma RowsAreCross(s: Space, p: Path, idx: nat, start: ReferenceDescription)
    requires WellFormed(p) && idx < |p.nodes| && SupportedAround(p, idx)
    ensures var rs, ls := Walk(s, start, RightHalf(p, idx)), Lefts(s, p, idx, start);
            && Halves(rs, |p.nodes| - idx, start) && Halves(ls, idx + 1, start) && Nonempty(Reverse(ls))
            && CheckPath(s, p, idx, start) == Ok(if PivotOk(start, p, idx) then Cross(rs, Reverse(ls)) else [])
  {
    CheckPathIsCross(s, p, idx, start);
    WalkHeads(s, start, RightHalf(p, idx));
    if idx == 0 {
      CrossWithStart(Walk(s, start, RightHalf(p, idx)), start);
      assert Reverse([[start]]) == [[start]];
    } else {
      WalkHeads(s, start, LeftHalf(p, idx));
      ReverseMembers(LeftRows(s, p, idx, start));
    }
  }

  lemma MirroredNodes(p: Path, idx: nat)
    requires WellFormed(p) && 0 < idx < |p.nodes|
    ensures WellFormed(Mirror(p)) && |Mirror(p).nodes| == |p.nodes|
    ensures var right, turned := RightHalf(Mirror(p), |p.nodes| - 1 - idx), TurnedAround(Split(p, idx).0);
            && |right.nodes| == |turned.nodes| && right.relations == turned.relations
            && forall k :: 1 <= k < |right.nodes| ==> right.nodes[k] == turned.nodes[k]
  {
  }

  /** What is enforced right of the pivot of the mirror image is what is enforced left of the pivot. */
  lemma MirroredRight(p: Path, idx: nat)
    requires WellFormed(p) && 0 < idx < |p.nodes| && IdsSymmetric(p, idx)
    ensures WellFormed(Mirror(p)) && |Mirror(p).nodes| == |p.nodes|
    ensures EnforcedHalf(RightHalf(Mirror(p), |p.nodes| - 1 - idx)) == EnforcedHalf(LeftHalf(p, idx))
  {
    MirroredNodes(p, idx);
    ReversalIsFaithful(p, idx);
    EnforcedFromOne(RightHalf(Mirror(p), |p.nodes| - 1 - idx), TurnedAround(Split(p, idx).0));
  }

  lemma EnforcedFromOne(p: Path, q: Path)
    requires |p.nodes| == |q.nodes| && p.relations == q.relations
    requires forall k :: 1 <= k < |p.nodes| ==> p.nodes[k] == q.nodes[k]
    ensures EnforcedHalf(p) == EnforcedHalf(q)
  {
    assert EnforcedHalf(p).nodes == EnforcedHalf(q).nodes;
  }

  lemma MirroredSide(s: Space, p: Path, idx: nat, start: ReferenceDescription)
    requires WellFormed(p) && idx < |p.nodes| && IdsSymmetric(p, idx)
    requires WellFormed(Mirror(p)) && |Mirror(p).nodes| == |p.nodes|
    ensures Walk(s, start, RightHalf(Mirror(p), |p.nodes| - 1 - idx)) == Lefts(s, p, idx, start)
  {
    var right := RightHalf(Mirror(p), |p.nodes| - 1 - idx);
    if idx > 0 {
      MirroredRight(p, idx);
      hide EnforcedHalf, Walk, IdsSymmetric;
      WalkEnforced(s, start, right, LeftHalf(p, idx));
    } else {
      assert |right.nodes| == 1;
    }
  }

  /** The halves of the mirror image are the halves of the pattern, exchanged. */
  lemma MirroredHalves(s: Space, p: Path, idx: nat, start: ReferenceDescription)
    requires WellFormed(p) && idx < |p.nodes| && IdsSymmetric(p, idx)
    requires WellFormed(Mirror(p)) && |Mirror(p).nodes| == |p.nodes| && IdsSymmetric(Mirror(p), |p.nodes| - 1 - idx)
    ensures Walk(s, start, RightHalf(Mirror(p), |p.nodes| - 1 - idx)) == Lefts(s, p, idx, start)
    ensures Lefts(s, Mirror(p), |p.nodes| - 1 - idx, start) == Walk(s, start, RightHalf(p, idx))
  {
    MirrorTwice(p);
    hide *;
    MirroredSide(s, p, idx, start);
    MirroredSide(s, Mirror(p), |p.nodes| - 1 - idx, start);
  }

  lemma BothAreCross(s: Space, p: Path, idx: nat, start: ReferenceDescription)
    requires WellFormed(p) && idx < |p.nodes| && WellFormed(Mirror(p)) && |Mirror(p).nodes| == |p.nodes|
    requires PivotOk(start, p, idx) && PivotOk(start, Mirror(p), |p.nodes| - 1 - idx)
    requires SupportedAround(p, idx) && SupportedAround(Mirror(p), |p.nodes| - 1 - idx)
    requires IdsSymmetric(p, idx) && IdsSymmetric(Mirror(p), |p.nodes| - 1 - idx)
    ensures var rs, ls := Walk(s, start, RightHalf(p, idx)), Lefts(s, p, idx, start);
            && Halves(rs, |p.nodes| - idx, start) && Halves(ls, idx + 1, start)
            && Nonempty(Reverse(ls)) && Nonempty(Reverse(rs))
            && CheckPath(s, p, idx, start) == Ok(Cross(rs, Reverse(ls)))
            && CheckPath(s, Mirror(p), |p.nodes| - 1 - idx, start) == Ok(Cross(ls, Reverse(rs)))
  {
    hide *;
    RowsAreCross(s, p, idx, start);
    RowsAreCross(s, Mirror(p), |p.nodes| - 1 - idx, start);
    MirroredHalves(s, p, idx, start);
  }

  /** A pattern and its mirror image find the same matches from a start that is a pivot for both or for
      neither: the same bag of rows, up to the order of the columns. */
  lemma MirrorFindsTheSame(s: Space, p: Path, idx: nat, start: ReferenceDescription)
    requires WellFormed(p) && idx < |p.nodes| && WellFormed(Mirror(p)) && |Mirror(p).nodes| == |p.nodes|
    requires PivotOk(start, p, idx) <==> PivotOk(start, Mirror(p), |p.nodes| - 1 - idx)
    requires SupportedAround(p, idx) && SupportedAround(Mirror(p), |p.nodes| - 1 - idx)
    requires IdsSymmetric(p, idx) && IdsSymmetric(Mirror(p), |p.nodes| - 1 - idx)
    ensures var one, two := CheckPath(s, p, idx, start), CheckPath(s, Mirror(p), |p.nodes| - 1 - idx, start);
            && one.Ok? && two.Ok?
            && multiset(MirrorRows(one.value, idx)) == multiset(two.value)
  {
    assert WellFormed(RightHalf(p, idx));
    hide *;
    if PivotOk(start, p, idx) {
      BothAreCross(s, p, idx, start);
      SidesSwapped(Walk(s, start, RightHalf(p, idx)), Lefts(s, p, idx, start), start, idx, |p.nodes| - idx);
    } else {
      RowsAreCross(s, p, idx, start);
      RowsAreCross(s, Mirror(p), |p.nodes| - 1 - idx, start);
      NoMirrorRows(idx);
    }
  }

  lemma NoMirrorRows(idx: nat)
    ensures MirrorRows([], idx) == []
  {
  }
}
