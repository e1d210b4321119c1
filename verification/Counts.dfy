/** How often the matcher finds an answer, counted in references of the address space. */
module Counts {
  import opened Wrappers
  import opened Sequences
  import opened AddressSpace
  import opened Pattern
  import opened Matching
  import opened Walks
  import opened Meaning

  // ---------------------------------------------------------------- references and browse results

  /** In how many directions the reference leads from `a` to `b` as asked: a loop does so both ways. */
  function WaysOf(s: Space, r: Reference, a: NodeId, dir: BrowseDirection, refType: NodeId, b: NodeId): nat {
    if !TypeMatches(s, refType, r.referenceType) then 0
    else
      (if dir != Inverse && r.source == a && r.target == b then 1 else 0)
      + (if dir != Forward && r.source == b && r.target == a then 1 else 0)
  }

  function WaysAmong(s: Space, rs: seq<Reference>, a: NodeId, dir: BrowseDirection, refType: NodeId, b: NodeId): nat {
    if rs == [] then 0 else WaysOf(s, rs[0], a, dir, refType, b) + WaysAmong(s, rs[1..], a, dir, refType, b)
  }

  /** The number of references of the space that lead from `a` to `b` when followed in the direction. */
  function Ways(s: Space, a: NodeId, dir: BrowseDirection, refType: NodeId, b: NodeId): nat {
    WaysAmong(s, s.references, a, dir, refType, b)
  }

  function RelationWays(s: Space, a: NodeId, r: Relation, b: NodeId): nat {
    Ways(s, a, r.direction, r.referenceType, b)
  }

  lemma {:induction false} WaysAmongMember(s: Space, rs: seq<Reference>, a: NodeId, dir: BrowseDirection,
          refType: NodeId,
          b: NodeId)
    ensures WaysAmong(s, rs, a, dir, refType, b) > 0 <==> exists r :: r in rs && WaysOf(s, r, a, dir, refType, b) > 0
  {
    if rs != [] {
      WaysAmongMember(s, rs[1..], a, dir, refType, b);
      assert forall r :: r in rs <==> r == rs[0] || r in rs[1..];
    }
  }

  lemma WaysAreHops(s: Space, a: NodeId, dir: BrowseDirection, refType: NodeId, b: NodeId)
    ensures Ways(s, a, dir, refType, b) > 0 <==> Hop(s, a, dir, refType, b)
  {
    WaysAmongMember(s, s.references, a, dir, refType, b);
    if Hop(s, a, dir, refType, b) {
      var r :| r in s.references && TypeMatches(s, refType, r.referenceType)
        && ((dir != Inverse && r.source == a && r.target == b) || (dir != Forward && r.source == b && r.target == a));
      assert WaysOf(s, r, a, dir, refType, b) > 0;
    }
  }

  lemma {:induction false} WaysAmongMirrored(s: Space, rs: seq<Reference>, a: NodeId, dir: BrowseDirection,
          refType: NodeId, b: NodeId)
    ensures WaysAmong(s, rs, a, dir, refType, b) == WaysAmong(s, rs, b, Flip(dir), refType, a)
  {
    if rs != [] { WaysAmongMirrored(s, rs[1..], a, dir, refType, b); }
  }

  /** How many entries of a browse result are for the node. */
  function Occurs(refs: Row, b: NodeId): nat {
    Times(Ids(refs), b)
  }

  lemma OccursConcat(x: Row, y: Row, b: NodeId)
    ensures Occurs(x + y, b) == Occurs(x, b) + Occurs(y, b)
  {
    assert Ids(x + y) == Ids(x) + Ids(y);
    TimesConcat(Ids(x), Ids(y), b);
  }

  lemma OccursFirst(x: Row, b: NodeId)
    requires x != []
    ensures Occurs(x, b) == (if x[0].nodeId == b then 1 else 0) + Occurs(x[1..], b)
  {
    assert Ids(x)[0] == x[0].nodeId && Ids(x)[1..] == Ids(x[1..]);
  }

  lemma OccursMember(refs: Row, b: NodeId)
    ensures Occurs(refs, b) > 0 <==> exists d: ReferenceDescription :: d in refs && d.nodeId == b
  {
    TimesPositive(Ids(refs), b);
    if d: ReferenceDescription :| d in refs && d.nodeId == b {
      var i :| 0 <= i < |refs| && refs[i] == d;
      assert Ids(refs)[i] == b;
    }
    if b in Ids(refs) {
      var i :| 0 <= i < |refs| && Ids(refs)[i] == b;
      assert refs[i] in refs;
    }
  }

  lemma EndsOccur(s: Space, bd: BrowseDescription, r: Reference, b: NodeId)
    ensures Occurs(DescribeEnds(s, bd, r), b) ==
            if ClassMatches(bd.classMask, Info(s, b).nodeClass)
            then WaysOf(s, r, bd.nodeId, bd.direction, bd.referenceType, b) else 0
  {
    var front := if Reported(s, bd, r, true) then [Describe(s, bd, r, true)] else [];
    var back := if Reported(s, bd, r, false) then [Describe(s, bd, r, false)] else [];
    OccursConcat(front, back, b);
    if front != [] { OccursFirst(front, b); }
    if back != [] { OccursFirst(back, b); }
  }

  lemma {:induction false} AllOccur(s: Space, bd: BrowseDescription, rs: seq<Reference>, b: NodeId)
    ensures Occurs(DescribeAll(s, bd, rs), b) ==
            if ClassMatches(bd.classMask, Info(s, b).nodeClass)
            then WaysAmong(s, rs, bd.nodeId, bd.direction, bd.referenceType, b) else 0
  {
    if rs != [] {
      AllOccur(s, bd, rs[1..], b);
      EndsOccur(s, bd, rs[0], b);
      OccursConcat(DescribeEnds(s, bd, rs[0]), DescribeAll(s, bd, rs[1..]), b);
    }
  }

  lemma NoWaysFromUnknown(s: Space, a: NodeId, dir: BrowseDirection, refType: NodeId, b: NodeId)
    requires Valid(s) && a !in s.nodes
    ensures Ways(s, a, dir, refType, b) == 0
  {
    WaysAreHops(s, a, dir, refType, b);
  }

  /** A Browse result holds at most one entry per reference that leads to a node of an asked class, and one for
      each of them when the call is not cut short. */
  lemma FoundTimes(s: Space, bd: BrowseDescription, b: NodeId)
    requires Valid(s)
    ensures AtMost(Occurs(Found(s, bd), b),
                   if ClassMatches(bd.classMask, Info(s, b).nodeClass)
                   then Ways(s, bd.nodeId, bd.direction, bd.referenceType, b) else 0,
                   NotCut(s, bd))
  {
    var all := DescribeAll(s, bd, s.references);
    AllOccur(s, bd, s.references, b);
    hide DescribeAll, Valid;
    if bd.nodeId !in s.nodes {
      NoWaysFromUnknown(s, bd.nodeId, bd.direction, bd.referenceType, b);
    } else if !NotCut(s, bd) {
      assert all == all[..MAX_REFERENCES] + all[MAX_REFERENCES..];
      OccursConcat(all[..MAX_REFERENCES], all[MAX_REFERENCES..], b);
    }
  }

  lemma {:induction false} OfTypeTimes(s: Space, refs: Row, t: Option<NodeId>, b: NodeId)
    requires forall d :: d in refs ==> Describes(s, d)
    ensures Occurs(OfType(refs, t), b) == if MatchesId(t, Info(s, b).typeDefinition) then Occurs(refs, b) else 0
  {
    if refs != [] {
      assert refs[0] in refs && forall d :: d in refs[1..] ==> d in refs;
      OfTypeTimes(s, refs[1..], t, b);
      OccursFirst(refs, b);
      var here := if MatchesId(t, refs[0].typeDefinition) then [refs[0]] else [];
      OccursConcat(here, OfType(refs[1..], t), b);
      if here != [] { OccursFirst(here, b); }
    }
  }

  lemma FirstTimes(refs: Row, id: NodeId, b: NodeId)
    ensures Occurs(FirstWithId(refs, id), b) == if b == id && Occurs(refs, b) > 0 then 1 else 0
  {
    var first := FirstWithId(refs, id);
    OccursMember(refs, id);
    if first != [] {
      assert first[0] in first && first[0].nodeId == id;
      OccursFirst(first, b);
      assert first[1..] == [];
    }
  }

  // ---------------------------------------------------------------- one step

  /** How often the node may stand at the next position: once per reference that leads to it, but only once
      where the position has an id. */
  function StepWays(s: Space, n: Node, a: NodeId, r: Relation, b: NodeId): nat {
    if NodeOk(s, n, b) then Counted(n, RelationWays(s, a, r, b)) else 0
  }

  function Counted(n: Node, ways: nat): nat {
    if n.id.Some? && ways > 1 then 1 else ways
  }

  lemma NextTimes(s: Space, a: NodeId, p: Path, b: NodeId)
    requires Valid(s) && WellFormed(p) && |p.nodes| >= 2
    ensures AtMost(Occurs(Next(s, a, p), b), StepWays(s, EnforcedHalf(p).nodes[1], a, p.relations[0], b),
                   NotCut(s, BrowseStep(a, p.relations[0], p.nodes[1].nodeClass)))
  {
    var n := EnforcedHalf(p).nodes[1];
    var bd := BrowseStep(a, p.relations[0], n.nodeClass);
    var refs := Found(s, bd);
    FoundTimes(s, bd, b);
    hide Occurs, Ways, Found, NotCut;
    if n.id.Some? {
      FirstTimes(refs, n.id.value, b);
    } else {
      forall d | d in refs ensures Describes(s, d) {
        BrowseSound(s, bd, d);
      }
      OfTypeTimes(s, refs, n.typeDefinitionId, b);
    }
  }

  // ---------------------------------------------------------------- one half

  function IdRows(rows: seq<Row>): seq<seq<NodeId>> {
    seq(|rows|, i requires 0 <= i < |rows| => Ids(rows[i]))
  }

  /** How many rows visit exactly these nodes. */
  function Visits(rows: seq<Row>, w: seq<NodeId>): nat {
    Times(IdRows(rows), w)
  }

  lemma VisitsConcat(a: seq<Row>, b: seq<Row>, w: seq<NodeId>)
    ensures Visits(a + b, w) == Visits(a, w) + Visits(b, w)
  {
    assert IdRows(a + b) == IdRows(a) + IdRows(b);
    TimesConcat(IdRows(a), IdRows(b), w);
  }

  lemma VisitsFirst(rows: seq<Row>, w: seq<NodeId>)
    requires rows != []
    ensures Visits(rows, w) == (if Ids(rows[0]) == w then 1 else 0) + Visits(rows[1..], w)
  {
    assert IdRows(rows)[0] == Ids(rows[0]) && IdRows(rows)[1..] == IdRows(rows[1..]);
  }

  /** There is a visit exactly when some row visits these nodes. */
  lemma VisitsYield(rows: seq<Row>, w: seq<NodeId>)
    ensures Visits(rows, w) > 0 <==> Yields(rows, w)
  {
    TimesPositive(IdRows(rows), w);
    if Yields(rows, w) {
      var row :| row in rows && Ids(row) == w;
      var i :| 0 <= i < |rows| && rows[i] == row;
      assert IdRows(rows)[i] == w;
    }
    if w in IdRows(rows) {
      var i :| 0 <= i < |rows| && IdRows(rows)[i] == w;
      assert rows[i] in rows;
    }
  }

  lemma VisitsReversed(rows: seq<Row>, w: seq<NodeId>)
    ensures Visits(Reverse(rows), w) == Visits(rows, w)
  {
    assert IdRows(Reverse(rows)) == Reverse(IdRows(rows));
    TimesReversed(IdRows(rows), w);
  }

  lemma {:induction false} VisitsPrefixed(d: ReferenceDescription, rows: seq<Row>, w: seq<NodeId>)
    requires w != []
    ensures Visits(Prefixed([d], rows), w) == if w[0] == d.nodeId then Visits(rows, w[1..]) else 0
    decreases |rows|
  {
    if rows != [] {
      VisitsPrefixed(d, rows[1..], w);
      VisitsFirst(rows, w[1..]);
      VisitsFirst(Prefixed([d], rows), w);
      assert Prefixed([d], rows)[1..] == Prefixed([d], rows[1..]);
      var longer := Ids([d] + rows[0]);
      assert longer[0] == d.nodeId && longer[1..] == Ids(rows[0]);
      assert longer == w <==> w[0] == d.nodeId && w[1..] == Ids(rows[0]);
    }
  }

  /** The number of reference walks through these nodes that fit what is enforced of the half. */
  function HalfWays(s: Space, p: Path, w: seq<NodeId>): nat
    requires WellFormed(p) && |w| == |p.nodes|
    decreases |p.nodes|
  {
    if |p.nodes| == 1 then 1
    else StepWays(s, EnforcedHalf(p).nodes[1], w[0], p.relations[0], w[1]) * HalfWays(s, Drop(p, 1), w[1..])
  }

  lemma OtherStart(s: Space, d: ReferenceDescription, p: Path, w: seq<NodeId>)
    requires WellFormed(p) && |w| > 0 && w[0] != d.nodeId
    ensures Visits(Walk(s, d, p), w) == 0
  {
    VisitsYield(Walk(s, d, p), w);
    WalkHeads(s, d, p);
    hide Walk, Visits;
    if Yields(Walk(s, d, p), w) {
      var row := RowOf(Walk(s, d, p), w);
    }
  }

  lemma {:induction false} WalkEachTimes(s: Space, start: ReferenceDescription, nexts: Row, rest: Path, w: seq<NodeId>,
          h: nat, exact: bool)
    requires WellFormed(rest) && |w| == |rest.nodes| + 1 && w[0] == start.nodeId
    requires forall d :: d in nexts && d.nodeId == w[1] ==> AtMost(Visits(Walk(s, d, rest), w[1..]), h, exact)
    ensures AtMost(Visits(WalkEach(s, start, nexts, rest), w), Occurs(nexts, w[1]) * h, exact)
    decreases |nexts|
  {
    hide Walk, Visits, Occurs, Prefixed;
    if nexts == [] {
      NoVisits(w);
      NoOccurrence(w[1]);
    } else {
      var d, here := nexts[0], Walk(s, nexts[0], rest);
      assert d in nexts && forall e :: e in nexts[1..] ==> e in nexts;
      WalkEachTimes(s, start, nexts[1..], rest, w, h, exact);
      VisitsConcat(Prefixed([start], here), WalkEach(s, start, nexts[1..], rest), w);
      VisitsPrefixed(start, here, w);
      OccursFirst(nexts, w[1]);
      if d.nodeId == w[1] {
        assert (1 + Occurs(nexts[1..], w[1])) * h == h + Occurs(nexts[1..], w[1]) * h;
      } else {
        OtherStart(s, d, rest, w[1..]);
      }
    }
  }

  lemma NoVisits(w: seq<NodeId>)
    ensures Visits([], w) == 0
  {
  }

  lemma NoOccurrence(b: NodeId)
    ensures Occurs([], b) == 0
  {
  }

  lemma OnlyStart(start: ReferenceDescription, w: seq<NodeId>)
    requires |w| == 1 && w[0] == start.nodeId
    ensures Visits([[start]], w) == 1
  {
    VisitsFirst([[start]], w);
    assert Ids([start]) == w && [[start]][1..] == [];
    NoVisits(w);
  }

  /** A walk of a half has at most one row per reference walk, and one for each when no browse along it is cut
      short. */
  lemma {:induction false} WalkTimes(s: Space, start: ReferenceDescription, p: Path, w: seq<NodeId>, exact: bool)
    requires Valid(s) && WellFormed(p) && |w| == |p.nodes| && w[0] == start.nodeId
    requires exact ==> BrowsedAlong(s, p, w)
    ensures AtMost(Visits(Walk(s, start, p), w), HalfWays(s, p, w), exact)
    decreases |p.nodes|
  {
    if |p.nodes| == 1 {
      OnlyStart(start, w);
    } else {
      var rest, nexts := Drop(p, 1), Next(s, start.nodeId, p);
      if exact { BrowsedUnfold(s, p, w); }
      NextTimes(s, start.nodeId, p, w[1]);
      hide Visits, Occurs, StepWays, Next, NotCut, BrowsedAlong, Valid;
      forall d | d in nexts && d.nodeId == w[1]
        ensures AtMost(Visits(Walk(s, d, rest), w[1..]), HalfWays(s, rest, w[1..]), exact)
      {
        WalkTimes(s, d, rest, w[1..], exact);
      }
      WalkEachTimes(s, start, nexts, rest, w, HalfWays(s, rest, w[1..]), exact);
      var step := StepWays(s, EnforcedHalf(p).nodes[1], w[0], p.relations[0], w[1]);
      ProductAtMost(Occurs(nexts, w[1]), step, HalfWays(s, rest, w[1..]), HalfWays(s, rest, w[1..]), exact);
    }
  }

  // ---------------------------------------------------------------- both halves

  lemma JoinedVisit(l: Row, r: Row, start: ReferenceDescription, idx: nat, v: seq<NodeId>)
    requires |l| == idx + 1 && l[0] == start && idx < |v| && v[idx] == start.nodeId
    ensures Ids(l[1..] + r) == v <==> Ids(l) == [v[idx]] + v[..idx] && Ids(r) == v[idx..]
  {
    var all := Ids(l[1..] + r);
    assert all == Ids(l)[1..] + Ids(r);
    assert Ids(l) == [start.nodeId] + Ids(l)[1..];
    if all == v {
      assert v[..idx] == Ids(l)[1..] && v[idx..] == Ids(r);
    }
    if Ids(l) == [v[idx]] + v[..idx] && Ids(r) == v[idx..] {
      assert Ids(l)[1..] == v[..idx];
      assert v == v[..idx] + v[idx..];
    }
  }

  lemma {:induction false} VisitsJoined(ls: seq<Row>, r: Row, start: ReferenceDescription, idx: nat, v: seq<NodeId>)
    requires forall l :: l in ls ==> |l| == idx + 1 && l[0] == start
    requires idx < |v| && v[idx] == start.nodeId
    ensures Visits(Joined(ls, r), v) == if Ids(r) == v[idx..] then Visits(ls, [v[idx]] + v[..idx]) else 0
    decreases |ls|
  {
    if ls == [] {
      assert Joined(ls, r) == [];
    } else {
      assert ls[0] in ls && forall l :: l in ls[1..] ==> l in ls;
      VisitsJoined(ls[1..], r, start, idx, v);
      VisitsFirst(ls, [v[idx]] + v[..idx]);
      VisitsFirst(Joined(ls, r), v);
      assert Joined(ls, r)[1..] == Joined(ls[1..], r);
      JoinedVisit(ls[0], r, start, idx, v);
    }
  }

  lemma {:induction false} VisitsCross(rs: seq<Row>, ls: seq<Row>, start: ReferenceDescription, idx: nat,
          v: seq<NodeId>)
    requires forall l :: l in ls ==> |l| == idx + 1 && l[0] == start
    requires idx < |v| && v[idx] == start.nodeId
    ensures Visits(Cross(rs, ls), v) == Visits(rs, v[idx..]) * Visits(ls, [v[idx]] + v[..idx])
    decreases |rs|
  {
    hide Visits, Joined, Ids;
    if rs == [] {
      NoVisits(v[idx..]);
      NoVisits(v);
    } else {
      VisitsCross(rs[1..], ls, start, idx, v);
      CrossFirst(rs, ls, start, idx, v);
      VisitsFirst(rs, v[idx..]);
      hide Cross;
      Distributes(Ids(rs[0]) == v[idx..], Visits(rs[1..], v[idx..]), Visits(ls, [v[idx]] + v[..idx]));
    }
  }

  lemma CrossFirst(rs: seq<Row>, ls: seq<Row>, start: ReferenceDescription, idx: nat, v: seq<NodeId>)
    requires rs != [] && forall l :: l in ls ==> |l| == idx + 1 && l[0] == start
    requires idx < |v| && v[idx] == start.nodeId
    ensures Visits(Cross(rs, ls), v)
            == (if Ids(rs[0]) == v[idx..] then Visits(ls, [v[idx]] + v[..idx]) else 0) + Visits(Cross(rs[1..], ls), v)
  {
    hide Visits, Joined, Ids;
    VisitsJoined(ls, rs[0], start, idx, v);
    VisitsConcat(Joined(ls, rs[0]), Cross(rs[1..], ls), v);
  }

  lemma Distributes(here: bool, later: nat, m: nat)
    ensures ((if here then 1 else 0) + later) * m == (if here then m else 0) + later * m
  {
  }

  // ---------------------------------------------------------------- the closed form

  /** How many references may stand for a relation of the half. */
  function HalfChoice(s: Space, p: Path, w: seq<NodeId>, i: nat): nat
    requires WellFormed(p) && |w| == |p.nodes| && i < |p.relations|
  {
    Counted(p.nodes[i + 1], RelationWays(s, w[i], p.relations[i], w[i + 1]))
  }

  function HalfChoices(s: Space, p: Path, w: seq<NodeId>): seq<nat>
    requires WellFormed(p) && |w| == |p.nodes|
  {
    seq(|p.relations|, i requires 0 <= i < |p.relations| => HalfChoice(s, p, w, i))
  }

  lemma HalfChoicesUnfold(s: Space, p: Path, w: seq<NodeId>)
    requires WellFormed(p) && |w| == |p.nodes| >= 2
    ensures HalfChoices(s, p, w) == [HalfChoice(s, p, w, 0)] + HalfChoices(s, Drop(p, 1), w[1..])
  {
    forall i | 1 <= i < |p.relations| ensures HalfChoice(s, p, w, i) == HalfChoice(s, Drop(p, 1), w[1..], i - 1) {
      assert w[1..][i - 1] == w[i] && w[1..][i] == w[i + 1];
    }
    hide HalfChoice;
  }

  lemma StepIsChoice(s: Space, p: Path, w: seq<NodeId>)
    requires WellFormed(p) && |w| == |p.nodes| >= 2
    ensures var n, r := EnforcedHalf(p).nodes[1], p.relations[0];
            StepWays(s, n, w[0], r, w[1])
            == if Step(s, w[0], r, w[1]) && NodeOk(s, n, w[1]) then HalfChoice(s, p, w, 0) else 0
  {
    WaysAreHops(s, w[0], p.relations[0].direction, p.relations[0].referenceType, w[1]);
    hide Ways, Hop, NodeOk;
  }

  lemma ProductFirst(n: nat, ns: seq<nat>)
    ensures Product([n] + ns) == n * Product(ns)
  {
    assert ([n] + ns)[1..] == ns;
  }

  lemma {:induction false} HalfWaysAreChoices(s: Space, p: Path, w: seq<NodeId>)
    requires WellFormed(p) && |w| == |p.nodes|
    ensures HalfWays(s, p, w) == if Fits(s, EnforcedHalf(p), w) then Product(HalfChoices(s, p, w)) else 0
    decreases |p.nodes|
  {
    if |p.nodes| > 1 {
      hide Fits, StepWays, HalfChoice, HalfChoices, Product, Step, NodeOk, EnforcedHalf;
      HalfWaysAreChoices(s, Drop(p, 1), w[1..]);
      FitsUnfold(s, p, w);
      StepIsChoice(s, p, w);
      HalfChoicesUnfold(s, p, w);
      ProductFirst(HalfChoice(s, p, w, 0), HalfChoices(s, Drop(p, 1), w[1..]));
    }
  }

  /** How many references may stand for a relation of the pattern. The node it leads to, away from the pivot,
      stands once where it has an id. */
  function Choice(s: Space, p: Path, idx: nat, w: seq<NodeId>, i: nat): nat
    requires |w| == |p.nodes| == |p.relations| + 1 && i < |p.relations|
  {
    Counted(p.nodes[if i < idx then i else i + 1], RelationWays(s, w[i], p.relations[i], w[i + 1]))
  }

  function Choices(s: Space, p: Path, idx: nat, w: seq<NodeId>): seq<nat>
    requires |w| == |p.nodes| == |p.relations| + 1
  {
    seq(|p.relations|, i requires 0 <= i < |p.relations| => Choice(s, p, idx, w, i))
  }

  lemma SameCount(s: Space, m: Node, n: Node, a: NodeId, r: Relation, b: NodeId, x: NodeId, q: Relation, y: NodeId)
    requires m.id.Some? == n.id.Some?
    requires (a == x && b == y && r == q) || (a == y && b == x && r == FlipRelation(q))
    ensures Counted(m, RelationWays(s, a, r, b)) == Counted(n, RelationWays(s, x, q, y))
  {
    WaysAmongMirrored(s, s.references, x, q.direction, q.referenceType, y);
  }

  lemma RightChoice(s: Space, p: Path, idx: nat, v: seq<NodeId>, k: nat)
    requires WellFormed(p) && idx < |p.nodes| == |v| && k < |p.nodes| - 1 - idx
    ensures var right, u := RightHalf(p, idx), v[idx..];
            && |right.relations| == |p.nodes| - 1 - idx && |u| == |right.nodes|
            && HalfChoice(s, right, u, k) == Choice(s, Enforced(p, idx), idx, EngineOrder(v, idx), idx + k)
  {
    hide RelationWays, Counted;
    var w, e, right, u := EngineOrder(v, idx), Enforced(p, idx), RightHalf(p, idx), v[idx..];
    SameCount(s, right.nodes[k + 1], e.nodes[idx + k + 1], u[k], right.relations[k], u[k + 1],
              w[idx + k], e.relations[idx + k], w[idx + k + 1]);
  }

  lemma RightChoices(s: Space, p: Path, idx: nat, v: seq<NodeId>)
    requires WellFormed(p) && idx < |p.nodes| == |v|
    ensures HalfChoices(s, RightHalf(p, idx), v[idx..]) == Choices(s, Enforced(p, idx), idx, EngineOrder(v, idx))[idx..]
  {
    hide HalfChoice, Choice, EngineOrder;
    var here := HalfChoices(s, RightHalf(p, idx), v[idx..]);
    var there := Choices(s, Enforced(p, idx), idx, EngineOrder(v, idx));
    forall k | 0 <= k < |p.nodes| - 1 - idx ensures here[k] == there[idx + k] {
      RightChoice(s, p, idx, v, k);
    }
  }

  lemma LeftChoice(s: Space, p: Path, idx: nat, v: seq<NodeId>, k: nat)
    requires WellFormed(p) && k < idx < |p.nodes| == |v|
    ensures var left, b := LeftHalf(p, idx), [v[idx]] + v[..idx];
            && |left.relations| == idx && |left.nodes| == idx + 1
            && HalfChoice(s, left, b, k) == Choice(s, Enforced(p, idx), idx, EngineOrder(v, idx), idx - 1 - k)
  {
    hide RelationWays, Counted;
    var w, e, left, b := EngineOrder(v, idx), Enforced(p, idx), LeftHalf(p, idx), [v[idx]] + v[..idx];
    var j := idx - 1 - k;
    assert b[k] == w[j + 1] && b[k + 1] == w[j];
    assert left.relations[k] == FlipRelation(p.relations[j]);
    EnforcedHalves(p, idx);
    assert EnforcedHalf(left).nodes[k + 1].id == e.nodes[j].id;
    SameCount(s, left.nodes[k + 1], e.nodes[j], b[k], left.relations[k], b[k + 1], w[j], e.relations[j], w[j + 1]);
  }

  lemma LeftChoices(s: Space, p: Path, idx: nat, v: seq<NodeId>)
    requires WellFormed(p) && 0 < idx < |p.nodes| == |v|
    ensures HalfChoices(s, LeftHalf(p, idx), [v[idx]] + v[..idx])
            == Reverse(Choices(s, Enforced(p, idx), idx, EngineOrder(v, idx))[..idx])
  {
    hide HalfChoice, Choice, EngineOrder;
    var here := HalfChoices(s, LeftHalf(p, idx), [v[idx]] + v[..idx]);
    var there := Choices(s, Enforced(p, idx), idx, EngineOrder(v, idx));
    forall k | 0 <= k < idx ensures here[k] == there[idx - 1 - k] {
      LeftChoice(s, p, idx, v, k);
    }
  }

  /** The number of ways to pick a reference for each relation of the walk. */
  function Multiplicity(s: Space, p: Path, idx: nat, v: seq<NodeId>): nat
    requires WellFormed(p) && idx < |p.nodes| == |v|
  {
    Product(Choices(s, Enforced(p, idx), idx, EngineOrder(v, idx)))
  }

  lemma SplitProduct(all: seq<nat>, idx: nat)
    requires idx <= |all|
    ensures Product(all[idx..]) * Product(Reverse(all[..idx])) == Product(all)
  {
    ProductReversed(all[..idx]);
    ProductConcat(all[..idx], all[idx..]);
    assert all[..idx] + all[idx..] == all;
  }

  lemma HalvesMultiply(s: Space, p: Path, idx: nat, v: seq<NodeId>)
    requires WellFormed(p) && 0 < idx < |p.nodes| == |v|
    ensures HalfWays(s, RightHalf(p, idx), v[idx..]) * HalfWays(s, LeftHalf(p, idx), [v[idx]] + v[..idx])
            == if Fits(s, Enforced(p, idx), EngineOrder(v, idx)) then Multiplicity(s, p, idx, v) else 0
  {
    var all := Choices(s, Enforced(p, idx), idx, EngineOrder(v, idx));
    hide Choice, Choices, HalfChoices, HalfWays, Fits, Enforced, EngineOrder, EnforcedHalf, Product, Transformed;
    JoinedFits(s, p, idx, v);
    HalfWaysAreChoices(s, RightHalf(p, idx), v[idx..]);
    HalfWaysAreChoices(s, LeftHalf(p, idx), [v[idx]] + v[..idx]);
    RightChoices(s, p, idx, v);
    LeftChoices(s, p, idx, v);
    ChoicesLength(s, p, idx, v);
    SplitProduct(all, idx);
  }

  lemma ChoicesLength(s: Space, p: Path, idx: nat, v: seq<NodeId>)
    requires WellFormed(p) && idx < |p.nodes| == |v|
    ensures |Choices(s, Enforced(p, idx), idx, EngineOrder(v, idx))| == |p.nodes| - 1
  {
  }

  lemma RightMultiplies(s: Space, p: Path, v: seq<NodeId>)
    requires WellFormed(p) && |p.nodes| == |v|
    ensures HalfWays(s, RightHalf(p, 0), v[0..])
            == if Fits(s, Enforced(p, 0), EngineOrder(v, 0)) then Multiplicity(s, p, 0, v) else 0
  {
    HalfWaysAreChoices(s, RightHalf(p, 0), v[0..]);
    RightChoices(s, p, 0, v);
    EnforcedHalves(p, 0);
    var e := Enforced(p, 0);
    assert Split(e, 0).1 == e && EngineOrder(v, 0) == v == v[0..];
    hide Fits, Enforced, EngineOrder, Choices, HalfChoices;
    assert Choices(s, e, 0, EngineOrder(v, 0))[0..] == Choices(s, e, 0, EngineOrder(v, 0));
  }

  // ---------------------------------------------------------------- a pattern around its pivot

  lemma RightTimes(s: Space, p: Path, idx: nat, start: ReferenceDescription, v: seq<NodeId>, exact: bool)
    requires Valid(s) && WellFormed(p) && idx < |p.nodes| == |v| && v[idx] == start.nodeId && PivotOk(start, p, idx)
    requires exact ==> BrowsedAround(s, p, idx, v)
    ensures AtMost(Visits(RightRows(s, p, idx, start), v[idx..]), HalfWays(s, RightHalf(p, idx), v[idx..]), exact)
  {
    hide Visits, Walk, HalfWays, BrowsedAlong, PivotOk;
    WalkTimes(s, start, RightHalf(p, idx), v[idx..], exact);
  }

  lemma LeftTimes(s: Space, p: Path, idx: nat, start: ReferenceDescription, v: seq<NodeId>, exact: bool)
    requires Valid(s) && WellFormed(p) && 0 < idx < |p.nodes| == |v| && v[idx] == start.nodeId
    requires exact ==> BrowsedAround(s, p, idx, v)
    ensures |LeftHalf(p, idx).nodes| == idx + 1
    ensures AtMost(Visits(LeftRows(s, p, idx, start), [v[idx]] + v[..idx]),
                   HalfWays(s, LeftHalf(p, idx), [v[idx]] + v[..idx]), exact)
  {
    hide Visits, Walk, HalfWays, BrowsedAlong;
    WalkTimes(s, start, LeftHalf(p, idx), [v[idx]] + v[..idx], exact);
  }

  /** The rows that visit `v`, where `v` passes through the start and the start is a pivot. */
  lemma PathTimes(s: Space, p: Path, idx: nat, start: ReferenceDescription, v: seq<NodeId>, exact: bool)
    requires Valid(s) && WellFormed(p) && idx < |p.nodes| == |v| && SupportedAround(p, idx)
    requires v[idx] == start.nodeId && PivotOk(start, p, idx) && (exact ==> BrowsedAround(s, p, idx, v))
    ensures CheckPath(s, p, idx, start).Ok?
    ensures AtMost(Visits(CheckPath(s, p, idx, start).value, v),
                   if Fits(s, Enforced(p, idx), EngineOrder(v, idx)) then Multiplicity(s, p, idx, v) else 0, exact)
  {
    CheckPathIsCross(s, p, idx, start);
    RightTimes(s, p, idx, start, v, exact);
    hide CheckPath, Visits, Cross, HalfWays, Multiplicity, Fits, Enforced, EngineOrder, BrowsedAround, SupportedAround,
         PivotOk, RightRows, LeftRows;
    if idx == 0 {
      RightMultiplies(s, p, v);
      assert v[0..] == v;
    } else {
      var rs, ls := RightRows(s, p, idx, start), LeftRows(s, p, idx, start);
      LeftTimes(s, p, idx, start, v, exact);
      VisitsCross(rs, Reverse(ls), start, idx, v);
      VisitsReversed(ls, [v[idx]] + v[..idx]);
      HalvesMultiply(s, p, idx, v);
      ProductAtMost(Visits(rs, v[idx..]), HalfWays(s, RightHalf(p, idx), v[idx..]),
                    Visits(ls, [v[idx]] + v[..idx]), HalfWays(s, LeftHalf(p, idx), [v[idx]] + v[..idx]), exact);
    }
  }

  /** How often an answer of one start element is to be found: once for each way to pick its references. */
  ghost function AnswerTimes(s: Space, p: Path, idx: nat, start: ReferenceDescription, v: seq<NodeId>): nat
    requires WellFormed(p) && idx < |p.nodes|
  {
    if Answer(s, p, idx, start, v) then Multiplicity(s, p, idx, v) else 0
  }

  /** The number of rows of one start element that visit exactly the nodes of `v`: in every space at most the
      number of ways to pick for each relation a reference that leads along `v`, where a node with an id counts
      once; and exactly that number when no browse along `v` is cut short. */
  lemma CheckPathTimes(s: Space, p: Path, idx: nat, start: ReferenceDescription, v: seq<NodeId>)
    requires Valid(s) && WellFormed(p) && idx < |p.nodes| && SupportedAround(p, idx)
    ensures CheckPath(s, p, idx, start).Ok?
    ensures AtMost(Visits(CheckPath(s, p, idx, start).value, v), AnswerTimes(s, p, idx, start, v),
                   BrowsedAround(s, p, idx, v))
  {
    CheckPathIsCross(s, p, idx, start);
    hide CheckPath, Visits, Multiplicity, Fits, Enforced, EngineOrder, BrowsedAround, SupportedAround, PivotOk;
    if |v| == |p.nodes| && v[idx] == start.nodeId && PivotOk(start, p, idx) {
      PathTimes(s, p, idx, start, v, BrowsedAround(s, p, idx, v));
    } else {
      var rows := CheckPath(s, p, idx, start).value;
      VisitsYield(rows, v);
      if Yields(rows, v) {
        var row := RowOf(rows, v);
        CheckPathSound(s, p, idx, start, row);
      }
    }
  }
}
