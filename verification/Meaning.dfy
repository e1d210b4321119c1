/** What the rows of the matcher mean: which walks of the address space they are, for one half
    and for a whole pattern around its pivot. */
module Meaning {
  import opened Wrappers
  import opened Sequences
  import opened AddressSpace
  import opened Pattern
  import opened Matching
  import opened Walks

  function Ids(row: Row): seq<NodeId> {
    seq(|row|, i requires 0 <= i < |row| => row[i].nodeId)
  }

  /** Some row visits exactly these nodes. */
  ghost predicate Yields(rows: seq<Row>, v: seq<NodeId>) {
    exists row :: row in rows && Ids(row) == v
  }

  // ---------------------------------------------------------------- one half

  lemma NextSound(s: Space, a: NodeId, p: Path, d: ReferenceDescription)
    requires WellFormed(p) && |p.nodes| >= 2 && d in Next(s, a, p)
    ensures Step(s, a, p.relations[0], d.nodeId) && NodeOk(s, EnforcedHalf(p).nodes[1], d.nodeId)
    ensures Describes(s, d)
  {
    BrowseSound(s, BrowseStep(a, p.relations[0], EnforcedHalf(p).nodes[1].nodeClass), d);
  }

  lemma NextComplete(s: Space, a: NodeId, p: Path, b: NodeId)
    requires Valid(s) && WellFormed(p) && |p.nodes| >= 2
    requires NotCut(s, BrowseStep(a, p.relations[0], p.nodes[1].nodeClass))
    requires Step(s, a, p.relations[0], b) && NodeOk(s, EnforcedHalf(p).nodes[1], b)
    ensures exists d :: d in Next(s, a, p) && d.nodeId == b
  {
    var n := EnforcedHalf(p).nodes[1];
    var bd := BrowseStep(a, p.relations[0], n.nodeClass);
    BrowseComplete(s, bd, b);
    var d :| d in Found(s, bd) && d.nodeId == b;
    BrowseSound(s, bd, d);
    if n.id.Some? {
      var first := FirstWithId(Found(s, bd), b);
      assert first != [] && first[0] in Next(s, a, p) && first[0].nodeId == b;
    } else {
      assert d in Next(s, a, p);
    }
  }

  /** No browse for the next node along the walk is cut short. */
  ghost predicate BrowsedAlong(s: Space, p: Path, w: seq<NodeId>)
    requires WellFormed(p)
  {
    |w| == |p.nodes| ==>
      forall i :: 0 <= i < |p.relations| ==> NotCut(s, BrowseStep(w[i], p.relations[i], p.nodes[i + 1].nodeClass))
  }

  lemma BrowsedUnfold(s: Space, p: Path, w: seq<NodeId>)
    requires WellFormed(p) && |w| == |p.nodes| >= 2 && BrowsedAlong(s, p, w)
    ensures NotCut(s, BrowseStep(w[0], p.relations[0], p.nodes[1].nodeClass)) && BrowsedAlong(s, Drop(p, 1), w[1..])
  {
    hide NotCut;
    var rest := Drop(p, 1);
    assert NotCut(s, BrowseStep(w[0], p.relations[0], p.nodes[0 + 1].nodeClass));
    forall i | 0 <= i < |rest.relations|
      ensures NotCut(s, BrowseStep(w[1..][i], rest.relations[i], rest.nodes[i + 1].nodeClass))
    {
      assert NotCut(s, BrowseStep(w[i + 1], p.relations[i + 1], p.nodes[i + 1 + 1].nodeClass));
    }
  }

  lemma FitsUnfold(s: Space, p: Path, w: seq<NodeId>)
    requires WellFormed(p) && |w| == |p.nodes| >= 2
    ensures Fits(s, EnforcedHalf(p), w) <==>
            Step(s, w[0], p.relations[0], w[1]) && NodeOk(s, EnforcedHalf(p).nodes[1], w[1])
            && Fits(s, EnforcedHalf(Drop(p, 1)), w[1..])
  {
    var whole, rest := EnforcedHalf(p), EnforcedHalf(Drop(p, 1));
    assert forall i :: 2 <= i < |p.nodes| ==> whole.nodes[i] == rest.nodes[i - 1];
    if Fits(s, whole, w) {
      assert Step(s, w[0], whole.relations[0], w[1]);
      assert NodeOk(s, whole.nodes[1], w[1]);
      forall i | 0 <= i < |rest.nodes| ensures NodeOk(s, rest.nodes[i], w[1..][i]) {
        if i > 0 { assert NodeOk(s, whole.nodes[i + 1], w[i + 1]); }
      }
      forall i | 0 <= i < |rest.relations| ensures Step(s, w[1..][i], rest.relations[i], w[1..][i + 1]) {
        assert Step(s, w[i + 1], whole.relations[i + 1], w[i + 2]);
      }
    }
    if Step(s, w[0], p.relations[0], w[1]) && NodeOk(s, whole.nodes[1], w[1]) && Fits(s, rest, w[1..]) {
      forall i | 0 <= i < |whole.nodes| ensures NodeOk(s, whole.nodes[i], w[i]) {
        if i > 1 { assert NodeOk(s, rest.nodes[i - 1], w[1..][i - 1]); }
      }
      forall i | 0 <= i < |whole.relations| ensures Step(s, w[i], whole.relations[i], w[i + 1]) {
        if i > 0 { assert Step(s, w[1..][i - 1], rest.relations[i - 1], w[1..][i]); }
      }
    }
  }

  /** Soundness, in every space: a row's nodes fit what is enforced of the half. */
  lemma {:induction false} WalkSound(s: Space, start: ReferenceDescription, p: Path, row: Row)
    requires WellFormed(p) && row in Walk(s, start, p)
    ensures |row| == |p.nodes| && row[0] == start && Fits(s, EnforcedHalf(p), Ids(row))
    decreases |p.nodes|
  {
    if |p.nodes| > 1 {
      hide Fits, Walk, EnforcedHalf, NodeOk, Step, Next, Ids;
      var d := WalkHead(s, start, p, row);
      WalkSound(s, d, Drop(p, 1), row[1..]);
      RowFits(s, start, p, d, row);
    }
  }

  lemma RowFits(s: Space, start: ReferenceDescription, p: Path, d: ReferenceDescription, row: Row)
    requires WellFormed(p) && |p.nodes| >= 2 && |row| == |p.nodes| && row[0] == start && row[1] == d
    requires d in Next(s, start.nodeId, p) && Fits(s, EnforcedHalf(Drop(p, 1)), Ids(row[1..]))
    ensures Fits(s, EnforcedHalf(p), Ids(row))
  {
    NextSound(s, start.nodeId, p, d);
    hide Fits, EnforcedHalf, NodeOk, Step, Next;
    assert Ids(row)[1..] == Ids(row[1..]);
    FitsUnfold(s, p, Ids(row));
  }

  lemma WalkHead(s: Space, start: ReferenceDescription, p: Path, row: Row) returns (d: ReferenceDescription)
    requires WellFormed(p) && |p.nodes| >= 2 && row in Walk(s, start, p)
    ensures |row| > 0 && row[0] == start && d in Next(s, start.nodeId, p) && row[1..] in Walk(s, d, Drop(p, 1))
  {
    WalkEachMember(s, start, Next(s, start.nodeId, p), Drop(p, 1), row);
    d :| d in Next(s, start.nodeId, p) && row[1..] in Walk(s, d, Drop(p, 1));
  }

  lemma WalkCons(s: Space, start: ReferenceDescription, p: Path, d: ReferenceDescription, tail: Row)
    requires WellFormed(p) && |p.nodes| >= 2
    requires d in Next(s, start.nodeId, p) && tail in Walk(s, d, Drop(p, 1))
    ensures [start] + tail in Walk(s, start, p)
  {
    assert ([start] + tail)[1..] == tail;
    WalkEachMember(s, start, Next(s, start.nodeId, p), Drop(p, 1), [start] + tail);
  }

  lemma WalkPush(s: Space, start: ReferenceDescription, p: Path, d: ReferenceDescription, w: seq<NodeId>)
    requires WellFormed(p) && |p.nodes| >= 2
    requires d in Next(s, start.nodeId, p) && Yields(Walk(s, d, Drop(p, 1)), w)
    ensures Yields(Walk(s, start, p), [start.nodeId] + w)
  {
    hide Walk, Next;
    var deeper, here := Walk(s, d, Drop(p, 1)), Walk(s, start, p);
    var tail :| tail in deeper && Ids(tail) == w;
    WalkCons(s, start, p, d, tail);
    assert [start] + tail in here && Ids([start] + tail) == [start.nodeId] + w;
  }

  /** Completeness: a fitting walk has a row when no browse along it is cut short. The id fast path,
      which follows only the first reference to the wanted node, loses no walk. */
  lemma {:induction false} WalkComplete(s: Space, start: ReferenceDescription, p: Path, w: seq<NodeId>)
    requires Valid(s) && WellFormed(p) && BrowsedAlong(s, p, w)
    requires Fits(s, EnforcedHalf(p), w) && w[0] == start.nodeId
    ensures Yields(Walk(s, start, p), w)
    decreases |p.nodes|
  {
    if |p.nodes| == 1 {
      assert [start] in Walk(s, start, p) && Ids([start]) == w;
    } else {
      FitsUnfold(s, p, w);
      BrowsedUnfold(s, p, w);
      NextComplete(s, start.nodeId, p, w[1]);
      var d :| d in Next(s, start.nodeId, p) && d.nodeId == w[1];
      WalkComplete(s, d, Drop(p, 1), w[1..]);
      WalkPush(s, start, p, d, w[1..]);
      assert w == [start.nodeId] + w[1..];
    }
  }

  /** `check` on a half of two or more nodes: in the supported fragment its rows are exactly the
      walks from the start that fit the enforced constraints. Only the way back depends on the cap. */
  lemma CheckMeaning(s: Space, start: ReferenceDescription, p: Path, w: seq<NodeId>)
    requires Valid(s) && WellFormed(p) && |p.nodes| >= 2 && Supported(p)
    ensures var r := Check(s, start, p);
            && r.Ok?
            && (Yields(r.value, w) ==> Fits(s, EnforcedHalf(p), w) && w[0] == start.nodeId)
            && (BrowsedAlong(s, p, w) && Fits(s, EnforcedHalf(p), w) && w[0] == start.nodeId ==> Yields(r.value, w))
  {
    CheckIsWalk(s, start, p);
    var rows := Walk(s, start, p);
    if Yields(rows, w) {
      var row :| row in rows && Ids(row) == w;
      WalkSound(s, start, p, row);
    } else if BrowsedAlong(s, p, w) && Fits(s, EnforcedHalf(p), w) && w[0] == start.nodeId {
      WalkComplete(s, start, p, w);
    }
  }

  // ---------------------------------------------------------------- the cross product

  function Cross(rs: seq<Row>, ls: seq<Row>): seq<Row>
    requires forall l :: l in ls ==> |l| > 0
  {
    if rs == [] then [] else Joined(ls, rs[0]) + Cross(rs[1..], ls)
  }

  lemma {:induction false} MergeIsCross(s: Space, lhs: Path, rs: seq<Row>, start: ReferenceDescription)
    requires WellFormed(lhs) && Check(s, start, lhs).Ok?
    requires forall r :: r in rs ==> |r| > 0 && r[0] == start
    ensures Merge(s, lhs, rs, start) == Ok(Cross(rs, Reverse(Check(s, start, lhs).value)))
    decreases |rs|
  {
    if rs != [] {
      assert rs[0] in rs;
      assert forall r :: r in rs[1..] ==> r in rs;
      MergeIsCross(s, lhs, rs[1..], start);
    }
  }

  lemma {:induction false} CrossSound(rs: seq<Row>, ls: seq<Row>, row: Row)
    requires forall l :: l in ls ==> |l| > 0
    requires row in Cross(rs, ls)
    ensures exists r, l :: r in rs && l in ls && row == l[1..] + r
  {
    if row in Joined(ls, rs[0]) {
      var i :| 0 <= i < |ls| && row == Joined(ls, rs[0])[i];
      assert rs[0] in rs && ls[i] in ls && row == ls[i][1..] + rs[0];
    } else {
      CrossSound(rs[1..], ls, row);
      var r, l :| r in rs[1..] && l in ls && row == l[1..] + r;
      assert r in rs;
    }
  }

  lemma {:induction false} CrossComplete(rs: seq<Row>, ls: seq<Row>, r: Row, l: Row)
    requires forall l :: l in ls ==> |l| > 0
    requires r in rs && l in ls
    ensures l[1..] + r in Cross(rs, ls)
  {
    if r == rs[0] {
      var i :| 0 <= i < |ls| && ls[i] == l;
      assert Joined(ls, rs[0])[i] == l[1..] + r;
    } else {
      CrossComplete(rs[1..], ls, r, l);
    }
  }

  lemma {:induction false} CrossCount(rs: seq<Row>, ls: seq<Row>)
    requires forall l :: l in ls ==> |l| > 0
    ensures |Cross(rs, ls)| == |rs| * |ls|
  {
    if rs != [] {
      CrossCount(rs[1..], ls);
      assert |rs| * |ls| == |ls| + (|rs| - 1) * |ls|;
    }
  }

  lemma {:induction false} CrossTails(rs: seq<Row>, ls: seq<Row>, row: Row, m: nat)
    requires forall l :: l in ls ==> |l| == m + 1
    requires row in Cross(rs, ls)
    ensures |row| >= m && row[m..] in rs
  {
    if row in Joined(ls, rs[0]) {
      var i :| 0 <= i < |ls| && row == Joined(ls, rs[0])[i];
      assert row[m..] == rs[0];
    } else {
      CrossTails(rs[1..], ls, row, m);
    }
  }

  lemma {:induction false} CrossDistinct(rs: seq<Row>, ls: seq<Row>, start: ReferenceDescription, m: nat)
    requires Distinct(rs) && Distinct(ls)
    requires forall l :: l in ls ==> |l| == m + 1 && l[0] == start
    ensures Distinct(Cross(rs, ls))
  {
    if rs != [] {
      CrossDistinct(rs[1..], ls, start, m);
      var here, later := Joined(ls, rs[0]), Cross(rs[1..], ls);
      forall i, j | 0 <= i < j < |here| ensures here[i] != here[j] {
        assert here[i][..m] == ls[i][1..] && here[j][..m] == ls[j][1..];
        assert ls[i] == [start] + ls[i][1..] && ls[j] == [start] + ls[j][1..];
      }
      forall row | row in here ensures row !in later {
        var i :| 0 <= i < |ls| && row == here[i];
        assert row[m..] == rs[0];
        if row in later {
          CrossTails(rs[1..], ls, row, m);
          assert false;
        }
      }
      DistinctConcat(here, later);
    }
  }

  // ---------------------------------------------------------------- a pattern around its pivot

  function LeftHalf(p: Path, idx: nat): Path
    requires WellFormed(p) && idx < |p.nodes|
  {
    Transformed(Split(p, idx).0)
  }

  function RightHalf(p: Path, idx: nat): Path
    requires WellFormed(p) && idx < |p.nodes|
  {
    Split(p, idx).1
  }

  predicate SupportedAround(p: Path, idx: nat)
    requires WellFormed(p) && idx < |p.nodes|
  {
    Supported(RightHalf(p, idx)) && (idx > 0 ==> Supported(LeftHalf(p, idx)))
  }

  /** The pivot's own constraints count only when nothing follows it in the pattern. */
  predicate PivotOk(start: ReferenceDescription, p: Path, idx: nat)
    requires idx < |p.nodes|
  {
    idx == |p.nodes| - 1 ==> Matches(start, p.nodes[idx])
  }

  /** The columns of a row: nodes left of the pivot come out back to front. */
  function EngineOrder<T>(w: seq<T>, idx: nat): (columns: seq<T>)
    requires idx <= |w|
    ensures |columns| == |w|
  {
    Reverse(w[..idx]) + w[idx..]
  }

  function RightRows(s: Space, p: Path, idx: nat, start: ReferenceDescription): seq<Row>
    requires WellFormed(p) && idx < |p.nodes|
  {
    if PivotOk(start, p, idx) then Walk(s, start, RightHalf(p, idx)) else []
  }

  function LeftRows(s: Space, p: Path, idx: nat, start: ReferenceDescription): seq<Row>
    requires WellFormed(p) && 0 < idx < |p.nodes|
  {
    Walk(s, start, LeftHalf(p, idx))
  }

  lemma WalkHeads(s: Space, start: ReferenceDescription, p: Path)
    requires WellFormed(p)
    ensures forall row :: row in Walk(s, start, p) ==> |row| == |p.nodes| && row[0] == start
  {
    forall row | row in Walk(s, start, p) ensures |row| == |p.nodes| && row[0] == start {
      WalkMember(s, start, p, row);
    }
  }

  /** In the supported fragment `checkPath` returns the cross product of the two halves' rows,
      the left ones in reverse order of discovery, and aborts nowhere. */
  lemma CheckPathIsCross(s: Space, p: Path, idx: nat, start: ReferenceDescription)
    requires WellFormed(p) && idx < |p.nodes| && SupportedAround(p, idx)
    ensures idx == 0 ==> CheckPath(s, p, idx, start) == Ok(RightRows(s, p, idx, start))
    ensures idx > 0 ==>
      && (forall l :: l in Reverse(LeftRows(s, p, idx, start)) ==> |l| == idx + 1 && l[0] == start)
      && CheckPath(s, p, idx, start) == Ok(Cross(RightRows(s, p, idx, start), Reverse(LeftRows(s, p, idx, start))))
  {
    CheckRight(s, p, idx, start);
    hide Supported, EnforcedHalf, Next, Walk, Check, RightRows;
    if idx > 0 {
      CheckIsWalk(s, start, LeftHalf(p, idx));
      WalkHeads(s, start, LeftHalf(p, idx));
      ReverseMembers(LeftRows(s, p, idx, start));
      MergeIsCross(s, LeftHalf(p, idx), RightRows(s, p, idx, start), start);
    }
  }

  lemma CheckRight(s: Space, p: Path, idx: nat, start: ReferenceDescription)
    requires WellFormed(p) && idx < |p.nodes| && Supported(RightHalf(p, idx))
    ensures Check(s, start, RightHalf(p, idx)) == Ok(RightRows(s, p, idx, start))
  {
    var right := RightHalf(p, idx);
    if |right.nodes| >= 2 {
      CheckIsWalk(s, start, right);
    }
  }

  /** The number of rows is the product of the two halves' counts; when the space holds no
      reference twice, no row occurs twice. */
  lemma CheckPathCount(s: Space, p: Path, idx: nat, start: ReferenceDescription)
    requires WellFormed(p) && idx < |p.nodes| && SupportedAround(p, idx)
    ensures CheckPath(s, p, idx, start).Ok?
    ensures var rows := CheckPath(s, p, idx, start).value;
            && |rows| == |RightRows(s, p, idx, start)| * (if idx > 0 then |LeftRows(s, p, idx, start)| else 1)
            && (Distinct(s.references) ==> Distinct(rows))
  {
    CheckPathIsCross(s, p, idx, start);
    var rs := RightRows(s, p, idx, start);
    if Distinct(s.references) {
      WalkDistinct(s, start, RightHalf(p, idx));
    }
    if idx > 0 {
      var ls := LeftRows(s, p, idx, start);
      CrossCount(rs, Reverse(ls));
      if Distinct(s.references) {
        WalkDistinct(s, start, LeftHalf(p, idx));
        CrossDistinct(rs, Reverse(ls), start, idx);
      }
    }
  }

  /** No browse along the walk's two halves, given in the engine's column order, is cut short. */
  ghost predicate BrowsedAround(s: Space, p: Path, idx: nat, v: seq<NodeId>)
    requires WellFormed(p) && idx < |p.nodes|
  {
    |v| == |p.nodes| ==>
      && BrowsedAlong(s, RightHalf(p, idx), v[idx..])
      && (idx > 0 ==> BrowsedAlong(s, LeftHalf(p, idx), [v[idx]] + v[..idx]))
  }

  lemma RightRowsMeaning(s: Space, p: Path, start: ReferenceDescription, w: seq<NodeId>)
    requires Valid(s) && WellFormed(p) && BrowsedAround(s, p, 0, w)
    requires PivotOk(start, p, 0) && |w| == |p.nodes| && w[0] == start.nodeId
    requires Fits(s, Enforced(p, 0), EngineOrder(w, 0))
    ensures Yields(RightRows(s, p, 0, start), w)
  {
    EnforcedHalves(p, 0);
    var e := Enforced(p, 0);
    assert Split(e, 0).1 == e && EngineOrder(w, 0) == w == w[0..];
    WalkComplete(s, start, RightHalf(p, 0), w);
  }

  /** A pair of half walks from one start, joined the way the engine joins rows, is the engine's
      order of a walk that fits the whole. */
  lemma JoinedFits(s: Space, p: Path, idx: nat, v: seq<NodeId>)
    requires WellFormed(p) && 0 < idx < |p.nodes| == |v|
    ensures Fits(s, Enforced(p, idx), EngineOrder(v, idx)) <==>
            Fits(s, EnforcedHalf(RightHalf(p, idx)), v[idx..])
                && Fits(s, EnforcedHalf(LeftHalf(p, idx)), [v[idx]] + v[..idx])
  {
    hide Fits, EnforcedHalf, Transformed;
    var w := EngineOrder(v, idx);
    SplitKeepsMeaning(s, Enforced(p, idx), idx, w);
    EnforcedHalves(p, idx);
    assert w[idx..] == v[idx..];
    assert Reverse(w[..idx + 1]) == [v[idx]] + v[..idx];
  }

  lemma CrossRowFits(s: Space, p: Path, idx: nat, start: ReferenceDescription, r: Row, l: Row)
    requires WellFormed(p) && 0 < idx < |p.nodes|
    requires r in Walk(s, start, RightHalf(p, idx)) && l in LeftRows(s, p, idx, start)
    ensures |l| == idx + 1
    ensures var v := Ids(l[1..] + r);
            |v| == |p.nodes| && v[idx] == start.nodeId && Fits(s, Enforced(p, idx), EngineOrder(v, idx))
  {
    hide Fits, EnforcedHalf, Enforced, Walk;
    WalkSound(s, start, RightHalf(p, idx), r);
    WalkSound(s, start, LeftHalf(p, idx), l);
    var v := Ids(l[1..] + r);
    assert v[idx..] == Ids(r) && [v[idx]] + v[..idx] == Ids(l);
    JoinedFits(s, p, idx, v);
  }

  lemma WalkPair(s: Space, left: Path, right: Path, start: ReferenceDescription, b: seq<NodeId>, u: seq<NodeId>)
    returns (r: Row, l: Row)
    requires Valid(s) && WellFormed(left) && WellFormed(right) && BrowsedAlong(s, left, b) && BrowsedAlong(s, right, u)
    requires Fits(s, EnforcedHalf(left), b) && Fits(s, EnforcedHalf(right), u) && b[0] == u[0] == start.nodeId
    ensures r in Walk(s, start, right) && l in Walk(s, start, left) && Ids(l) == b && Ids(r) == u
  {
    WalkComplete(s, start, right, u);
    WalkComplete(s, start, left, b);
    hide *;
    r := RowOf(Walk(s, start, right), u);
    l := RowOf(Walk(s, start, left), b);
  }

  lemma RowOf(rows: seq<Row>, v: seq<NodeId>) returns (row: Row)
    requires Yields(rows, v)
    ensures row in rows && Ids(row) == v
  {
    row :| row in rows && Ids(row) == v;
  }

  lemma FittingPair(s: Space, p: Path, idx: nat, start: ReferenceDescription, v: seq<NodeId>) returns (r: Row, l: Row)
    requires Valid(s) && WellFormed(p) && 0 < idx < |p.nodes| == |v| && BrowsedAround(s, p, idx, v)
    requires v[idx] == start.nodeId && Fits(s, Enforced(p, idx), EngineOrder(v, idx))
    ensures r in Walk(s, start, RightHalf(p, idx)) && l in LeftRows(s, p, idx, start)
    ensures |l| == idx + 1 && Ids(l[1..] + r) == v
  {
    JoinedFits(s, p, idx, v);
    var b, u := [v[idx]] + v[..idx], v[idx..];
    hide Fits, EnforcedHalf, Enforced, BrowsedAlong, LeftHalf, RightHalf, EngineOrder, Walk;
    r, l := WalkPair(s, LeftHalf(p, idx), RightHalf(p, idx), start, b, u);
    JoinedIds(l, r, idx, v);
  }

  lemma JoinedIds(l: Row, r: Row, idx: nat, v: seq<NodeId>)
    requires idx < |v| && Ids(l) == [v[idx]] + v[..idx] && Ids(r) == v[idx..]
    ensures |l| == idx + 1 && Ids(l[1..] + r) == v
  {
    assert |l| == |Ids(l)|;
    var joined := Ids(l[1..] + r);
    assert joined == Ids(l)[1..] + Ids(r);
    assert Ids(l)[1..] == v[..idx];
  }

  lemma CrossIsComplete(s: Space, p: Path, idx: nat, start: ReferenceDescription, v: seq<NodeId>)
    requires Valid(s) && WellFormed(p) && 0 < idx < |p.nodes| == |v| && BrowsedAround(s, p, idx, v)
    requires forall l :: l in Reverse(LeftRows(s, p, idx, start)) ==> |l| == idx + 1 && l[0] == start
    requires PivotOk(start, p, idx) && v[idx] == start.nodeId && Fits(s, Enforced(p, idx), EngineOrder(v, idx))
    ensures Yields(Cross(RightRows(s, p, idx, start), Reverse(LeftRows(s, p, idx, start))), v)
  {
    var r, l := FittingPair(s, p, idx, start, v);
    hide Fits, Enforced, BrowsedAround, LeftRows, EngineOrder, Walk;
    ReverseMembers(LeftRows(s, p, idx, start));
    CrossComplete(RightRows(s, p, idx, start), Reverse(LeftRows(s, p, idx, start)), r, l);
  }

  lemma CrossIsSound(s: Space, p: Path, idx: nat, start: ReferenceDescription, row: Row)
    requires WellFormed(p) && 0 < idx < |p.nodes|
    requires forall l :: l in Reverse(LeftRows(s, p, idx, start)) ==> |l| == idx + 1 && l[0] == start
    requires row in Cross(RightRows(s, p, idx, start), Reverse(LeftRows(s, p, idx, start)))
    ensures PivotOk(start, p, idx) && |row| == |p.nodes|
    ensures Fits(s, Enforced(p, idx), EngineOrder(Ids(row), idx))
  {
    var rs, ls := RightRows(s, p, idx, start), LeftRows(s, p, idx, start);
    ReverseMembers(ls);
    CrossSound(rs, Reverse(ls), row);
    var r, l :| r in rs && l in Reverse(ls) && row == l[1..] + r;
    CrossRowFits(s, p, idx, start, r, l);
  }

  lemma WalkDescribes(s: Space, start: ReferenceDescription, p: Path, row: Row, i: nat)
    requires WellFormed(p) && row in Walk(s, start, p) && 1 <= i < |p.nodes|
    ensures |row| == |p.nodes| && Describes(s, row[i])
  {
    WalkMember(s, start, p, row);
    hide Walk, Next;
    NextSound(s, row[i - 1].nodeId, Drop(p, i - 1), row[i]);
  }

  lemma CrossDescribes(s: Space, p: Path, idx: nat, start: ReferenceDescription, r: Row, l: Row, c: nat)
    requires WellFormed(p) && 0 < idx < |p.nodes| && c < |p.nodes| && c != idx
    requires r in Walk(s, start, RightHalf(p, idx)) && l in LeftRows(s, p, idx, start)
    ensures |l| == idx + 1 && |l[1..] + r| == |p.nodes| && Describes(s, (l[1..] + r)[c])
  {
    hide Walk, Describes;
    WalkHeads(s, start, RightHalf(p, idx));
    WalkHeads(s, start, LeftHalf(p, idx));
    if c < idx {
      WalkDescribes(s, start, LeftHalf(p, idx), l, c + 1);
    } else {
      WalkDescribes(s, start, RightHalf(p, idx), r, c - idx);
    }
  }

  /** Every element of a row but the start carries the class and type definition of its node. */
  lemma CheckPathDescribes(s: Space, p: Path, idx: nat, start: ReferenceDescription, row: Row, c: nat)
    requires WellFormed(p) && idx < |p.nodes| && c < |p.nodes| && c != idx
    requires CheckPath(s, p, idx, start).Ok? && row in CheckPath(s, p, idx, start).value
    ensures |row| == |p.nodes| && Describes(s, row[c])
  {
    CheckPathSound(s, p, idx, start, row);
    CheckPathIsCross(s, p, idx, start);
    hide CheckPath, Describes, Fits, SupportedAround, LeftHalf, RightHalf;
    if idx > 0 {
      var rs, ls := RightRows(s, p, idx, start), LeftRows(s, p, idx, start);
      ReverseMembers(ls);
      CrossSound(rs, Reverse(ls), row);
      var r, l :| r in rs && l in Reverse(ls) && row == l[1..] + r;
      CrossDescribes(s, p, idx, start, r, l, c);
    } else {
      RightDescribes(s, p, start, row, c);
    }
  }

  lemma RightDescribes(s: Space, p: Path, start: ReferenceDescription, row: Row, c: nat)
    requires WellFormed(p) && 0 < c < |p.nodes| && row in RightRows(s, p, 0, start)
    ensures |row| == |p.nodes| && Describes(s, row[c])
  {
    WalkDescribes(s, start, RightHalf(p, 0), row, c);
  }

  /** Every row of a start element, in every space: the pattern is in the supported fragment, the row
      is as long as the pattern, has the start in the pivot column, and visits, in the engine's column
      order, a walk that fits the enforced constraints. */
  lemma CheckPathSound(s: Space, p: Path, idx: nat, start: ReferenceDescription, row: Row)
    requires WellFormed(p) && idx < |p.nodes|
    requires CheckPath(s, p, idx, start).Ok? && row in CheckPath(s, p, idx, start).value
    ensures SupportedAround(p, idx) && PivotOk(start, p, idx)
    ensures |row| == |p.nodes| && row[idx] == start
    ensures Fits(s, Enforced(p, idx), EngineOrder(Ids(row), idx))
  {
    if !SupportedAround(p, idx) {
      CheckPathUnsupported(s, p, idx, start);
      assert false;
    }
    CheckPathIsCross(s, p, idx, start);
    if idx > 0 {
      CrossIsSound(s, p, idx, start, row);
    } else {
      WalkSound(s, start, RightHalf(p, idx), row);
      EnforcedHalves(p, idx);
      var e := Enforced(p, 0);
      assert Split(e, 0).1 == e && EngineOrder(Ids(row), 0) == Ids(row);
    }
  }

  /** The walk, read off a row in the engine's column order, is one through `start` that fits what is
      enforced of the pattern. */
  ghost predicate Answer(s: Space, p: Path, idx: nat, start: ReferenceDescription, v: seq<NodeId>)
    requires WellFormed(p) && idx < |p.nodes|
  {
    && |v| == |p.nodes| && v[idx] == start.nodeId && PivotOk(start, p, idx)
    && Fits(s, Enforced(p, idx), EngineOrder(v, idx))
  }

  lemma AnswersFound(s: Space, p: Path, idx: nat, start: ReferenceDescription, v: seq<NodeId>)
    requires Valid(s) && WellFormed(p) && idx < |p.nodes| && SupportedAround(p, idx)
    requires BrowsedAround(s, p, idx, v) && Answer(s, p, idx, start, v)
    ensures CheckPath(s, p, idx, start).Ok? && Yields(CheckPath(s, p, idx, start).value, v)
  {
    CheckPathIsCross(s, p, idx, start);
    if idx > 0 {
      CrossIsComplete(s, p, idx, start, v);
    } else {
      RightRowsMeaning(s, p, start, v);
    }
  }

  /** The rows of one start element, for every pattern and every pivot: inside the supported
      fragment they are, in the engine's column order, exactly the walks through the start that
      fit the enforced constraints, and nothing aborts; outside it there are no rows at all. Which
      rows there are is asked of a walk along which no browse is cut short; that a row is such a walk
      holds of all (CheckPathSound). */
  lemma CheckPathMeaning(s: Space, p: Path, idx: nat, start: ReferenceDescription, v: seq<NodeId>)
    requires Valid(s) && WellFormed(p) && idx < |p.nodes| && BrowsedAround(s, p, idx, v)
    ensures var r := CheckPath(s, p, idx, start);
            && (SupportedAround(p, idx) ==> r.Ok?)
            && (r.Ok? ==> (Yields(r.value, v) <==> SupportedAround(p, idx) && Answer(s, p, idx, start, v)))
  {
    if SupportedAround(p, idx) {
      CheckPathIsCross(s, p, idx, start);
    }
    hide CheckPath, SupportedAround, Fits, Enforced, EngineOrder, BrowsedAround, PivotOk;
    var r := CheckPath(s, p, idx, start);
    if r.Ok? {
      if Yields(r.value, v) {
        var row := RowOf(r.value, v);
        CheckPathSound(s, p, idx, start, row);
      } else if SupportedAround(p, idx) && Answer(s, p, idx, start, v) {
        AnswersFound(s, p, idx, start, v);
      }
    }
  }

  lemma CheckPathUnsupported(s: Space, p: Path, idx: nat, start: ReferenceDescription)
    requires WellFormed(p) && idx < |p.nodes| && !SupportedAround(p, idx)
    ensures CheckPath(s, p, idx, start) in {Aborted, Ok([])}
  {
    var left, right := LeftHalf(p, idx), RightHalf(p, idx);
    if !Supported(right) {
      CheckUnsupported(s, start, right);
    } else {
      CheckUnsupported(s, start, left);
      var rs := Check(s, start, right);
      if rs.Ok? && Check(s, start, left).Ok? {
        MergeIsCross(s, left, rs.value, start);
        CrossCount(rs.value, Reverse(Check(s, start, left).value));
      }
    }
  }

  // ---------------------------------------------------------------- when this is the pattern

  /** The pattern asks only for what matching enforces, except at its pivot. */
  predicate Plain(p: Path, idx: nat)
    requires WellFormed(p) && idx < |p.nodes|
  {
    && SupportedAround(p, idx)
    && IdsSymmetric(p, idx)
    && forall j :: 0 <= j < |p.nodes| && j != idx && p.nodes[j].typeDefinitionId.Some? ==>
         (j == 0 || j == |p.nodes| - 1) && p.nodes[j].id.None?
  }

  /** For a plain pattern and a start that meets the pivot's constraints the rows are exactly the
      walks through the start that fit the pattern as written. */
  lemma CheckPathIntended(s: Space, p: Path, idx: nat, start: ReferenceDescription, v: seq<NodeId>)
    requires Valid(s) && WellFormed(p) && idx < |p.nodes| && BrowsedAround(s, p, idx, v)
    requires Plain(p, idx) && Describes(s, start) && NodeOk(s, p.nodes[idx], start.nodeId)
    ensures var r := CheckPath(s, p, idx, start);
            r.Ok? && (Yields(r.value, v) <==>
                      |v| == |p.nodes| && v[idx] == start.nodeId && Fits(s, p, EngineOrder(v, idx)))
  {
    CheckPathMeaning(s, p, idx, start, v);
    if |v| == |p.nodes| && v[idx] == start.nodeId {
      PlainIsEnforced(s, p, idx, EngineOrder(v, idx));
    }
  }

  lemma PlainIsEnforced(s: Space, p: Path, idx: nat, w: seq<NodeId>)
    requires WellFormed(p) && idx < |p.nodes| == |w| && Plain(p, idx)
    ensures Fits(s, p, w) <==> Fits(s, Enforced(p, idx), w) && NodeOk(s, p.nodes[idx], w[idx])
  {
    var e := Enforced(p, idx);
    forall j | 0 <= j < |p.nodes| && j != idx ensures e.nodes[j] == p.nodes[j] {
      EnforcedNode(p, idx, j);
    }
    if Fits(s, e, w) && NodeOk(s, p.nodes[idx], w[idx]) {
      forall j | 0 <= j < |p.nodes| ensures NodeOk(s, p.nodes[j], w[j]) {
        assert NodeOk(s, e.nodes[j], w[j]);
      }
    }
    if Fits(s, p, w) {
      forall j | 0 <= j < |e.nodes| ensures NodeOk(s, e.nodes[j], w[j]) {
        assert NodeOk(s, p.nodes[j], w[j]);
      }
    }
  }

  lemma FitsInside(s: Space, p: Path, w: seq<NodeId>, k: nat)
    requires Valid(s) && Fits(s, p, w) && 1 <= k < |p.nodes|
    ensures w[k] in s.nodes && MatchesId(p.nodes[k].id, w[k])
  {
    assert NodeOk(s, p.nodes[k], w[k]);
    assert Step(s, w[k - 1], p.relations[k - 1], w[k - 1 + 1]);
  }

  lemma LostId(p: Path, idx: nat) returns (k: nat)
    requires WellFormed(p) && 0 < idx < |p.nodes| && !IdsSymmetric(p, idx)
    ensures 1 <= k < idx && EnforcedHalf(LeftHalf(p, idx)).nodes[k].id == Some(NullId)
  {
    var j :| 1 <= j < idx && p.nodes[j].id.None? && p.nodes[idx - j].id.Some?;
    k := idx - j;
    var ns := p.nodes[..idx] + [ANY_NODE];
    assert ns[k] == p.nodes[k] && ns[j] == p.nodes[j];
    assert LeftHalf(p, idx).nodes[k] == Assign(ns[k], ns[j]);
  }

  lemma LostIdsBlockLeft(s: Space, p: Path, idx: nat, start: ReferenceDescription, l: Row)
    requires Valid(s) && WellFormed(p) && 0 < idx < |p.nodes| && !IdsSymmetric(p, idx)
    ensures l !in LeftRows(s, p, idx, start)
  {
    if l in LeftRows(s, p, idx, start) {
      var k := LostId(p, idx);
      var left := LeftHalf(p, idx);
      assert l in Walk(s, start, left);
      WalkSound(s, start, left, l);
      FitsInside(s, EnforcedHalf(left), Ids(l), k);
    }
  }

  /** When turning the left half around loses an id, no start element has a row. */
  lemma LostIdsFindNothing(s: Space, p: Path, idx: nat, start: ReferenceDescription)
    requires Valid(s) && WellFormed(p) && 0 < idx < |p.nodes| && !IdsSymmetric(p, idx)
    ensures CheckPath(s, p, idx, start) in {Aborted, Ok([])}
  {
    if SupportedAround(p, idx) {
      CheckPathIsCross(s, p, idx, start);
      var ls := LeftRows(s, p, idx, start);
      if ls != [] {
        LostIdsBlockLeft(s, p, idx, start, ls[0]);
      }
      CrossCount(RightRows(s, p, idx, start), Reverse(ls));
    } else {
      CheckPathUnsupported(s, p, idx, start);
    }
  }

  /** The pattern node whose matches column `c` holds. */
  function NodeOfColumn(idx: nat, c: nat): nat {
    if c < idx then idx - 1 - c else c
  }

  lemma ColumnHolds<T>(w: seq<T>, idx: nat, c: nat)
    requires c < |w| && idx < |w|
    ensures EngineOrder(w, idx)[c] == w[NodeOfColumn(idx, c)]
  {
    var front := Reverse(w[..idx]);
    if c < idx {
      assert front[c] == w[..idx][idx - 1 - c];
    }
  }

  lemma ColumnsDiffer(n: nat, c: nat, j: nat) returns (u: seq<NodeId>)
    requires c < n && j < n && c != j
    ensures |u| == n && u[j] != u[c]
  {
    u := seq(n, i => if i == c then NullId else Numeric(0, 0));
  }

  /** A result column holds the matches of the pattern node with its index exactly right of the
      pivot, at the pivot, and at the middle of an odd number of nodes left of it. */
  lemma ColumnAlignment(w: seq<NodeId>, idx: nat, c: nat)
    requires c < |w| && idx < |w|
    ensures EngineOrder(w, idx)[c] == w[NodeOfColumn(idx, c)]
    ensures (forall u: seq<NodeId> :: |u| == |w| ==> EngineOrder(u, idx)[c] == u[c]) <==> c >= idx || 2 * c == idx - 1
  {
    hide EngineOrder;
    ColumnHolds(w, idx, c);
    if c >= idx || 2 * c == idx - 1 {
      forall u: seq<NodeId> | |u| == |w| ensures EngineOrder(u, idx)[c] == u[c] {
        ColumnHolds(u, idx, c);
      }
    } else {
      var u := ColumnsDiffer(|w|, c, NodeOfColumn(idx, c));
      ColumnHolds(u, idx, c);
    }
  }
}
