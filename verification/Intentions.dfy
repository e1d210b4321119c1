/** Exactly which patterns are matched as they are written, and exactly which pivots are looked at. */
module Intentions {
  import opened Wrappers
  import opened Sequences
  import opened AddressSpace
  import opened Pattern
  import opened Matching
  import opened Meaning
  import opened ExampleSpaces
  import opened Assertions

  lemma EngineOrderTwice<T>(w: seq<T>, idx: nat)
    requires idx < |w|
    ensures EngineOrder(EngineOrder(w, idx), idx) == w
    ensures EngineOrder(w, idx)[idx] == w[idx]
  {
    var v := EngineOrder(w, idx);
    assert v[..idx] == Reverse(w[..idx]) && v[idx..] == w[idx..];
    ReverseTwice(w[..idx]);
  }

  lemma AllBrowsedAround(s: Space, p: Path, idx: nat, v: seq<NodeId>)
    requires WellFormed(p) && idx < |p.nodes| && Uncapped(s)
    ensures BrowsedAround(s, p, idx, v)
  {
    hide Uncapped, BrowsedAlong;
    if |v| == |p.nodes| {
      AllBrowsed(s, RightHalf(p, idx), v[idx..]);
      if idx > 0 {
        AllBrowsed(s, LeftHalf(p, idx), [v[idx]] + v[..idx]);
      }
    }
  }

  /** A walk that fits what is enforced has a row. */
  lemma WalkIsFound(s: Space, p: Path, idx: nat, w: seq<NodeId>)
    requires Valid(s) && Uncapped(s) && WellFormed(p) && idx < |p.nodes| == |w| && SupportedAround(p, idx)
    requires Fits(s, Enforced(p, idx), w) && PivotOk(Element(s, w[idx]), p, idx)
    ensures var r := CheckPath(s, p, idx, Element(s, w[idx]));
            r.Ok? && Yields(r.value, EngineOrder(w, idx))
  {
    hide Fits, Enforced, Uncapped, SupportedAround, EngineOrder, PivotOk, CheckPath, BrowsedAround;
    var v := EngineOrder(w, idx);
    EngineOrderTwice(w, idx);
    AllBrowsedAround(s, p, idx, v);
    assert Answer(s, p, idx, Element(s, w[idx]), v);
    AnswersFound(s, p, idx, Element(s, w[idx]), v);
  }

  // ---------------------------------------------------------------- the pivot

  /** The pivot of every row meets what the pattern asks of it, in every space and from every element
      that describes a node of the space. */
  ghost predicate PivotsMeetPattern(p: Path, idx: nat)
    requires WellFormed(p) && idx < |p.nodes|
  {
    forall s, start: ReferenceDescription, row: Row ::
      Valid(s) && Uncapped(s) && start.nodeId in s.nodes && Describes(s, start)
      && CheckPath(s, p, idx, start).Ok? && row in CheckPath(s, p, idx, start).value ==>
        NodeOk(s, p.nodes[idx], row[idx].nodeId)
  }

  /** A node with the id, or with one of its own, that is not what `n` asks for. */
  function Contrary(n: Node, id: Option<NodeId>): Node {
    Node(if n.nodeClass == Object then Variable else Object, id, None)
  }

  /** What is enforced of the pattern, with a pivot that is not what the pattern asks for. */
  function WrongPivot(p: Path, idx: nat, id: Option<NodeId>): Path
    requires idx < |p.nodes|
  {
    var e := Enforced(p, idx);
    Path(e.nodes[idx := Contrary(p.nodes[idx], id)], e.relations)
  }

  /** The pattern asks nothing of its pivot, or only for the node with the id. */
  predicate AsksAtMostFor(n: Node, id: Option<NodeId>) {
    n == ANY_NODE || (id.Some? && n == Node(Unspecified, id, None))
  }

  /** No node but the pivot asks for the id. */
  predicate OnlyPivotAsks(p: Path, idx: nat, id: Option<NodeId>)
    requires idx < |p.nodes|
  {
    id.Some? ==> id.value != NullId && forall j :: 0 <= j < |p.nodes| && j != idx ==> p.nodes[j].id != id
  }

  lemma WrongPivotConsistent(p: Path, idx: nat, id: Option<NodeId>)
    requires WellFormed(p) && idx < |p.nodes| && NoNullIds(p) && OneClassPerId(p) && Light(p) && IdsSymmetric(p, idx)
    requires OnlyPivotAsks(p, idx, id)
    ensures OneNodePerId(WrongPivot(p, idx, id)) && Light(WrongPivot(p, idx, id))
    ensures Unused(WrongPivot(p, idx, id), FreeNamespace(p, id))
  {
    var q := WrongPivot(p, idx, id);
    forall j | 0 <= j < |p.nodes| && j != idx
      ensures q.nodes[j] == WithoutType(p.nodes[j], j == 0 || j == |p.nodes| - 1)
    {
      EnforcedNode(p, idx, j);
    }
    NamespaceIsFree(p, id);
  }

  lemma WrongPivotIsWrong(p: Path, idx: nat, id: Option<NodeId>)
    requires WellFormed(p) && idx < |p.nodes| && !AsksAtMostFor(p.nodes[idx], id)
    requires p.nodes[idx].typeDefinitionId != Some(NullId)
    requires var q := WrongPivot(p, idx, id); WellFormed(q) && OneNodePerId(q) && Unused(q, FreeNamespace(p, id))
    ensures var q, ns := WrongPivot(p, idx, id), FreeNamespace(p, id);
            !NodeOk(LineOf(q, ns), p.nodes[idx], NodeFor(q, ns, idx))
  {
    NamespaceIsFree(p, id);
    LineOfNode(WrongPivot(p, idx, id), FreeNamespace(p, id), idx);
  }

  lemma WrongPivotEnforced(s: Space, p: Path, idx: nat, id: Option<NodeId>, w: seq<NodeId>)
    requires WellFormed(p) && idx < |p.nodes| && Fits(s, WrongPivot(p, idx, id), w)
    ensures Fits(s, Enforced(p, idx), w)
  {
    var q, e := WrongPivot(p, idx, id), Enforced(p, idx);
    forall i | 0 <= i < |e.nodes| ensures NodeOk(s, e.nodes[i], w[i]) {
      assert NodeOk(s, q.nodes[i], w[i]);
    }
    forall i | 0 <= i < |e.relations| ensures Step(s, w[i], e.relations[i], w[i + 1]) {
      assert Step(s, w[i], q.relations[i], w[i + 1]);
    }
  }

  /** A space, a node of it and a row whose pivot is not what the pattern asks for. The node may have
      any id that no other node of the pattern asks for. */
  lemma PivotIgnored(p: Path, idx: nat, id: Option<NodeId>) returns (s: Space, start: ReferenceDescription, row: Row)
    requires WellFormed(p) && idx + 1 < |p.nodes| && NoNullIds(p) && OneClassPerId(p) && Light(p)
    requires !AsksAtMostFor(p.nodes[idx], id) && p.nodes[idx].typeDefinitionId != Some(NullId)
    requires OnlyPivotAsks(p, idx, id) && SupportedAround(p, idx) && IdsSymmetric(p, idx)
    ensures Valid(s) && Uncapped(s) && start.nodeId in s.nodes && start == Element(s, start.nodeId)
    ensures id.Some? ==> start.nodeId == id.value
    ensures start.typeDefinition == NullId && (!AsksForHierarchy(p) ==> Flat(s))
    ensures CheckPath(s, p, idx, start).Ok? && row in CheckPath(s, p, idx, start).value
    ensures !NodeOk(s, p.nodes[idx], row[idx].nodeId)
  {
    hide LineOf, Fits, Uncapped, Valid, SupportedAround, CheckPath, NodeOk, EngineOrder, Flat;
    var q, ns := WrongPivot(p, idx, id), FreeNamespace(p, id);
    WrongPivotConsistent(p, idx, id);
    s := LineOf(q, ns);
    var w := Straight(q, ns);
    start := Element(s, w[idx]);
    LineIsValid(q, ns);
    LineFits(q, ns);
    LineOfNode(q, ns, idx);
    if !AsksForHierarchy(p) {
      LineIsFlat(q, ns);
    }
    WrongPivotEnforced(s, p, idx, id, w);
    WrongPivotIsWrong(p, idx, id);
    WalkIsFound(s, p, idx, w);
    row := RowOf(CheckPath(s, p, idx, start).value, EngineOrder(w, idx));
  }

  lemma PivotsChecked(s: Space, p: Path, idx: nat, start: ReferenceDescription, row: Row)
    requires WellFormed(p) && idx < |p.nodes| && Valid(s) && Describes(s, start)
    requires CheckPath(s, p, idx, start).Ok? && row in CheckPath(s, p, idx, start).value
    requires idx == |p.nodes| - 1 || p.nodes[idx] == ANY_NODE || !SupportedAround(p, idx) || !IdsSymmetric(p, idx)
    ensures NodeOk(s, p.nodes[idx], row[idx].nodeId)
  {
    hide CheckPath, SupportedAround, IdsSymmetric, Fits;
    CheckPathSound(s, p, idx, start, row);
    if !IdsSymmetric(p, idx) {
      assert idx > 0 by { SymmetricAtFront(p, idx); }
      LostIdsFindNothing(s, p, idx, start);
    }
  }

  lemma SymmetricAtFront(p: Path, idx: nat)
    requires idx < |p.nodes|
    ensures idx == 0 ==> IdsSymmetric(p, idx)
  {
  }

  /** What the pattern asks of its pivot is looked at exactly when nothing follows the pivot: elsewhere
      some row has a node there that is not what the pattern asks for, unless it asks for nothing or has
      no rows at all, being outside the supported fragment or losing an id. */
  lemma PivotCheckedIff(p: Path, idx: nat)
    requires WellFormed(p) && idx < |p.nodes| && NoNullIds(p) && OneClassPerId(p) && Light(p)
    requires p.nodes[idx].typeDefinitionId != Some(NullId)
    ensures PivotsMeetPattern(p, idx) <==>
            idx == |p.nodes| - 1 || p.nodes[idx] == ANY_NODE || !SupportedAround(p, idx) || !IdsSymmetric(p, idx)
  {
    hide CheckPath, SupportedAround, IdsSymmetric, NodeOk, Uncapped, Valid;
    if idx == |p.nodes| - 1 || p.nodes[idx] == ANY_NODE || !SupportedAround(p, idx) || !IdsSymmetric(p, idx) {
      forall s, start: ReferenceDescription, row: Row |
        Valid(s) && Describes(s, start) && CheckPath(s, p, idx, start).Ok? && row in CheckPath(s, p, idx, start).value
        ensures NodeOk(s, p.nodes[idx], row[idx].nodeId)
      {
        PivotsChecked(s, p, idx, start, row);
      }
    } else {
      var s, start, row := PivotIgnored(p, idx, None);
    }
  }

  // ---------------------------------------------------------------- the pattern as written

  /** The rows of one start element are, in the engine's column order, exactly the walks through it that
      fit the pattern as written. */
  ghost predicate AsWritten(s: Space, p: Path, idx: nat, start: ReferenceDescription, v: seq<NodeId>)
    requires WellFormed(p) && idx < |p.nodes|
  {
    var r := CheckPath(s, p, idx, start);
    r.Ok? && (Yields(r.value, v) <==> |v| == |p.nodes| && v[idx] == start.nodeId && Fits(s, p, EngineOrder(v, idx)))
  }

  /** So it is in every space and for every element that describes a node the pattern allows as pivot. */
  ghost predicate Intended(p: Path, idx: nat)
    requires WellFormed(p) && idx < |p.nodes|
  {
    forall s, start: ReferenceDescription, v {:trigger AsWritten(s, p, idx, start, v)} ::
      Valid(s) && Uncapped(s) && start.nodeId in s.nodes && Describes(s, start)
          && NodeOk(s, p.nodes[idx], start.nodeId) ==>
        AsWritten(s, p, idx, start, v)
  }

  function ForgetType(p: Path, j: nat): Path
    requires j < |p.nodes|
  {
    Path(p.nodes[j := p.nodes[j].(typeDefinitionId := None)], p.relations)
  }

  lemma ForgetTypeConsistent(p: Path, j: nat)
    requires NoNullIds(p) && DistinctIds(p) && j < |p.nodes|
    ensures DistinctIds(ForgetType(p, j))
    ensures OneNodePerId(p) && OneNodePerId(ForgetType(p, j))
    ensures Unused(p, MaxNs(p.nodes) + 1) && Unused(ForgetType(p, j), MaxNs(p.nodes) + 1)
  {
    NamespaceUnused(p);
  }

  lemma ForgetTypeEnforced(s: Space, p: Path, idx: nat, j: nat, w: seq<NodeId>)
    requires WellFormed(p) && idx < |p.nodes| && IdsSymmetric(p, idx) && j < |p.nodes| && j != idx
    requires !((j == 0 || j == |p.nodes| - 1) && p.nodes[j].id.None?)
    requires Fits(s, ForgetType(p, j), w)
    ensures Fits(s, Enforced(p, idx), w) && NodeOk(s, p.nodes[idx], w[idx])
  {
    hide Step;
    var q, e := ForgetType(p, j), Enforced(p, idx);
    forall i | 0 <= i < |e.nodes| ensures NodeOk(s, e.nodes[i], w[i]) {
      assert NodeOk(s, q.nodes[i], w[i]);
      if i != idx { EnforcedNode(p, idx, i); }
    }
    assert NodeOk(s, q.nodes[idx], w[idx]);
    forall i | 0 <= i < |e.relations| ensures Step(s, w[i], e.relations[i], w[i + 1]) {
      assert Step(s, w[i], q.relations[i], w[i + 1]);
    }
  }

  /** A walk that fits the pattern is lost: the pattern is outside the supported fragment, or loses an id. */
  lemma WalkLost(p: Path, idx: nat) returns (s: Space, start: ReferenceDescription, v: seq<NodeId>)
    requires WellFormed(p) && idx < |p.nodes| && NoNullIds(p) && DistinctIds(p)
    requires !SupportedAround(p, idx) || !IdsSymmetric(p, idx)
    ensures Valid(s) && Uncapped(s) && start.nodeId in s.nodes && Describes(s, start)
    ensures NodeOk(s, p.nodes[idx], start.nodeId) && !AsWritten(s, p, idx, start, v)
    ensures |v| == |p.nodes| && v[idx] == start.nodeId && Fits(s, p, EngineOrder(v, idx))
    ensures CheckPath(s, p, idx, start) in {Aborted, Ok([])}
  {
    hide LineOf, Fits, Uncapped, Valid, SupportedAround, IdsSymmetric, CheckPath, NodeOk, EngineOrder;
    var ns := MaxNs(p.nodes) + 1;
    ForgetTypeConsistent(p, idx);
    s := LineOf(p, ns);
    var w := Straight(p, ns);
    start := Element(s, w[idx]);
    v := EngineOrder(w, idx);
    LineIsValid(p, ns);
    LineFits(p, ns);
    LineOfNode(p, ns, idx);
    EngineOrderTwice(w, idx);
    if !SupportedAround(p, idx) {
      CheckPathUnsupported(s, p, idx, start);
    } else {
      assert idx > 0 by { SymmetricAtFront(p, idx); }
      LostIdsFindNothing(s, p, idx, start);
    }
  }

  /** A walk that does not fit the pattern has a row: one of its types is not looked at. */
  lemma WalkTooMany(p: Path, idx: nat, j: nat) returns (s: Space, start: ReferenceDescription, v: seq<NodeId>)
    requires WellFormed(p) && idx < |p.nodes| && NoNullIds(p) && DistinctIds(p)
    requires SupportedAround(p, idx) && IdsSymmetric(p, idx)
    requires j < |p.nodes| && j != idx && p.nodes[j].typeDefinitionId.Some?
             && p.nodes[j].typeDefinitionId.value != NullId
    requires !((j == 0 || j == |p.nodes| - 1) && p.nodes[j].id.None?)
    ensures Valid(s) && Uncapped(s) && start.nodeId in s.nodes && Describes(s, start)
    ensures NodeOk(s, p.nodes[idx], start.nodeId) && !AsWritten(s, p, idx, start, v)
    ensures CheckPath(s, p, idx, start).Ok? && Yields(CheckPath(s, p, idx, start).value, v)
  {
    hide LineOf, Uncapped, Valid, SupportedAround, IdsSymmetric, CheckPath, EngineOrder, Step, Yields;
    var q, ns := ForgetType(p, j), MaxNs(p.nodes) + 1;
    ForgetTypeConsistent(p, j);
    s := LineOf(q, ns);
    var w := Straight(q, ns);
    start := Element(s, w[idx]);
    v := EngineOrder(w, idx);
    LineIsValid(q, ns);
    LineFits(q, ns);
    LineOfNode(q, ns, idx);
    LineOfNode(q, ns, j);
    ForgetTypeEnforced(s, p, idx, j, w);
    WalkIsFound(s, p, idx, w);
    EngineOrderTwice(w, idx);
    assert !NodeOk(s, p.nodes[j], w[j]);
  }

  /** The rows are the walks that fit the pattern as written, whatever the space and the start, exactly
      for the plain patterns. For every other one a fitting walk is lost, or a walk that does not fit has
      a row. */
  lemma IntendedIffPlain(p: Path, idx: nat)
    requires WellFormed(p) && idx < |p.nodes| && NoNullIds(p) && DistinctIds(p)
    requires forall j :: 0 <= j < |p.nodes| ==> p.nodes[j].typeDefinitionId != Some(NullId)
    ensures Intended(p, idx) <==> Plain(p, idx)
  {
    hide SupportedAround, IdsSymmetric, AsWritten, NodeOk, Uncapped, Valid, Describes;
    if Plain(p, idx) {
      forall s, start: ReferenceDescription, v |
        Valid(s) && Uncapped(s) && Describes(s, start) && NodeOk(s, p.nodes[idx], start.nodeId)
        ensures AsWritten(s, p, idx, start, v)
      {
        PlainAsWritten(s, p, idx, start, v);
      }
    } else if !SupportedAround(p, idx) || !IdsSymmetric(p, idx) {
      var s, start, v := WalkLost(p, idx);
    } else {
      var j :| 0 <= j < |p.nodes| && j != idx && p.nodes[j].typeDefinitionId.Some?
        && !((j == 0 || j == |p.nodes| - 1) && p.nodes[j].id.None?);
      var s, start, v := WalkTooMany(p, idx, j);
    }
  }

  lemma PlainAsWritten(s: Space, p: Path, idx: nat, start: ReferenceDescription, v: seq<NodeId>)
    requires WellFormed(p) && idx < |p.nodes| && Plain(p, idx)
    requires Valid(s) && Uncapped(s) && Describes(s, start) && NodeOk(s, p.nodes[idx], start.nodeId)
    ensures AsWritten(s, p, idx, start, v)
  {
    hide CheckPath, Plain, Fits, EngineOrder, NodeOk, Uncapped, Valid, Yields;
    AllBrowsedAround(s, p, idx, v);
    CheckPathIntended(s, p, idx, start, v);
  }
}
