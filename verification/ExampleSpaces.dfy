/** Address spaces made for a pattern: a node for each of its positions, and references between all of
    them, or only from each to the next. They show what a pattern can do that its text does not say. */
module ExampleSpaces {
  import opened Wrappers
  import opened Sequences
  import opened AddressSpace
  import opened Pattern

  /** Nodes that ask for one id ask for the same, and none asks for the null id. */
  predicate OneNodePerId(p: Path) {
    && NoNullIds(p)
    && forall i, j :: 0 <= i < j < |p.nodes| && p.nodes[i].id.Some? && p.nodes[i].id == p.nodes[j].id ==>
         p.nodes[i] == p.nodes[j]
  }

  predicate NoNullIds(p: Path) {
    forall i :: 0 <= i < |p.nodes| ==> p.nodes[i].id != Some(NullId)
  }

  /** No two nodes of the pattern ask for one id with different classes. */
  predicate OneClassPerId(p: Path) {
    forall i, j :: 0 <= i < j < |p.nodes| && p.nodes[i].id.Some? && p.nodes[i].id == p.nodes[j].id ==>
      p.nodes[i].nodeClass == p.nodes[j].nodeClass
  }

  /** No two nodes ask for one id. */
  predicate DistinctIds(p: Path) {
    forall i, j :: 0 <= i < j < |p.nodes| && p.nodes[i].id.Some? ==> p.nodes[i].id != p.nodes[j].id
  }

  /** No node can be asked for often enough to be cut short when its references are followed: no id is
      asked for twice, or the pattern is short. */
  predicate Light(p: Path) {
    DistinctIds(p) || 2 * |p.nodes| <= MAX_REFERENCES
  }

  function MaxNs(ns: seq<Node>): nat {
    if ns == [] then 0
    else
      var rest := MaxNs(ns[1..]);
      match ns[0].id
      case Some(Numeric(n, _)) => if n > rest then n else rest
      case _ => rest
  }

  lemma {:induction false} MaxNsBounds(ns: seq<Node>, k: nat)
    requires k < |ns| && ns[k].id.Some? && ns[k].id.value.Numeric?
    ensures ns[k].id.value.ns <= MaxNs(ns)
  {
    if k > 0 { MaxNsBounds(ns[1..], k - 1); }
  }

  /** No id of the pattern is in the namespace. */
  predicate Unused(p: Path, ns: nat) {
    forall k :: 0 <= k < |p.nodes| && p.nodes[k].id.Some? && p.nodes[k].id.value.Numeric? ==>
        p.nodes[k].id.value.ns != ns
  }

  /** The node that stands for position `k`: the one its id names, or one of its own. */
  function NodeFor(p: Path, ns: nat, k: nat): NodeId
    requires k < |p.nodes|
  {
    if p.nodes[k].id.Some? then p.nodes[k].id.value else Numeric(ns, k)
  }

  function AttributesFor(n: Node): Attributes {
    Attributes(if n.nodeClass == Unspecified then Object else n.nodeClass,
               if n.typeDefinitionId.Some? then n.typeDefinitionId.value else NullId)
  }

  lemma NodesForAgree(p: Path, ns: nat, j: nat, k: nat)
    requires OneNodePerId(p) && Unused(p, ns) && j < |p.nodes| && k < |p.nodes|
             && NodeFor(p, ns, j) == NodeFor(p, ns, k)
    ensures p.nodes[j] == p.nodes[k]
  {
  }

  /** The walk through the nodes in the order of their positions. */
  function Straight(p: Path, ns: nat): seq<NodeId> {
    seq(|p.nodes|, k requires 0 <= k < |p.nodes| => NodeFor(p, ns, k))
  }

  function WithoutRepeats(ns: seq<NodeId>): (r: seq<NodeId>)
    ensures |r| <= |ns| && Distinct(r) && forall n :: n in r <==> n in ns
  {
    if ns == [] then []
    else
      var rest := WithoutRepeats(ns[1..]);
      if ns[0] in rest then rest else [ns[0]] + rest
  }

  function Between(a: NodeId, bs: seq<NodeId>, t: NodeId): seq<Reference> {
    seq(|bs|, i requires 0 <= i < |bs| => Reference(a, t, bs[i]))
  }

  function AllPairs(az: seq<NodeId>, bs: seq<NodeId>, t: NodeId): seq<Reference> {
    if az == [] then [] else Between(az[0], bs, t) + AllPairs(az[1..], bs, t)
  }

  lemma {:induction false} AllPairsMember(az: seq<NodeId>, bs: seq<NodeId>, t: NodeId, r: Reference)
    ensures r in AllPairs(az, bs, t) <==> r.source in az && r.target in bs && r.referenceType == t
  {
    if az != [] {
      AllPairsMember(az[1..], bs, t, r);
      var here := Between(az[0], bs, t);
      if r.source == az[0] && r.target in bs && r.referenceType == t {
        var i :| 0 <= i < |bs| && bs[i] == r.target;
        assert here[i] == r;
      }
    }
  }

  lemma {:induction false} DescribeAllConcat(s: Space, bd: BrowseDescription, a: seq<Reference>, b: seq<Reference>)
    ensures DescribeAll(s, bd, a + b) == DescribeAll(s, bd, a) + DescribeAll(s, bd, b)
    decreases |a|
  {
    if a == [] {
      assert a + b == b;
    } else {
      assert (a + b)[0] == a[0] && (a + b)[1..] == a[1..] + b;
      DescribeAllConcat(s, bd, a[1..], b);
    }
  }

  /** One row of references holds at most one that points back at the browsed node. */
  lemma {:induction false} BetweenCount(s: Space, bd: BrowseDescription, a: NodeId, bs: seq<NodeId>, t: NodeId)
    requires Distinct(bs)
    ensures |DescribeAll(s, bd, Between(a, bs, t))|
            <= (if a == bd.nodeId then |bs| else 0) + (if bd.nodeId in bs then 1 else 0)
    decreases |bs|
  {
    if bs != [] {
      BetweenCount(s, bd, a, bs[1..], t);
      assert Between(a, bs, t)[1..] == Between(a, bs[1..], t);
      assert bs[0] !in bs[1..];
    }
  }

  lemma {:induction false} AllPairsCount(s: Space, bd: BrowseDescription, az: seq<NodeId>, bs: seq<NodeId>, t: NodeId)
    requires Distinct(az) && Distinct(bs)
    ensures |DescribeAll(s, bd, AllPairs(az, bs, t))| <= (if bd.nodeId in az then |bs| else 0) + |az|
  {
    if az != [] {
      AllPairsCount(s, bd, az[1..], bs, t);
      DescribeAllConcat(s, bd, Between(az[0], bs, t), AllPairs(az[1..], bs, t));
      BetweenCount(s, bd, az[0], bs, t);
      assert az[0] !in az[1..];
    }
  }

  /** A node for each position that meets what the pattern asks of it. All references are to be of one
      type, which is a subtype of every type the pattern asks for. */
  function SpaceWith(p: Path, ns: nat, references: seq<Reference>): Space
    requires OneNodePerId(p) && Unused(p, ns)
  {
    assert forall j, k :: 0 <= j < |p.nodes| && 0 <= k < |p.nodes| && NodeFor(p, ns, j) == NodeFor(p, ns, k) ==>
        p.nodes[j] == p.nodes[k] by {
      forall j, k | 0 <= j < |p.nodes| && 0 <= k < |p.nodes| && NodeFor(p, ns, j) == NodeFor(p, ns, k)
        ensures p.nodes[j] == p.nodes[k] { NodesForAgree(p, ns, j, k); }
    }
    Space(map k | 0 <= k < |p.nodes| :: NodeFor(p, ns, k) := AttributesFor(p.nodes[k]),
          references,
          set r | r in p.relations :: (Numeric(ns, 0), r.referenceType))
  }

  lemma SpaceWithNode(p: Path, ns: nat, references: seq<Reference>, k: nat)
    requires OneNodePerId(p) && Unused(p, ns) && k < |p.nodes|
    ensures var s := SpaceWith(p, ns, references);
            NodeFor(p, ns, k) in s.nodes && s.nodes[NodeFor(p, ns, k)] == AttributesFor(p.nodes[k])
            && NodeOk(s, p.nodes[k], NodeFor(p, ns, k))
  {
    var j :| 0 <= j < |p.nodes| && NodeFor(p, ns, j) == NodeFor(p, ns, k)
      && SpaceWith(p, ns, references).nodes[NodeFor(p, ns, k)] == AttributesFor(p.nodes[j]);
    NodesForAgree(p, ns, j, k);
  }

  lemma SpaceWithKeys(p: Path, ns: nat, references: seq<Reference>)
    requires OneNodePerId(p) && Unused(p, ns)
    ensures forall n :: n in SpaceWith(p, ns, references).nodes <==> n in Straight(p, ns)
  {
    var w := Straight(p, ns);
    forall n | n in w ensures n in SpaceWith(p, ns, references).nodes {
      var k :| 0 <= k < |w| && w[k] == n;
    }
    forall n | n in SpaceWith(p, ns, references).nodes ensures n in w {
      var k :| 0 <= k < |p.nodes| && NodeFor(p, ns, k) == n;
      assert w[k] == n;
    }
  }

  lemma SpaceWithIsValid(p: Path, ns: nat, references: seq<Reference>)
    requires OneNodePerId(p) && Unused(p, ns)
    requires forall r :: r in references ==> r.source in Straight(p, ns) && r.target in Straight(p, ns)
    ensures Valid(SpaceWith(p, ns, references))
  {
    var s := SpaceWith(p, ns, references);
    SpaceWithKeys(p, ns, references);
    forall n | n in s.nodes ensures n != NullId && s.nodes[n].nodeClass != Unspecified {
      var k :| 0 <= k < |p.nodes| && NodeFor(p, ns, k) == n;
      SpaceWithNode(p, ns, references, k);
    }
  }

  /** A reference of the space's type that leads from `a` to `b` as the relation says. */
  function Along(a: NodeId, r: Relation, b: NodeId, t: NodeId): Reference {
    if r.direction == Inverse then Reference(b, t, a) else Reference(a, t, b)
  }

  lemma AlongIsStep(p: Path, ns: nat, references: seq<Reference>, a: NodeId, r: Relation, b: NodeId)
    requires OneNodePerId(p) && Unused(p, ns) && r in p.relations && Along(a, r, b, Numeric(ns, 0)) in references
    ensures Step(SpaceWith(p, ns, references), a, r, b)
  {
    var s, t := SpaceWith(p, ns, references), Numeric(ns, 0);
    assert (t, r.referenceType) in s.subtypes;
    assert TypeMatches(s, r.referenceType, t);
    assert Along(a, r, b, t) in s.references;
  }

  lemma SpaceWithFits(p: Path, ns: nat, references: seq<Reference>)
    requires WellFormed(p) && OneNodePerId(p) && Unused(p, ns)
    requires forall k :: 0 <= k < |p.relations| ==>
               Along(NodeFor(p, ns, k), p.relations[k], NodeFor(p, ns, k + 1), Numeric(ns, 0)) in references
    ensures Fits(SpaceWith(p, ns, references), p, Straight(p, ns))
  {
    var s, w := SpaceWith(p, ns, references), Straight(p, ns);
    hide SpaceWith, Step, NodeOk, Along;
    forall k | 0 <= k < |p.nodes| ensures NodeOk(s, p.nodes[k], w[k]) {
      SpaceWithNode(p, ns, references, k);
    }
    forall k | 0 <= k < |p.relations| ensures Step(s, w[k], p.relations[k], w[k + 1]) {
      AlongIsStep(p, ns, references, NodeFor(p, ns, k), p.relations[k], NodeFor(p, ns, k + 1));
    }
  }

  // ---------------------------------------------------------------- references between all nodes

  function AllReferences(p: Path, ns: nat): seq<Reference> {
    var ids := WithoutRepeats(Straight(p, ns));
    AllPairs(ids, ids, Numeric(ns, 0))
  }

  function SpaceOf(p: Path, ns: nat): Space
    requires OneNodePerId(p) && Unused(p, ns)
  {
    SpaceWith(p, ns, AllReferences(p, ns))
  }

  lemma SpaceOfSteps(p: Path, ns: nat, a: NodeId, r: Relation, b: NodeId)
    requires OneNodePerId(p) && Unused(p, ns) && r in p.relations
    requires a in SpaceOf(p, ns).nodes && b in SpaceOf(p, ns).nodes
    ensures Step(SpaceOf(p, ns), a, r, b)
  {
    var t, ids := Numeric(ns, 0), WithoutRepeats(Straight(p, ns));
    SpaceWithKeys(p, ns, AllReferences(p, ns));
    AllPairsMember(ids, ids, t, Along(a, r, b, t));
    AlongIsStep(p, ns, AllReferences(p, ns), a, r, b);
  }

  lemma SpaceOfIsValid(p: Path, ns: nat)
    requires OneNodePerId(p) && Unused(p, ns) && 2 * |p.nodes| <= MAX_REFERENCES
    ensures Valid(SpaceOf(p, ns)) && Uncapped(SpaceOf(p, ns))
  {
    var s, t, ids := SpaceOf(p, ns), Numeric(ns, 0), WithoutRepeats(Straight(p, ns));
    forall r | r in AllReferences(p, ns) ensures r.source in Straight(p, ns) && r.target in Straight(p, ns) {
      AllPairsMember(ids, ids, t, r);
    }
    SpaceWithIsValid(p, ns, AllReferences(p, ns));
    forall bd ensures NotCut(s, bd) {
      AllPairsCount(s, bd, ids, ids, t);
    }
  }

  // ---------------------------------------------------------------- references along the pattern only

  /** One reference for each relation, along the walk. */
  function LineOfReferences(w: seq<NodeId>, rs: seq<Relation>, t: NodeId): seq<Reference>
    requires |w| == |rs| + 1
  {
    if rs == [] then [] else [Along(w[0], rs[0], w[1], t)] + LineOfReferences(w[1..], rs[1..], t)
  }

  lemma {:induction false} LineMember(w: seq<NodeId>, rs: seq<Relation>, t: NodeId, k: nat)
    requires |w| == |rs| + 1 && k < |rs|
    ensures Along(w[k], rs[k], w[k + 1], t) in LineOfReferences(w, rs, t)
  {
    if k > 0 { LineMember(w[1..], rs[1..], t, k - 1); }
  }

  lemma {:induction false} LineEnds(w: seq<NodeId>, rs: seq<Relation>, t: NodeId, r: Reference)
    requires |w| == |rs| + 1 && r in LineOfReferences(w, rs, t)
    ensures r.source in w && r.target in w
  {
    if r != Along(w[0], rs[0], w[1], t) { LineEnds(w[1..], rs[1..], t, r); }
  }

  /** Along the line a node has at most two references for each time the walk passes it. */
  lemma {:induction false} LineCount(s: Space, bd: BrowseDescription, w: seq<NodeId>, rs: seq<Relation>, t: NodeId)
    requires |w| == |rs| + 1
    ensures |DescribeAll(s, bd, LineOfReferences(w, rs, t))| + (if w[0] == bd.nodeId then 1 else 0)
            <= 2 * Times(w, bd.nodeId)
  {
    if rs != [] {
      LineCount(s, bd, w[1..], rs[1..], t);
      var r := Along(w[0], rs[0], w[1], t);
      assert LineOfReferences(w, rs, t)[0] == r
             && LineOfReferences(w, rs, t)[1..] == LineOfReferences(w[1..], rs[1..], t);
      assert |DescribeEnds(s, bd, r)| <= (if w[0] == bd.nodeId then 1 else 0) + (if w[1] == bd.nodeId then 1 else 0);
    }
  }

  function LineOf(p: Path, ns: nat): Space
    requires WellFormed(p) && OneNodePerId(p) && Unused(p, ns)
  {
    SpaceWith(p, ns, LineOfReferences(Straight(p, ns), p.relations, Numeric(ns, 0)))
  }

  lemma LineOfNode(p: Path, ns: nat, k: nat)
    requires WellFormed(p) && OneNodePerId(p) && Unused(p, ns) && k < |p.nodes|
    ensures var s := LineOf(p, ns);
            NodeFor(p, ns, k) in s.nodes && s.nodes[NodeFor(p, ns, k)] == AttributesFor(p.nodes[k])
            && NodeOk(s, p.nodes[k], NodeFor(p, ns, k))
  {
    SpaceWithNode(p, ns, LineOfReferences(Straight(p, ns), p.relations, Numeric(ns, 0)), k);
  }

  lemma StraightIsLight(p: Path, ns: nat, n: NodeId)
    requires WellFormed(p) && Unused(p, ns) && Light(p)
    ensures 2 * Times(Straight(p, ns), n) <= MAX_REFERENCES
  {
    var w := Straight(p, ns);
    TimesPositive(w, n);
    if DistinctIds(p) {
      forall i, j | 0 <= i < j < |w| ensures w[i] != w[j] {
      }
      TimesDistinct(w, n);
    }
  }

  lemma LineIsValid(p: Path, ns: nat)
    requires WellFormed(p) && OneNodePerId(p) && Unused(p, ns) && Light(p)
    ensures Valid(LineOf(p, ns)) && Uncapped(LineOf(p, ns))
  {
    var s, w, t := LineOf(p, ns), Straight(p, ns), Numeric(ns, 0);
    var references := LineOfReferences(w, p.relations, t);
    forall r | r in references ensures r.source in w && r.target in w {
      LineEnds(w, p.relations, t, r);
    }
    SpaceWithIsValid(p, ns, references);
    forall bd ensures NotCut(s, bd) {
      LineCount(s, bd, w, p.relations, t);
      StraightIsLight(p, ns, bd.nodeId);
    }
  }

  lemma LineFits(p: Path, ns: nat)
    requires WellFormed(p) && OneNodePerId(p) && Unused(p, ns)
    ensures Fits(LineOf(p, ns), p, Straight(p, ns))
  {
    var w, t := Straight(p, ns), Numeric(ns, 0);
    forall k | 0 <= k < |p.relations|
      ensures Along(NodeFor(p, ns, k), p.relations[k], NodeFor(p, ns, k + 1), t) in LineOfReferences(w, p.relations, t)
    {
      LineMember(w, p.relations, t, k);
    }
    SpaceWithFits(p, ns, LineOfReferences(w, p.relations, t));
  }

  /** No reference of the space is hierarchical. */
  ghost predicate Flat(s: Space) {
    forall r :: r in s.references ==> !TypeMatches(s, HIERARCHICAL_REFERENCES, r.referenceType)
  }

  lemma {:induction false} LineTypes(w: seq<NodeId>, rs: seq<Relation>, t: NodeId, r: Reference)
    requires |w| == |rs| + 1 && r in LineOfReferences(w, rs, t)
    ensures r.referenceType == t
  {
    if r != Along(w[0], rs[0], w[1], t) { LineTypes(w[1..], rs[1..], t, r); }
  }

  predicate AsksForHierarchy(p: Path) {
    exists i :: 0 <= i < |p.relations| && p.relations[i].referenceType == HIERARCHICAL_REFERENCES
  }

  lemma LineIsFlat(p: Path, ns: nat)
    requires WellFormed(p) && OneNodePerId(p) && Unused(p, ns) && ns > 0 && !AsksForHierarchy(p)
    ensures Flat(LineOf(p, ns))
  {
    var s := LineOf(p, ns);
    forall r | r in s.references ensures !TypeMatches(s, HIERARCHICAL_REFERENCES, r.referenceType) {
      LineTypes(Straight(p, ns), p.relations, Numeric(ns, 0), r);
    }
  }

  /** A namespace with no id of the pattern, and not that id. */
  function FreeNamespace(p: Path, id: Option<NodeId>): nat {
    MaxNs(p.nodes + [Node(Unspecified, id, None)]) + 1
  }

  lemma NamespaceIsFree(p: Path, id: Option<NodeId>)
    ensures Unused(p, FreeNamespace(p, id))
    ensures id.Some? && id.value.Numeric? ==> id.value.ns != FreeNamespace(p, id)
  {
    var ns := p.nodes + [Node(Unspecified, id, None)];
    forall k | 0 <= k < |ns| && ns[k].id.Some? && ns[k].id.value.Numeric? ensures ns[k].id.value.ns <= MaxNs(ns) {
      MaxNsBounds(ns, k);
    }
    assert ns[|p.nodes|].id == id && forall k :: 0 <= k < |p.nodes| ==> ns[k] == p.nodes[k];
  }

  function Element(s: Space, n: NodeId): ReferenceDescription {
    ReferenceDescription(n, Info(s, n).nodeClass, Info(s, n).typeDefinition, NullId, false)
  }
}
