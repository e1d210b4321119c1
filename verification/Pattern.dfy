/** Compiled pattern paths (graph::Path): alternating nodes and relations, the operations that
    split and turn them around, and what it means for a walk of the address space to fit one. */
module Pattern {
  import opened Wrappers
  import opened Sequences
  import opened AddressSpace

  datatype Node = Node(nodeClass: NodeClass, id: Option<NodeId>, typeDefinitionId: Option<NodeId>)

  datatype Relation = Relation(direction: BrowseDirection, referenceType: NodeId)

  datatype Path = Path(nodes: seq<Node>, relations: seq<Relation>)

  const ANY_NODE := Node(Unspecified, None, None)

  /** n1 r1 n2 ... nk: at least one node, and a relation between each two. */
  predicate WellFormed(p: Path) {
    |p.nodes| >= 1 && |p.relations| == |p.nodes| - 1
  }

  predicate MatchesId(wanted: Option<NodeId>, id: NodeId) {
    wanted.None? || wanted.value == id
  }

  predicate MatchesClass(current: NodeClass, expected: NodeClass) {
    current == expected || current == Unspecified
  }

  predicate Matches(e: ReferenceDescription, n: Node) {
    MatchesId(n.id, e.nodeId) && MatchesClass(n.nodeClass, e.nodeClass)
        && MatchesId(n.typeDefinitionId, e.typeDefinition)
  }

  /** The second half of `split(k)`. */
  function Drop(p: Path, k: nat): Path
    requires k <= |p.nodes| && k <= |p.relations|
  {
    Path(p.nodes[k..], p.relations[k..])
  }

  function Split(p: Path, idx: nat): (Path, Path)
    requires idx <= |p.nodes| && idx <= |p.relations|
  {
    (Path(p.nodes[..idx], p.relations[..idx]), Drop(p, idx))
  }

  /** Node's copy assignment: an id or type the source lacks is cleared to the null id but
      stays engaged when the target had one. */
  function AssignId(target: Option<NodeId>, source: Option<NodeId>): Option<NodeId> {
    if source.Some? then source else if target.Some? then Some(NullId) else None
  }

  function Assign(target: Node, source: Node): Node {
    Node(source.nodeClass, AssignId(target.id, source.id), AssignId(target.typeDefinitionId, source.typeDefinitionId))
  }

  /** What reversing a list of nodes in place leaves behind: every position is assigned from
      its mirror position. */
  function ReverseByAssignment(ns: seq<Node>): seq<Node> {
    seq(|ns|, k requires 0 <= k < |ns| => Assign(ns[k], ns[|ns| - 1 - k]))
  }

  function FlipRelation(r: Relation): Relation {
    r.(direction := Flip(r.direction))
  }

  function FlipAll(rs: seq<Relation>): seq<Relation> {
    seq(|rs|, i requires 0 <= i < |rs| => FlipRelation(rs[i]))
  }

  /** The left half of a split as the engine walks it: away from the pivot, behind a dummy
      node that stands for the pivot. */
  function Transformed(p: Path): Path {
    if p.nodes == [] then p
    else Path(ReverseByAssignment(p.nodes + [ANY_NODE]), FlipAll(Reverse(p.relations)))
  }

  /** The same with nodes as plain values, which is what the reversal is for. */
  function TurnedAround(p: Path): Path {
    Path([ANY_NODE] + Reverse(p.nodes), FlipAll(Reverse(p.relations)))
  }

  // ---------------------------------------------------------------- meaning of a pattern

  predicate NodeOk(s: Space, n: Node, id: NodeId) {
    && MatchesId(n.id, id)
    && MatchesClass(n.nodeClass, Info(s, id).nodeClass)
    && MatchesId(n.typeDefinitionId, Info(s, id).typeDefinition)
  }

  ghost predicate Step(s: Space, a: NodeId, r: Relation, b: NodeId) {
    Hop(s, a, r.direction, r.referenceType, b)
  }

  /** The walk `w`, given by its node ids, fits the pattern: every node meets its constraints
      and every relation is a reference of the space. */
  ghost predicate Fits(s: Space, p: Path, w: seq<NodeId>) {
    && |w| == |p.nodes| == |p.relations| + 1
    && (forall i :: 0 <= i < |p.nodes| ==> NodeOk(s, p.nodes[i], w[i]))
    && (forall i :: 0 <= i < |p.relations| ==> Step(s, w[i], p.relations[i], w[i + 1]))
  }

  lemma StepMirrored(s: Space, a: NodeId, r: Relation, b: NodeId)
    ensures Step(s, a, r, b) <==> Step(s, b, FlipRelation(r), a)
  {
    HopMirrored(s, a, r.direction, r.referenceType, b);
  }

  lemma SplitKeepsFit(s: Space, p: Path, idx: nat, w: seq<NodeId>)
    requires WellFormed(p) && idx < |p.nodes| && Fits(s, p, w)
    ensures Fits(s, Split(p, idx).1, w[idx..])
    ensures Fits(s, TurnedAround(Split(p, idx).0), Reverse(w[..idx + 1]))
  {
    var right, left := Split(p, idx).1, TurnedAround(Split(p, idx).0);
    var front, back := w[idx..], Reverse(w[..idx + 1]);
    forall i | 0 <= i < |right.relations| ensures Step(s, front[i], right.relations[i], front[i + 1]) {
      assert Step(s, w[idx + i], p.relations[idx + i], w[idx + i + 1]);
    }
    forall i | 0 <= i < |left.nodes| ensures NodeOk(s, left.nodes[i], back[i]) {
      if i > 0 { assert NodeOk(s, p.nodes[idx - i], w[idx - i]); }
    }
    forall i | 0 <= i < |left.relations| ensures Step(s, back[i], left.relations[i], back[i + 1]) {
      var j := idx - 1 - i;
      assert Step(s, w[j], p.relations[j], w[j + 1]);
      StepMirrored(s, w[j], p.relations[j], w[j + 1]);
    }
  }

  lemma SplitFindsFit(s: Space, p: Path, idx: nat, w: seq<NodeId>)
    requires WellFormed(p) && idx < |p.nodes| == |w|
    requires Fits(s, Split(p, idx).1, w[idx..])
    requires Fits(s, TurnedAround(Split(p, idx).0), Reverse(w[..idx + 1]))
    ensures Fits(s, p, w)
  {
    hide Step, NodeOk;
    var right, left := Split(p, idx).1, TurnedAround(Split(p, idx).0);
    var front, back := w[idx..], Reverse(w[..idx + 1]);
    forall i | 0 <= i < |p.nodes| ensures NodeOk(s, p.nodes[i], w[i]) {
      if i < idx {
        assert NodeOk(s, left.nodes[idx - i], back[idx - i]);
      } else {
        assert NodeOk(s, right.nodes[i - idx], front[i - idx]);
      }
    }
    forall i | 0 <= i < |p.relations| ensures Step(s, w[i], p.relations[i], w[i + 1]) {
      if i < idx {
        var j := idx - 1 - i;
        assert Step(s, back[j], left.relations[j], back[j + 1]);
        StepMirrored(s, w[i], p.relations[i], w[i + 1]);
      } else {
        assert Step(s, front[i - idx], right.relations[i - idx], front[i - idx + 1]);
      }
    }
  }

  /** Splitting a pattern at any node and walking the left half backwards from it says the same
      as the pattern. */
  lemma SplitKeepsMeaning(s: Space, p: Path, idx: nat, w: seq<NodeId>)
    requires WellFormed(p) && idx < |p.nodes| == |w|
    ensures Fits(s, p, w) <==>
            Fits(s, Split(p, idx).1, w[idx..]) && Fits(s, TurnedAround(Split(p, idx).0), Reverse(w[..idx + 1]))
  {
    if Fits(s, p, w) {
      SplitKeepsFit(s, p, idx, w);
    } else if Fits(s, Split(p, idx).1, w[idx..]) && Fits(s, TurnedAround(Split(p, idx).0), Reverse(w[..idx + 1])) {
      SplitFindsFit(s, p, idx, w);
    }
  }

  // ---------------------------------------------------------------- what the engine enforces

  /** The constraints of one half that matching looks at, for halves of two or more nodes: none
      of node 0, class and id of the others, and the type of the last one when it has no id. */
  function EnforcedHalf(p: Path): Path {
    Path(seq(|p.nodes|, i requires 0 <= i < |p.nodes| =>
           if i == 0 then ANY_NODE
           else WithoutType(p.nodes[i], i == |p.nodes| - 1)),
         p.relations)
  }

  function WithoutType(n: Node, atEnd: bool): Node {
    if atEnd && n.id.None? then n else n.(typeDefinitionId := None)
  }

  /** The constraints of a whole pattern with pivot `idx` that matching looks at. Left of the
      pivot, a node whose mirror image among the inner nodes has an id and which has none itself
      is left with the null id. */
  function Enforced(p: Path, idx: nat): Path
    requires idx < |p.nodes|
  {
    Path(seq(|p.nodes|, j requires 0 <= j < |p.nodes| =>
           if j == idx then ANY_NODE
           else if j > idx then WithoutType(p.nodes[j], j == |p.nodes| - 1)
           else WithoutType(StaleNode(p, idx, j), j == 0)),
         p.relations)
  }

  function StaleNode(p: Path, idx: nat, j: nat): Node
    requires j < idx < |p.nodes|
  {
    if j == 0 then p.nodes[0] else Assign(p.nodes[idx - j], p.nodes[j])
  }

  /** Turning the left half around in place keeps what is enforced of it. */
  predicate IdsSymmetric(p: Path, idx: nat)
    requires idx < |p.nodes|
  {
    forall j :: 1 <= j < idx ==> (p.nodes[j].id.None? ==> p.nodes[idx - j].id.None?)
  }

  lemma EnforcedHalves(p: Path, idx: nat)
    requires WellFormed(p) && idx < |p.nodes|
    ensures EnforcedHalf(Split(p, idx).1) == Split(Enforced(p, idx), idx).1
    ensures idx > 0 ==> EnforcedHalf(Transformed(Split(p, idx).0)) == TurnedAround(Split(Enforced(p, idx), idx).0)
  {
    if idx > 0 {
      var left, turned := Transformed(Split(p, idx).0), TurnedAround(Split(Enforced(p, idx), idx).0);
      forall k | 0 <= k < idx + 1 ensures EnforcedHalf(left).nodes[k] == turned.nodes[k] {
        assert (p.nodes[..idx] + [ANY_NODE])[idx] == ANY_NODE;
      }
    }
  }

  /** Where the left half loses no id, this is what is enforced of a node other than the pivot. */
  lemma EnforcedNode(p: Path, idx: nat, j: nat)
    requires WellFormed(p) && idx < |p.nodes| && IdsSymmetric(p, idx) && j < |p.nodes| && j != idx
    ensures Enforced(p, idx).nodes[j] == WithoutType(p.nodes[j], j == 0 || j == |p.nodes| - 1)
  {
    if 1 <= j < idx {
      assert p.nodes[j].id.None? ==> p.nodes[idx - j].id.None?;
    }
  }

  lemma LeftEnds(p: Path, idx: nat)
    requires WellFormed(p) && 0 < idx < |p.nodes|
    ensures var left, turned := Transformed(Split(p, idx).0), TurnedAround(Split(p, idx).0);
            && |left.nodes| == |turned.nodes| == idx + 1 && left.relations == turned.relations
            && left.nodes[idx] == turned.nodes[idx] == p.nodes[0]
  {
    assert (p.nodes[..idx] + [ANY_NODE])[idx] == ANY_NODE;
  }

  lemma LeftNode(p: Path, idx: nat, k: nat)
    requires WellFormed(p) && 1 <= k < idx < |p.nodes|
    ensures var left, turned := Transformed(Split(p, idx).0), TurnedAround(Split(p, idx).0);
            && |left.nodes| == |turned.nodes| == idx + 1
            && left.nodes[k] == Assign(p.nodes[k], p.nodes[idx - k]) && turned.nodes[k] == p.nodes[idx - k]
  {
    var ns := p.nodes[..idx] + [ANY_NODE];
    assert ns[k] == p.nodes[k] && ns[idx - k] == p.nodes[idx - k];
  }

  /** What stands for an id or a type at a place that was given one of the two. */
  predicate TakesOver(left: Option<NodeId>, given: Option<NodeId>, had: Option<NodeId>) {
    if given.Some? then left == given
    else if had.Some? then left == Some(NullId)
    else left == None
  }

  /** The inner nodes of the left half after the reversal: each has the class, id and type of its mirror image,
      but an id or type only it had itself does not go away; it becomes the null id. */
  lemma LeftNodeFields(p: Path, idx: nat, k: nat)
    requires WellFormed(p) && 1 <= k < idx < |p.nodes|
    ensures var left, was, mirror := Transformed(Split(p, idx).0), p.nodes[k], p.nodes[idx - k];
            && |left.nodes| == idx + 1 && left.nodes[k].nodeClass == mirror.nodeClass
            && TakesOver(left.nodes[k].id, mirror.id, was.id)
            && TakesOver(left.nodes[k].typeDefinitionId, mirror.typeDefinitionId, was.typeDefinitionId)
  {
    LeftNode(p, idx, k);
  }

  /** The in-place reversal does what reversing values would do, on everything matching enforces,
      exactly when no inner node of the left half lacks an id its mirror image has. */
  lemma ReversalIsFaithful(p: Path, idx: nat)
    requires WellFormed(p) && 0 < idx < |p.nodes|
    ensures EnforcedHalf(Transformed(Split(p, idx).0)) == EnforcedHalf(TurnedAround(Split(p, idx).0)) <==>
            IdsSymmetric(p, idx)
  {
    hide Transformed, TurnedAround, Split;
    var left, turned := Transformed(Split(p, idx).0), TurnedAround(Split(p, idx).0);
    LeftEnds(p, idx);
    if IdsSymmetric(p, idx) {
      forall k | 0 <= k < idx + 1 ensures EnforcedHalf(left).nodes[k] == EnforcedHalf(turned).nodes[k] {
        if 1 <= k < idx {
          LeftNode(p, idx, k);
          assert p.nodes[idx - k].id.None? ==> p.nodes[idx - (idx - k)].id.None?;
        }
      }
    }
    if EnforcedHalf(left) == EnforcedHalf(turned) {
      forall j | 1 <= j < idx && p.nodes[j].id.None? ensures p.nodes[idx - j].id.None? {
        LeftNode(p, idx, idx - j);
        assert EnforcedHalf(left).nodes[idx - j].id == EnforcedHalf(turned).nodes[idx - j].id;
      }
    }
  }

  /** The pattern walked from the other end, arrows flipped. */
  function Mirror(p: Path): Path {
    Path(Reverse(p.nodes), FlipAll(Reverse(p.relations)))
  }

  lemma MirrorTwice(p: Path)
    ensures Mirror(Mirror(p)) == p
  {
    var q := Mirror(Mirror(p));
    assert forall i :: 0 <= i < |p.relations| ==> q.relations[i] == p.relations[i];
  }

  lemma MirrorFits(s: Space, p: Path, w: seq<NodeId>)
    requires Fits(s, p, w)
    ensures Fits(s, Mirror(p), Reverse(w))
  {
    hide Step, NodeOk;
    var q, v, n := Mirror(p), Reverse(w), |p.nodes|;
    forall i | 0 <= i < n ensures NodeOk(s, q.nodes[i], v[i]) {
      assert NodeOk(s, p.nodes[n - 1 - i], w[n - 1 - i]);
    }
    forall i | 0 <= i < |q.relations| ensures Step(s, v[i], q.relations[i], v[i + 1]) {
      var j := n - 2 - i;
      assert Step(s, w[j], p.relations[j], w[j + 1]);
      StepMirrored(s, w[j], p.relations[j], w[j + 1]);
    }
  }

  /** A walk fits a pattern exactly when the walk backwards fits the mirror image. */
  lemma MirrorKeepsMeaning(s: Space, p: Path, w: seq<NodeId>)
    ensures Fits(s, p, w) <==> Fits(s, Mirror(p), Reverse(w))
  {
    if Fits(s, p, w) {
      MirrorFits(s, p, w);
    } else if Fits(s, Mirror(p), Reverse(w)) {
      MirrorFits(s, Mirror(p), Reverse(w));
      MirrorTwice(p);
      ReverseTwice(w);
    }
  }

  // ---------------------------------------------------------------- the path object

  /** A path while it is being turned around. */
  class MutablePath {
    var nodes: seq<Node>
    var relations: seq<Relation>

    constructor (p: Path)
      ensures Value() == p
    {
      nodes, relations := p.nodes, p.relations;
    }

    function Value(): Path
      reads this
    {
      Path(nodes, relations)
    }

    method InvertBrowseDirections(idx: nat)
      requires idx <= |relations|
      modifies this
      ensures nodes == old(nodes)
      ensures relations == old(relations[..idx] + FlipAll(relations[idx..]))
    {
      var i := idx;
      while i < |relations|
        invariant idx <= i <= |relations| == old(|relations|)
        invariant nodes == old(nodes)
        invariant forall k :: 0 <= k < |relations| ==>
          relations[k] == if idx <= k < i then FlipRelation(old(relations)[k]) else old(relations)[k]
      {
        var r := relations[i];
        if r.direction == Forward {
          relations := relations[i := r.(direction := Inverse)];
        } else if r.direction == Inverse {
          relations := relations[i := r.(direction := Forward)];
        }
        i := i + 1;
      }
    }

    /** Reversal in place by swaps, each of which copies one node aside and assigns twice. */
    method ReverseNodes()
      modifies this
      ensures nodes == ReverseByAssignment(old(nodes)) && relations == old(relations)
    {
      ghost var was := nodes;
      var n, i := |nodes|, 0;
      while i < n / 2
        invariant 0 <= i <= n / 2 && |nodes| == n == |was|
        invariant relations == old(relations)
        invariant forall k :: i <= k < n - i ==> nodes[k] == was[k]
        invariant forall k :: 0 <= k < i ==> nodes[k] == Assign(was[k], was[n - 1 - k])
        invariant forall k :: n - i <= k < n ==> nodes[k] == Assign(was[k], was[n - 1 - k])
      {
        var j := n - 1 - i;
        var aside := nodes[i];
        nodes := nodes[i := Assign(nodes[i], nodes[j])];
        nodes := nodes[j := Assign(nodes[j], aside)];
        i := i + 1;
      }
    }

    method Invert()
      modifies this
      ensures nodes == ReverseByAssignment(old(nodes))
      ensures relations == FlipAll(Reverse(old(relations)))
    {
      ReverseNodes();
      relations := Reverse(relations);
      InvertBrowseDirections(0);
    }

    method TransformForLeftToRightTraversal()
      modifies this
      ensures Value() == Transformed(old(Value()))
    {
      if nodes == [] {
        return;
      }
      nodes := nodes + [ANY_NODE];
      Invert();
    }
  }
}
