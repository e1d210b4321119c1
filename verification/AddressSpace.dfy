/** The address space of an OPC UA server, as far as the query engine sees it: nodes with a
    class and a type definition, references between them, and the Browse service
    (OPC 10000-4, section 5.8.2) the engine reads them with. */
module AddressSpace {
  import opened Sequences

  datatype NodeId = NullId | Numeric(ns: nat, number: nat) | Text(ns: nat, name: string)

  datatype NodeClass =
    | Unspecified | Object | Variable | Method | ObjectType
    | VariableType | ReferenceType | DataType | View

  datatype BrowseDirection = Forward | Inverse | Both

  datatype Attributes = Attributes(nodeClass: NodeClass, typeDefinition: NodeId)

  datatype Reference = Reference(source: NodeId, referenceType: NodeId, target: NodeId)

  /** `subtypes` holds (t, u) when reference type t is a proper subtype of u. The order of
      `references` is the order in which Browse reports them. */
  datatype Space = Space(
    nodes: map<NodeId, Attributes>,
    references: seq<Reference>,
    subtypes: set<(NodeId, NodeId)>)

  const HIERARCHICAL_REFERENCES := Numeric(0, 33)
  const HAS_TYPE_DEFINITION := Numeric(0, 40)
  const HAS_SUBTYPE := Numeric(0, 45)
  const HAS_PROPERTY := Numeric(0, 46)
  const HAS_COMPONENT := Numeric(0, 47)
  const OBJECTS_FOLDER := Numeric(0, 85)
  const OBJECT_TYPES_FOLDER := Numeric(0, 88)

  /** The most references one Browse call returns; the engine never asks for the rest. */
  const MAX_REFERENCES: nat := 1000

  /** References join nodes of the space, and the null id names none of them. */
  ghost predicate Valid(s: Space) {
    && NullId !in s.nodes
    && (forall r :: r in s.references ==> r.source in s.nodes && r.target in s.nodes)
    && (forall n :: n in s.nodes ==> s.nodes[n].nodeClass != Unspecified)
  }

  function Info(s: Space, n: NodeId): Attributes {
    if n in s.nodes then s.nodes[n] else Attributes(Unspecified, NullId)
  }

  /** What Browse reports about one reference: the node at its other end, and, when asked
      for, the reference itself. */
  datatype ReferenceDescription = ReferenceDescription(
    nodeId: NodeId,
    nodeClass: NodeClass,
    typeDefinition: NodeId,
    referenceType: NodeId,
    isForward: bool)

  /** The element carries the class and type definition its node has in the space. */
  predicate Describes(s: Space, d: ReferenceDescription) {
    d.nodeClass == Info(s, d.nodeId).nodeClass && d.typeDefinition == Info(s, d.nodeId).typeDefinition
  }

  /** `withReference` stands for the REFERENCETYPEID and ISFORWARD bits of the result mask;
      the class and type definition bits are set by every caller. An empty class mask is
      the mask 0. Subtypes of the reference type are always included. */
  datatype BrowseDescription = BrowseDescription(
    nodeId: NodeId,
    direction: BrowseDirection,
    referenceType: NodeId,
    classMask: set<NodeClass>,
    withReference: bool)

  datatype BrowseResult = Good(references: seq<ReferenceDescription>) | Bad

  predicate TypeMatches(s: Space, wanted: NodeId, actual: NodeId) {
    wanted == NullId || wanted == actual || (actual, wanted) in s.subtypes
  }

  predicate ClassMatches(mask: set<NodeClass>, c: NodeClass) {
    mask == {} || c in mask
  }

  function ClassMask(c: NodeClass): set<NodeClass> {
    if c == Unspecified then {} else {c}
  }

  function Describe(s: Space, bd: BrowseDescription, r: Reference, isForward: bool): ReferenceDescription {
    var other := if isForward then r.target else r.source;
    ReferenceDescription(other, Info(s, other).nodeClass, Info(s, other).typeDefinition,
                         if bd.withReference then r.referenceType else NullId,
                         bd.withReference && isForward)
  }

  predicate Reported(s: Space, bd: BrowseDescription, r: Reference, isForward: bool) {
    && bd.direction != (if isForward then Inverse else Forward)
    && bd.nodeId == (if isForward then r.source else r.target)
    && TypeMatches(s, bd.referenceType, r.referenceType)
    && ClassMatches(bd.classMask, Describe(s, bd, r, isForward).nodeClass)
  }

  function DescribeEnds(s: Space, bd: BrowseDescription, r: Reference): seq<ReferenceDescription> {
    (if Reported(s, bd, r, true) then [Describe(s, bd, r, true)] else [])
    + (if Reported(s, bd, r, false) then [Describe(s, bd, r, false)] else [])
  }

  function DescribeAll(s: Space, bd: BrowseDescription, rs: seq<Reference>): seq<ReferenceDescription> {
    if rs == [] then [] else DescribeEnds(s, bd, rs[0]) + DescribeAll(s, bd, rs[1..])
  }

  function Browse(s: Space, bd: BrowseDescription): BrowseResult {
    if bd.nodeId !in s.nodes then Bad
    else
      var all := DescribeAll(s, bd, s.references);
      Good(if |all| <= MAX_REFERENCES then all else all[..MAX_REFERENCES])
  }

  /** The references of a call, none for a failed one. */
  function Found(s: Space, bd: BrowseDescription): seq<ReferenceDescription> {
    var br := Browse(s, bd);
    if br.Good? then br.references else []
  }

  /** There are no more references to report than a Browse call returns. */
  predicate NotCut(s: Space, bd: BrowseDescription) {
    |DescribeAll(s, bd, s.references)| <= MAX_REFERENCES
  }

  /** No Browse call whatever is cut short. */
  ghost predicate Uncapped(s: Space) {
    forall bd :: NotCut(s, bd)
  }

  /** Some reference of the space leads from `a` to `b` when followed in the direction. This is
      the graph the engine is meant to match against; nothing in it is about Browse. */
  ghost predicate Hop(s: Space, a: NodeId, dir: BrowseDirection, refType: NodeId, b: NodeId) {
    exists r :: r in s.references && TypeMatches(s, refType, r.referenceType)
      && ((dir != Inverse && r.source == a && r.target == b) || (dir != Forward && r.source == b && r.target == a))
  }

  function Flip(dir: BrowseDirection): BrowseDirection {
    match dir
    case Forward => Inverse
    case Inverse => Forward
    case Both => Both
  }

  lemma HopMirrored(s: Space, a: NodeId, dir: BrowseDirection, refType: NodeId, b: NodeId)
    ensures Hop(s, a, dir, refType, b) <==> Hop(s, b, Flip(dir), refType, a)
  {
  }

  lemma {:induction false} DescribeAllMember(s: Space, bd: BrowseDescription, rs: seq<Reference>,
          d: ReferenceDescription)
    ensures d in DescribeAll(s, bd, rs) <==> exists r :: r in rs && d in DescribeEnds(s, bd, r)
  {
    if rs != [] {
      DescribeAllMember(s, bd, rs[1..], d);
      assert forall r :: r in rs <==> r == rs[0] || r in rs[1..];
    }
  }

  /** Browse reports nothing that is not in the graph. */
  lemma BrowseSound(s: Space, bd: BrowseDescription, d: ReferenceDescription)
    requires d in Found(s, bd)
    ensures bd.nodeId in s.nodes && Describes(s, d)
    ensures Hop(s, bd.nodeId, bd.direction, bd.referenceType, d.nodeId)
    ensures ClassMatches(bd.classMask, Info(s, d.nodeId).nodeClass)
    ensures Valid(s) ==> d.nodeId in s.nodes
  {
    assert d in DescribeAll(s, bd, s.references);
    DescribeAllMember(s, bd, s.references, d);
  }

  /** A Browse call that is not cut short reports every node the graph leads to. */
  lemma BrowseComplete(s: Space, bd: BrowseDescription, b: NodeId)
    requires Valid(s) && NotCut(s, bd)
    requires Hop(s, bd.nodeId, bd.direction, bd.referenceType, b)
    requires ClassMatches(bd.classMask, Info(s, b).nodeClass)
    ensures exists d :: d in Found(s, bd) && d.nodeId == b
  {
    var r :| r in s.references && TypeMatches(s, bd.referenceType, r.referenceType)
      && ((bd.direction != Inverse && r.source == bd.nodeId && r.target == b)
          || (bd.direction != Forward && r.source == b && r.target == bd.nodeId));
    var forward := bd.direction != Inverse && r.source == bd.nodeId && r.target == b;
    var d := Describe(s, bd, r, forward);
    assert Reported(s, bd, r, forward);
    assert d in DescribeEnds(s, bd, r);
    DescribeAllMember(s, bd, s.references, d);
    assert d in Found(s, bd) && d.nodeId == b;
  }

  /** The reference behind a description that carries it. */
  function Origin(bd: BrowseDescription, d: ReferenceDescription): Reference {
    if d.isForward then Reference(bd.nodeId, d.referenceType, d.nodeId)
    else Reference(d.nodeId, d.referenceType, bd.nodeId)
  }

  lemma {:induction false} DescribeAllDistinct(s: Space, bd: BrowseDescription, rs: seq<Reference>)
    requires bd.withReference && Distinct(rs)
    ensures Distinct(DescribeAll(s, bd, rs))
  {
    if rs != [] {
      DescribeAllDistinct(s, bd, rs[1..]);
      forall d | d in DescribeEnds(s, bd, rs[0]) ensures d !in DescribeAll(s, bd, rs[1..]) {
        assert Origin(bd, d) == rs[0];
        DescribeAllMember(s, bd, rs[1..], d);
        assert forall r :: d in DescribeEnds(s, bd, r) ==> Origin(bd, d) == r;
      }
      DistinctConcat(DescribeEnds(s, bd, rs[0]), DescribeAll(s, bd, rs[1..]));
    }
  }

  /** A space that holds no reference twice has no Browse result with a repeated entry. */
  lemma FoundDistinct(s: Space, bd: BrowseDescription)
    requires bd.withReference && Distinct(s.references)
    ensures Distinct(Found(s, bd))
  {
    DescribeAllDistinct(s, bd, s.references);
  }
}
