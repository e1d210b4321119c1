/** Parsed queries (cypher::Path, Match, Query) and their compilation to pattern paths. The
    values of node properties appear as the node ids their text stands for. */
module Cypher {
  import opened Wrappers
  import opened Sequences
  import opened AddressSpace
  import Pattern

  datatype Node = Node(identifier: Option<string>, nodeLabel: Option<string>, properties: map<string, NodeId>) {
    function Property(key: string): Option<NodeId> {
      if key in properties then Some(properties[key]) else None
    }

    predicate QueryObjectTypeAndAllSubTypes() {
      && nodeLabel == Some("ObjectType")
      && identifier.Some?
      && Property("NodeId").Some?
      && "includeSubTypes" in properties
    }
  }

  datatype Relationship = Relationship(typeName: Option<string>, direction: int)

  datatype Path = Path(nodes: seq<Node>, relations: seq<Relationship>)

  datatype Match = Match(path: Path, where: Option<Path>)

  /** What the parser delivers: alternating nodes and relationships, at least one node. */
  predicate WellFormed(p: Path) {
    |p.nodes| >= 1 && |p.relations| == |p.nodes| - 1
  }

  predicate WellFormedMatch(m: Match) {
    WellFormed(m.path) && (m.where.Some? ==> WellFormed(m.where.value))
  }

  predicate HasName(n: Node, name: string) {
    n.identifier == Some(name)
  }

  /** The first node with the name. */
  function IndexOf(nodes: seq<Node>, name: string): (r: Option<nat>)
    ensures r.Some? ==> r.value < |nodes| && HasName(nodes[r.value], name)
                        && forall k :: 0 <= k < r.value ==> !HasName(nodes[k], name)
    ensures r.None? ==> forall k :: 0 <= k < |nodes| ==> !HasName(nodes[k], name)
  {
    if nodes == [] then None
    else if HasName(nodes[0], name) then Some(0)
    else
      match IndexOf(nodes[1..], name)
      case None => None
      case Some(i) => Some(i + 1)
  }

  method GetIndex(p: Path, identifier: string) returns (r: Option<nat>)
    ensures r == IndexOf(p.nodes, identifier)
  {
    var i := 0;
    while i < |p.nodes|
      invariant i <= |p.nodes|
      invariant forall k :: 0 <= k < i ==> !HasName(p.nodes[k], identifier)
    {
      if p.nodes[i].identifier == Some(identifier) {
        assert HasName(p.nodes[i], identifier);
        return Some(i);
      }
      i := i + 1;
    }
    return None;
  }

  // ---------------------------------------------------------------- compilation

  function ParseNodeClass(name: string): NodeClass {
    match name
    case "Object" => NodeClass.Object
    case "Variable" => NodeClass.Variable
    case "ObjectType" => NodeClass.ObjectType
    case "Method" => NodeClass.Method
    case "DataType" => NodeClass.DataType
    case "View" => NodeClass.View
    case "VariableType" => NodeClass.VariableType
    case "ReferenceType" => NodeClass.ReferenceType
    case _ => NodeClass.Unspecified
  }

  function ParseOptionalNodeClass(name: Option<string>): NodeClass {
    if name.None? then Unspecified else ParseNodeClass(name.value)
  }

  /** An unknown name stands for any reference type, like no name at all. */
  function LookupReferenceType(name: Option<string>): NodeId {
    match name
    case Some("HasTypeDefinition") => HAS_TYPE_DEFINITION
    case Some("HasSubType") => HAS_SUBTYPE
    case Some("HasProperty") => HAS_PROPERTY
    case Some("HasComponent") => HAS_COMPONENT
    case _ => NullId
  }

  function GetBrowseDirection(r: Relationship): BrowseDirection {
    if r.direction == 1 then Forward else if r.direction == -1 then Inverse else Both
  }

  function CompiledNode(n: Node): Pattern.Node {
    Pattern.Node(ParseOptionalNodeClass(n.nodeLabel), n.Property("NodeId"), n.Property("TypeDefinitionId"))
  }

  function CompiledRelation(r: Relationship): Pattern.Relation {
    Pattern.Relation(GetBrowseDirection(r), LookupReferenceType(r.typeName))
  }

  function Compiled(p: Path): Pattern.Path {
    Pattern.Path(seq(|p.nodes|, i requires 0 <= i < |p.nodes| => CompiledNode(p.nodes[i])),
                 seq(|p.relations|, i requires 0 <= i < |p.relations| => CompiledRelation(p.relations[i])))
  }

  method Compile(p: Path) returns (compiled: Pattern.Path)
    ensures compiled == Compiled(p)
  {
    var nodes: seq<Pattern.Node> := [];
    for i := 0 to |p.nodes|
      invariant nodes == Compiled(p).nodes[..i]
    {
      nodes := nodes + [CompiledNode(p.nodes[i])];
    }
    var relations: seq<Pattern.Relation> := [];
    for i := 0 to |p.relations|
      invariant relations == Compiled(p).relations[..i]
    {
      relations := relations + [CompiledRelation(p.relations[i])];
    }
    compiled := Pattern.Path(nodes, relations);
  }

  /** The pattern written from its other end. */
  function Backwards(p: Path): Path {
    Path(Reverse(p.nodes),
         seq(|p.relations|, i requires 0 <= i < |p.relations| =>
           var r := p.relations[|p.relations| - 1 - i]; r.(direction := -r.direction)))
  }

  /** Writing a pattern backwards with its arrows flipped compiles to its mirror image. */
  lemma BackwardsIsMirror(p: Path)
    ensures Compiled(Backwards(p)) == Pattern.Mirror(Compiled(p))
  {
  }
}
