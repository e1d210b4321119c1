/** What a query's text says, read off its fields: which walks fit its pattern, where its first clause
    starts looking, and what it then finds. */
module Texts {
  import opened Wrappers
  import opened AddressSpace
  import opened BrowseResults
  import opened Pattern
  import opened Matching
  import opened Meaning
  import V = Visitors
  import opened Planning
  import opened Runs
  import opened Answers
  import Cypher

  // ---------------------------------------------------------------- patterns

  function ClassName(c: NodeClass): string
    requires c != Unspecified
  {
    match c
    case Object => "Object"
    case Variable => "Variable"
    case Method => "Method"
    case ObjectType => "ObjectType"
    case VariableType => "VariableType"
    case ReferenceType => "ReferenceType"
    case DataType => "DataType"
    case View => "View"
  }

  /** The label is the name of the class. */
  predicate Labels(name: Option<string>, c: NodeClass) {
    c != Unspecified && name == Some(ClassName(c))
  }

  /** The name of a class is read back as that class, and no other label is. */
  lemma LabelMeaning(name: Option<string>, c: NodeClass)
    ensures c != Unspecified ==> Cypher.ParseNodeClass(ClassName(c)) == c
    ensures c != Unspecified ==> (Cypher.ParseOptionalNodeClass(name) == c <==> Labels(name, c))
    ensures Cypher.ParseOptionalNodeClass(name) == Unspecified <==> forall d :: !Labels(name, d)
  {
    var d := Cypher.ParseOptionalNodeClass(name);
    assert d != Unspecified ==> Labels(name, d);
  }

  /** The node is what the text asks for: of the class its label names, if it names one, with the id and of the
      type its properties give, if they do. */
  predicate NodeReads(s: Space, n: Cypher.Node, x: NodeId) {
    && (forall c :: Labels(n.nodeLabel, c) ==> ClassOf(s, x) == c)
    && ("NodeId" in n.properties ==> x == n.properties["NodeId"])
    && ("TypeDefinitionId" in n.properties ==> TypeOf(s, x) == n.properties["TypeDefinitionId"])
  }

  predicate IsOf(s: Space, r: Reference, t: NodeId) {
    r.referenceType == t || (r.referenceType, t) in s.subtypes
  }

  /** The reference is of the type with that name, or of a subtype; four names are known, and any other stands
      for every reference. */
  predicate TypeReads(s: Space, name: Option<string>, r: Reference) {
    && (name == Some("HasTypeDefinition") ==> IsOf(s, r, Numeric(0, 40)))
    && (name == Some("HasSubType") ==> IsOf(s, r, Numeric(0, 45)))
    && (name == Some("HasProperty") ==> IsOf(s, r, Numeric(0, 46)))
    && (name == Some("HasComponent") ==> IsOf(s, r, Numeric(0, 47)))
  }

  /** The arrow of the text points from `a` to `b`, or back, or either way. */
  predicate ArrowReads(direction: int, a: NodeId, b: NodeId, r: Reference) {
    if direction == 1 then r.source == a && r.target == b
    else if direction == -1 then r.source == b && r.target == a
    else (r.source == a && r.target == b) || (r.source == b && r.target == a)
  }

  ghost predicate StepReads(s: Space, a: NodeId, r: Cypher.Relationship, b: NodeId) {
    exists x :: x in s.references && TypeReads(s, r.typeName, x) && ArrowReads(r.direction, a, b, x)
  }

  /** The walk fits the text of the pattern. */
  ghost predicate Reads(s: Space, p: Cypher.Path, w: seq<NodeId>) {
    && |w| == |p.nodes| == |p.relations| + 1
    && (forall i :: 0 <= i < |p.nodes| ==> NodeReads(s, p.nodes[i], w[i]))
    && (forall i :: 0 <= i < |p.relations| ==> StepReads(s, w[i], p.relations[i], w[i + 1]))
  }

  lemma NodeIsCompiled(s: Space, n: Cypher.Node, x: NodeId)
    ensures NodeOk(s, Cypher.CompiledNode(n), x) <==> NodeReads(s, n, x)
  {
    var c := Cypher.ParseOptionalNodeClass(n.nodeLabel);
    forall d ensures d != Unspecified ==> (c == d <==> Labels(n.nodeLabel, d)) {
      LabelMeaning(n.nodeLabel, d);
    }
    assert ClassOf(s, x) == Info(s, x).nodeClass && TypeOf(s, x) == Info(s, x).typeDefinition;
    hide Cypher.ParseOptionalNodeClass, Labels;
    if c != Unspecified {
      assert Labels(n.nodeLabel, c);
    }
  }

  lemma TypeIsCompiled(s: Space, name: Option<string>, r: Reference)
    ensures TypeMatches(s, Cypher.LookupReferenceType(name), r.referenceType) <==> TypeReads(s, name, r)
  {
  }

  lemma StepIsCompiled(s: Space, a: NodeId, r: Cypher.Relationship, b: NodeId)
    ensures Step(s, a, Cypher.CompiledRelation(r), b) <==> StepReads(s, a, r, b)
  {
    forall x: Reference ensures TypeMatches(s, Cypher.LookupReferenceType(r.typeName), x.referenceType) <==>
                     TypeReads(s, r.typeName, x)
    {
      TypeIsCompiled(s, r.typeName, x);
    }
    hide TypeMatches, TypeReads, Cypher.LookupReferenceType;
    if x :| x in s.references && TypeReads(s, r.typeName, x) && ArrowReads(r.direction, a, b, x) {
      assert Step(s, a, Cypher.CompiledRelation(r), b);
    }
    if Step(s, a, Cypher.CompiledRelation(r), b) {
      var x :| x in s.references && TypeMatches(s, Cypher.LookupReferenceType(r.typeName), x.referenceType)
        && ArrowReads(r.direction, a, b, x);
    }
  }

  /** A walk fits the compiled pattern exactly when it fits the text. */
  lemma TextIsCompiled(s: Space, p: Cypher.Path, w: seq<NodeId>)
    ensures Fits(s, Cypher.Compiled(p), w) <==> Reads(s, p, w)
  {
    hide NodeOk, NodeReads, Step, StepReads, Cypher.CompiledNode, Cypher.CompiledRelation;
    var c := Cypher.Compiled(p);
    forall i | 0 <= i < |p.nodes| == |w| ensures NodeOk(s, c.nodes[i], w[i]) <==> NodeReads(s, p.nodes[i], w[i]) {
      NodeIsCompiled(s, p.nodes[i], w[i]);
    }
    forall i | 0 <= i < |p.relations| == |w| - 1
      ensures Step(s, w[i], c.relations[i], w[i + 1]) <==> StepReads(s, w[i], p.relations[i], w[i + 1])
    {
      StepIsCompiled(s, w[i], p.relations[i], w[i + 1]);
    }
  }

  // ---------------------------------------------------------------- the plan of the first clause

  /** The text asks for a type and its subtypes: one named node, labelled as an object type, with an id and the
      wish for subtypes. */
  predicate AsksForSubtypes(m: Cypher.Match) {
    && |m.path.nodes| == 1 && m.path.nodes[0].nodeLabel == Some("ObjectType") && m.path.nodes[0].identifier.Some?
    && "NodeId" in m.path.nodes[0].properties && "includeSubTypes" in m.path.nodes[0].properties
  }

  /** The WHERE pattern gives a root: its first node is named root and has an id. */
  predicate GivesRoot(m: Cypher.Match) {
    && m.where.Some? && |m.where.value.nodes| > 0 && m.where.value.nodes[0].identifier == Some("root")
    && "NodeId" in m.where.value.nodes[0].properties
  }

  /** Where a query that starts at node `start` is to look: among the object types, below the root its WHERE gives,
      or below the objects folder. */
  function RootRead(m: Cypher.Match, start: nat): NodeId
    requires start < |m.path.nodes|
  {
    if m.path.nodes[start].nodeLabel == Some("ObjectType") then Numeric(0, 88)
    else if GivesRoot(m) then m.where.value.nodes[0].properties["NodeId"]
    else Numeric(0, 85)
  }

  /** The first named node behind the first one, or the first one if there is none. */
  predicate IsStart(nodes: seq<Cypher.Node>, i: nat) {
    && i < |nodes|
    && (forall k :: 0 < k < i ==> nodes[k].identifier.None?)
    && (i == 0 ==> forall k :: 0 < k < |nodes| ==> nodes[k].identifier.None?)
    && (i > 0 ==> nodes[i].identifier.Some?)
  }

  /** The plan of a first clause, from the fields of its text. */
  lemma FirstPlanReads(m: Cypher.Match)
    requires Cypher.WellFormedMatch(m)
    ensures var plan := PlanMatch(m, []).value;
            && plan.path == m.path && plan.source.Hierarchy?
            && (plan.sink.Collect? <==> AsksForSubtypes(m))
            && (plan.sink.Collect? ==> plan.source == Hierarchy(m.path.nodes[0].properties["NodeId"], ObjectType))
            && (plan.sink.MatchAt? ==>
                  && IsStart(m.path.nodes, plan.sink.idx)
                  && plan.source.root == RootRead(m, plan.sink.idx)
                  && forall c :: c != Unspecified ==>
                       (plan.source.wanted == c <==> Labels(m.path.nodes[plan.sink.idx].nodeLabel, c)))
  {
    StartIndexMeaning(m.path, []);
    assert !AnyBound(m.path.nodes, []);
    var start := StartIndex(m.path, []);
    forall c ensures c != Unspecified ==>
                       (Cypher.ParseOptionalNodeClass(m.path.nodes[start].nodeLabel) == c
                        <==> Labels(m.path.nodes[start].nodeLabel, c))
    {
      LabelMeaning(m.path.nodes[start].nodeLabel, c);
    }
    hide StartIndex, Cypher.ParseOptionalNodeClass, Labels;
    RootIsRead(m, start);
  }

  lemma RootIsRead(m: Cypher.Match, start: nat)
    requires Cypher.WellFormedMatch(m) && start < |m.path.nodes|
    ensures RootOf(m, start) == RootRead(m, start)
  {
    LabelMeaning(m.path.nodes[start].nodeLabel, ObjectType);
    hide Cypher.ParseOptionalNodeClass;
  }

  // ---------------------------------------------------------------- what the first clause finds

  /** References of type HierarchicalReferences, or of a subtype, lead from each node to the next. */
  ghost predicate LeadsDown(s: Space, ns: seq<NodeId>) {
    |ns| > 1 && forall i :: 0 <= i < |ns| - 1 ==> IsBelow(s, ns[i], ns[i + 1])
  }

  ghost predicate IsBelow(s: Space, a: NodeId, b: NodeId) {
    exists r :: r in s.references && IsOf(s, r, Numeric(0, 33)) && r.source == a && r.target == b
  }

  /** A node of the class, of the kind a visitor looks for, to which references lead down from the root through
      nodes the visitor goes through. */
  ghost predicate IsFound(s: Space, root: NodeId, wanted: NodeClass, x: NodeId) {
    && wanted !in {Unspecified, VariableType, View} && ClassOf(s, x) == wanted
    && exists ns :: LeadsDown(s, ns) && Through(s, wanted, ns) && ns[0] == root && ns[|ns| - 1] == x
  }

  predicate Through(s: Space, wanted: NodeClass, ns: seq<NodeId>) {
    forall i :: 0 < i < |ns| - 1 ==> V.GoesThrough(wanted, ClassOf(s, ns[i]))
  }

  lemma BelowIsHop(s: Space, a: NodeId, b: NodeId)
    ensures IsBelow(s, a, b) <==> Hop(s, a, Forward, Numeric(0, 33), b)
  {
    if r :| r in s.references && IsOf(s, r, Numeric(0, 33)) && r.source == a && r.target == b {
      assert TypeMatches(s, Numeric(0, 33), r.referenceType);
    }
    if Hop(s, a, Forward, Numeric(0, 33), b) {
      var r :| r in s.references && TypeMatches(s, Numeric(0, 33), r.referenceType) && r.source == a && r.target == b;
      assert IsOf(s, r, Numeric(0, 33));
    }
  }

  lemma WalkIsDown(v: V.Visitor, ns: seq<NodeId>)
    requires v.referenceType == Numeric(0, 33) && |ns| > 1
    ensures V.HierarchyWalk(v, ns) <==>
            LeadsDown(v.server, ns) && Through(v.server, v.wanted, ns)
            && V.GoesThrough(v.wanted, ClassOf(v.server, ns[|ns| - 1]))
  {
    var s := v.server;
    forall a, b ensures IsBelow(s, a, b) <==> Hop(s, a, Forward, Numeric(0, 33), b) {
      BelowIsHop(s, a, b);
    }
    hide Hop, IsBelow, V.GoesThrough;
    assert forall n :: ClassOf(s, n) == Info(s, n).nodeClass;
    hide ClassOf, Info;
    if V.HierarchyWalk(v, ns) {
      assert V.AllowedHop(v, ns[|ns| - 2], ns[|ns| - 2 + 1]);
      forall i | 0 < i < |ns| - 1 ensures V.GoesThrough(v.wanted, ClassOf(s, ns[i])) {
        assert V.AllowedHop(v, ns[i - 1], ns[i - 1 + 1]);
      }
      forall i | 0 <= i < |ns| - 1 ensures IsBelow(s, ns[i], ns[i + 1]) {
        assert V.AllowedHop(v, ns[i], ns[i + 1]);
      }
    }
    if LeadsDown(s, ns) && Through(s, v.wanted, ns) && V.GoesThrough(v.wanted, ClassOf(s, ns[|ns| - 1])) {
      forall i | 0 <= i < |ns| - 1 ensures V.AllowedHop(v, ns[i], ns[i + 1]) {
        assert IsBelow(s, ns[i], ns[i + 1]);
      }
    }
  }

  /** The nodes of the wanted class a visitor of hierarchical references reaches are the ones found. */
  lemma ReachedIsFound(v: V.Visitor, x: NodeId)
    requires v.referenceType == Numeric(0, 33)
    ensures Info(v.server, x).nodeClass == v.wanted && V.Reaches(v, v.root, x) <==>
            IsFound(v.server, v.root, v.wanted, x)
  {
    V.MaskIsWhatItGoesThrough(v.wanted, v.wanted);
    assert ClassOf(v.server, x) == Info(v.server, x).nodeClass;
    hide V.HierarchyWalk, LeadsDown, Through, V.GoesThrough, Info, ClassOf;
    if Info(v.server, x).nodeClass == v.wanted && V.Reaches(v, v.root, x) {
      var ns :| |ns| > 1 && V.HierarchyWalk(v, ns) && ns[0] == v.root && ns[|ns| - 1] == x;
      WalkIsDown(v, ns);
    }
    if IsFound(v.server, v.root, v.wanted, x) {
      var ns :| LeadsDown(v.server, ns) && Through(v.server, v.wanted, ns) && ns[0] == v.root && ns[|ns| - 1] == x;
      DownIsLong(v.server, ns);
      WalkIsDown(v, ns);
    }
  }

  lemma DownIsLong(s: Space, ns: seq<NodeId>)
    requires LeadsDown(s, ns)
    ensures |ns| > 1
  {
  }

  /** Every row of a query's first run has at its start node the root the text gives, or a node found below it. */
  lemma StartsAreRead(s: Space, m: Cypher.Match, row: Row)
    requires Cypher.WellFormedMatch(m) && !AsksForSubtypes(m)
    requires V.Terminates(VisitorOf(s, PlanMatch(m, []).value.source))
    requires var plan := PlanMatch(m, []).value;
             && ValidState(s, [plan], [[]])
             && RunFrom(s, [plan], [[]], 0).Ok? && row in RunFrom(s, [plan], [[]], 0).value[0]
    ensures var start, wanted := PlanMatch(m, []).value.sink.idx, PlanMatch(m, []).value.source.wanted;
            && IsStart(m.path.nodes, start) && |row| == |m.path.nodes|
            && var root, x := RootRead(m, start), row[start].nodeId;
            root in s.nodes && (x == root || IsFound(s, root, wanted, x))
  {
    FirstPlanReads(m);
    OneClauseSound(s, m, row);
    hide RunFrom, PlanMatch, V.Reaches, IsFound, V.Terminates, Fits, RootRead, IsStart;
    var plan := PlanMatch(m, []).value;
    ReachedIsFound(VisitorOf(s, plan.source), row[plan.sink.idx].nodeId);
  }

  /** The answer of a one-clause query, text to rows, where its pattern is matched as written: the walks that fit
      the text and whose start node is the root the text gives or is found below it. */
  lemma OneClauseReads(s: Space, m: Cypher.Match, w: seq<NodeId>)
    requires Valid(s) && Cypher.WellFormedMatch(m) && !AsksForSubtypes(m)
    requires var visitor := VisitorOf(s, PlanMatch(m, []).value.source);
             V.Terminates(visitor) && V.BrowsedBelow(visitor)
    requires PlanMatch(m, []).value.sink.MatchAt?
    requires var plan := PlanMatch(m, []).value;
             && BrowsedAround(s, PatternOf(plan), plan.sink.idx, w)
             && Plain(PatternOf(plan), plan.sink.idx)
             && PlainPivot(s, plan.source.root, PatternOf(plan), plan.sink.idx)
    ensures var plan := PlanMatch(m, []).value;
            var start, wanted := plan.sink.idx, plan.source.wanted;
            && IsStart(m.path.nodes, start) && Labels(m.path.nodes[start].nodeLabel, wanted)
            && ValidState(s, [plan], [[]]) && RunFrom(s, [plan], [[]], 0).Ok?
            && var root := RootRead(m, start);
            (Yields(RunFrom(s, [plan], [[]], 0).value[0], w) <==>
             |w| == |m.path.nodes| && Reads(s, m.path, EngineOrder(w, start))
             && (w[start] == root || IsFound(s, root, wanted, w[start])))
  {
    FirstPlanReads(m);
    OneClauseIntended(s, m, w);
    var plan := PlanMatch(m, []).value;
    WantedIsLabel(m);
    hide RunFrom, PlanMatch, V.Reaches, IsFound, V.Terminates, Fits, RootRead, IsStart, Reads, EngineOrder, Plain,
         BrowsedAround, Labels;
    if |w| == |m.path.nodes| {
      TextIsCompiled(s, m.path, EngineOrder(w, plan.sink.idx));
      ReachedIsFound(VisitorOf(s, plan.source), w[plan.sink.idx]);
      if Fits(s, PatternOf(plan), EngineOrder(w, plan.sink.idx)) {
        StartHasClass(s, PatternOf(plan), plan.sink.idx, w);
      }
    }
  }

  lemma WantedIsLabel(m: Cypher.Match)
    requires Cypher.WellFormedMatch(m) && PlanMatch(m, []).value.sink.MatchAt?
    ensures var plan := PlanMatch(m, []).value; plan.source.wanted == PatternOf(plan).nodes[plan.sink.idx].nodeClass
  {
    StartIndexMeaning(m.path, []);
  }

  lemma StartHasClass(s: Space, p: Path, idx: nat, w: seq<NodeId>)
    requires idx < |p.nodes| == |w| && Fits(s, p, EngineOrder(w, idx)) && p.nodes[idx].nodeClass != Unspecified
    ensures Info(s, w[idx]).nodeClass == p.nodes[idx].nodeClass
  {
    assert EngineOrder(w, idx)[idx] == w[idx];
    assert NodeOk(s, p.nodes[idx], EngineOrder(w, idx)[idx]);
  }

  /** The answer of a query that asks for a type and its subtypes: the type its text gives, if it exists, and the
      object types to which references lead down from it through object types. */
  lemma SubtypesRead(s: Space, m: Cypher.Match, x: NodeId)
    requires Valid(s) && Cypher.WellFormedMatch(m) && AsksForSubtypes(m)
    requires V.Terminates(VisitorOf(s, PlanMatch(m, []).value.source))
    ensures var plan, t := PlanMatch(m, []).value, m.path.nodes[0].properties["NodeId"];
            && ValidState(s, [plan], [[]]) && RunFrom(s, [plan], [[]], 0).Ok?
            && var wanted := t in s.nodes && (x == t || IsFound(s, t, ObjectType, x));
            && (Yields(RunFrom(s, [plan], [[]], 0).value[0], [x]) ==> wanted)
            && (wanted && V.BrowsedBelow(VisitorOf(s, plan.source)) ==>
                Yields(RunFrom(s, [plan], [[]], 0).value[0], [x]))
  {
    FirstPlanReads(m);
    SubtypesAnswer(s, m, x);
    hide RunFrom, PlanMatch, V.Reaches, IsFound, V.Terminates, V.BrowsedBelow, Yields;
    ReachedIsFound(VisitorOf(s, PlanMatch(m, []).value.source), x);
  }

  /** Behind object types only. */
  lemma SubtypesThroughTypes(s: Space, ns: seq<NodeId>)
    ensures Through(s, ObjectType, ns) <==> forall i :: 0 < i < |ns| - 1 ==> ClassOf(s, ns[i]) == ObjectType
  {
  }
}
