/** A query of two clauses: a type with its subtypes, and the objects of these types. */
module TypeQueries {
  import opened Wrappers
  import opened AddressSpace
  import opened Pattern
  import opened Matching
  import opened Meaning
  import V = Visitors
  import opened Planning
  import opened Runs
  import opened Answers
  import opened Chains
  import Cypher

  /** MATCH (types:ObjectType{NodeId: t, includeSubTypes: ...}) */
  function TypesMatch(t: NodeId, text: NodeId): Cypher.Match {
    var n := Cypher.Node(Some("types"), Some("ObjectType"), map["NodeId" := t, "includeSubTypes" := text]);
    Cypher.Match(Cypher.Path([n], []), None)
  }

  /** MATCH (obj:Object)-[:HasTypeDefinition]->(types) */
  function ObjectsMatch(): Cypher.Match {
    Cypher.Match(
      Cypher.Path([Cypher.Node(Some("obj"), Some("Object"), map[]), Cypher.Node(Some("types"), None, map[])],
                  [Cypher.Relationship(Some("HasTypeDefinition"), 1)]),
      None)
  }

  function Plans(t: NodeId, text: NodeId): seq<ClausePlan> {
    [ClausePlan(TypesMatch(t, text).path, Hierarchy(t, ObjectType), Collect),
     ClausePlan(ObjectsMatch().path, FromColumn(0, 0), MatchAt(1))]
  }

  lemma Planned(t: NodeId, text: NodeId)
    ensures Cypher.WellFormedMatch(TypesMatch(t, text)) && Cypher.WellFormedMatch(ObjectsMatch())
    ensures PlanMatch(TypesMatch(t, text), []) == Some(Plans(t, text)[0])
    ensures PlanMatch(ObjectsMatch(), [Plans(t, text)[0]]) == Some(Plans(t, text)[1])
    ensures ValidPlans(Plans(t, text))
  {
    var plans, nodes := Plans(t, text), ObjectsMatch().path.nodes;
    StartIndexMeaning(ObjectsMatch().path, [plans[0]]);
    assert FindSource("types", [plans[0]]) == Some((0, 0));
    assert FindSource("obj", [plans[0]]).None?;
    assert Bound(nodes[1], [plans[0]]) && !Bound(nodes[0], [plans[0]]);
    assert plans[..0] == [] && plans[..1] == [plans[0]];
    forall k | 0 <= k < |plans| ensures Plannable(plans[k], plans[..k]) {
    }
  }

  function TypesVisitor(s: Space, t: NodeId): V.Visitor {
    V.Visitor(s, t, HIERARCHICAL_REFERENCES, ObjectType)
  }

  /** The type, or an object type to which hierarchical references lead from it through object types. */
  ghost predicate IsTypeOrSubtype(s: Space, t: NodeId, y: NodeId) {
    t in s.nodes && (y == t || (Info(s, y).nodeClass == ObjectType && V.Reaches(TypesVisitor(s, t), t, y)))
  }

  ghost predicate IsObjectOf(s: Space, x: NodeId, y: NodeId) {
    Info(s, x).nodeClass == Object && Hop(s, x, Forward, HAS_TYPE_DEFINITION, y)
  }

  /** No browse for the subtypes, or for the objects of one of the types, is cut short. */
  ghost predicate TypesBrowsed(s: Space, t: NodeId) {
    && V.BrowsedBelow(TypesVisitor(s, t))
    && forall y :: IsTypeOrSubtype(s, t, y) ==>
         NotCut(s, BrowseStep(y, Relation(Inverse, HAS_TYPE_DEFINITION), Object))
  }

  lemma TypesAnswer(s: Space, t: NodeId, text: NodeId, w: seq<NodeId>)
    ensures ValidPlans(Plans(t, text))
    ensures ClauseAnswer(s, Plans(t, text), 0, w) <==> |w| == 1 && IsTypeOrSubtype(s, t, w[0])
  {
    Planned(t, text);
    hide V.Reaches;
    assert VisitorOf(s, Plans(t, text)[0].source) == TypesVisitor(s, t);
  }

  lemma ObjectsCompiled(t: NodeId, text: NodeId)
    ensures var plan := Plans(t, text)[1];
            WellPlanned(plan)
            && PatternOf(plan) == Path([Node(Object, None, None), ANY_NODE], [Relation(Forward, HAS_TYPE_DEFINITION)])
  {
  }

  lemma ObjectsSupported(p: Path)
    requires p == Path([Node(Object, None, None), ANY_NODE], [Relation(Forward, HAS_TYPE_DEFINITION)])
    ensures SupportedAround(p, 1)
  {
  }

  lemma ObjectsEnforced(s: Space, p: Path, x: NodeId, y: NodeId)
    requires p == Path([Node(Object, None, None), ANY_NODE], [Relation(Forward, HAS_TYPE_DEFINITION)])
    ensures Fits(s, Enforced(p, 1), EngineOrder([x, y], 1)) <==> IsObjectOf(s, x, y)
  {
    hide Hop;
    assert EngineOrder([x, y], 1) == [x, y];
    assert Enforced(p, 1) == p;
    assert Fits(s, p, [x, y]) ==> NodeOk(s, p.nodes[0], [x, y][0]) && Step(s, [x, y][0], p.relations[0], [x, y][0 + 1]);
  }

  lemma ObjectsSupplied(s: Space, t: NodeId, text: NodeId, y: NodeId)
    ensures ValidPlans(Plans(t, text))
    ensures Supplied(s, Plans(t, text), 1, y) <==> IsTypeOrSubtype(s, t, y)
  {
    Planned(t, text);
    var plans := Plans(t, text);
    assert Plannable(plans[1], plans[..1]);
    TypesAnswer(s, t, text, [y]);
    hide IsTypeOrSubtype, ClauseAnswer;
    if Supplied(s, plans, 1, y) {
      var u :| ClauseAnswer(s, plans, 0, u) && u[0] == y;
      TypesAnswer(s, t, text, u);
    }
    if IsTypeOrSubtype(s, t, y) {
      assert ClauseAnswer(s, plans, 0, [y]) && [y][0] == y;
    }
  }

  lemma ObjectsAnswer(s: Space, t: NodeId, text: NodeId, w: seq<NodeId>)
    ensures ValidPlans(Plans(t, text))
    ensures ClauseAnswer(s, Plans(t, text), 1, w) <==>
            |w| == 2 && IsTypeOrSubtype(s, t, w[1]) && IsObjectOf(s, w[0], w[1])
  {
    Planned(t, text);
    ObjectsCompiled(t, text);
    hide IsTypeOrSubtype, Supplied, IsObjectOf, Fits, Enforced, EngineOrder, SupportedAround, Cypher.Compiled;
    var plans := Plans(t, text);
    assert Plannable(plans[1], plans[..1]);
    if |w| == 2 {
      assert w == [w[0], w[1]];
      ObjectsSupplied(s, t, text, w[1]);
      ObjectsSupported(PatternOf(plans[1]));
      ObjectsEnforced(s, PatternOf(plans[1]), w[0], w[1]);
    }
  }

  lemma ObjectsBrowsed(s: Space, p: Path, x: NodeId, y: NodeId)
    requires p == Path([Node(Object, None, None), ANY_NODE], [Relation(Forward, HAS_TYPE_DEFINITION)])
    requires NotCut(s, BrowseStep(y, Relation(Inverse, HAS_TYPE_DEFINITION), Object))
    ensures BrowsedAround(s, p, 1, [x, y])
  {
    hide NotCut;
    var left := LeftHalf(p, 1);
    assert p.nodes[..1] + [ANY_NODE] == [p.nodes[0], ANY_NODE];
    assert left == Path([Node(Unspecified, None, None), Node(Object, None, None)],
           [Relation(Inverse, HAS_TYPE_DEFINITION)]);
    assert [x, y][1] == y && ([y] + [x, y][..1])[0] == y;
  }

  lemma QueryIsBrowsed(s: Space, t: NodeId, text: NodeId)
    requires TypesBrowsed(s, t)
    ensures ValidPlans(Plans(t, text)) && QueryBrowsed(s, Plans(t, text))
  {
    Planned(t, text);
    ObjectsCompiled(t, text);
    hide V.BrowsedBelow, IsTypeOrSubtype, IsObjectOf, BrowsedAround, NotCut, ClauseAnswer;
    var plans := Plans(t, text);
    assert Plannable(plans[0], plans[..0]) && Plannable(plans[1], plans[..1]);
    assert VisitorOf(s, plans[0].source) == TypesVisitor(s, t);
    forall w | ClauseAnswer(s, plans, 1, w) ensures BrowsedAround(s, PatternOf(plans[1]), 1, w) {
      ObjectsAnswer(s, t, text, w);
      assert w == [w[0], w[1]];
      ObjectsBrowsed(s, PatternOf(plans[1]), w[0], w[1]);
    }
    assert ClauseBrowsed(s, plans, 0) && ClauseBrowsed(s, plans, 1);
  }

  lemma QuerySupported(t: NodeId, text: NodeId)
    ensures ValidPlans(Plans(t, text)) && AllSupported(Plans(t, text))
  {
    Planned(t, text);
    ObjectsCompiled(t, text);
    var plans := Plans(t, text);
    ObjectsSupported(PatternOf(plans[1]));
    hide SupportedAround, Planning.Plannable;
    assert ClauseSupported(plans, 0) && ClauseSupported(plans, 1);
  }

  lemma QueryStarts(s: Space, t: NodeId, text: NodeId)
    requires V.Terminates(TypesVisitor(s, t))
    ensures ValidPlans(Plans(t, text)) && Invariant(s, Plans(t, text), [[], []])
  {
    Planned(t, text);
    hide V.Terminates, ValidPlans;
    var plans := Plans(t, text);
    assert VisitorOf(s, plans[0].source) == TypesVisitor(s, t);
    assert AllWide([], 1) && AllWide([], 2);
  }

  /** The query, from its text to its rows: the pairs of an object and a type, the type being the asked one
      or reached from it through object types, such that a HasTypeDefinition reference leads from the one
      to the other. Every row is such a pair; every such pair has a row when no browse is cut short. */
  lemma ObjectsOfTypes(s: Space, t: NodeId, text: NodeId, w: seq<NodeId>)
    requires Valid(s) && V.Terminates(TypesVisitor(s, t))
    ensures ValidState(s, Plans(t, text), [[], []])
    ensures var run := RunFrom(s, Plans(t, text), [[], []], 0);
            var wanted := |w| == 2 && IsTypeOrSubtype(s, t, w[1]) && IsObjectOf(s, w[0], w[1]);
            && run.Ok?
            && (Yields(run.value[1], w) ==> wanted)
            && (wanted && TypesBrowsed(s, t) ==> Yields(run.value[1], w))
  {
    var plans, none := Plans(t, text), [[], []];
    QueryStarts(s, t, text);
    QuerySupported(t, text);
    SupportedRunsEnd(s, plans, none, 0);
    ObjectsAnswer(s, t, text, w);
    hide RunFrom, IsTypeOrSubtype, IsObjectOf, Yields, V.Terminates, ClauseAnswer, TypesBrowsed;
    var run := RunFrom(s, plans, none, 0);
    if Yields(run.value[1], w) {
      var row := RowOf(run.value[1], w);
      RunKeepsInvariant(s, plans, none);
      RowsAreAnswers(s, plans, run.value, 1, row);
    }
    if TypesBrowsed(s, t) {
      QueryIsBrowsed(s, t, text);
      QueryAnswer(s, plans, none, 1, w);
    }
  }
}
