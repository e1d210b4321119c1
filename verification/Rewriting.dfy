/** Two ways to ask for the objects of a type: by a step along HasTypeDefinition, and by the type
    attribute of the object itself. */
module Rewriting {
  import opened Wrappers
  import opened Sequences
  import opened AddressSpace
  import opened Pattern
  import opened Matching
  import opened Walks
  import opened PathResults
  import V = Visitors
  import opened Planning
  import opened Runs
  import opened Answers
  import Cypher

  /** MATCH (obj:Object)-[:HasTypeDefinition]->(:ObjectType{NodeId: t}) */
  function ByReference(t: NodeId): Cypher.Match {
    Cypher.Match(
      Cypher.Path([Cypher.Node(Some("obj"), Some("Object"), map[]),
          Cypher.Node(None, Some("ObjectType"), map["NodeId" := t])],
                  [Cypher.Relationship(Some("HasTypeDefinition"), 1)]),
      None)
  }

  /** MATCH (obj:Object{TypeDefinitionId: t}) */
  function ByAttribute(t: NodeId): Cypher.Match {
    Cypher.Match(Cypher.Path([Cypher.Node(Some("obj"), Some("Object"), map["TypeDefinitionId" := t])], []), None)
  }

  function PlanOf(m: Cypher.Match): ClausePlan {
    ClausePlan(m.path, Hierarchy(OBJECTS_FOLDER, Object), MatchAt(0))
  }

  lemma BothPlanned(t: NodeId)
    ensures Cypher.WellFormedMatch(ByReference(t)) && PlanMatch(ByReference(t), []) == Some(PlanOf(ByReference(t)))
    ensures Cypher.WellFormedMatch(ByAttribute(t)) && PlanMatch(ByAttribute(t), []) == Some(PlanOf(ByAttribute(t)))
  {
    StartIndexMeaning(ByReference(t).path, []);
    StartIndexMeaning(ByAttribute(t).path, []);
  }

  /** A HasTypeDefinition reference leads from the node to the type. */
  ghost predicate TypedByReference(s: Space, n: NodeId, t: NodeId) {
    Hop(s, n, Forward, HAS_TYPE_DEFINITION, t) && Info(s, t).nodeClass == ObjectType
  }

  /** No browse for the type of a node is cut short. */
  ghost predicate DefinitionsBrowsed(s: Space) {
    forall n :: n in s.nodes ==> NotCut(s, BrowseStep(n, Relation(Forward, HAS_TYPE_DEFINITION), ObjectType))
  }

  /** The type attribute of every object is the one object type its HasTypeDefinition reference
      leads to. */
  ghost predicate TypesAgree(s: Space) {
    forall n, t :: n in s.nodes && s.nodes[n].nodeClass == Object ==>
      (TypedByReference(s, n, t) <==> s.nodes[n].typeDefinition == t)
  }

  ghost function TypedElements(s: Space, es: Row, t: NodeId): Row {
    if es == [] then []
    else (if TypedByReference(s, es[0].nodeId, t) then [es[0]] else []) + TypedElements(s, es[1..], t)
  }

  lemma CompiledForms(t: NodeId)
    ensures Cypher.Compiled(ByReference(t).path)
            == Path([Node(Object, None, None), Node(ObjectType, Some(t), None)],
                [Relation(Forward, HAS_TYPE_DEFINITION)])
    ensures Cypher.Compiled(ByAttribute(t).path) == Path([Node(Object, None, Some(t))], [])
  {
  }

  lemma OneNodeRows(s: Space, e: ReferenceDescription, n: Node)
    ensures CheckPath(s, Path([n], []), 0, e) == Ok(if Matches(e, n) then [[e]] else [])
  {
    var p := Path([n], []);
    assert Split(p, 0).1 == p;
    assert Check(s, e, p) == Ok(if Matches(e, n) then [[e]] else []);
  }

  lemma TwoNodeRows(s: Space, e: ReferenceDescription, n: Node, r: Relation, m: Node)
    requires m.id.Some?
    ensures var first := FirstWithId(Found(s, BrowseStep(e.nodeId, r, m.nodeClass)), m.id.value);
            CheckPath(s, Path([n, m], [r]), 0, e) == Ok(if first == [] then [] else [[e, first[0]]])
  {
    var p := Path([n, m], [r]);
    var first := FirstWithId(Found(s, BrowseStep(e.nodeId, r, m.nodeClass)), m.id.value);
    assert Split(p, 0).1 == p;
    CheckIsWalk(s, e, p);
    WalkAtId(s, e, p);
    if first != [] {
      assert Walk(s, first[0], Drop(p, 1)) == [[first[0]]];
      assert [e] + [first[0]] == [e, first[0]];
      assert Prefixed([e], [[first[0]]]) == [[e, first[0]]];
    }
  }

  lemma ReferenceRows(s: Space, e: ReferenceDescription, t: NodeId)
    requires Valid(s) && DefinitionsBrowsed(s)
    ensures WellPlanned(PlanOf(ByReference(t)))
    ensures var r := Produced(s, PlanOf(ByReference(t)), e);
            r.Ok? && ColumnOf(r.value, 0) == if TypedByReference(s, e.nodeId, t) then [e] else []
  {
    hide CheckPath, FirstWithId, TypedByReference, Cypher.Compiled;
    CompiledForms(t);
    TwoNodeRows(s, e, Node(Object, None, None), Relation(Forward, HAS_TYPE_DEFINITION),
        Node(ObjectType, Some(t), None));
    FirstTypedReference(s, e.nodeId, t);
  }

  lemma FirstTypedReference(s: Space, n: NodeId, t: NodeId)
    requires Valid(s) && DefinitionsBrowsed(s)
    ensures FirstWithId(Found(s, BrowseStep(n, Relation(Forward, HAS_TYPE_DEFINITION), ObjectType)), t) != []
            <==> TypedByReference(s, n, t)
  {
    var bd := BrowseStep(n, Relation(Forward, HAS_TYPE_DEFINITION), ObjectType);
    var first := FirstWithId(Found(s, bd), t);
    if TypedByReference(s, n, t) {
      assert n in s.nodes && NotCut(s, bd);
      BrowseComplete(s, bd, t);
    }
    if first != [] {
      assert first[0] in first;
      BrowseSound(s, bd, first[0]);
    }
  }

  lemma AttributeRows(s: Space, e: ReferenceDescription, t: NodeId)
    ensures WellPlanned(PlanOf(ByAttribute(t)))
    ensures var r := Produced(s, PlanOf(ByAttribute(t)), e);
            r.Ok? && ColumnOf(r.value, 0) == if e.nodeClass == Object && e.typeDefinition == t then [e] else []
  {
    CompiledForms(t);
    OneNodeRows(s, e, Node(Object, None, Some(t)));
  }

  lemma ColumnConcat(a: seq<Row>, b: seq<Row>, c: nat)
    requires forall row :: row in a + b ==> c < |row|
    ensures (forall row :: row in a ==> row in a + b) && (forall row :: row in b ==> row in a + b)
    ensures ColumnOf(a + b, c) == ColumnOf(a, c) + ColumnOf(b, c)
  {
  }

  lemma {:induction false} FeedByReference(s: Space, es: Row, t: NodeId)
    requires Valid(s) && DefinitionsBrowsed(s)
    ensures WellPlanned(PlanOf(ByReference(t)))
    ensures var r := Feed(s, PlanOf(ByReference(t)), es);
            r.Ok? && ColumnOf(r.value, 0) == TypedElements(s, es, t)
    decreases |es|
  {
    if es != [] {
      ReferenceRows(s, es[0], t);
      FeedByReference(s, es[1..], t);
      var plan := PlanOf(ByReference(t));
      assert forall row :: row in Feed(s, plan, es).value ==> |row| == 2;
      ColumnConcat(Produced(s, plan, es[0]).value, Feed(s, plan, es[1..]).value, 0);
    }
  }

  lemma {:induction false} FeedByAttribute(s: Space, es: Row, t: NodeId)
    requires TypesAgree(s) && forall e :: e in es ==> e.nodeId in s.nodes && e.nodeClass == Object && Describes(s, e)
    ensures WellPlanned(PlanOf(ByAttribute(t)))
    ensures var r := Feed(s, PlanOf(ByAttribute(t)), es);
            r.Ok? && ColumnOf(r.value, 0) == TypedElements(s, es, t)
    decreases |es|
  {
    if es != [] {
      AttributeRows(s, es[0], t);
      assert es[0] in es && forall e :: e in es[1..] ==> e in es;
      FeedByAttribute(s, es[1..], t);
      var plan := PlanOf(ByAttribute(t));
      assert forall row :: row in Feed(s, plan, es).value ==> |row| == 1;
      ColumnConcat(Produced(s, plan, es[0]).value, Feed(s, plan, es[1..]).value, 0);
    }
  }

  lemma RootByAttribute(s: Space, v: V.Visitor, below: Row, t: NodeId)
    requires t != NullId
    ensures WellPlanned(PlanOf(ByAttribute(t)))
    ensures Feed(s, PlanOf(ByAttribute(t)), [V.RootElement(v)] + below) == Feed(s, PlanOf(ByAttribute(t)), below)
  {
    var plan := PlanOf(ByAttribute(t));
    AttributeRows(s, V.RootElement(v), t);
    assert |ColumnOf(Produced(s, plan, V.RootElement(v)).value, 0)| == |Produced(s, plan, V.RootElement(v)).value|;
    assert ([V.RootElement(v)] + below)[1..] == below;
    if Feed(s, plan, below).Ok? {
      var none: seq<Row> := [];
      assert none + Feed(s, plan, below).value == Feed(s, plan, below).value;
    }
  }

  /** Both queries give the same objects in the same order and multiplicity, except that the first
      also gives the root of the hierarchy when a reference gives it the type. */
  lemma RewritingKeepsObjects(s: Space, t: NodeId)
    requires Valid(s) && DefinitionsBrowsed(s) && TypesAgree(s) && t != NullId
    requires V.Terminates(V.Visitor(s, OBJECTS_FOLDER, HIERARCHICAL_REFERENCES, Object))
    ensures var v := V.Visitor(s, OBJECTS_FOLDER, HIERARCHICAL_REFERENCES, Object);
            var one, two := PlanOf(ByReference(t)), PlanOf(ByAttribute(t));
            && ValidState(s, [one], [[]]) && RunFrom(s, [one], [[]], 0).Ok?
            && ValidState(s, [two], [[]]) && RunFrom(s, [two], [[]], 0).Ok?
            && var ones, twos := RunFrom(s, [one], [[]], 0).value[0], RunFrom(s, [two], [[]], 0).value[0];
            && (forall row :: row in ones ==> |row| == 2) && (forall row :: row in twos ==> |row| == 1)
            && ColumnOf(ones, 0)
               == (if OBJECTS_FOLDER in s.nodes && TypedByReference(s, OBJECTS_FOLDER, t)
                   then [V.RootElement(v)] else [])
                  + ColumnOf(twos, 0)
  {
    var v := V.Visitor(s, OBJECTS_FOLDER, HIERARCHICAL_REFERENCES, Object);
    var one, two := PlanOf(ByReference(t)), PlanOf(ByAttribute(t));
    BothPlanned(t);
    FirstRun(s, one);
    FirstRun(s, two);
    FeedByReference(s, V.Emitted(v), t);
    if OBJECTS_FOLDER in s.nodes {
      var below := V.Visit(v, v.root, |s.nodes|);
      BelowAreObjects(s, v, below);
      FeedByAttribute(s, below, t);
      RootByAttribute(s, v, below, t);
      assert V.Emitted(v) == [V.RootElement(v)] + below && ([V.RootElement(v)] + below)[1..] == below;
    }
  }

  lemma BelowAreObjects(s: Space, v: V.Visitor, below: Row)
    requires Valid(s) && v.server == s && v.wanted == Object
    requires V.Terminates(v) && below == V.Visit(v, v.root, |s.nodes|)
    ensures forall e :: e in below ==> e.nodeId in s.nodes && e.nodeClass == Object && Describes(s, e)
  {
    forall e | e in below ensures e.nodeId in s.nodes && e.nodeClass == Object && Describes(s, e) {
      V.VisitSound(v, e);
    }
  }
}
