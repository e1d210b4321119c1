/** What the root of the hierarchy does to a query: exactly which start nodes and roots let a plain
    pattern be answered as it is written. */
module Roots {
  import opened Wrappers
  import opened Sequences
  import opened AddressSpace
  import opened Pattern
  import opened Matching
  import opened Meaning
  import V = Visitors
  import opened Planning
  import opened Runs
  import opened Answers
  import opened ExampleSpaces
  import opened Intentions
  import Cypher

  /** A plan made for the first clause: it asks the visitor for the class of its start node. */
  ghost predicate FirstPlan(plan: ClausePlan) {
    && Plannable(plan, []) && plan.sink.MatchAt? && plan.source.Hierarchy?
    && plan.source.wanted == PatternOf(plan).nodes[plan.sink.idx].nodeClass
    && !AsksForHierarchy(PatternOf(plan))
  }

  lemma PlannedFirst(m: Cypher.Match)
    requires Cypher.WellFormedMatch(m) && PlanMatch(m, []).value.sink.MatchAt?
    ensures FirstPlan(PlanMatch(m, []).value)
  {
    StartIndexMeaning(m.path, []);
  }

  /** In a space without hierarchical references the visitor emits its root and nothing else. */
  lemma FlatVisit(v: V.Visitor)
    requires Flat(v.server) && v.referenceType == HIERARCHICAL_REFERENCES && v.root in v.server.nodes
    ensures V.Terminates(v) && V.Emitted(v) == [V.RootElement(v)]
  {
    forall n ensures V.Children(v, n) == [] {
      var cs := V.Children(v, n);
      if cs != [] {
        assert cs[0] in cs;
        BrowseSound(v.server, V.BrowseChildren(v, n), cs[0]);
      }
    }
    assert V.VisitEach(v, [], |v.server.nodes|) == [];
  }

  /** The first run of the query finds, in the engine's column order, exactly the walks that fit the pattern
      as written and whose start node is the root or is reached from it. */
  ghost predicate AsAsked(s: Space, plan: ClausePlan, w: seq<NodeId>)
    requires FirstPlan(plan)
  {
    var p, idx, v := PatternOf(plan), plan.sink.idx, VisitorOf(s, plan.source);
    && ValidState(s, [plan], [[]]) && RunFrom(s, [plan], [[]], 0).Ok?
    && (Yields(RunFrom(s, [plan], [[]], 0).value[0], w) <==>
        |w| == |p.nodes| && Fits(s, p, EngineOrder(w, idx)) && (w[idx] == v.root || V.Reaches(v, v.root, w[idx])))
  }

  /** The space holds the query's root, cuts no browse short, and lets the visitor come to an end. */
  ghost predicate Visitable(s: Space, plan: ClausePlan)
    requires FirstPlan(plan)
  {
    Valid(s) && Uncapped(s) && plan.source.root in s.nodes && V.Terminates(VisitorOf(s, plan.source))
  }

  ghost predicate AlwaysAsAsked(plan: ClausePlan)
    requires FirstPlan(plan)
  {
    forall s, w {:trigger AsAsked(s, plan, w)} :: Visitable(s, plan) ==> AsAsked(s, plan, w)
  }

  /** The start node and the root agree. Where something follows the start node, the pattern must ask for
      the root itself and nothing more; where it is last, for a class, or for the root itself, and for a type
      only if its id keeps the root out. */
  predicate RootAgrees(p: Path, idx: nat, root: NodeId)
    requires idx < |p.nodes|
  {
    var n := p.nodes[idx];
    if idx < |p.nodes| - 1 then n == Node(Unspecified, Some(root), None)
    else
      && (n.nodeClass != Unspecified || n.id == Some(root))
      && (n.typeDefinitionId.None? || (n.id.Some? && n.id.value != root))
  }

  // ---------------------------------------------------------------- where they agree

  lemma OfferedIsAsked(s: Space, plan: ClausePlan, x: NodeId)
    requires FirstPlan(plan) && Visitable(s, plan) && RootAgrees(PatternOf(plan), plan.sink.idx, plan.source.root)
    requires PatternOf(plan).nodes[plan.sink.idx].typeDefinitionId != Some(NullId)
    ensures var v, n := VisitorOf(s, plan.source), PatternOf(plan).nodes[plan.sink.idx];
            Offered(s, v, PatternOf(plan), plan.sink.idx, x) <==>
            NodeOk(s, n, x) && (x == v.root || V.Reaches(v, v.root, x))
  {
    var v := VisitorOf(s, plan.source);
    hide V.Reaches, V.Terminates, Uncapped, Cypher.Compiled;
    if V.Reaches(v, v.root, x) {
      var a := V.LastStep(v, x);
    }
  }

  lemma AgreedIsAsked(s: Space, plan: ClausePlan, w: seq<NodeId>)
    requires FirstPlan(plan) && Visitable(s, plan) && RootAgrees(PatternOf(plan), plan.sink.idx, plan.source.root)
    requires Plain(PatternOf(plan), plan.sink.idx)
    requires PatternOf(plan).nodes[plan.sink.idx].typeDefinitionId != Some(NullId)
    ensures AsAsked(s, plan, w)
  {
    var p, idx, v := PatternOf(plan), plan.sink.idx, VisitorOf(s, plan.source);
    FirstRun(s, plan);
    AllBrowsedAround(s, p, idx, w);
    NoVisitIsCut(v);
    hide RunFrom, Feed, Fits, Enforced, Offered, EngineOrder, Answer, BrowsedAround, V.Reaches, V.Terminates, NodeOk,
         Uncapped, RootAgrees, V.BrowsedBelow, SupportedAround, IdsSymmetric;
    FeedMeaning(s, plan, V.Emitted(v), w);
    EmittedAnswers(s, v, p, idx, w);
    if |w| == |p.nodes| {
      EngineOrderTwice(w, idx);
      PlainIsEnforced(s, p, idx, EngineOrder(w, idx));
      OfferedIsAsked(s, plan, w[idx]);
    }
  }

  lemma NoVisitIsCut(v: V.Visitor)
    requires Uncapped(v.server)
    ensures V.BrowsedBelow(v)
  {
    hide NotCut, V.Reaches;
    forall n | n == v.root || V.Reaches(v, v.root, n) ensures NotCut(v.server, V.BrowseChildren(v, n)) {
    }
  }

  // ---------------------------------------------------------------- where they do not

  lemma RootRow(s: Space, plan: ClausePlan, row: Row)
    requires FirstPlan(plan) && plan.source.root in s.nodes && Flat(s)
    requires SupportedAround(PatternOf(plan), plan.sink.idx)
    ensures var v := VisitorOf(s, plan.source);
            && V.Terminates(v) && ValidState(s, [plan], [[]]) && RunFrom(s, [plan], [[]], 0).Ok?
            && var r := CheckPath(s, PatternOf(plan), plan.sink.idx, V.RootElement(v));
            && r.Ok? && (row in RunFrom(s, [plan], [[]], 0).value[0] <==> row in r.value)
  {
    var v := VisitorOf(s, plan.source);
    FlatVisit(v);
    FirstRun(s, plan);
    FeedEnds(s, plan, [V.RootElement(v)]);
    hide RunFrom, CheckPath, SupportedAround, V.Terminates;
    FeedMember(s, plan, [V.RootElement(v)], row);
    assert forall e :: e in [V.RootElement(v)] <==> e == V.RootElement(v);
    assert Feed(s, plan, [V.RootElement(v)][1..]) == Ok([]);
  }

  /** The root is the start of a row, and is not what the pattern asks for. */
  lemma RootTooMany(plan: ClausePlan) returns (s: Space, w: seq<NodeId>)
    requires FirstPlan(plan)
    requires var p, idx := PatternOf(plan), plan.sink.idx;
             && NoNullIds(p) && OneClassPerId(p) && Light(p) && SupportedAround(p, idx) && IdsSymmetric(p, idx)
             && OnlyPivotAsks(p, idx, Some(plan.source.root)) && p.nodes[idx].typeDefinitionId != Some(NullId)
             && idx < |p.nodes| - 1 && !AsksAtMostFor(p.nodes[idx], Some(plan.source.root))
    ensures Visitable(s, plan) && !AsAsked(s, plan, w)
  {
    var p, idx := PatternOf(plan), plan.sink.idx;
    hide CheckPath, SupportedAround, IdsSymmetric, Fits, NodeOk, Flat, Uncapped, Valid, RunFrom, V.Terminates,
         EngineOrder;
    var start, row;
    s, start, row := PivotIgnored(p, idx, Some(plan.source.root));
    RootRow(s, plan, row);
    w := Ids(row);
    EngineOrderTwice(w, idx);
    RootDoesNotFit(s, p, idx, w);
  }

  lemma RootDoesNotFit(s: Space, p: Path, idx: nat, w: seq<NodeId>)
    requires idx < |p.nodes| == |w| && !NodeOk(s, p.nodes[idx], w[idx])
    requires EngineOrder(w, idx)[idx] == w[idx]
    ensures !Fits(s, p, EngineOrder(w, idx))
  {
  }

  function AskForRoot(p: Path, idx: nat, root: NodeId): Path
    requires idx < |p.nodes|
  {
    Path(p.nodes[idx := p.nodes[idx].(id := Some(root))], p.relations)
  }

  lemma AskedForRootFits(s: Space, p: Path, idx: nat, root: NodeId, w: seq<NodeId>)
    requires idx < |p.nodes| && p.nodes[idx].id in {None, Some(root)} && Fits(s, AskForRoot(p, idx, root), w)
    ensures Fits(s, p, w)
  {
    var q := AskForRoot(p, idx, root);
    forall i | 0 <= i < |p.nodes| ensures NodeOk(s, p.nodes[i], w[i]) {
      assert NodeOk(s, q.nodes[i], w[i]);
    }
    forall i | 0 <= i < |p.relations| ensures Step(s, w[i], p.relations[i], w[i + 1]) {
      assert Step(s, w[i], q.relations[i], w[i + 1]);
    }
  }

  lemma AskedForRootConsistent(p: Path, idx: nat, root: NodeId)
    requires idx < |p.nodes| && NoNullIds(p) && DistinctIds(p) && OnlyPivotAsks(p, idx, Some(root))
    ensures var q := AskForRoot(p, idx, root);
            OneNodePerId(q) && DistinctIds(q) && Unused(q, FreeNamespace(p, Some(root)))
  {
    NamespaceIsFree(p, Some(root));
  }

  /** The root is what the pattern asks for, type and all, and has no row: it is emitted without a type. */
  lemma RootLost(plan: ClausePlan) returns (s: Space, w: seq<NodeId>)
    requires FirstPlan(plan)
    requires var p, idx := PatternOf(plan), plan.sink.idx;
             && NoNullIds(p) && DistinctIds(p) && SupportedAround(p, idx)
             && OnlyPivotAsks(p, idx, Some(plan.source.root)) && p.nodes[idx].typeDefinitionId != Some(NullId)
             && idx == |p.nodes| - 1 && p.nodes[idx].typeDefinitionId.Some?
             && p.nodes[idx].id in {None, Some(plan.source.root)}
    ensures Visitable(s, plan) && !AsAsked(s, plan, w)
  {
    var p, idx, root := PatternOf(plan), plan.sink.idx, plan.source.root;
    hide CheckPath, SupportedAround, Fits, Flat, Uncapped, Valid, RunFrom, V.Terminates, EngineOrder, LineOf;
    var q, ns := AskForRoot(p, idx, root), FreeNamespace(p, Some(root));
    AskedForRootConsistent(p, idx, root);
    s := LineOf(q, ns);
    var v := Straight(q, ns);
    w := EngineOrder(v, idx);
    LineIsValid(q, ns);
    LineFits(q, ns);
    LineIsFlat(q, ns);
    LineOfNode(q, ns, idx);
    AskedForRootFits(s, p, idx, root, v);
    EngineOrderTwice(v, idx);
    FlatVisit(VisitorOf(s, plan.source));
    NotRootsRow(s, plan, w);
  }

  lemma NotRootsRow(s: Space, plan: ClausePlan, w: seq<NodeId>)
    requires FirstPlan(plan) && V.Terminates(VisitorOf(s, plan.source))
    requires V.Emitted(VisitorOf(s, plan.source)) == [V.RootElement(VisitorOf(s, plan.source))]
    requires |w| == |PatternOf(plan).nodes|
    requires w[plan.sink.idx] != plan.source.root
             || !PivotOk(V.RootElement(VisitorOf(s, plan.source)), PatternOf(plan), plan.sink.idx)
    ensures ValidState(s, [plan], [[]])
    ensures RunFrom(s, [plan], [[]], 0).Ok? ==> !Yields(RunFrom(s, [plan], [[]], 0).value[0], w)
  {
    var v := VisitorOf(s, plan.source);
    FirstRun(s, plan);
    hide RunFrom, Feed, Fits, Enforced, EngineOrder, PivotOk, SupportedAround, V.Terminates, V.Emitted;
    var run := RunFrom(s, [plan], [[]], 0);
    if run.Ok? && Yields(run.value[0], w) {
      var row := RowOf(run.value[0], w);
      var e := FeedSound(s, plan, V.Emitted(v), row);
    }
  }

  /** The space with a root and one hierarchical reference from it. */
  function WithRoot(s: Space, root: NodeId, y: NodeId): Space {
    Space(s.nodes[root := Attributes(Object, NullId)],
          s.references + [Reference(root, HIERARCHICAL_REFERENCES, y)],
          s.subtypes)
  }

  lemma WithRootFits(s: Space, root: NodeId, y: NodeId, p: Path, w: seq<NodeId>)
    requires Fits(s, p, w) && root !in w
    ensures Fits(WithRoot(s, root, y), p, w)
  {
    var t := WithRoot(s, root, y);
    forall i | 0 <= i < |p.nodes| ensures NodeOk(t, p.nodes[i], w[i]) {
      assert NodeOk(s, p.nodes[i], w[i]);
    }
    forall i | 0 <= i < |p.relations| ensures Step(t, w[i], p.relations[i], w[i + 1]) {
      assert Step(s, w[i], p.relations[i], w[i + 1]);
      HopKept(s, root, y, w[i], p.relations[i], w[i + 1]);
    }
  }

  lemma HopKept(s: Space, root: NodeId, y: NodeId, a: NodeId, r: Relation, b: NodeId)
    requires Step(s, a, r, b)
    ensures Step(WithRoot(s, root, y), a, r, b)
  {
    var t := WithRoot(s, root, y);
    assert forall x :: x in s.references ==> x in t.references;
    assert forall x :: TypeMatches(s, r.referenceType, x) == TypeMatches(t, r.referenceType, x);
  }

  lemma LineIsShort(s: Space, bd: BrowseDescription, p: Path, ns: nat)
    requires WellFormed(p) && Unused(p, ns) && DistinctIds(p)
    ensures |DescribeAll(s, bd, LineOfReferences(Straight(p, ns), p.relations, Numeric(ns, 0)))| <= 2
  {
    var w := Straight(p, ns);
    forall i, j | 0 <= i < j < |w| ensures w[i] != w[j] {
    }
    TimesDistinct(w, bd.nodeId);
    LineCount(s, bd, w, p.relations, Numeric(ns, 0));
  }

  lemma WithRootNotCut(s: Space, bd: BrowseDescription, line: seq<Reference>, r: Reference)
    requires s.references == line + [r] && |DescribeAll(s, bd, line)| <= 2
    ensures NotCut(s, bd)
  {
    DescribeAllConcat(s, bd, line, [r]);
    assert [r][1..] == [] && DescribeAll(s, bd, [r]) == DescribeEnds(s, bd, r) + [];
  }

  lemma WithRootIsValid(p: Path, ns: nat, root: NodeId, y: NodeId)
    requires WellFormed(p) && OneNodePerId(p) && Unused(p, ns) && DistinctIds(p)
    requires root != NullId && y in LineOf(p, ns).nodes
    ensures Valid(WithRoot(LineOf(p, ns), root, y)) && Uncapped(WithRoot(LineOf(p, ns), root, y))
  {
    LineIsValid(p, ns);
    var s, line := WithRoot(LineOf(p, ns), root, y), LineOfReferences(Straight(p, ns), p.relations, Numeric(ns, 0));
    hide NotCut, LineOfReferences, Uncapped;
    forall bd ensures NotCut(s, bd) {
      LineIsShort(s, bd, p, ns);
      WithRootNotCut(s, bd, line, Reference(root, HIERARCHICAL_REFERENCES, y));
    }
    AllNotCut(s);
  }

  lemma AllNotCut(s: Space)
    requires forall bd :: NotCut(s, bd)
    ensures Uncapped(s)
  {
  }

  ghost predicate OneChild(s: Space, v: V.Visitor, y: NodeId) {
    && Flat(s) && v.server == WithRoot(s, v.root, y) && v.referenceType == HIERARCHICAL_REFERENCES
    && v.root != y && y in s.nodes && Info(s, y).nodeClass == Object && v.wanted == Unspecified
  }

  lemma OneHop(s: Space, v: V.Visitor, y: NodeId, a: NodeId, b: NodeId)
    requires OneChild(s, v, y)
    ensures Hop(v.server, a, Forward, HIERARCHICAL_REFERENCES, b) <==> a == v.root && b == y
  {
    var t, r := v.server, Reference(v.root, HIERARCHICAL_REFERENCES, y);
    assert t.references == s.references + [r];
    assert forall x :: x in t.references <==> x in s.references || x == r;
    assert forall u, x :: TypeMatches(t, u, x) == TypeMatches(s, u, x);
    assert TypeMatches(t, HIERARCHICAL_REFERENCES, r.referenceType);
  }

  lemma ChildIsTheOne(s: Space, v: V.Visitor, y: NodeId, n: NodeId, c: ReferenceDescription)
    requires OneChild(s, v, y) && c in V.Children(v, n)
    ensures n == v.root && c.nodeId == y
  {
    hide Hop, WithRoot;
    BrowseSound(v.server, V.BrowseChildren(v, n), c);
    OneHop(s, v, y, n, c.nodeId);
  }

  lemma RootCounts(s: Space, root: NodeId, y: NodeId)
    ensures |WithRoot(s, root, y).nodes| > 0
  {
    var nodes := WithRoot(s, root, y).nodes;
    assert root in nodes.Keys && |nodes.Keys| == |nodes|;
  }

  lemma OneLevel(v: V.Visitor, y: NodeId, d: nat)
    requires d > 0 && (forall c :: c in V.Children(v, v.root) ==> c.nodeId == y) && V.Children(v, y) == []
    ensures V.DepthAtMost(v, v.root, d)
  {
    hide V.Children;
    assert V.DepthAtMost(v, y, d - 1);
  }

  lemma OneChildReached(s: Space, v: V.Visitor, y: NodeId)
    requires OneChild(s, v, y)
    ensures V.Reaches(v, v.root, y)
  {
    OneHop(s, v, y, v.root, y);
    hide Hop, Flat, V.Reaches;
    assert Info(v.server, y).nodeClass == Object;
    assert V.AllowedHop(v, v.root, y);
    V.ReachesDirectly(v, v.root, y);
  }

  lemma NoneBelow(s: Space, v: V.Visitor, y: NodeId)
    requires OneChild(s, v, y)
    ensures V.Children(v, y) == []
  {
    hide V.Children, WithRoot, Flat;
    FirstIsMember(V.Children(v, y));
    if V.Children(v, y) != [] {
      ChildIsTheOne(s, v, y, y, V.Children(v, y)[0]);
    }
  }

  lemma WithRootVisit(s: Space, v: V.Visitor, y: NodeId)
    requires OneChild(s, v, y)
    ensures V.Terminates(v) && V.Reaches(v, v.root, y)
  {
    RootCounts(s, v.root, y);
    OneChildReached(s, v, y);
    hide V.Children, V.AllowedHop, V.Reaches, WithRoot, Flat, Hop, V.DepthAtMost;
    forall c | c in V.Children(v, v.root) ensures c.nodeId == y {
      ChildIsTheOne(s, v, y, v.root, c);
    }
    NoneBelow(s, v, y);
    OneLevel(v, y, |v.server.nodes|);
  }

  lemma RootIsElsewhere(p: Path, idx: nat, root: NodeId)
    requires idx < |p.nodes| && OnlyPivotAsks(p, idx, Some(root)) && p.nodes[idx].id != Some(root)
    ensures root !in Straight(p, FreeNamespace(p, Some(root)))
  {
    NamespaceIsFree(p, Some(root));
    var v := Straight(p, FreeNamespace(p, Some(root)));
    forall k | 0 <= k < |p.nodes| ensures v[k] != root {
      assert k != idx ==> p.nodes[k].id != Some(root);
    }
  }

  lemma BelowIsOneChild(p: Path, idx: nat, v: V.Visitor)
    requires WellFormed(p) && idx < |p.nodes| && OneNodePerId(p) && Unused(p, FreeNamespace(p, Some(v.root)))
    requires p.nodes[idx].nodeClass == Unspecified && v.wanted == Unspecified && !AsksForHierarchy(p)
    requires var ns := FreeNamespace(p, Some(v.root));
             && v.server == WithRoot(LineOf(p, ns), v.root, NodeFor(p, ns, idx)) && v.root !in Straight(p, ns)
    requires v.referenceType == HIERARCHICAL_REFERENCES
    ensures var ns := FreeNamespace(p, Some(v.root));
            OneChild(LineOf(p, ns), v, NodeFor(p, ns, idx)) && v.root in v.server.nodes
  {
    var ns := FreeNamespace(p, Some(v.root));
    LineOfNode(p, ns, idx);
    LineIsFlat(p, ns);
    assert Straight(p, ns)[idx] == NodeFor(p, ns, idx);
  }

  /** A space with a fitting walk whose start node is below the root. */
  lemma SpaceBelow(plan: ClausePlan) returns (s: Space, w: seq<NodeId>)
    requires FirstPlan(plan)
    requires var p, idx := PatternOf(plan), plan.sink.idx;
             && NoNullIds(p) && DistinctIds(p) && OnlyPivotAsks(p, idx, Some(plan.source.root))
             && p.nodes[idx].nodeClass == Unspecified && p.nodes[idx].id != Some(plan.source.root)
    ensures Visitable(s, plan) && |w| == |PatternOf(plan).nodes|
    ensures Fits(s, PatternOf(plan), EngineOrder(w, plan.sink.idx))
    ensures var v := VisitorOf(s, plan.source); w[plan.sink.idx] != v.root && V.Reaches(v, v.root, w[plan.sink.idx])
  {
    var p, idx, root := PatternOf(plan), plan.sink.idx, plan.source.root;
    var ns := FreeNamespace(p, Some(root));
    NamespaceIsFree(p, Some(root));
    RootIsElsewhere(p, idx, root);
    hide Fits, Uncapped, Valid, V.Terminates, V.Reaches, EngineOrder, LineOf, WithRoot, OneChild, Cypher.Compiled,
         AsksForHierarchy;
    var walk, y := Straight(p, ns), NodeFor(p, ns, idx);
    s := WithRoot(LineOf(p, ns), root, y);
    w := EngineOrder(walk, idx);
    BelowIsOneChild(p, idx, VisitorOf(s, plan.source));
    LineOfNode(p, ns, idx);
    LineFits(p, ns);
    WithRootIsValid(p, ns, root, y);
    WithRootFits(LineOf(p, ns), root, y, p, walk);
    EngineOrderTwice(walk, idx);
    WithRootVisit(LineOf(p, ns), VisitorOf(s, plan.source), y);
  }

  /** A node below the root fits, and has no row: without a class to look for the visitor emits its root only. */
  lemma BelowLost(plan: ClausePlan) returns (s: Space, w: seq<NodeId>)
    requires FirstPlan(plan)
    requires var p, idx := PatternOf(plan), plan.sink.idx;
             && NoNullIds(p) && DistinctIds(p) && OnlyPivotAsks(p, idx, Some(plan.source.root))
             && p.nodes[idx].nodeClass == Unspecified && p.nodes[idx].id != Some(plan.source.root)
    ensures Visitable(s, plan) && !AsAsked(s, plan, w)
  {
    hide Fits, Uncapped, Valid, RunFrom, V.Terminates, V.Reaches, EngineOrder, Cypher.Compiled, Plannable;
    s, w := SpaceBelow(plan);
    V.Unfindable(VisitorOf(s, plan.source));
    NotRootsRow(s, plan, w);
  }

  /** A plain pattern is answered as written by the first run, in every space that holds the root, exactly
      when its start node and the root agree. */
  lemma AskedIffRootAgrees(m: Cypher.Match)
    requires Cypher.WellFormedMatch(m) && PlanMatch(m, []).value.sink.MatchAt?
    requires var plan := PlanMatch(m, []).value;
             var p := PatternOf(plan);
             && Plain(p, plan.sink.idx) && NoNullIds(p) && DistinctIds(p)
             && (forall j :: 0 <= j < |p.nodes| ==> p.nodes[j].typeDefinitionId != Some(NullId))
             && OnlyPivotAsks(p, plan.sink.idx, Some(plan.source.root))
    ensures var plan := PlanMatch(m, []).value;
            FirstPlan(plan) && (AlwaysAsAsked(plan) <==> RootAgrees(PatternOf(plan), plan.sink.idx, plan.source.root))
  {
    PlannedFirst(m);
    hide PlanMatch, Visitable, AsAsked, SupportedAround, IdsSymmetric, Cypher.Compiled;
    var plan := PlanMatch(m, []).value;
    var p, idx, root := PatternOf(plan), plan.sink.idx, plan.source.root;
    if RootAgrees(p, idx, root) {
      forall s, w | Visitable(s, plan) ensures AsAsked(s, plan, w) {
        AgreedIsAsked(s, plan, w);
      }
    } else if p.nodes[idx].nodeClass == Unspecified && p.nodes[idx].id != Some(root)
              && (idx == |p.nodes| - 1 || p.nodes[idx] == ANY_NODE) {
      var s, w := BelowLost(plan);
    } else if idx == |p.nodes| - 1 {
      var s, w := RootLost(plan);
    } else {
      OneClassEach(p);
      var s, w := RootTooMany(plan);
    }
  }

  lemma OneClassEach(p: Path)
    requires DistinctIds(p)
    ensures OneClassPerId(p) && Light(p)
  {
  }
}
