/** How often a query finds an answer, counted in references of the address space: those along the
    pattern, and those of the hierarchy from the visitor's root to the start node. */
module AnswerCounts {
  import opened Wrappers
  import opened Sequences
  import opened AddressSpace
  import opened Pattern
  import opened Matching
  import opened Meaning
  import opened Counts
  import opened PathResults
  import V = Visitors
  import opened Planning
  import opened Runs
  import opened Answers
  import Cypher

  // ---------------------------------------------------------------- the visitor

  /** The reference leads from `n` to a node the visitor goes through. */
  predicate Leads(v: V.Visitor, n: NodeId, r: Reference) {
    && r.source == n && TypeMatches(v.server, v.referenceType, r.referenceType)
    && V.GoesThrough(v.wanted, Info(v.server, r.target).nodeClass)
  }

  /** The number of chains of one to `d` references along allowed nodes from `n` to `x`. */
  function ChainsOfReferences(v: V.Visitor, n: NodeId, x: NodeId, d: nat): nat
    decreases d, 1, 0
  {
    if d == 0 then 0 else ChainsThroughEach(v, v.server.references, n, x, d)
  }

  /** Those of them that begin with one of the given references. */
  function ChainsThroughEach(v: V.Visitor, rs: seq<Reference>, n: NodeId, x: NodeId, d: nat): nat
    requires d > 0
    decreases d, 0, |rs|
  {
    if rs == [] then 0
    else
      (if Leads(v, n, rs[0])
       then (if rs[0].target == x then 1 else 0) + ChainsOfReferences(v, rs[0].target, x, d - 1) else 0)
      + ChainsThroughEach(v, rs[1..], n, x, d)
  }

  /** The same for a list of children. */
  function ChainsFromEach(v: V.Visitor, cs: Row, x: NodeId, d: nat): nat
    requires d > 0
    decreases cs
  {
    if cs == [] then 0
    else
      (if cs[0].nodeId == x then 1 else 0) + ChainsOfReferences(v, cs[0].nodeId, x, d - 1)
          + ChainsFromEach(v, cs[1..], x, d)
  }

  lemma {:induction false} ChainsFromConcat(v: V.Visitor, a: Row, b: Row, x: NodeId, d: nat)
    requires d > 0
    ensures ChainsFromEach(v, a + b, x, d) == ChainsFromEach(v, a, x, d) + ChainsFromEach(v, b, x, d)
    decreases |a|
  {
    if a == [] {
      assert a + b == b;
    } else {
      assert (a + b)[0] == a[0] && (a + b)[1..] == a[1..] + b;
      ChainsFromConcat(v, a[1..], b, x, d);
    }
  }

  lemma EndsLead(v: V.Visitor, n: NodeId, r: Reference)
    ensures var bd := V.BrowseChildren(v, n);
            DescribeEnds(v.server, bd, r) == if Leads(v, n, r) then [Describe(v.server, bd, r, true)] else []
  {
  }

  lemma {:induction false} ChainsAreChains(v: V.Visitor, rs: seq<Reference>, n: NodeId, x: NodeId, d: nat)
    requires d > 0
    ensures ChainsFromEach(v, DescribeAll(v.server, V.BrowseChildren(v, n), rs), x, d)
            == ChainsThroughEach(v, rs, n, x, d)
    decreases |rs|
  {
    if rs != [] {
      hide Leads, ChainsOfReferences;
      var bd := V.BrowseChildren(v, n);
      ChainsAreChains(v, rs[1..], n, x, d);
      EndsLead(v, n, rs[0]);
      ChainsFromConcat(v, DescribeEnds(v.server, bd, rs[0]), DescribeAll(v.server, bd, rs[1..]), x, d);
      OneChild(v, Describe(v.server, bd, rs[0], true), x, d);
    }
  }

  lemma OneChild(v: V.Visitor, c: ReferenceDescription, x: NodeId, d: nat)
    requires d > 0
    ensures ChainsFromEach(v, [c], x, d) == (if c.nodeId == x then 1 else 0) + ChainsOfReferences(v, c.nodeId, x, d - 1)
  {
    assert [c][1..] == [] && [c][0] == c;
  }

  /** The children a visitor sees stand for at most the references there are. */
  lemma ChildrenChain(v: V.Visitor, n: NodeId, x: NodeId, d: nat)
    requires Valid(v.server) && d > 0
    ensures AtMost(ChainsFromEach(v, V.Children(v, n), x, d), ChainsOfReferences(v, n, x, d),
                   NotCut(v.server, V.BrowseChildren(v, n)))
  {
    var all := DescribeAll(v.server, V.BrowseChildren(v, n), v.server.references);
    ChainsAreChains(v, v.server.references, n, x, d);
    hide DescribeAll;
    if n !in v.server.nodes {
      NoChainsFromUnknown(v, v.server.references, n, x, d);
    } else if |all| > MAX_REFERENCES {
      assert all == all[..MAX_REFERENCES] + all[MAX_REFERENCES..];
      ChainsFromConcat(v, all[..MAX_REFERENCES], all[MAX_REFERENCES..], x, d);
    }
  }

  lemma {:induction false} NoChainsFromUnknown(v: V.Visitor, rs: seq<Reference>, n: NodeId, x: NodeId, d: nat)
    requires d > 0 && forall r :: r in rs ==> r.source != n
    ensures ChainsThroughEach(v, rs, n, x, d) == 0
    decreases |rs|
  {
    if rs != [] {
      assert rs[0] in rs && forall r :: r in rs[1..] ==> r in rs;
      NoChainsFromUnknown(v, rs[1..], n, x, d);
    }
  }

  /** No browse for the children of `n`, or of a node reached from it, is cut short. */
  ghost predicate BrowsedFrom(v: V.Visitor, n: NodeId) {
    forall m :: m == n || V.Reaches(v, n, m) ==> NotCut(v.server, V.BrowseChildren(v, m))
  }

  lemma BrowsedFromChild(v: V.Visitor, n: NodeId, c: ReferenceDescription)
    requires BrowsedFrom(v, n) && c in V.Children(v, n)
    ensures BrowsedFrom(v, c.nodeId)
  {
    V.ChildIsAllowed(v, n, c);
    hide V.AllowedHop, V.Reaches, NotCut;
    forall m | m == c.nodeId || V.Reaches(v, c.nodeId, m) ensures NotCut(v.server, V.BrowseChildren(v, m)) {
      if m == c.nodeId {
        V.ReachesDirectly(v, n, m);
      } else {
        V.ReachesThrough(v, n, c.nodeId, m);
      }
    }
  }

  /** What a node of the class is passed on for. */
  function IfWanted(v: V.Visitor, x: NodeId, count: nat): nat {
    if Info(v.server, x).nodeClass == v.wanted then count else 0
  }

  lemma {:induction false} VisitTimes(v: V.Visitor, n: NodeId, x: NodeId, d: nat, exact: bool)
    requires Valid(v.server) && V.DepthAtMost(v, n, d) && (exact ==> BrowsedFrom(v, n))
    ensures AtMost(Occurs(V.Visit(v, n, d), x), IfWanted(v, x, ChainsOfReferences(v, n, x, d)), exact)
    decreases d, 1, 0
  {
    hide Occurs, ChainsOfReferences, Valid, NotCut;
    var cs := V.Children(v, n);
    if d == 0 {
      FirstIsMember(cs);
      NoOccurrence(x);
      NoChains(v, n, x);
    } else {
      forall c | c in cs ensures Describes(v.server, c) && (exact ==> BrowsedFrom(v, c.nodeId)) {
        V.ChildIsAllowed(v, n, c);
        if exact { BrowsedFromChild(v, n, c); }
      }
      assert exact ==> NotCut(v.server, V.BrowseChildren(v, n));
      hide BrowsedFrom, V.Children;
      VisitEachTimes(v, cs, x, d, exact);
      ChildrenChain(v, n, x, d);
    }
  }

  lemma NoChains(v: V.Visitor, n: NodeId, x: NodeId)
    ensures ChainsOfReferences(v, n, x, 0) == 0
  {
  }

  lemma {:induction false} VisitEachTimes(v: V.Visitor, cs: Row, x: NodeId, d: nat, exact: bool)
    requires Valid(v.server) && d > 0 && forall c :: c in cs ==> V.DepthAtMost(v, c.nodeId, d - 1)
    requires forall c :: c in cs ==> Describes(v.server, c) && (exact ==> BrowsedFrom(v, c.nodeId))
    ensures AtMost(Occurs(V.VisitEach(v, cs, d), x), IfWanted(v, x, ChainsFromEach(v, cs, x, d)), exact)
    decreases d, 0, |cs|
  {
    hide *;
    if cs == [] {
      NothingVisited(v, x, d);
    } else {
      var c, rest := cs[0], cs[1..];
      assert cs == [c] + rest;
      assert c in cs && forall e :: e in rest ==> e in cs;
      VisitTimes(v, c.nodeId, x, d - 1, exact);
      VisitEachTimes(v, rest, x, d, exact);
      EachOccurs(v, cs, c, rest, x, d);
      EachChains(v, cs, x, d);
      SumAtMost(Occurs(V.Visit(v, c.nodeId, d - 1), x), IfWanted(v, x, ChainsOfReferences(v, c.nodeId, x, d - 1)),
                Occurs(V.VisitEach(v, rest, d), x), IfWanted(v, x, ChainsFromEach(v, rest, x, d)), exact);
      MoreAtMost(IfWanted(v, x, if c.nodeId == x then 1 else 0),
                 Occurs(V.Visit(v, c.nodeId, d - 1), x) + Occurs(V.VisitEach(v, rest, d), x),
                 IfWanted(v, x, ChainsOfReferences(v, c.nodeId, x, d - 1))
                     + IfWanted(v, x, ChainsFromEach(v, rest, x, d)),
                 exact);
    }
  }

  lemma NothingVisited(v: V.Visitor, x: NodeId, d: nat)
    requires d > 0
    ensures AtMost(Occurs(V.VisitEach(v, [], d), x), IfWanted(v, x, ChainsFromEach(v, [], x, d)), true)
    ensures AtMost(Occurs(V.VisitEach(v, [], d), x), IfWanted(v, x, ChainsFromEach(v, [], x, d)), false)
  {
    NoOccurrence(x);
  }

  lemma MoreAtMost(n: nat, a: nat, b: nat, exact: bool)
    requires AtMost(a, b, exact)
    ensures AtMost(n + a, n + b, exact)
  {
  }

  lemma EachOccurs(v: V.Visitor, cs: Row, c: ReferenceDescription, rest: Row, x: NodeId, d: nat)
    requires cs == [c] + rest && d > 0 && V.DepthAtMost(v, c.nodeId, d - 1) && Describes(v.server, c)
    requires forall e :: e in cs ==> V.DepthAtMost(v, e.nodeId, d - 1)
    requires forall e :: e in rest ==> V.DepthAtMost(v, e.nodeId, d - 1)
    ensures Occurs(V.VisitEach(v, cs, d), x)
            == IfWanted(v, x, if c.nodeId == x then 1 else 0)
               + (Occurs(V.Visit(v, c.nodeId, d - 1), x) + Occurs(V.VisitEach(v, rest, d), x))
  {
    hide Occurs, V.DepthAtMost, V.Visit, IfWanted;
    assert cs[0] == c && cs[1..] == rest;
    var here := if c.nodeClass == v.wanted then [c] else [];
    OccursConcat(here + V.Visit(v, c.nodeId, d - 1), V.VisitEach(v, rest, d), x);
    OccursConcat(here, V.Visit(v, c.nodeId, d - 1), x);
    HereOccurs(v, c, x);
  }

  lemma EachChains(v: V.Visitor, cs: Row, x: NodeId, d: nat)
    requires cs != [] && d > 0
    ensures IfWanted(v, x, ChainsFromEach(v, cs, x, d))
            == IfWanted(v, x, if cs[0].nodeId == x then 1 else 0)
               + (IfWanted(v, x, ChainsOfReferences(v, cs[0].nodeId, x, d - 1))
                  + IfWanted(v, x, ChainsFromEach(v, cs[1..], x, d)))
  {
    hide ChainsOfReferences;
  }

  lemma HereOccurs(v: V.Visitor, c: ReferenceDescription, x: NodeId)
    requires Describes(v.server, c)
    ensures Occurs(if c.nodeClass == v.wanted then [c] else [], x) == IfWanted(v, x, if c.nodeId == x then 1 else 0)
  {
    NoOccurrence(x);
    OccursFirst([c], x);
    assert [c][1..] == [];
  }

  /** The bound on the chains is immaterial: where none of the visitor's chains is longer than `d`, a greater
      bound counts no more. */
  lemma {:induction false} BoundIsImmaterial(v: V.Visitor, n: NodeId, x: NodeId, d: nat, e: nat)
    requires Valid(v.server) && V.DepthAtMost(v, n, d) && d <= e && BrowsedFrom(v, n)
    ensures ChainsOfReferences(v, n, x, d) == ChainsOfReferences(v, n, x, e)
    decreases d
  {
    hide ChainsOfReferences, V.Children, NotCut, Valid, V.Reaches;
    if e == 0 {
    } else {
      var cs := V.Children(v, n);
      assert NotCut(v.server, V.BrowseChildren(v, n));
      ChildrenChain(v, n, x, e);
      if d == 0 {
        FirstIsMember(cs);
        NoChains(v, n, x);
      } else {
        ChildrenChain(v, n, x, d);
        forall c | c in cs ensures ChainsOfReferences(v, c.nodeId, x, d - 1)
            == ChainsOfReferences(v, c.nodeId, x, e - 1) {
          BrowsedFromChild(v, n, c);
          hide BrowsedFrom;
          BoundIsImmaterial(v, c.nodeId, x, d - 1, e - 1);
        }
        hide V.DepthAtMost, BrowsedFrom;
        SameChains(v, cs, x, d, e);
      }
    }
  }

  lemma {:induction false} SameChains(v: V.Visitor, cs: Row, x: NodeId, d: nat, e: nat)
    requires d > 0 && e > 0
    requires forall c :: c in cs ==>
               ChainsOfReferences(v, c.nodeId, x, d - 1) == ChainsOfReferences(v, c.nodeId, x, e - 1)
    ensures ChainsFromEach(v, cs, x, d) == ChainsFromEach(v, cs, x, e)
    decreases |cs|
  {
    if cs != [] {
      hide ChainsOfReferences;
      assert cs[0] in cs && forall c :: c in cs[1..] ==> c in cs;
      SameChains(v, cs[1..], x, d, e);
    }
  }

  /** The number of chains of references of the hierarchy from the root to the node. */
  function FromRoot(v: V.Visitor, x: NodeId): nat {
    ChainsOfReferences(v, v.root, x, |v.server.nodes|)
  }

  /** How often the visitor emits a node: the root once, and every node of the wanted class at most once per
      chain of references of the hierarchy from the root to it; once for each when no browse is cut short. */
  lemma EmittedTimes(v: V.Visitor, x: NodeId)
    requires Valid(v.server) && V.Terminates(v) && v.root in v.server.nodes
    ensures AtMost(Occurs(V.Emitted(v), x), (if x == v.root then 1 else 0) + IfWanted(v, x, FromRoot(v, x)),
            V.BrowsedBelow(v))
  {
    VisitTimes(v, v.root, x, |v.server.nodes|, V.BrowsedBelow(v));
    hide Occurs, V.Visit, ChainsOfReferences;
    OccursFirst([V.RootElement(v)] + V.Visit(v, v.root, |v.server.nodes|), x);
    assert ([V.RootElement(v)] + V.Visit(v, v.root, |v.server.nodes|))[1..] == V.Visit(v, v.root, |v.server.nodes|);
  }

  // ---------------------------------------------------------------- one clause

  /** The number of elements for the node that are pivots of the pattern. */
  function Starts(es: Row, p: Path, idx: nat, x: NodeId): nat
    requires idx < |p.nodes|
  {
    if es == [] then 0
    else (if es[0].nodeId == x && PivotOk(es[0], p, idx) then 1 else 0) + Starts(es[1..], p, idx, x)
  }

  /** In how many ways the nodes fit what is enforced. */
  ghost function FittingWays(s: Space, p: Path, idx: nat, v: seq<NodeId>): nat
    requires WellFormed(p) && idx < |p.nodes| == |v|
  {
    if Fits(s, Enforced(p, idx), EngineOrder(v, idx)) then Multiplicity(s, p, idx, v) else 0
  }

  lemma AnswerIsStart(s: Space, p: Path, idx: nat, e: ReferenceDescription, v: seq<NodeId>)
    requires WellFormed(p) && idx < |p.nodes| == |v|
    ensures AnswerTimes(s, p, idx, e, v)
            == if e.nodeId == v[idx] && PivotOk(e, p, idx) then FittingWays(s, p, idx, v) else 0
  {
    hide Fits, Multiplicity, Enforced, EngineOrder, PivotOk;
  }

  lemma ProducedTimes(s: Space, plan: ClausePlan, p: Path, idx: nat, e: ReferenceDescription, v: seq<NodeId>)
    requires Valid(s) && WellPlanned(plan) && plan.sink == MatchAt(idx) && p == PatternOf(plan)
    requires idx < |p.nodes| == |v| && SupportedAround(p, idx)
    ensures Produced(s, plan, e).Ok?
    ensures AtMost(Visits(Produced(s, plan, e).value, v),
                   if e.nodeId == v[idx] && PivotOk(e, p, idx) then FittingWays(s, p, idx, v) else 0,
                   BrowsedAround(s, p, idx, v))
  {
    hide Visits, CheckPath, FittingWays, AnswerTimes, BrowsedAround, SupportedAround, PivotOk;
    CheckPathTimes(s, p, idx, e, v);
    AnswerIsStart(s, p, idx, e, v);
  }

  lemma StartsTimes(es: Row, p: Path, idx: nat, x: NodeId, ways: nat)
    requires es != [] && idx < |p.nodes|
    ensures ProductOf(Starts(es, p, idx, x), ways)
            == (if es[0].nodeId == x && PivotOk(es[0], p, idx) then ways else 0)
                + ProductOf(Starts(es[1..], p, idx, x), ways)
  {
    hide PivotOk;
    var later := Starts(es[1..], p, idx, x);
    assert (1 + later) * ways == ways + later * ways;
  }

  lemma FeedFirst(s: Space, plan: ClausePlan, es: Row)
    requires WellPlanned(plan) && es != [] && Produced(s, plan, es[0]).Ok? && Feed(s, plan, es[1..]).Ok?
    ensures Feed(s, plan, es) == Ok(Produced(s, plan, es[0]).value + Feed(s, plan, es[1..]).value)
  {
    hide Produced;
  }

  lemma NothingFed(s: Space, plan: ClausePlan, p: Path, idx: nat, v: seq<NodeId>)
    requires WellPlanned(plan) && WellFormed(p) && idx < |p.nodes| == |v|
    ensures Feed(s, plan, []) == Ok([])
    ensures AtMost(Visits([], v), ProductOf(Starts([], p, idx, v[idx]), FittingWays(s, p, idx, v)),
                   BrowsedAround(s, p, idx, v))
  {
    NoVisits(v);
    hide FittingWays, BrowsedAround;
    assert 0 * FittingWays(s, p, idx, v) == 0;
  }

  /** The rows a clause makes of its source elements: for each element that is a pivot, once for each way to pick
      references along the nodes. */
  lemma {:induction false} FeedTimes(s: Space, plan: ClausePlan, p: Path, idx: nat, es: Row, v: seq<NodeId>)
    requires Valid(s) && WellPlanned(plan) && plan.sink == MatchAt(idx) && p == PatternOf(plan)
    requires idx < |p.nodes| == |v| && SupportedAround(p, idx)
    ensures Feed(s, plan, es).Ok?
    ensures AtMost(Visits(Feed(s, plan, es).value, v), ProductOf(Starts(es, p, idx, v[idx]), FittingWays(s, p, idx, v)),
                   BrowsedAround(s, p, idx, v))
    decreases |es|
  {
    hide *;
    if es == [] {
      NothingFed(s, plan, p, idx, v);
    } else {
      FeedTimes(s, plan, p, idx, es[1..], v);
      ProducedTimes(s, plan, p, idx, es[0], v);
      FeedFirst(s, plan, es);
      VisitsConcat(Produced(s, plan, es[0]).value, Feed(s, plan, es[1..]).value, v);
      StartsTimes(es, p, idx, v[idx], FittingWays(s, p, idx, v));
      SumAtMost(Visits(Produced(s, plan, es[0]).value, v),
                if es[0].nodeId == v[idx] && PivotOk(es[0], p, idx) then FittingWays(s, p, idx, v) else 0,
                Visits(Feed(s, plan, es[1..]).value, v),
                    ProductOf(Starts(es[1..], p, idx, v[idx]), FittingWays(s, p, idx, v)),
                BrowsedAround(s, p, idx, v));
    }
  }

  lemma {:induction false} AlikeStarts(s: Space, es: Row, p: Path, idx: nat, x: NodeId)
    requires idx < |p.nodes| && forall e :: e in es ==> Describes(s, e)
    ensures Starts(es, p, idx, x) == if idx == |p.nodes| - 1 ==> NodeOk(s, p.nodes[idx], x) then Occurs(es, x) else 0
    decreases |es|
  {
    if es == [] {
      NoOccurrence(x);
    } else {
      assert es[0] in es && forall e :: e in es[1..] ==> e in es;
      AlikeStarts(s, es[1..], p, idx, x);
      OccursFirst(es, x);
    }
  }

  /** How often the visitor offers the node as a start: as its root, and for each chain of references of the
      hierarchy that leads to it. */
  function OfferedTimes(s: Space, v: V.Visitor, p: Path, idx: nat, x: NodeId): nat
    requires idx < |p.nodes|
  {
    if v.root !in s.nodes then 0
    else
      (if x == v.root && PivotOk(V.RootElement(v), p, idx) then 1 else 0)
      + (if idx == |p.nodes| - 1 ==> NodeOk(s, p.nodes[idx], x) then IfWanted(v, x, FromRoot(v, x)) else 0)
  }

  lemma EmittedStarts(s: Space, v: V.Visitor, p: Path, idx: nat, x: NodeId)
    requires Valid(s) && v.server == s && V.Terminates(v) && idx < |p.nodes|
    ensures AtMost(Starts(V.Emitted(v), p, idx, x), OfferedTimes(s, v, p, idx, x), V.BrowsedBelow(v))
  {
    if v.root in s.nodes {
      var below := V.Visit(v, v.root, |s.nodes|);
      VisitTimes(v, v.root, x, |s.nodes|, V.BrowsedBelow(v));
      forall e | e in below ensures Describes(s, e) {
        V.VisitSound(v, e);
      }
      hide V.Visit, ChainsOfReferences, Occurs, NodeOk, PivotOk;
      AlikeStarts(s, below, p, idx, x);
      var es := [V.RootElement(v)] + below;
      assert es[0] == V.RootElement(v) && es[1..] == below;
    }
  }

  /** The number of rows of a one-clause query, after its first run, that visit exactly the nodes of `w`: in
      every space at most the number of chains of hierarchical references from the root to the start node, times
      the number of ways to pick references along the pattern; and exactly that number when no browse of the
      visitor or along `w` is cut short. */
  lemma OneClauseTimes(s: Space, m: Cypher.Match, w: seq<NodeId>)
    requires Valid(s) && Cypher.WellFormedMatch(m) && PlanMatch(m, []).value.sink.MatchAt?
    requires V.Terminates(VisitorOf(s, PlanMatch(m, []).value.source))
    requires var plan := PlanMatch(m, []).value;
             SupportedAround(PatternOf(plan), plan.sink.idx) && |w| == |PatternOf(plan).nodes|
    ensures var plan := PlanMatch(m, []).value;
            var p, idx, visitor := PatternOf(plan), plan.sink.idx, VisitorOf(s, plan.source);
            && ValidState(s, [plan], [[]]) && RunFrom(s, [plan], [[]], 0).Ok?
            && AtMost(Visits(RunFrom(s, [plan], [[]], 0).value[0], w),
                      ProductOf(OfferedTimes(s, visitor, p, idx, w[idx]), FittingWays(s, p, idx, w)),
                      V.BrowsedBelow(visitor) && BrowsedAround(s, p, idx, w))
  {
    var plan := PlanMatch(m, []).value;
    FirstRun(s, plan);
    hide *;
    FirstRunTimes(s, plan, PatternOf(plan), plan.sink.idx, w);
  }

  lemma FirstRunTimes(s: Space, plan: ClausePlan, p: Path, idx: nat, w: seq<NodeId>)
    requires Valid(s) && WellPlanned(plan) && plan.sink == MatchAt(idx) && p == PatternOf(plan)
    requires plan.source.Hierarchy? && V.Terminates(VisitorOf(s, plan.source))
    requires idx < |p.nodes| == |w| && SupportedAround(p, idx)
    ensures var visitor := VisitorOf(s, plan.source);
            && Feed(s, plan, V.Emitted(visitor)).Ok?
            && AtMost(Visits(Feed(s, plan, V.Emitted(visitor)).value, w),
                      ProductOf(OfferedTimes(s, visitor, p, idx, w[idx]), FittingWays(s, p, idx, w)),
                      V.BrowsedBelow(visitor) && BrowsedAround(s, p, idx, w))
  {
    var visitor := VisitorOf(s, plan.source);
    hide Feed, Visits, Starts, OfferedTimes, FittingWays, BrowsedAround, SupportedAround, V.BrowsedBelow, V.Emitted,
         V.Terminates, Cypher.Compiled;
    var es, ways := V.Emitted(visitor), FittingWays(s, p, idx, w);
    FeedTimes(s, plan, p, idx, es, w);
    EmittedStarts(s, visitor, p, idx, w[idx]);
    var exact := V.BrowsedBelow(visitor) && BrowsedAround(s, p, idx, w);
    ProductAtMost(Starts(es, p, idx, w[idx]), OfferedTimes(s, visitor, p, idx, w[idx]), ways, ways, exact);
  }

  /** The same for a later clause, whose start elements are those in the column it draws on, as often as they
      stand there. */
  lemma LaterClauseTimes(s: Space, plans: seq<ClausePlan>, before: seq<seq<Row>>, after: seq<seq<Row>>, k: nat, p: Path,
          idx: nat, w: seq<NodeId>)
    requires Valid(s) && ValidState(s, plans, after) && |before| == |plans|
    requires k < |plans| && plans[k].sink == MatchAt(idx) && plans[k].source.FromColumn?
    requires before[k] == [] && Appends(s, plans, before, after, k)
    requires WellPlanned(plans[k]) && p == PatternOf(plans[k])
    requires idx < |p.nodes| == |w| && SupportedAround(p, idx)
    ensures var j, c := plans[k].source.clause, plans[k].source.column;
            && j < k && (forall row :: row in after[j] ==> c < |row|)
            && AtMost(Visits(after[k], w), ProductOf(Starts(ColumnOf(after[j], c), p, idx, w[idx]),
                FittingWays(s, p, idx, w)),
                      BrowsedAround(s, p, idx, w))
  {
    SourceCases(s, plans, after, k);
    var es := SourceElements(s, plans, after, k);
    assert after[k] == Feed(s, plans[k], es).value;
    hide *;
    FeedTimes(s, plans[k], p, idx, es, w);
  }
}
