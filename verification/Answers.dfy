/** What a query answers: the rows a run leaves in its clauses, in terms of the address space. */
module Answers {
  import opened Wrappers
  import opened AddressSpace
  import opened Pattern
  import opened Matching
  import opened Meaning
  import opened PathResults
  import V = Visitors
  import opened Planning
  import opened Runs
  import Cypher

  /** The pattern a matching clause was planned with. */
  function PatternOf(plan: ClausePlan): Path
    requires WellPlanned(plan)
    ensures WellFormed(PatternOf(plan))
  {
    Cypher.Compiled(plan.path)
  }

  lemma {:induction false} FeedEnds(s: Space, plan: ClausePlan, es: Row)
    requires WellPlanned(plan) && plan.sink.MatchAt? && SupportedAround(PatternOf(plan), plan.sink.idx)
    ensures Feed(s, plan, es).Ok?
    decreases |es|
  {
    if es != [] {
      CheckPathIsCross(s, PatternOf(plan), plan.sink.idx, es[0]);
      FeedEnds(s, plan, es[1..]);
    }
  }

  /** Every row a matching clause makes of its source elements, in every space, visits a walk through
      one of them that fits what is enforced. */
  lemma FeedSound(s: Space, plan: ClausePlan, es: Row, row: Row) returns (e: ReferenceDescription)
    requires WellPlanned(plan) && plan.sink.MatchAt?
    requires Feed(s, plan, es).Ok? && row in Feed(s, plan, es).value
    ensures var p, idx := PatternOf(plan), plan.sink.idx;
            && SupportedAround(p, idx) && e in es && |row| == |p.nodes| && row[idx] == e
            && Answer(s, p, idx, e, Ids(row))
  {
    var p, idx := PatternOf(plan), plan.sink.idx;
    FeedMember(s, plan, es, row);
    e :| e in es && Produced(s, plan, e).Ok? && row in Produced(s, plan, e).value;
    hide Feed, CheckPath, SupportedAround, Fits, Enforced, EngineOrder;
    CheckPathSound(s, p, idx, e, row);
  }

  lemma FeedFinds(s: Space, plan: ClausePlan, es: Row, e: ReferenceDescription, v: seq<NodeId>)
    requires Valid(s) && WellPlanned(plan) && plan.sink.MatchAt? && e in es
    requires SupportedAround(PatternOf(plan), plan.sink.idx) && BrowsedAround(s, PatternOf(plan), plan.sink.idx, v)
    requires Answer(s, PatternOf(plan), plan.sink.idx, e, v)
    ensures Feed(s, plan, es).Ok? && Yields(Feed(s, plan, es).value, v)
  {
    FeedEnds(s, plan, es);
    hide Feed, CheckPath, SupportedAround, Answer, BrowsedAround;
    var p, idx := PatternOf(plan), plan.sink.idx;
    AnswersFound(s, p, idx, e, v);
    var row := RowOf(CheckPath(s, p, idx, e).value, v);
    FeedMember(s, plan, es, row);
  }

  /** The rows a matching clause makes of its source elements: exactly the walks through one of them
      that fit what is enforced, and none outside the supported fragment. That a walk has a row asks
      that no browse along it is cut short. */
  lemma FeedMeaning(s: Space, plan: ClausePlan, es: Row, v: seq<NodeId>)
    requires Valid(s) && WellPlanned(plan) && plan.sink.MatchAt?
    requires BrowsedAround(s, PatternOf(plan), plan.sink.idx, v)
    ensures var p, idx := PatternOf(plan), plan.sink.idx;
            var fed := Feed(s, plan, es);
            && (SupportedAround(p, idx) ==> fed.Ok?)
            && (fed.Ok? ==>
                  (Yields(fed.value, v) <==> SupportedAround(p, idx) && exists e :: e in es && Answer(s, p, idx, e, v)))
  {
    hide Feed, SupportedAround, Answer, BrowsedAround, Yields;
    var p, idx := PatternOf(plan), plan.sink.idx;
    if SupportedAround(p, idx) {
      FeedEnds(s, plan, es);
    }
    var fed := Feed(s, plan, es);
    if fed.Ok? {
      if Yields(fed.value, v) {
        var row := RowOf(fed.value, v);
        var e := FeedSound(s, plan, es, row);
      }
      if SupportedAround(p, idx) && exists e :: e in es && Answer(s, p, idx, e, v) {
        var e :| e in es && Answer(s, p, idx, e, v);
        FeedFinds(s, plan, es, e, v);
      }
    }
  }

  // ---------------------------------------------------------------- one clause

  /** A start node the visitor of a one-clause query offers: its root, which carries no type, or a
      node of the label's class to which allowed hierarchical references lead. */
  ghost predicate Offered(s: Space, v: V.Visitor, p: Path, idx: nat, x: NodeId)
    requires WellFormed(p) && idx < |p.nodes|
  {
    && v.root in s.nodes
    && ((x == v.root && PivotOk(V.RootElement(v), p, idx))
        || (Info(s, x).nodeClass == v.wanted && V.Reaches(v, v.root, x)
            && (idx == |p.nodes| - 1 ==> NodeOk(s, p.nodes[idx], x))))
  }

  lemma EmittedIsOffered(s: Space, v: V.Visitor, p: Path, idx: nat, e: ReferenceDescription)
    requires v.server == s && V.Terminates(v) && WellFormed(p) && idx < |p.nodes|
    requires e in V.Emitted(v) && PivotOk(e, p, idx)
    ensures Offered(s, v, p, idx, e.nodeId)
  {
    V.EmittedMembers(v, e);
    hide V.Emitted, V.Visit, V.Reaches;
    if e != V.RootElement(v) {
      V.VisitSound(v, e);
    }
  }

  lemma OfferedIsEmitted(s: Space, v: V.Visitor, p: Path, idx: nat, x: NodeId) returns (e: ReferenceDescription)
    requires Valid(s) && v.server == s && V.Terminates(v) && V.BrowsedBelow(v)
    requires WellFormed(p) && idx < |p.nodes| && Offered(s, v, p, idx, x)
    ensures e in V.Emitted(v) && e.nodeId == x && PivotOk(e, p, idx)
  {
    V.VisitMeaning(v, x);
    hide V.Emitted, V.Visit, V.Reaches;
    e := V.RootElement(v);
    if !(x == v.root && PivotOk(e, p, idx)) {
      e :| e in V.Visit(v, v.root, |s.nodes|) && e.nodeId == x;
      V.VisitSound(v, e);
    }
    V.EmittedMembers(v, e);
  }

  lemma EmittedAnswers(s: Space, v: V.Visitor, p: Path, idx: nat, w: seq<NodeId>)
    requires Valid(s) && v.server == s && V.Terminates(v) && V.BrowsedBelow(v)
    requires WellFormed(p) && idx < |p.nodes|
    ensures (exists e :: e in V.Emitted(v) && Answer(s, p, idx, e, w)) <==>
            |w| == |p.nodes| && Offered(s, v, p, idx, w[idx]) && Fits(s, Enforced(p, idx), EngineOrder(w, idx))
  {
    hide V.Emitted, Fits, Enforced, Offered, EngineOrder, PivotOk;
    if e :| e in V.Emitted(v) && Answer(s, p, idx, e, w) {
      EmittedIsOffered(s, v, p, idx, e);
    }
    if |w| == |p.nodes| && Offered(s, v, p, idx, w[idx]) && Fits(s, Enforced(p, idx), EngineOrder(w, idx)) {
      var e := OfferedIsEmitted(s, v, p, idx, w[idx]);
      assert Answer(s, p, idx, e, w);
    }
  }

  /** Every row of a one-clause query after its first run, in every space: the pattern is in the
      supported fragment, the visitor offers the start node, and the walk fits what is enforced. */
  lemma OneClauseSound(s: Space, m: Cypher.Match, row: Row)
    requires Cypher.WellFormedMatch(m) && PlanMatch(m, []).value.sink.MatchAt?
    requires V.Terminates(VisitorOf(s, PlanMatch(m, []).value.source))
    requires var plan := PlanMatch(m, []).value;
             && ValidState(s, [plan], [[]])
             && RunFrom(s, [plan], [[]], 0).Ok? && row in RunFrom(s, [plan], [[]], 0).value[0]
    ensures var plan := PlanMatch(m, []).value;
            var p, idx, visitor := PatternOf(plan), plan.sink.idx, VisitorOf(s, plan.source);
            && SupportedAround(p, idx) && |row| == |p.nodes|
            && Offered(s, visitor, p, idx, row[idx].nodeId)
            && Fits(s, Enforced(p, idx), EngineOrder(Ids(row), idx))
  {
    var plan := PlanMatch(m, []).value;
    var p, idx, visitor := PatternOf(plan), plan.sink.idx, VisitorOf(s, plan.source);
    FirstRun(s, plan);
    hide RunFrom, Feed, Fits, Enforced, Offered, SupportedAround, EngineOrder, V.Emitted, V.Terminates;
    var e := FeedSound(s, plan, V.Emitted(visitor), row);
    EmittedIsOffered(s, visitor, p, idx, e);
  }

  /** The answer of a one-clause query after its first run, from its text to its rows: planned,
      compiled, split, browsed and merged, the rows are exactly the walks whose start node the visitor
      offers and that fit what is enforced of the pattern, provided no browse of the visitor or along
      the walk is cut short; in the supported fragment nothing aborts. */
  lemma OneClauseAnswer(s: Space, m: Cypher.Match, w: seq<NodeId>)
    requires Valid(s) && Cypher.WellFormedMatch(m)
    requires PlanMatch(m, []).value.sink.MatchAt?
    requires var visitor := VisitorOf(s, PlanMatch(m, []).value.source);
             V.Terminates(visitor) && V.BrowsedBelow(visitor)
    requires var plan := PlanMatch(m, []).value; BrowsedAround(s, PatternOf(plan), plan.sink.idx, w)
    ensures var plan := PlanMatch(m, []).value;
            var p, idx, visitor := PatternOf(plan), plan.sink.idx, VisitorOf(s, plan.source);
            && ValidState(s, [plan], [[]])
            && var run := RunFrom(s, [plan], [[]], 0);
            && (SupportedAround(p, idx) ==> run.Ok?)
            && (run.Ok? ==>
                  (Yields(run.value[0], w) <==>
                   && SupportedAround(p, idx) && |w| == |p.nodes|
                   && Offered(s, visitor, p, idx, w[idx])
                   && Fits(s, Enforced(p, idx), EngineOrder(w, idx))))
  {
    var plan := PlanMatch(m, []).value;
    var p, idx, visitor := PatternOf(plan), plan.sink.idx, VisitorOf(s, plan.source);
    FirstRun(s, plan);
    hide RunFrom, Feed, Fits, Enforced, Offered, SupportedAround, EngineOrder, Answer, BrowsedAround;
    FeedMeaning(s, plan, V.Emitted(visitor), w);
    EmittedAnswers(s, visitor, p, idx, w);
  }

  lemma FirstStateValid(s: Space, plan: ClausePlan)
    requires Plannable(plan, []) && V.Terminates(VisitorOf(s, plan.source))
    ensures ValidState(s, [plan], [[]])
  {
    assert [plan][..0] == [];
    assert forall k :: 0 <= k < 1 ==> AllWide([[]][k], |plan.path.nodes|);
  }

  lemma FirstRun(s: Space, plan: ClausePlan)
    requires Plannable(plan, []) && V.Terminates(VisitorOf(s, plan.source))
    ensures ValidState(s, [plan], [[]])
    ensures var fed := Feed(s, plan, V.Emitted(VisitorOf(s, plan.source)));
            RunFrom(s, [plan], [[]], 0) == if fed.Ok? then Ok([fed.value]) else Aborted
  {
    FirstStateValid(s, plan);
    var fed := Feed(s, plan, V.Emitted(VisitorOf(s, plan.source)));
    if fed.Ok? {
      var none: seq<seq<Row>> := [[]];
      assert none[0] + fed.value == fed.value;
      assert none[0 := none[0] + fed.value] == [fed.value];
      assert RunFrom(s, [plan], [fed.value], 1) == Ok([fed.value]);
    }
  }

  /** The pattern asks nothing of its start node that goes unchecked, and the visitor's root is no
      exception to what the pattern asks. Where the start node is the last one, all it asks for is checked;
      a root of its class, which is emitted without a type, must then be ruled out by the type itself. */
  predicate PlainPivot(s: Space, root: NodeId, p: Path, idx: nat)
    requires WellFormed(p) && idx < |p.nodes|
  {
    var n, r := p.nodes[idx], Info(s, root);
    && (idx == |p.nodes| - 1 || (n.id.None? && n.typeDefinitionId.None? && n.nodeClass == r.nodeClass))
    && n.nodeClass != Unspecified
    && (n.typeDefinitionId.Some? && n.nodeClass == r.nodeClass ==>
        n.typeDefinitionId.value !in {NullId, r.typeDefinition})
  }

  /** For a plain pattern the answer is what the pattern says: all walks of the address space that
      fit it and pass at the start node through the part of the hierarchy the visitor covers. */
  lemma OneClauseIntended(s: Space, m: Cypher.Match, w: seq<NodeId>)
    requires Valid(s) && Cypher.WellFormedMatch(m)
    requires PlanMatch(m, []).value.sink.MatchAt?
    requires var visitor := VisitorOf(s, PlanMatch(m, []).value.source);
             V.Terminates(visitor) && V.BrowsedBelow(visitor)
    requires var plan := PlanMatch(m, []).value;
             && BrowsedAround(s, PatternOf(plan), plan.sink.idx, w)
             && Plain(PatternOf(plan), plan.sink.idx)
             && PlainPivot(s, plan.source.root, PatternOf(plan), plan.sink.idx)
    ensures var plan := PlanMatch(m, []).value;
            var p, idx, visitor := PatternOf(plan), plan.sink.idx, VisitorOf(s, plan.source);
            && ValidState(s, [plan], [[]])
            && RunFrom(s, [plan], [[]], 0).Ok?
            && (Yields(RunFrom(s, [plan], [[]], 0).value[0], w) <==>
                |w| == |p.nodes| && Fits(s, p, EngineOrder(w, idx))
                && (w[idx] == visitor.root || V.Reaches(visitor, visitor.root, w[idx])))
  {
    OneClauseAnswer(s, m, w);
    hide RunFrom, Fits, Enforced, SupportedAround, V.Reaches, BrowsedAround, V.Terminates;
    var plan := PlanMatch(m, []).value;
    var p, idx, visitor := PatternOf(plan), plan.sink.idx, VisitorOf(s, plan.source);
    assert visitor.wanted == p.nodes[idx].nodeClass by {
      PlanMatchMeaning(m, []);
    }
    if |w| == |p.nodes| {
      PlainIsEnforced(s, p, idx, EngineOrder(w, idx));
      assert EngineOrder(w, idx)[idx] == w[idx];
      if V.Reaches(visitor, visitor.root, w[idx]) {
        var a := V.LastStep(visitor, w[idx]);
      }
    }
  }

  function Singles(es: Row): seq<Row> {
    seq(|es|, i requires 0 <= i < |es| => [es[i]])
  }

  lemma {:induction false} FeedCollects(s: Space, plan: ClausePlan, es: Row)
    requires WellPlanned(plan) && plan.sink.Collect?
    ensures Feed(s, plan, es) == Ok(Singles(es))
    decreases |es|
  {
    if es == [] {
      assert Singles(es) == [];
    } else {
      FeedCollects(s, plan, es[1..]);
      assert Singles(es) == [[es[0]]] + Singles(es[1..]);
    }
  }

  lemma SinglesYield(es: Row, x: NodeId)
    ensures Yields(Singles(es), [x]) <==> exists e: ReferenceDescription :: e in es && e.nodeId == x
  {
    if e: ReferenceDescription :| e in es && e.nodeId == x {
      var i :| 0 <= i < |es| && es[i] == e;
      assert Singles(es)[i] == [e] && Ids([e]) == [x];
    }
    if Yields(Singles(es), [x]) {
      var row: Row :| row in Singles(es) && Ids(row) == [x];
      assert Ids(row)[0] == row[0].nodeId;
    }
  }

  /** The answer of a query for a type and its subtypes: one row for the type, if it exists, and one for
      each object type to which hierarchical references lead from it through object types, provided no
      browse of the visitor is cut short; every row is one of these in any case. */
  lemma SubtypesAnswer(s: Space, m: Cypher.Match, x: NodeId)
    requires Valid(s) && Cypher.WellFormedMatch(m)
    requires PlanMatch(m, []).value.sink.Collect?
    requires V.Terminates(VisitorOf(s, PlanMatch(m, []).value.source))
    ensures var plan := PlanMatch(m, []).value;
            var t, visitor := m.path.nodes[0].Property("NodeId"), VisitorOf(s, plan.source);
            && t.Some? && ValidState(s, [plan], [[]]) && RunFrom(s, [plan], [[]], 0).Ok?
            && var wanted := t.value in s.nodes
                             && (x == t.value
                                 || (Info(s, x).nodeClass == ObjectType && V.Reaches(visitor, t.value, x)));
            && (Yields(RunFrom(s, [plan], [[]], 0).value[0], [x]) ==> wanted)
            && (wanted && V.BrowsedBelow(visitor) ==> Yields(RunFrom(s, [plan], [[]], 0).value[0], [x]))
  {
    var plan := PlanMatch(m, []).value;
    var visitor := VisitorOf(s, plan.source);
    FirstRun(s, plan);
    hide Feed, RunFrom, Yields, V.Emitted, V.Reaches, V.Terminates, V.BrowsedBelow;
    FeedCollects(s, plan, V.Emitted(visitor));
    SinglesYield(V.Emitted(visitor), x);
    V.EmittedMeaning(visitor, x);
  }

  /** In the first clause a name's column holds the matches of the node with that name exactly when the
      node is not left of the start node, or the start node is the second one. A name left of the start
      node can only be that of the first node, and its column then holds the matches of the node just
      left of the start. */
  lemma FirstClauseColumns(m: Cypher.Match, name: string)
    requires Cypher.WellFormedMatch(m) && Cypher.IndexOf(m.path.nodes, name).Some?
    ensures var n, c, idx := |m.path.nodes|, Cypher.IndexOf(m.path.nodes, name).value, StartIndex(m.path, []);
            && idx < n && (c >= idx || c == 0)
            && ((forall u: seq<NodeId> :: |u| == n ==> EngineOrder(u, idx)[c] == u[c]) <==> c >= idx || idx == 1)
            && (forall u: seq<NodeId> :: |u| == n && c < idx ==> EngineOrder(u, idx)[c] == u[idx - 1])
  {
    hide *;
    var n, c, idx := |m.path.nodes|, Cypher.IndexOf(m.path.nodes, name).value, StartIndex(m.path, []);
    WellFormedPath(m);
    NameNotBetween(m.path, name);
    ColumnsOfPivot(n, idx, c);
  }

  lemma WellFormedPath(m: Cypher.Match)
    requires Cypher.WellFormedMatch(m)
    ensures Cypher.WellFormed(m.path)
  {
  }

  lemma ColumnsOfPivot(n: nat, idx: nat, c: nat)
    requires idx < n && c < n && (c >= idx || c == 0)
    ensures (forall u: seq<NodeId> :: |u| == n ==> EngineOrder(u, idx)[c] == u[c]) <==> c >= idx || idx == 1
    ensures forall u: seq<NodeId> :: |u| == n && c < idx ==> EngineOrder(u, idx)[c] == u[idx - 1]
  {
    hide EngineOrder;
    ColumnAlignment(seq(n, _ => NullId), idx, c);
    forall u: seq<NodeId> | |u| == n && c < idx ensures EngineOrder(u, idx)[c] == u[idx - 1] {
      ColumnHolds(u, idx, c);
    }
  }

  lemma NameNotBetween(p: Cypher.Path, name: string)
    requires Cypher.WellFormed(p) && Cypher.IndexOf(p.nodes, name).Some?
    ensures var c, idx := Cypher.IndexOf(p.nodes, name).value, StartIndex(p, []);
            idx < |p.nodes| && c < |p.nodes| && (c >= idx || c == 0)
  {
    StartIndexMeaning(p, []);
    assert !AnyBound(p.nodes, []);
    assert Cypher.HasName(p.nodes[Cypher.IndexOf(p.nodes, name).value], name);
  }

  // ---------------------------------------------------------------- later clauses

  /** A later clause after its first run, in terms of what the run leaves in the clauses (see
      Runs.RunMeaning): its rows are walks that fit and whose start element stands in the column the
      clause draws on, and all of them along which no browse is cut short. */
  lemma LaterClauseAnswer(s: Space, plans: seq<ClausePlan>, before: seq<seq<Row>>, after: seq<seq<Row>>, k: nat,
          w: seq<NodeId>)
    requires Valid(s) && ValidState(s, plans, after) && |before| == |plans|
    requires k < |plans| && plans[k].sink.MatchAt? && plans[k].source.FromColumn?
    requires before[k] == [] && Appends(s, plans, before, after, k)
    ensures Plannable(plans[k], plans[..k])
    ensures var p, idx, j, c := PatternOf(plans[k]), plans[k].sink.idx, plans[k].source.clause, plans[k].source.column;
            var wanted := SupportedAround(p, idx)
                          && exists row :: row in after[j] && c < |row| && Answer(s, p, idx, row[c], w);
            && (Yields(after[k], w) ==> wanted)
            && (wanted && BrowsedAround(s, p, idx, w) ==> Yields(after[k], w))
  {
    SourceCases(s, plans, after, k);
    var p, idx, j, c := PatternOf(plans[k]), plans[k].sink.idx, plans[k].source.clause, plans[k].source.column;
    var es := SourceElements(s, plans, after, k);
    assert after[k] == Feed(s, plans[k], es).value;
    hide Feed, SourceElements, ValidState, Answer, SupportedAround, BrowsedAround;
    ColumnAnswers(s, p, idx, after[j], c, w);
    if Yields(after[k], w) {
      var row := RowOf(after[k], w);
      var e := FeedSound(s, plans[k], es, row);
    }
    if SupportedAround(p, idx) && BrowsedAround(s, p, idx, w) && exists e :: e in es && Answer(s, p, idx, e, w) {
      var e :| e in es && Answer(s, p, idx, e, w);
      FeedFinds(s, plans[k], es, e, w);
    }
  }

  lemma ColumnAnswers(s: Space, p: Path, idx: nat, rows: seq<Row>, c: nat, w: seq<NodeId>)
    requires WellFormed(p) && idx < |p.nodes| && forall row :: row in rows ==> c < |row|
    ensures (exists e :: e in ColumnOf(rows, c) && Answer(s, p, idx, e, w)) <==>
            (exists row :: row in rows && c < |row| && Answer(s, p, idx, row[c], w))
  {
    var es := ColumnOf(rows, c);
    if e :| e in es && Answer(s, p, idx, e, w) {
      var r :| 0 <= r < |rows| && es[r] == e;
      assert rows[r] in rows;
    }
    if row :| row in rows && c < |row| && Answer(s, p, idx, row[c], w) {
      var r :| 0 <= r < |rows| && rows[r] == row;
      assert es[r] == row[c];
    }
  }
}
