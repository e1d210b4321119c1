/** What a whole query answers: for every clause of a chain, the node sequences its rows visit after a
    run, in terms of the address space alone. */
module Chains {
  import opened AddressSpace
  import opened Pattern
  import opened Matching
  import opened Meaning
  import opened PathResults
  import V = Visitors
  import opened Planning
  import opened Runs
  import opened Answers

  /** The nodes, in the engine's column order, are an answer of clause `k`: its source supplies the start
      node, and, if the clause matches, they fit what is enforced of its pattern. */
  ghost predicate ClauseAnswer(s: Space, plans: seq<ClausePlan>, k: nat, w: seq<NodeId>)
    requires ValidPlans(plans) && k < |plans|
    decreases k, 1
  {
    assert Plannable(plans[k], plans[..k]);
    var p, idx := PatternOf(plans[k]), PivotColumn(plans[k]);
    && |w| == |p.nodes| && Supplied(s, plans, k, w[idx])
    && (plans[k].sink.MatchAt? ==>
          && SupportedAround(p, idx) && PivotAsked(s, plans, k, w[idx])
          && Fits(s, Enforced(p, idx), EngineOrder(w, idx)))
  }

  /** A start node of clause `k`: the root of its visitor or a node the visitor finds, or a node some
      answer of an earlier clause has in the column the clause draws on. */
  ghost predicate Supplied(s: Space, plans: seq<ClausePlan>, k: nat, x: NodeId)
    requires ValidPlans(plans) && k < |plans|
    decreases k, 0
  {
    assert Plannable(plans[k], plans[..k]);
    match plans[k].source
    case Hierarchy(root, wanted) =>
      root in s.nodes
      && (x == root || (Info(s, x).nodeClass == wanted && V.Reaches(VisitorOf(s, plans[k].source), root, x)))
    case FromColumn(j, c) =>
      exists u :: ClauseAnswer(s, plans, j, u) && u[c] == x
  }

  /** The type definition a start element comes with: a visitor's root has none, and keeps having none in
      the pivot columns of the clauses it is passed on through. */
  function SuppliedType(s: Space, plans: seq<ClausePlan>, k: nat, x: NodeId): NodeId
    requires ValidPlans(plans) && k < |plans|
    decreases k
  {
    assert Plannable(plans[k], plans[..k]);
    match plans[k].source
    case Hierarchy(root, _) => if x == root then NullId else Info(s, x).typeDefinition
    case FromColumn(j, c) =>
      if c == PivotColumn(plans[j]) then SuppliedType(s, plans, j, x) else Info(s, x).typeDefinition
  }

  /** What the pattern asks of a start node, which is looked at only where nothing follows it. */
  predicate PivotAsked(s: Space, plans: seq<ClausePlan>, k: nat, x: NodeId)
    requires ValidPlans(plans) && k < |plans|
  {
    assert Plannable(plans[k], plans[..k]);
    var p, idx := PatternOf(plans[k]), PivotColumn(plans[k]);
    var n := p.nodes[idx];
    idx == |p.nodes| - 1 ==>
      && MatchesId(n.id, x) && MatchesClass(n.nodeClass, Info(s, x).nodeClass)
      && MatchesId(n.typeDefinitionId, SuppliedType(s, plans, k, x))
  }

  ghost predicate AsSupplied(s: Space, plans: seq<ClausePlan>, k: nat, e: ReferenceDescription)
    requires ValidPlans(plans) && k < |plans|
  {
    e.nodeClass == Info(s, e.nodeId).nodeClass && e.typeDefinition == SuppliedType(s, plans, k, e.nodeId)
  }

  lemma PivotsAsked(s: Space, plans: seq<ClausePlan>, k: nat, e: ReferenceDescription)
    requires ValidPlans(plans) && k < |plans| && AsSupplied(s, plans, k, e)
    ensures Plannable(plans[k], plans[..k])
    ensures PivotOk(e, PatternOf(plans[k]), PivotColumn(plans[k])) <==> PivotAsked(s, plans, k, e.nodeId)
  {
    assert Plannable(plans[k], plans[..k]);
  }

  // ---------------------------------------------------------------- every row is an answer

  lemma EmittedSupplied(s: Space, plans: seq<ClausePlan>, k: nat, e: ReferenceDescription)
    requires ValidPlans(plans) && SourcesTerminate(s, plans) && k < |plans| && plans[k].source.Hierarchy?
    requires e in V.Emitted(VisitorOf(s, plans[k].source))
    ensures Supplied(s, plans, k, e.nodeId) && AsSupplied(s, plans, k, e)
  {
    assert Plannable(plans[k], plans[..k]);
    var v := VisitorOf(s, plans[k].source);
    V.EmittedMembers(v, e);
    hide V.Emitted, V.Visit, V.Reaches;
    if e != V.RootElement(v) {
      V.VisitSound(v, e);
      V.RootIsNotBelow(v, e);
    }
  }

  lemma MatchedAnswer(s: Space, plans: seq<ClausePlan>, k: nat, e: ReferenceDescription, row: Row)
    requires ValidPlans(plans) && k < |plans| && Supplied(s, plans, k, e.nodeId) && AsSupplied(s, plans, k, e)
    requires WellPlanned(plans[k]) && Produced(s, plans[k], e).Ok? && row in Produced(s, plans[k], e).value
    ensures ClauseAnswer(s, plans, k, Ids(row))
    ensures forall c :: 0 <= c < |row| && c != PivotColumn(plans[k]) ==> Describes(s, row[c])
  {
    hide Supplied, PivotAsked, AsSupplied, Fits, Enforced, EngineOrder, SupportedAround, Describes;
    var p, idx := PatternOf(plans[k]), PivotColumn(plans[k]);
    PivotsAsked(s, plans, k, e);
    if plans[k].sink.MatchAt? {
      CheckPathSound(s, p, idx, e, row);
      forall c | 0 <= c < |row| && c != idx ensures Describes(s, row[c]) {
        CheckPathDescribes(s, p, idx, e, row, c);
      }
    }
  }

  /** In every reachable state, whatever the browse cap cut off, every row of every clause is an answer of
      that clause, and its elements come with the class and type of their nodes, but for a root's type. */
  lemma {:induction false} RowsAreAnswers(s: Space, plans: seq<ClausePlan>, contents: seq<seq<Row>>, k: nat, row: Row)
    requires Invariant(s, plans, contents) && k < |plans| && row in contents[k]
    ensures Plannable(plans[k], plans[..k]) && |row| == |plans[k].path.nodes|
    ensures ClauseAnswer(s, plans, k, Ids(row)) && AsSupplied(s, plans, k, row[PivotColumn(plans[k])])
    ensures forall c :: 0 <= c < |row| && c != PivotColumn(plans[k]) ==> Describes(s, row[c])
    decreases k, 1
  {
    assert Plannable(plans[k], plans[..k]) && Justified(s, plans, contents, k, row);
    hide ClauseAnswer, AsSupplied, SourceElements, Describes, CheckPath;
    var e :| e in SourceElements(s, plans, contents, k) && Produced(s, plans[k], e).Ok?
      && row in Produced(s, plans[k], e).value;
    ElementsAreSupplied(s, plans, contents, k, e);
    MatchedAnswer(s, plans, k, e, row);
  }

  lemma {:induction false} ElementsAreSupplied(s: Space, plans: seq<ClausePlan>, contents: seq<seq<Row>>, k: nat,
          e: ReferenceDescription)
    requires Invariant(s, plans, contents) && k < |plans| && e in SourceElements(s, plans, contents, k)
    ensures Supplied(s, plans, k, e.nodeId) && AsSupplied(s, plans, k, e)
    decreases k, 0
  {
    SourceCases(s, plans, contents, k);
    if plans[k].source.Hierarchy? {
      EmittedSupplied(s, plans, k, e);
    } else {
      var j, c := plans[k].source.clause, plans[k].source.column;
      var row := ColumnRow(contents[j], c, e);
      RowsAreAnswers(s, plans, contents, j, row);
      hide SourceElements, ClauseAnswer, Invariant;
      assert Ids(row)[c] == e.nodeId;
    }
  }

  lemma ColumnRow(rows: seq<Row>, c: nat, e: ReferenceDescription) returns (row: Row)
    requires (forall row :: row in rows ==> c < |row|) && e in ColumnOf(rows, c)
    ensures row in rows && row[c] == e
  {
    var r :| 0 <= r < |rows| && ColumnOf(rows, c)[r] == e;
    row := rows[r];
  }

  // ---------------------------------------------------------------- every answer has a row

  /** No browse on the way to an answer is cut short: none of a visitor, and none along an answer. */
  ghost predicate ClauseBrowsed(s: Space, plans: seq<ClausePlan>, k: nat)
    requires ValidPlans(plans) && k < |plans|
  {
    assert Plannable(plans[k], plans[..k]);
    && (plans[k].source.Hierarchy? ==> V.BrowsedBelow(VisitorOf(s, plans[k].source)))
    && (plans[k].sink.MatchAt? ==>
          forall w :: ClauseAnswer(s, plans, k, w) ==> BrowsedAround(s, PatternOf(plans[k]), plans[k].sink.idx, w))
  }

  ghost predicate QueryBrowsed(s: Space, plans: seq<ClausePlan>)
    requires ValidPlans(plans)
  {
    forall k :: 0 <= k < |plans| ==> ClauseBrowsed(s, plans, k)
  }

  lemma ElementFeeds(s: Space, plans: seq<ClausePlan>, k: nat, es: Row, e: ReferenceDescription, w: seq<NodeId>)
    requires Valid(s) && ValidPlans(plans) && k < |plans| && ClauseBrowsed(s, plans, k)
    requires WellPlanned(plans[k]) && Feed(s, plans[k], es).Ok? && e in es && AsSupplied(s, plans, k, e)
    requires ClauseAnswer(s, plans, k, w) && w[PivotColumn(plans[k])] == e.nodeId
    ensures Yields(Feed(s, plans[k], es).value, w)
  {
    hide Supplied, PivotAsked, AsSupplied, Fits, Enforced, EngineOrder, SupportedAround, BrowsedAround, Feed, CheckPath;
    PivotsAsked(s, plans, k, e);
    if plans[k].sink.MatchAt? {
      assert Answer(s, PatternOf(plans[k]), plans[k].sink.idx, e, w);
      FeedFinds(s, plans[k], es, e, w);
    } else {
      FeedMember(s, plans[k], es, [e]);
      assert [e] in Feed(s, plans[k], es).value && Ids([e]) == w;
    }
  }

  lemma AppendedYields(s: Space, plans: seq<ClausePlan>, before: seq<seq<Row>>, after: seq<seq<Row>>, k: nat,
          w: seq<NodeId>)
    requires ValidState(s, plans, after) && |before| == |plans| && k < |plans| && Appends(s, plans, before, after, k)
    requires WellPlanned(plans[k])
    requires Yields(Feed(s, plans[k], SourceElements(s, plans, after, k)).value, w)
    ensures Yields(after[k], w)
  {
    hide Feed, SourceElements;
    var fed := Feed(s, plans[k], SourceElements(s, plans, after, k)).value;
    var row := RowOf(fed, w);
    assert row in before[k] + fed;
  }

  lemma SuppliedIsElement(s: Space, plans: seq<ClausePlan>, contents: seq<seq<Row>>, k: nat, x: NodeId)
    returns (e: ReferenceDescription)
    requires Valid(s) && ValidState(s, plans, contents) && k < |plans| && ClauseBrowsed(s, plans, k)
    requires Supplied(s, plans, k, x)
    requires plans[k].source.FromColumn? && plans[k].source.clause < k ==>
      forall u :: ClauseAnswer(s, plans, plans[k].source.clause, u) ==> Yields(contents[plans[k].source.clause], u)
    ensures e in SourceElements(s, plans, contents, k) && e.nodeId == x
  {
    SourceCases(s, plans, contents, k);
    hide ClauseAnswer, SourceElements, ValidState, V.Reaches, V.Emitted, Yields;
    if plans[k].source.Hierarchy? {
      V.EmittedMeaning(VisitorOf(s, plans[k].source), x);
      e :| e in V.Emitted(VisitorOf(s, plans[k].source)) && e.nodeId == x;
    } else {
      var j, c := plans[k].source.clause, plans[k].source.column;
      var u :| ClauseAnswer(s, plans, j, u) && u[c] == x;
      var row := RowOf(contents[j], u);
      e := row[c];
      InColumn(contents[j], c, row);
    }
  }

  lemma InColumn(rows: seq<Row>, c: nat, row: Row)
    requires (forall row :: row in rows ==> c < |row|) && row in rows
    ensures row[c] in ColumnOf(rows, c)
  {
    var r :| 0 <= r < |rows| && rows[r] == row;
    assert ColumnOf(rows, c)[r] == row[c];
  }

  /** After a run from any reachable state every answer of every clause has a row. */
  lemma {:induction false} AnswersHaveRows(s: Space, plans: seq<ClausePlan>, before: seq<seq<Row>>,
          after: seq<seq<Row>>, k: nat, w: seq<NodeId>)
    requires Valid(s) && |before| == |plans| && Invariant(s, plans, after)
    requires forall j :: 0 <= j < |plans| ==> Appends(s, plans, before, after, j)
    requires QueryBrowsed(s, plans) && k < |plans| && ClauseAnswer(s, plans, k, w)
    ensures Yields(after[k], w)
    decreases k
  {
    SourceCases(s, plans, after, k);
    var x := w[PivotColumn(plans[k])];
    hide Feed, SourceElements, Fits, Yields, AsSupplied, BrowsedAround, PivotAsked, SupportedAround;
    if plans[k].source.FromColumn? {
      var j := plans[k].source.clause;
      forall u | ClauseAnswer(s, plans, j, u) ensures Yields(after[j], u) {
        AnswersHaveRows(s, plans, before, after, j, u);
      }
    }
    assert ClauseBrowsed(s, plans, k) && Appends(s, plans, before, after, k);
    var e := SuppliedIsElement(s, plans, after, k, x);
    ElementsAreSupplied(s, plans, after, k, e);
    ElementFeeds(s, plans, k, SourceElements(s, plans, after, k), e, w);
    AppendedYields(s, plans, before, after, k, w);
  }

  // ---------------------------------------------------------------- runs

  ghost predicate AllSupported(plans: seq<ClausePlan>)
    requires ValidPlans(plans)
  {
    forall k :: 0 <= k < |plans| ==> ClauseSupported(plans, k)
  }

  ghost predicate ClauseSupported(plans: seq<ClausePlan>, k: nat)
    requires ValidPlans(plans) && k < |plans|
  {
    assert Plannable(plans[k], plans[..k]);
    plans[k].sink.MatchAt? ==> SupportedAround(PatternOf(plans[k]), plans[k].sink.idx)
  }

  lemma SupportedFeeds(s: Space, plans: seq<ClausePlan>, k: nat, es: Row)
    requires ValidPlans(plans) && k < |plans| && ClauseSupported(plans, k) && WellPlanned(plans[k])
    ensures Feed(s, plans[k], es).Ok?
  {
    hide Feed, SupportedAround;
    if plans[k].sink.MatchAt? {
      FeedEnds(s, plans[k], es);
    } else {
      FeedCollects(s, plans[k], es);
    }
  }

  lemma SupportedAt(plans: seq<ClausePlan>, k: nat)
    requires ValidPlans(plans) && k < |plans| && AllSupported(plans)
    ensures ClauseSupported(plans, k)
  {
    hide ClauseSupported;
  }

  /** A chain of supported patterns never aborts. */
  lemma {:induction false} SupportedRunsEnd(s: Space, plans: seq<ClausePlan>, contents: seq<seq<Row>>, k: nat)
    requires ValidPlans(plans) && ValidState(s, plans, contents) && k <= |plans| && AllSupported(plans)
    ensures RunFrom(s, plans, contents, k).Ok?
    decreases |plans| - k
  {
    hide *;
    if k == |plans| {
      RunEnd(s, plans, contents);
    } else {
      RunStep(s, plans, contents, k);
      SupportedAt(plans, k);
      StateLength(s, plans, contents);
      var es := SourceElements(s, plans, contents, k);
      SupportedFeeds(s, plans, k, es);
      SupportedRunsEnd(s, plans, contents[k := contents[k] + Feed(s, plans[k], es).value], k + 1);
    }
  }

  lemma StateLength(s: Space, plans: seq<ClausePlan>, contents: seq<seq<Row>>)
    requires ValidState(s, plans, contents)
    ensures |contents| == |plans|
  {
  }

  /** The answer of a query of any number of clauses, after a run from any reachable state: nothing aborts
      when all patterns are supported, and each clause's rows visit exactly its answers, provided no browse
      on the way to an answer is cut short. That they visit nothing else holds in any case and in every
      reachable state (RowsAreAnswers). */
  lemma QueryAnswer(s: Space, plans: seq<ClausePlan>, before: seq<seq<Row>>, k: nat, w: seq<NodeId>)
    requires Valid(s) && Invariant(s, plans, before) && QueryBrowsed(s, plans) && k < |plans|
    ensures var run := RunFrom(s, plans, before, 0);
            && (AllSupported(plans) ==> run.Ok?)
            && (run.Ok? ==> (Yields(run.value[k], w) <==> ClauseAnswer(s, plans, k, w)))
  {
    if AllSupported(plans) {
      SupportedRunsEnd(s, plans, before, 0);
    }
    var run := RunFrom(s, plans, before, 0);
    if run.Ok? {
      RunMeaning(s, plans, before);
      RunKeepsInvariant(s, plans, before);
      hide RunFrom, ClauseAnswer, Yields, Invariant, QueryBrowsed, Appends;
      if Yields(run.value[k], w) {
        var row := RowOf(run.value[k], w);
        RowsAreAnswers(s, plans, run.value, k, row);
      } else if ClauseAnswer(s, plans, k, w) {
        AnswersHaveRows(s, plans, before, run.value, k, w);
      }
    }
  }
}
