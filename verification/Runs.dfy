/** What running a planned query does, as a state machine over the rows of its clauses, and what
    holds in every state it reaches. */
module Runs {
  import opened Wrappers
  import opened Sequences
  import opened AddressSpace
  import opened Matching
  import opened PathResults
  import opened Visitors
  import opened Planning
  import Cypher

  /** The rows a sink makes of one element. */
  function Produced(s: Space, plan: ClausePlan, e: ReferenceDescription): (r: Outcome<seq<Row>>)
    requires WellPlanned(plan)
    ensures r.Ok? ==> forall row :: row in r.value ==> |row| == |plan.path.nodes| && row[PivotColumn(plan)] == e
  {
    match plan.sink
    case Collect => Ok([[e]])
    case MatchAt(idx) => CheckPath(s, Cypher.Compiled(plan.path), idx, e)
  }

  /** The column a sink puts the element it was given in. */
  function PivotColumn(plan: ClausePlan): nat {
    if plan.sink.MatchAt? then plan.sink.idx else 0
  }

  function Feed(s: Space, plan: ClausePlan, es: Row): (r: Outcome<seq<Row>>)
    requires WellPlanned(plan)
    ensures r.Ok? ==> forall row :: row in r.value ==> |row| == |plan.path.nodes|
  {
    if es == [] then Ok([])
    else
      match Produced(s, plan, es[0])
      case Aborted => Aborted
      case Ok(rows) => Then(rows, Feed(s, plan, es[1..]))
  }

  lemma FeedUnfold(s: Space, plan: ClausePlan, es: Row, first: ReferenceDescription, rest: Row)
    requires WellPlanned(plan) && es == [first] + rest
    ensures Feed(s, plan, es) ==
            match Produced(s, plan, first) case Aborted => Aborted case Ok(rows) => Then(rows, Feed(s, plan, rest))
  {
    hide Produced, Then;
    assert es[0] == first && es[1..] == rest;
  }

  lemma ThenConcat(here: seq<Row>, later: Outcome<seq<Row>>, more: Outcome<seq<Row>>)
    ensures Then(here, if later.Ok? then Then(later.value, more) else Aborted)
            == if Then(here, later).Ok? then Then(Then(here, later).value, more) else Aborted
  {
    if later.Ok? && more.Ok? {
      ConcatAssociates(here, later.value, more.value);
    }
  }

  lemma {:induction false} FeedConcat(s: Space, plan: ClausePlan, a: Row, b: Row)
    requires WellPlanned(plan)
    ensures Feed(s, plan, a + b) ==
            if Feed(s, plan, a).Ok? then Then(Feed(s, plan, a).value, Feed(s, plan, b)) else Aborted
    decreases |a|
  {
    if a == [] {
      assert a + b == b;
      if Feed(s, plan, b).Ok? { assert [] + Feed(s, plan, b).value == Feed(s, plan, b).value; }
    } else {
      var rest := a[1..];
      assert a == [a[0]] + rest && a + b == [a[0]] + (rest + b);
      hide Feed, Produced, Then;
      FeedConcat(s, plan, rest, b);
      FeedUnfold(s, plan, a, a[0], rest);
      FeedUnfold(s, plan, a + b, a[0], rest + b);
      if Produced(s, plan, a[0]).Ok? {
        ThenConcat(Produced(s, plan, a[0]).value, Feed(s, plan, rest), Feed(s, plan, b));
      }
    }
  }

  lemma {:induction false} FeedMember(s: Space, plan: ClausePlan, es: Row, row: Row)
    requires WellPlanned(plan) && Feed(s, plan, es).Ok?
    ensures row in Feed(s, plan, es).value <==>
            exists e :: e in es && Produced(s, plan, e).Ok? && row in Produced(s, plan, e).value
  {
    if es != [] {
      FeedMember(s, plan, es[1..], row);
      assert forall e :: e in es <==> e == es[0] || e in es[1..];
    }
  }

  // ---------------------------------------------------------------- states

  function VisitorOf(s: Space, source: SourcePlan): Visitor
    requires source.Hierarchy?
  {
    Visitor(s, source.root, HIERARCHICAL_REFERENCES, source.wanted)
  }

  ghost predicate SourcesTerminate(s: Space, plans: seq<ClausePlan>) {
    forall k :: 0 <= k < |plans| && plans[k].source.Hierarchy? ==> Terminates(VisitorOf(s, plans[k].source))
  }

  /** The rows of every clause, each as wide as the clause's pattern. */
  ghost predicate Fitting(plans: seq<ClausePlan>, contents: seq<seq<Row>>) {
    |contents| == |plans| && forall k :: 0 <= k < |plans| ==> AllWide(contents[k], |plans[k].path.nodes|)
  }

  ghost predicate AllWide(rows: seq<Row>, n: nat) {
    forall row :: row in rows ==> |row| == n
  }

  ghost predicate ValidState(s: Space, plans: seq<ClausePlan>, contents: seq<seq<Row>>) {
    ValidPlans(plans) && SourcesTerminate(s, plans) && Fitting(plans, contents)
  }

  /** The elements clause `k` is fed with, given what the clauses hold now. */
  ghost function SourceElements(s: Space, plans: seq<ClausePlan>, contents: seq<seq<Row>>, k: nat): Row
    requires ValidState(s, plans, contents) && k < |plans|
  {
    assert Plannable(plans[k], plans[..k]);
    match plans[k].source
    case Hierarchy(_, _) => Emitted(VisitorOf(s, plans[k].source))
    case FromColumn(j, c) => assert AllWide(contents[j], |plans[j].path.nodes|); ColumnOf(contents[j], c)
  }

  lemma SourceCases(s: Space, plans: seq<ClausePlan>, contents: seq<seq<Row>>, k: nat)
    requires ValidState(s, plans, contents) && k < |plans|
    ensures Plannable(plans[k], plans[..k])
    ensures plans[k].source.Hierarchy? ==>
      Terminates(VisitorOf(s, plans[k].source))
          && SourceElements(s, plans, contents, k) == Emitted(VisitorOf(s, plans[k].source))
    ensures plans[k].source.FromColumn? ==>
      var j, c := plans[k].source.clause, plans[k].source.column;
      && j < k && (forall row :: row in contents[j] ==> c < |row|)
      && SourceElements(s, plans, contents, k) == ColumnOf(contents[j], c)
  {
    assert Plannable(plans[k], plans[..k]);
    if plans[k].source.FromColumn? {
      var j := plans[k].source.clause;
      assert AllWide(contents[j], |plans[j].path.nodes|);
    }
  }

  /** Clauses `k` and later run in order, each appending what its source feeds its sink. */
  ghost function RunFrom(s: Space, plans: seq<ClausePlan>, contents: seq<seq<Row>>, k: nat): (r: Outcome<seq<seq<Row>>>)
    requires ValidState(s, plans, contents) && k <= |plans|
    ensures r.Ok? ==> ValidState(s, plans, r.value)
    decreases |plans| - k
  {
    if k == |plans| then Ok(contents)
    else
      assert Plannable(plans[k], plans[..k]);
      match Feed(s, plans[k], SourceElements(s, plans, contents, k))
      case Aborted => Aborted
      case Ok(rows) => RunFrom(s, plans, contents[k := contents[k] + rows], k + 1)
  }

  lemma RunStep(s: Space, plans: seq<ClausePlan>, contents: seq<seq<Row>>, k: nat)
    requires ValidState(s, plans, contents) && k < |plans|
    ensures WellPlanned(plans[k])
    ensures var fed := Feed(s, plans[k], SourceElements(s, plans, contents, k));
            && (fed.Aborted? ==> RunFrom(s, plans, contents, k) == Aborted)
            && (fed.Ok? ==>
                  && ValidState(s, plans, contents[k := contents[k] + fed.value])
                  && RunFrom(s, plans, contents, k) == RunFrom(s, plans, contents[k := contents[k] + fed.value], k + 1))
  {
    assert Plannable(plans[k], plans[..k]);
  }

  lemma RunEnd(s: Space, plans: seq<ClausePlan>, contents: seq<seq<Row>>)
    requires ValidState(s, plans, contents)
    ensures RunFrom(s, plans, contents, |plans|) == Ok(contents)
  {
  }

  /** Clause `k` holds what it held and then, in order and with duplicates, the rows of each
      element of its source, where a source column is what `after` has in it. */
  ghost predicate Appends(s: Space, plans: seq<ClausePlan>, before: seq<seq<Row>>, after: seq<seq<Row>>, k: nat)
    requires ValidState(s, plans, after) && |before| == |plans| && k < |plans|
  {
    assert Plannable(plans[k], plans[..k]);
    var fed := Feed(s, plans[k], SourceElements(s, plans, after, k));
    fed.Ok? && after[k] == before[k] + fed.value
  }

  lemma SourceUnchanged(s: Space, plans: seq<ClausePlan>, a: seq<seq<Row>>, b: seq<seq<Row>>, k: nat)
    requires ValidState(s, plans, a) && ValidState(s, plans, b) && k < |plans|
    requires forall j :: 0 <= j < k ==> a[j] == b[j]
    ensures SourceElements(s, plans, a, k) == SourceElements(s, plans, b, k)
  {
    assert Plannable(plans[k], plans[..k]);
  }

  lemma AppendsNow(s: Space, plans: seq<ClausePlan>, before: seq<seq<Row>>, after: seq<seq<Row>>, k: nat)
    requires ValidState(s, plans, before) && ValidState(s, plans, after) && k < |plans|
    requires forall j :: 0 <= j < k ==> after[j] == before[j]
    requires WellPlanned(plans[k])
    requires var fed := Feed(s, plans[k], SourceElements(s, plans, before, k));
             fed.Ok? && after[k] == before[k] + fed.value
    ensures Appends(s, plans, before, after, k)
  {
    SourceUnchanged(s, plans, after, before, k);
  }

  lemma AppendsToSame(s: Space, plans: seq<ClausePlan>, a: seq<seq<Row>>, b: seq<seq<Row>>, after: seq<seq<Row>>,
          k: nat)
    requires ValidState(s, plans, after) && |a| == |b| == |plans| && k < |plans| && a[k] == b[k]
    requires Appends(s, plans, a, after, k)
    ensures Appends(s, plans, b, after, k)
  {
  }

  lemma {:induction false} RunFromAppends(s: Space, plans: seq<ClausePlan>, contents: seq<seq<Row>>, k: nat)
    requires ValidState(s, plans, contents) && k <= |plans|
    requires RunFrom(s, plans, contents, k).Ok?
    ensures var after := RunFrom(s, plans, contents, k).value;
            && (forall j :: 0 <= j < k ==> after[j] == contents[j])
            && forall j :: k <= j < |plans| ==> Appends(s, plans, contents, after, j)
    decreases |plans| - k
  {
    hide RunFrom, Feed, SourceElements, Appends;
    if k == |plans| {
      RunEnd(s, plans, contents);
    } else {
      RunStep(s, plans, contents, k);
      var next := contents[k := contents[k] + Feed(s, plans[k], SourceElements(s, plans, contents, k)).value];
      RunFromAppends(s, plans, next, k + 1);
      var after := RunFrom(s, plans, contents, k).value;
      AppendsNow(s, plans, contents, after, k);
      forall j | k < j < |plans| ensures Appends(s, plans, contents, after, j) {
        AppendsToSame(s, plans, next, contents, after, j);
      }
    }
  }

  /** One run of the whole query: every clause appends the rows of its source elements, and a
      clause that reads a column reads all that the run leaves in it. */
  lemma RunMeaning(s: Space, plans: seq<ClausePlan>, contents: seq<seq<Row>>)
    requires ValidState(s, plans, contents) && RunFrom(s, plans, contents, 0).Ok?
    ensures forall j :: 0 <= j < |plans| ==> Appends(s, plans, contents, RunFrom(s, plans, contents, 0).value, j)
  {
    RunFromAppends(s, plans, contents, 0);
  }

  // ---------------------------------------------------------------- every reachable state

  /** The row is one the clause's sink makes of an element of the clause's source. */
  ghost predicate Justified(s: Space, plans: seq<ClausePlan>, contents: seq<seq<Row>>, k: nat, row: Row)
    requires ValidState(s, plans, contents) && k < |plans|
  {
    assert Plannable(plans[k], plans[..k]);
    exists e :: e in SourceElements(s, plans, contents, k) && Produced(s, plans[k], e).Ok?
        && row in Produced(s, plans[k], e).value
  }

  /** The invariant of the engine: every row of every clause is justified by what the clauses
      hold now. */
  ghost predicate Invariant(s: Space, plans: seq<ClausePlan>, contents: seq<seq<Row>>) {
    ValidState(s, plans, contents)
    && forall k, row :: 0 <= k < |plans| && row in contents[k] ==> Justified(s, plans, contents, k, row)
  }

  ghost predicate Extends(before: seq<seq<Row>>, after: seq<seq<Row>>) {
    |before| == |after| && forall k :: 0 <= k < |before| ==> before[k] <= after[k]
  }

  lemma SourcesGrow(s: Space, plans: seq<ClausePlan>, before: seq<seq<Row>>, after: seq<seq<Row>>, k: nat)
    requires ValidState(s, plans, before) && ValidState(s, plans, after) && Extends(before, after) && k < |plans|
    ensures SourceElements(s, plans, before, k) <= SourceElements(s, plans, after, k)
  {
    assert Plannable(plans[k], plans[..k]);
    if plans[k].source.FromColumn? {
      var j := plans[k].source.clause;
      assert before[j] <= after[j];
      assert AllWide(before[j], |plans[j].path.nodes|) && AllWide(after[j], |plans[j].path.nodes|);
    }
  }

  lemma StillJustified(s: Space, plans: seq<ClausePlan>, before: seq<seq<Row>>, after: seq<seq<Row>>, k: nat, row: Row)
    requires ValidState(s, plans, before) && ValidState(s, plans, after) && Extends(before, after) && k < |plans|
    requires Justified(s, plans, before, k, row)
    ensures Justified(s, plans, after, k, row)
  {
    SourcesGrow(s, plans, before, after, k);
    assert Plannable(plans[k], plans[..k]);
    var e :| e in SourceElements(s, plans, before, k) && Produced(s, plans[k], e).Ok?
      && row in Produced(s, plans[k], e).value;
    assert e in SourceElements(s, plans, after, k);
  }

  lemma NewRowJustified(s: Space, plans: seq<ClausePlan>, before: seq<seq<Row>>, after: seq<seq<Row>>, k: nat, row: Row)
    requires ValidState(s, plans, after) && |before| == |plans| && k < |plans|
    requires Appends(s, plans, before, after, k) && row in after[k] && row !in before[k]
    ensures Justified(s, plans, after, k, row)
  {
    SourceCases(s, plans, after, k);
    hide Feed, SourceElements, ValidState;
    FeedMember(s, plans[k], SourceElements(s, plans, after, k), row);
  }

  lemma RunExtends(s: Space, plans: seq<ClausePlan>, contents: seq<seq<Row>>)
    requires ValidState(s, plans, contents) && RunFrom(s, plans, contents, 0).Ok?
    ensures Extends(contents, RunFrom(s, plans, contents, 0).value)
  {
    var after := RunFrom(s, plans, contents, 0).value;
    RunMeaning(s, plans, contents);
    hide RunFrom, Feed, SourceElements;
    forall k | 0 <= k < |contents| ensures contents[k] <= after[k] {
      assert Appends(s, plans, contents, after, k);
    }
  }

  /** Running the query, from any state and any number of times, keeps the invariant. */
  lemma RunKeepsInvariant(s: Space, plans: seq<ClausePlan>, contents: seq<seq<Row>>)
    requires Invariant(s, plans, contents) && RunFrom(s, plans, contents, 0).Ok?
    ensures Invariant(s, plans, RunFrom(s, plans, contents, 0).value)
    ensures Extends(contents, RunFrom(s, plans, contents, 0).value)
  {
    var after := RunFrom(s, plans, contents, 0).value;
    RunMeaning(s, plans, contents);
    RunExtends(s, plans, contents);
    hide RunFrom, Feed, SourceElements, Justified, Appends, Extends;
    forall k, row | 0 <= k < |plans| && row in after[k] ensures Justified(s, plans, after, k, row) {
      if row in contents[k] {
        StillJustified(s, plans, contents, after, k, row);
      } else {
        NewRowJustified(s, plans, contents, after, k, row);
      }
    }
  }

  /** Scheduling a clause, before or between runs, keeps the invariant. */
  lemma ScheduleKeepsInvariant(s: Space, plans: seq<ClausePlan>, contents: seq<seq<Row>>, plan: ClausePlan)
    requires Invariant(s, plans, contents) && Plannable(plan, plans)
    requires plan.source.Hierarchy? ==> Terminates(VisitorOf(s, plan.source))
    ensures Invariant(s, plans + [plan], contents + [[]])
  {
    var more, held := plans + [plan], contents + [[]];
    forall k | 0 <= k < |more| ensures Plannable(more[k], more[..k]) {
      if k < |plans| {
        assert more[..k] == plans[..k];
        assert Plannable(plans[k], plans[..k]);
      } else {
        assert more[..k] == plans;
      }
    }
    forall k | 0 <= k < |more| ensures AllWide(held[k], |more[k].path.nodes|) {
      if k < |plans| { assert AllWide(contents[k], |plans[k].path.nodes|); }
    }
    assert SourcesTerminate(s, more) by {
      forall k | 0 <= k < |more| && more[k].source.Hierarchy? ensures Terminates(VisitorOf(s, more[k].source)) {
        if k < |plans| { assert plans[k] == more[k]; }
      }
    }
    assert ValidState(s, more, held);
    forall k, row | 0 <= k < |more| && row in held[k] ensures Justified(s, more, held, k, row) {
      assert k < |plans| && Justified(s, plans, contents, k, row);
      assert Plannable(plans[k], plans[..k]);
      assert SourceElements(s, more, held, k) == SourceElements(s, plans, contents, k);
    }
  }

  /** In every reachable state, every element in the pivot column of a clause that draws on an
      earlier clause stands in the column it draws on, in a row of that clause. */
  lemma PivotsComeFromSource(s: Space, plans: seq<ClausePlan>, contents: seq<seq<Row>>, k: nat, row: Row)
    requires Invariant(s, plans, contents) && k < |plans| && plans[k].source.FromColumn? && row in contents[k]
    ensures Plannable(plans[k], plans[..k]) && |row| == |plans[k].path.nodes|
    ensures var j, c := plans[k].source.clause, plans[k].source.column;
            exists earlier :: earlier in contents[j] && |earlier| == |plans[j].path.nodes|
                              && earlier[c] == row[PivotColumn(plans[k])]
  {
    SourceCases(s, plans, contents, k);
    var j, c := plans[k].source.clause, plans[k].source.column;
    assert AllWide(contents[j], |plans[j].path.nodes|);
    assert Justified(s, plans, contents, k, row);
    hide Feed, SourceElements, ValidState;
    var e :| e in SourceElements(s, plans, contents, k) && Produced(s, plans[k], e).Ok?
      && row in Produced(s, plans[k], e).value;
    var r :| 0 <= r < |contents[j]| && ColumnOf(contents[j], c)[r] == e;
    assert contents[j][r] in contents[j] && contents[j][r][c] == e;
  }
}
