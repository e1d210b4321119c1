/** The query engine: a chain of match clauses, each of which may read a column of an earlier one
    while it fills its own. */
module QueryEngines {
  import opened Wrappers
  import opened AddressSpace
  import opened Matching
  import opened PathResults
  import opened Visitors
  import opened Planning
  import opened Runs
  import opened Sinks
  import opened MatchClauses
  import Cypher

  /** The plans after scheduling the matches one by one, or none when one cannot be planned. */
  function PlanAll(plans: seq<ClausePlan>, ms: seq<Cypher.Match>): Option<seq<ClausePlan>>
    requires forall m :: m in ms ==> Cypher.WellFormedMatch(m)
    decreases |ms|
  {
    if ms == [] then Some(plans)
    else
      assert ms[0] in ms && forall m :: m in ms[1..] ==> m in ms;
      match PlanMatch(ms[0], plans)
      case None => None
      case Some(plan) => PlanAll(plans + [plan], ms[1..])
  }

  lemma PlansGrow(plans: seq<ClausePlan>, plan: ClausePlan)
    requires ValidPlans(plans) && Plannable(plan, plans)
    ensures ValidPlans(plans + [plan])
  {
    forall k | 0 <= k < |plans + [plan]| ensures Plannable((plans + [plan])[k], (plans + [plan])[..k]) {
      if k < |plans| {
        assert (plans + [plan])[..k] == plans[..k] && Plannable(plans[k], plans[..k]);
      } else {
        assert (plans + [plan])[..k] == plans;
      }
    }
  }

  lemma AddedKeepsInvariant(s: Space, plans: seq<ClausePlan>, contents: seq<seq<Row>>, plan: ClausePlan)
    requires Plannable(plan, plans)
    ensures SourcesTerminate(s, plans + [plan]) ==> SourcesTerminate(s, plans)
    ensures Invariant(s, plans, contents) && SourcesTerminate(s, plans + [plan]) ==>
            Invariant(s, plans + [plan], contents + [[]])
  {
    var more := plans + [plan];
    if SourcesTerminate(s, more) {
      forall k | 0 <= k < |plans| && plans[k].source.Hierarchy? ensures Terminates(VisitorOf(s, plans[k].source)) {
        assert more[k] == plans[k];
      }
      assert more[|plans|] == plan;
      if Invariant(s, plans, contents) {
        ScheduleKeepsInvariant(s, plans, contents, plan);
      }
    }
  }

  class QueryEngine {
    const server: Space
    var matchClauses: seq<MatchClause>
    ghost var plans: seq<ClausePlan>
    ghost var repr: set<object>
    ghost var columns: set<Column>

    /** Every clause carries out its plan on columns of its own, and a clause that draws on a column
        holds that very object, which belongs to an earlier clause. */
    ghost predicate Valid()
      reads this, repr
    {
      && this !in repr
      && Wired(server, matchClauses, plans, repr, columns)
      && ValidPlans(plans)
      && (forall c :: c in columns ==> c in repr)
    }

    ghost function Contents(): seq<seq<Row>>
      requires Valid()
      reads this, repr
    {
      ContentsOf(matchClauses, plans, repr)
    }

    constructor (server: Space)
      ensures Valid() && this.server == server && plans == [] && fresh(repr)
      ensures Contents() == [] && Invariant(server, plans, Contents())
    {
      this.server := server;
      matchClauses, plans, repr, columns := [], [], {}, {};
    }

    method GetContext() returns (ctx: seq<MatchClause>)
      ensures ctx == matchClauses
    {
      ctx := [];
      for i := 0 to |matchClauses|
        invariant ctx == matchClauses[..i]
      {
        ctx := ctx + [matchClauses[i]];
      }
    }

    /** Adds the matches to the chain, or fails where one cannot be planned. Rows already found stay,
        new clauses have none. */
    method ScheduleQuery(ms: seq<Cypher.Match>) returns (ok: bool)
      requires Valid() && forall m :: m in ms ==> Cypher.WellFormedMatch(m)
      modifies this
      ensures Valid()
      ensures ok == PlanAll(old(plans), ms).Some?
      ensures ok ==> plans == PlanAll(old(plans), ms).value && Contents() == old(Contents()) + seq(|ms|, _ => [])
      ensures old(Invariant(server, plans, Contents())) && SourcesTerminate(server, plans) ==>
              Invariant(server, plans, Contents())
    {
      hide Valid, Contents, PlanMatch, Cypher.WellFormedMatch, Invariant, SourcesTerminate;
      ghost var goal, before := PlanAll(plans, ms), Contents();
      var i := 0;
      while i < |ms|
        invariant i <= |ms| && Valid()
        invariant forall m :: m in ms[i..] ==> Cypher.WellFormedMatch(m)
        invariant PlanAll(plans, ms[i..]) == goal
        invariant old(Invariant(server, plans, Contents())) && SourcesTerminate(server, plans) ==>
                  Invariant(server, plans, Contents())
        invariant Contents() == before + seq(i, _ => [])
      {
        assert ms[i..][0] == ms[i] && ms[i..][1..] == ms[i + 1..] && ms[i] in ms[i..];
        ghost var held := Contents();
        ok := ScheduleOne(ms[i]);
        if !ok {
          return;
        }
        assert held + [[]] == before + seq(i + 1, _ => []);
        i := i + 1;
      }
      ok := true;
    }

    method ScheduleOne(m: Cypher.Match) returns (ok: bool)
      requires Valid() && Cypher.WellFormedMatch(m)
      modifies this
      ensures Valid()
      ensures ok == PlanMatch(m, old(plans)).Some?
      ensures ok ==> plans == old(plans) + [PlanMatch(m, old(plans)).value] && Contents() == old(Contents()) + [[]]
      ensures !ok ==> plans == old(plans) && Contents() == old(Contents())
      ensures SourcesTerminate(server, plans) ==> SourcesTerminate(server, old(plans))
      ensures old(Invariant(server, plans, Contents())) && SourcesTerminate(server, plans) ==>
              Invariant(server, plans, Contents())
    {
      hide Invariant, SourcesTerminate, Feed, Emitted, Terminates, Sink.Implements, Sink.Valid, PathResult.Valid,
           PathResult.Rows, PlanMatch;
      ghost var was, held := plans, Contents();
      var ctx := GetContext();
      var f := CreateMatchClause(m, ctx, server, plans, repr);
      if f == null {
        return false;
      }
      Add(f, PlanMatch(m, plans).value);
      AddedKeepsInvariant(server, was, held, PlanMatch(m, was).value);
      ok := true;
    }

    /** Adds a clause that shares no object with the chain but the column it draws on. */
    method Add(f: MatchClause, ghost plan: ClausePlan)
      requires Valid() && f.server == server && f.Carries(plan) && f.Rows() == [] && Plannable(plan, plans)
      requires forall c :: c in f.Store().data ==> c !in repr
      requires plan.source.FromColumn? ==>
                 plan.source.column < |matchClauses[plan.source.clause].Store().data|
                 && f.src == Some(ColumnSource(matchClauses[plan.source.clause].Store().data[plan.source.column]))
      modifies this
      ensures Valid() && plans == old(plans) + [plan] && Contents() == old(Contents()) + [[]]
    {
      hide Feed, Emitted, Terminates, Sink.Implements, Sink.Valid, PathResult.Valid, PathResult.Rows;
      ghost var more := repr + {f, f.Store()} + (set c | c in f.Store().data);
      ghost var moreColumns := columns + (set c | c in f.Store().data);
      WireOneMore(server, matchClauses, plans, repr, columns, f, plan, more, moreColumns);
      ContentsMore(matchClauses, plans, repr, f, plan, more);
      PlansGrow(plans, plan);
      matchClauses, plans, repr, columns := matchClauses + [f], plans + [plan], more, moreColumns;
    }

    /** Runs every clause once, in order. The columns grow in place; which objects they are, and
        which of them a clause draws on, does not change. */
    method Run() returns (ok: bool)
      requires Valid() && SourcesTerminate(server, plans)
      modifies columns
      ensures Valid()
      ensures ValidState(server, plans, old(Contents()))
      ensures ok == RunFrom(server, plans, old(Contents()), 0).Ok?
      ensures ok ==> Contents() == RunFrom(server, plans, old(Contents()), 0).value
      ensures ok && old(Invariant(server, plans, Contents())) ==> Invariant(server, plans, Contents())
    {
      hide *;
      ghost var before := Contents();
      ContentsFit();
      ghost var goal := RunFrom(server, plans, Contents(), 0);
      var k := 0;
      while k < |matchClauses|
        invariant k <= |matchClauses| == |plans| && Valid() && ValidState(server, plans, Contents())
        invariant RunFrom(server, plans, Contents(), k) == goal
      {
        ghost var contents := Contents();
        ghost var es := SourceElements(server, plans, contents, k);
        RunStep(server, plans, contents, k);
        ok := RunClause(k, contents, es);
        if !ok {
          return;
        }
        k := k + 1;
      }
      RunEnd(server, plans, Contents());
      if Invariant(server, plans, before) {
        RunKeepsInvariant(server, plans, before);
      }
      ok := true;
    }

    lemma ContentsFit()
      requires Valid() && SourcesTerminate(server, plans)
      ensures ValidState(server, plans, Contents()) && |plans| == |matchClauses|
    {
      forall k | 0 <= k < |plans| ensures AllWide(Contents()[k], |plans[k].path.nodes|) {
        assert matchClauses[k].Carries(plans[k]) && Plannable(plans[k], plans[..k]);
        matchClauses[k].Store().ColumnHoldsRows(0);
      }
    }

    lemma Carried(k: nat)
      requires Valid() && k < |matchClauses|
      ensures matchClauses[k].Within(repr) && matchClauses[k].Carries(plans[k]) && Linked(matchClauses, plans, repr, k)
      ensures Plannable(plans[k], plans[..k]) && Contents()[k] == matchClauses[k].Rows()
    {
    }

    lemma SourceColumn(k: nat)
      requires Valid() && k < |matchClauses| && plans[k].source.FromColumn?
      ensures Plannable(plans[k], plans[..k])
      ensures var j, c := plans[k].source.clause, plans[k].source.column;
              && matchClauses[k].src.Some? && matchClauses[k].src.value.ColumnSource?
              && (forall row :: row in Contents()[j] ==> c < |row|)
              && ColumnOf(Contents()[j], c) == matchClauses[k].src.value.column.elements
    {
      Carried(k);
      var j, c := plans[k].source.clause, plans[k].source.column;
      Carried(j);
      matchClauses[j].Store().ColumnHoldsRows(c);
    }

    lemma SourceVisitor(k: nat)
      requires Valid() && SourcesTerminate(server, plans) && k < |matchClauses| && plans[k].source.Hierarchy?
      ensures matchClauses[k].src == Some(VisitorSource(VisitorOf(server, plans[k].source)))
      ensures Terminates(VisitorOf(server, plans[k].source))
    {
      Carried(k);
    }

    /** What a clause draws on is never a column it fills itself. */
    lemma NotItsOwnColumn(k: nat)
      requires Valid() && k < |matchClauses|
      ensures matchClauses[k].Carries(plans[k])
      ensures var src := matchClauses[k].src.value;
              src.ColumnSource? ==> src.column !in matchClauses[k].Store().data
    {
      Carried(k);
      if plans[k].source.FromColumn? {
        Carried(plans[k].source.clause);
        assert NothingShared(matchClauses[plans[k].source.clause], matchClauses[k], repr);
      }
    }

    /** The clause is about to be fed what the state machine says, and may run. */
    lemma ReadyToRun(k: nat, es: Row)
      requires Valid() && ValidState(server, plans, Contents()) && k < |matchClauses|
      requires es == SourceElements(server, plans, Contents(), k)
      ensures matchClauses[k].Carries(plans[k]) && Plannable(plans[k], plans[..k])
      ensures matchClauses[k].server == server && forall c :: c in matchClauses[k].Store().data ==> c in columns
      ensures var src := matchClauses[k].src.value;
              && (src.VisitorSource? ==> Terminates(src.visitor) && es == Emitted(src.visitor))
              && (src.ColumnSource? ==> src.column !in matchClauses[k].Store().data && es == src.column.elements)
    {
      Carried(k);
      SourceCases(server, plans, Contents(), k);
      NotItsOwnColumn(k);
      if plans[k].source.Hierarchy? {
        SourceVisitor(k);
      } else {
        SourceColumn(k);
      }
    }

    /** Runs one clause: its rows are those the state machine appends, the other clauses keep theirs. */
    method RunClause(k: nat, ghost contents: seq<seq<Row>>, ghost es: Row) returns (ok: bool)
      requires Valid() && contents == Contents()
      requires ValidState(server, plans, contents) && k < |matchClauses|
      requires es == SourceElements(server, plans, contents, k)
      modifies columns
      ensures Valid() && WellPlanned(plans[k])
      ensures ok == Feed(server, plans[k], es).Ok?
      ensures ok ==> Contents() == contents[k := contents[k] + Feed(server, plans[k], es).value]
    {
      hide Feed, SourceElements, ValidState, Emitted, Terminates, Sink.Implements, Sink.Valid, PathResult.Valid,
           PathResult.Rows;
      ReadyToRun(k, es);
      forall j | 0 <= j < |matchClauses| ensures contents[j] == matchClauses[j].Rows() {
        Carried(j);
      }
      ok := RunWired(server, matchClauses, k, plans, repr, columns);
      forall j | 0 <= j < |matchClauses| ensures Contents()[j] == matchClauses[j].Rows() {
        Carried(j);
      }
      assert ok ==> Contents() == contents[k := contents[k] + Feed(server, plans[k], es).value];
    }
  }
}
