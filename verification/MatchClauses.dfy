/** A match clause: the source of its start elements and the sink that matches and stores. */
module MatchClauses {
  import opened Wrappers
  import opened AddressSpace
  import opened Matching
  import opened PathResults
  import opened PathMatchers
  import opened Visitors
  import opened Planning
  import opened Runs
  import opened Sinks
  import Cypher

  datatype Source = VisitorSource(visitor: Visitor) | ColumnSource(column: Column)

  class MatchClause {
    const server: Space
    const path: Cypher.Path
    var src: Option<Source>
    var sink: Option<Sink>

    constructor (server: Space, path: Cypher.Path)
      ensures this.server == server && this.path == path && src.None? && sink.None?
    {
      this.server, this.path := server, path;
      src, sink := None, None;
    }

    function Store(): PathResult
      requires sink.Some?
      reads this
    {
      sink.value.Results()
    }

    /** The clause has its source and sink, and carries out the plan. Which column a column source
        is belongs to the engine. */
    ghost predicate Carries(plan: ClausePlan)
      reads this, if sink.Some? then {sink.value.Results()} else {}
      reads if sink.Some? then sink.value.Results().data else []
    {
      && plan.path == path && src.Some? && sink.Some?
      && sink.value.Valid() && sink.value.Implements(server, plan)
      && Store().Valid() && |Store().data| == |path.nodes|
      && (src.value.VisitorSource? ==> plan.source.Hierarchy? && src.value.visitor == VisitorOf(server, plan.source))
      && (src.value.ColumnSource? ==> plan.source.FromColumn?)
    }

    ghost predicate Within(repr: set<object>)
      reads repr
    {
      this in repr && (sink.Some? ==> Store() in repr && forall c :: c in Store().data ==> c in repr)
    }

    ghost function Rows(): seq<Row>
      requires sink.Some? && Store().Valid()
      reads this, Store(), Store().data
    {
      Store().Rows()
    }

    /** A clause none of whose objects changed still carries out its plan and holds its rows. */
    twostate lemma Kept(plan: ClausePlan)
      requires old(Carries(plan)) && unchanged(this) && unchanged(old(Store()))
      requires forall c :: c in old(Store().data) ==> unchanged(c)
      ensures Carries(plan) && Rows() == old(Rows())
    {
      var store := Store();
      forall i | 0 <= i < |store.data| ensures store.Columns()[i] == old(store.Columns())[i] {
        assert store.data[i] in old(Store().data);
      }
      assert store.Columns() == old(store.Columns());
      assert store.Valid() && store.Rows() == old(store.Rows());
    }

    /** Drives the source into the sink. A column source belongs to another clause, so it is not
        touched while it is read. */
    method Run(ghost plan: ClausePlan) returns (ok: bool)
      requires Carries(plan)
      requires src.value.VisitorSource? ==> Terminates(src.value.visitor)
      requires src.value.ColumnSource? ==> src.value.column !in Store().data
      modifies Store().data
      ensures Carries(plan)
      ensures src.value.ColumnSource? ==> src.value.column.elements == old(src.value.column.elements)
      ensures var es := if src.value.VisitorSource? then Emitted(src.value.visitor) else src.value.column.elements;
              && ok == Feed(server, plan, es).Ok?
              && (ok ==> Rows() == old(Rows()) + Feed(server, plan, es).value)
    {
      match src.value
      case VisitorSource(v) =>
        ok := Generate(v, sink.value, plan);
      case ColumnSource(c) =>
        ok := GenerateColumn(c, sink.value, server, plan);
    }

    method CreateHierachicalVisitorSource(root: NodeId, referenceType: NodeId, wanted: NodeClass)
      modifies `src
      ensures src == Some(VisitorSource(Visitor(server, root, referenceType, wanted)))
    {
      src := Some(VisitorSource(Visitor(server, root, referenceType, wanted)));
    }

    method CreateColumnAsSource(col: Column)
      modifies `src
      ensures src == Some(ColumnSource(col))
    {
      src := Some(ColumnSource(col));
    }

    method CreatePathMatcher(startIndex: nat)
      requires Cypher.WellFormed(path) && startIndex < |path.nodes|
      modifies `sink
      ensures sink.Some? && sink.value.MatcherSink? && sink.value.Valid() && fresh(Store()) && fresh(Store().data)
      ensures sink.value.matcher.idx == startIndex && sink.value.matcher.path == Cypher.Compiled(path)
      ensures sink.value.matcher.server == server && |Store().data| == |path.nodes| && Rows() == []
    {
      var compiled := Cypher.Compile(path);
      var m := new PathMatcher(server, compiled, startIndex);
      sink := Some(MatcherSink(m));
    }

    method CreateDefaultSink()
      modifies `sink
      ensures sink.Some? && sink.value.CollectorSink? && sink.value.Valid() && fresh(Store()) && fresh(Store().data)
      ensures Rows() == []
    {
      var d := new DefaultSink();
      sink := Some(CollectorSink(d));
    }

    /** The column of the first pattern node with the name, or none. */
    method Results(identifier: string) returns (c: Option<Column>)
      requires sink.Some? && sink.value.Valid() && |Store().data| == |path.nodes|
      ensures var i := Cypher.IndexOf(path.nodes, identifier);
              c == if i.Some? then Some(Store().data[i.value]) else None
    {
      var idx := Cypher.GetIndex(path, identifier);
      if idx.Some? {
        return Store().Col(idx.value);
      }
      return None;
    }
  }

  /** The clauses carry out the plans, one each, and all their objects are in `repr`. */
  ghost predicate AllCarry(ctx: seq<MatchClause>, plans: seq<ClausePlan>, repr: set<object>)
    reads repr
  {
    |ctx| == |plans| && forall k :: 0 <= k < |ctx| ==> ctx[k].Within(repr) && ctx[k].Carries(plans[k])
  }

  ghost predicate NoSharedColumns(ctx: seq<MatchClause>, repr: set<object>)
    requires forall k :: 0 <= k < |ctx| ==> ctx[k].Within(repr) && ctx[k].sink.Some?
    reads repr
  {
    forall j, k :: 0 <= j < |ctx| && 0 <= k < |ctx| && j != k ==> NothingShared(ctx[j], ctx[k], repr)
  }

  ghost predicate NothingShared(a: MatchClause, b: MatchClause, repr: set<object>)
    requires a.Within(repr) && b.Within(repr) && a.sink.Some? && b.sink.Some?
    reads repr
  {
    forall c :: c in a.Store().data ==> c !in b.Store().data
  }

  /** The clause draws, where its plan says so, on the very column object of an earlier clause. */
  ghost predicate Linked(ctx: seq<MatchClause>, plans: seq<ClausePlan>, repr: set<object>, k: nat)
    requires AllCarry(ctx, plans, repr) && k < |ctx|
    reads repr
  {
    var source := plans[k].source;
    source.FromColumn? ==>
      && source.clause < k && source.column < |ctx[source.clause].Store().data|
      && ctx[k].src == Some(ColumnSource(ctx[source.clause].Store().data[source.column]))
  }

  /** A chain of clauses on one server, each with columns of its own among `columns`. */
  ghost predicate Wired(server: Space, ctx: seq<MatchClause>, plans: seq<ClausePlan>, repr: set<object>,
          columns: set<Column>)
    reads repr
  {
    && AllCarry(ctx, plans, repr)
    && NoSharedColumns(ctx, repr)
    && (forall k :: 0 <= k < |ctx| ==>
          ctx[k].server == server && (forall c :: c in ctx[k].Store().data ==> c in columns))
    && (forall k {:trigger Linked(ctx, plans, repr, k)} :: 0 <= k < |ctx| ==> Linked(ctx, plans, repr, k))
  }

  lemma CarryMore(ctx: seq<MatchClause>, plans: seq<ClausePlan>, repr: set<object>, f: MatchClause, plan: ClausePlan,
          more: set<object>)
    requires AllCarry(ctx, plans, repr) && repr <= more
    requires f.Within(more) && f.Carries(plan)
    ensures AllCarry(ctx + [f], plans + [plan], more)
  {
    forall k | 0 <= k < |ctx + [f]| ensures (ctx + [f])[k].Within(more) && (ctx + [f])[k].Carries((plans + [plan])[k]) {
      if k < |ctx| {
        assert ctx[k].Within(repr) && ctx[k].Carries(plans[k]);
      }
    }
  }

  /** The rows every clause holds. */
  ghost function ContentsOf(ctx: seq<MatchClause>, plans: seq<ClausePlan>, repr: set<object>): (r: seq<seq<Row>>)
    requires AllCarry(ctx, plans, repr)
    reads repr
    ensures |r| == |ctx| && forall k :: 0 <= k < |ctx| ==>
            ctx[k].Within(repr) && ctx[k].Carries(plans[k]) && r[k] == ctx[k].Rows()
  {
    seq(|ctx|, k requires 0 <= k < |ctx| && AllCarry(ctx, plans, repr) reads repr =>
      assert ctx[k].Within(repr) && ctx[k].Carries(plans[k]); ctx[k].Rows())
  }

  lemma ContentsMore(ctx: seq<MatchClause>, plans: seq<ClausePlan>, repr: set<object>, f: MatchClause,
          plan: ClausePlan, more: set<object>)
    requires AllCarry(ctx, plans, repr) && AllCarry(ctx + [f], plans + [plan], more)
    ensures (ctx + [f])[|ctx|] == f && (plans + [plan])[|ctx|] == plan && f.Carries(plan)
    ensures ContentsOf(ctx + [f], plans + [plan], more) == ContentsOf(ctx, plans, repr) + [f.Rows()]
  {
    var all, held := ContentsOf(ctx + [f], plans + [plan], more), ContentsOf(ctx, plans, repr);
    assert (ctx + [f])[|ctx|].Carries((plans + [plan])[|ctx|]);
    forall k | 0 <= k < |all| ensures all[k] == (held + [f.Rows()])[k] {
      assert all[k] == (ctx + [f])[k].Rows();
    }
  }

  /** A new clause, none of whose objects is among those of the chain, can be added to it. */
  lemma WireOneMore(server: Space, ctx: seq<MatchClause>, plans: seq<ClausePlan>, repr: set<object>,
          columns: set<Column>,
                    f: MatchClause, plan: ClausePlan, more: set<object>, moreColumns: set<Column>)
    requires Wired(server, ctx, plans, repr, columns) && repr <= more && columns <= moreColumns
    requires f.Within(more) && f.Carries(plan) && f.server == server
    requires forall c :: c in f.Store().data ==> c !in repr && c in moreColumns
    requires plan.source.FromColumn? ==>
               plan.source.clause < |ctx| && plan.source.column < |ctx[plan.source.clause].Store().data|
               && f.src == Some(ColumnSource(ctx[plan.source.clause].Store().data[plan.source.column]))
    ensures Wired(server, ctx + [f], plans + [plan], more, moreColumns)
  {
    CarryMore(ctx, plans, repr, f, plan, more);
    var all, allPlans := ctx + [f], plans + [plan];
    forall i, j | 0 <= i < |all| && 0 <= j < |all| && i != j ensures NothingShared(all[i], all[j], more) {
      if i < |ctx| && j < |ctx| {
        assert NothingShared(ctx[i], ctx[j], repr);
      } else if i < |ctx| {
        assert ctx[i].Within(repr);
      } else {
        assert ctx[j].Within(repr);
      }
    }
    forall k | 0 <= k < |all| ensures Linked(all, allPlans, more, k) {
      if k < |ctx| {
        assert Linked(ctx, plans, repr, k);
      }
    }
  }

  /** Runs one clause among others; those keep what they hold. */
  method RunOneOf(ctx: seq<MatchClause>, k: nat, ghost plans: seq<ClausePlan>, ghost repr: set<object>)
    returns (ok: bool)
    requires AllCarry(ctx, plans, repr) && NoSharedColumns(ctx, repr) && k < |ctx|
    requires ctx[k].src.value.VisitorSource? ==> Terminates(ctx[k].src.value.visitor)
    requires ctx[k].src.value.ColumnSource? ==> ctx[k].src.value.column !in ctx[k].Store().data
    modifies ctx[k].Store().data
    ensures AllCarry(ctx, plans, repr)
    ensures forall j :: 0 <= j < |ctx| && j != k ==> ctx[j].Rows() == old(ctx[j].Rows())
    ensures var es := old(if ctx[k].src.value.VisitorSource? then Emitted(ctx[k].src.value.visitor)
            else ctx[k].src.value.column.elements);
            && ok == Feed(ctx[k].server, plans[k], es).Ok?
            && (ok ==> ctx[k].Rows() == old(ctx[k].Rows()) + Feed(ctx[k].server, plans[k], es).value)
  {
    hide Feed, Emitted, Terminates, Sink.Implements, Sink.Valid, PathResult.Valid, PathResult.Rows;
    assert forall j :: 0 <= j < |ctx| ==> ctx[j].Within(repr) && ctx[j].Carries(plans[j]);
    label before:
    ok := ctx[k].Run(plans[k]);
    forall j | 0 <= j < |ctx| && j != k
      ensures ctx[j].Carries(plans[j]) && ctx[j].Rows() == old(ctx[j].Rows())
    {
      assert NothingShared(ctx[j], ctx[k], repr);
      ctx[j].Kept@before(plans[j]);
    }
    assert forall j :: 0 <= j < |ctx| ==> ctx[j].Within(repr);
  }

  /** Runs one clause of a chain, which stays wired: every clause keeps its columns and its source. */
  method RunWired(server: Space, ctx: seq<MatchClause>, k: nat, ghost plans: seq<ClausePlan>, ghost repr: set<object>,
                  ghost columns: set<Column>)
    returns (ok: bool)
    requires Wired(server, ctx, plans, repr, columns) && k < |ctx|
    requires ctx[k].src.value.VisitorSource? ==> Terminates(ctx[k].src.value.visitor)
    requires ctx[k].src.value.ColumnSource? ==> ctx[k].src.value.column !in ctx[k].Store().data
    modifies ctx[k].Store().data
    ensures Wired(server, ctx, plans, repr, columns)
    ensures forall j :: 0 <= j < |ctx| && j != k ==> ctx[j].Rows() == old(ctx[j].Rows())
    ensures var es := old(if ctx[k].src.value.VisitorSource? then Emitted(ctx[k].src.value.visitor)
            else ctx[k].src.value.column.elements);
            && ok == Feed(server, plans[k], es).Ok?
            && (ok ==> ctx[k].Rows() == old(ctx[k].Rows()) + Feed(server, plans[k], es).value)
  {
    hide Feed, Emitted, Terminates, Sink.Implements, Sink.Valid, PathResult.Valid, PathResult.Rows;
    ok := RunOneOf(ctx, k, plans, repr);
    forall i, j | 0 <= i < |ctx| && 0 <= j < |ctx| && i != j ensures NothingShared(ctx[i], ctx[j], repr) {
      assert old(NothingShared(ctx[i], ctx[j], repr));
    }
    forall j | 0 <= j < |ctx| ensures Linked(ctx, plans, repr, j) {
      assert old(Linked(ctx, plans, repr, j));
    }
  }

  method FindSourceColumn(id: string, ctx: seq<MatchClause>, ghost plans: seq<ClausePlan>, ghost repr: set<object>)
    returns (c: Option<Column>)
    requires AllCarry(ctx, plans, repr)
    ensures var found := FindSource(id, plans);
            if found.None? then c.None?
            else c == Some(ctx[found.value.0].Store().data[found.value.1])
  {
    var k := 0;
    while k < |ctx|
      invariant k <= |ctx|
      invariant forall j :: 0 <= j < k ==> Cypher.IndexOf(plans[j].path.nodes, id).None?
    {
      c := ctx[k].Results(id);
      if c.Some? {
        FindSourceAt(id, plans, k);
        return;
      }
      k := k + 1;
    }
    return None;
  }

  lemma FindSourceAt(id: string, plans: seq<ClausePlan>, k: nat)
    requires k < |plans| && Cypher.IndexOf(plans[k].path.nodes, id).Some?
    requires forall j :: 0 <= j < k ==> Cypher.IndexOf(plans[j].path.nodes, id).None?
    ensures FindSource(id, plans) == Some((k, Cypher.IndexOf(plans[k].path.nodes, id).value))
  {
    assert FindSource(id, plans).Some?;
  }

  method FindStartIndex(p: Cypher.Path, ctx: seq<MatchClause>, ghost plans: seq<ClausePlan>, ghost repr: set<object>)
    returns (r: nat)
    requires AllCarry(ctx, plans, repr)
    ensures r == StartIndex(p, plans)
  {
    var idxWithIdentifier := 0;
    var idx := 0;
    while idx < |p.nodes|
      invariant idx <= |p.nodes|
      invariant StartFrom(p.nodes, plans, idx, idxWithIdentifier) == StartIndex(p, plans)
    {
      var e := p.nodes[idx];
      if e.identifier.Some? {
        var c := FindSourceColumn(e.identifier.value, ctx, plans, repr);
        if c.Some? {
          return idx;
        }
        if idxWithIdentifier == 0 {
          idxWithIdentifier := idx;
        }
      }
      idx := idx + 1;
    }
    return idxWithIdentifier;
  }

  method CreateFirstClause(m: Cypher.Match, start: nat, server: Space) returns (clause: MatchClause)
    requires Cypher.WellFormedMatch(m) && start == StartIndex(m.path, []) < |m.path.nodes|
    ensures fresh(clause) && clause.server == server && clause.Carries(PlanMatch(m, []).value)
    ensures fresh(clause.Store()) && fresh(clause.Store().data) && clause.Rows() == []
    ensures clause.src.value.VisitorSource?
  {
    clause := new MatchClause(server, m.path);
    if |m.path.nodes| == 1 && m.path.nodes[0].QueryObjectTypeAndAllSubTypes() {
      clause.CreateHierachicalVisitorSource(m.path.nodes[0].Property("NodeId").value, HIERARCHICAL_REFERENCES,
          ObjectType);
      clause.CreateDefaultSink();
    } else {
      var rootNode := OBJECTS_FOLDER;
      if m.where.Some? && m.where.value.nodes[0].identifier == Some("root")
          && m.where.value.nodes[0].Property("NodeId").Some? {
        rootNode := m.where.value.nodes[0].Property("NodeId").value;
      }
      var startNodeClass := Cypher.ParseOptionalNodeClass(m.path.nodes[start].nodeLabel);
      if startNodeClass == ObjectType {
        rootNode := OBJECT_TYPES_FOLDER;
      }
      clause.CreateHierachicalVisitorSource(rootNode, HIERARCHICAL_REFERENCES, startNodeClass);
      clause.CreatePathMatcher(start);
    }
  }

  method CreateLaterClause(m: Cypher.Match, start: nat, col: Column, server: Space, ghost plan: ClausePlan)
    returns (clause: MatchClause)
    requires Cypher.WellFormedMatch(m) && start < |m.path.nodes|
    requires plan.path == m.path && plan.sink == MatchAt(start) && plan.source.FromColumn?
    ensures fresh(clause) && clause.server == server && clause.Carries(plan)
    ensures fresh(clause.Store()) && fresh(clause.Store().data) && clause.Rows() == []
    ensures clause.src == Some(ColumnSource(col))
  {
    clause := new MatchClause(server, m.path);
    clause.CreateColumnAsSource(col);
    clause.CreatePathMatcher(start);
  }

  /** A clause for the match, or none where the engine gives up or asserts. Of the objects that
      exist it is connected to one at most: the column it draws on. */
  method CreateMatchClause(m: Cypher.Match, ctx: seq<MatchClause>, server: Space, ghost plans: seq<ClausePlan>,
          ghost repr: set<object>)
    returns (f: MatchClause?)
    requires Cypher.WellFormedMatch(m) && AllCarry(ctx, plans, repr)
    ensures f == null <==> PlanMatch(m, plans).None?
    ensures f != null ==>
      && fresh(f) && f.server == server && f.Carries(PlanMatch(m, plans).value)
      && fresh(f.Store()) && fresh(f.Store().data) && f.Rows() == []
    ensures f != null ==>
      var source := PlanMatch(m, plans).value.source;
      && (f.src.value.ColumnSource? <==> source.FromColumn?)
      && (source.FromColumn? ==>
            && source.clause < |ctx| && source.column < |ctx[source.clause].Store().data|
            && f.src.value.column == ctx[source.clause].Store().data[source.column])
  {
    ghost var plan := PlanMatch(m, plans);
    StartIndexMeaning(m.path, plans);
    var start := FindStartIndex(m.path, ctx, plans, repr);
    if |ctx| == 0 {
      f := CreateFirstClause(m, start, server);
    } else {
      var node := m.path.nodes[start];
      if node.identifier.None? {
        return null;
      }
      var col := FindSourceColumn(node.identifier.value, ctx, plans, repr);
      if col.None? {
        return null;
      }
      f := CreateLaterClause(m, start, col.value, server, plan.value);
    }
  }
}
