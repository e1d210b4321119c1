/** How a query is planned, as values: which node of a pattern the matching starts from, where the
    start elements of each clause come from, and what feeds them into the clause's sink. */
module Planning {
  import opened Wrappers
  import opened AddressSpace
  import Cypher

  datatype SourcePlan = Hierarchy(root: NodeId, wanted: NodeClass) | FromColumn(clause: nat, column: nat)

  datatype SinkPlan = Collect | MatchAt(idx: nat)

  datatype ClausePlan = ClausePlan(path: Cypher.Path, source: SourcePlan, sink: SinkPlan)

  // ---------------------------------------------------------------- choosing the start node

  /** The first clause whose pattern has the name, and the first column of that name in it. */
  function FindSource(name: string, ctx: seq<ClausePlan>): (r: Option<(nat, nat)>)
    ensures r.Some? ==> r.value.0 < |ctx| && Cypher.IndexOf(ctx[r.value.0].path.nodes, name) == Some(r.value.1)
                        && forall k :: 0 <= k < r.value.0 ==> Cypher.IndexOf(ctx[k].path.nodes, name).None?
    ensures r.None? ==> forall k :: 0 <= k < |ctx| ==> Cypher.IndexOf(ctx[k].path.nodes, name).None?
  {
    if ctx == [] then None
    else
      match Cypher.IndexOf(ctx[0].path.nodes, name)
      case Some(c) => Some((0, c))
      case None =>
        match FindSource(name, ctx[1..])
        case None => None
        case Some((k, c)) => Some((k + 1, c))
  }

  predicate Bound(n: Cypher.Node, ctx: seq<ClausePlan>) {
    n.identifier.Some? && FindSource(n.identifier.value, ctx).Some?
  }

  /** The loop of `findStartIndex` from node `i` on, `named` being its second counter. */
  function StartFrom(nodes: seq<Cypher.Node>, ctx: seq<ClausePlan>, i: nat, named: nat): nat
    requires i <= |nodes|
    decreases |nodes| - i
  {
    if i == |nodes| then named
    else if Bound(nodes[i], ctx) then i
    else StartFrom(nodes, ctx, i + 1, if nodes[i].identifier.Some? && named == 0 then i else named)
  }

  function StartIndex(p: Cypher.Path, ctx: seq<ClausePlan>): nat {
    StartFrom(p.nodes, ctx, 0, 0)
  }

  ghost predicate LeastBound(nodes: seq<Cypher.Node>, ctx: seq<ClausePlan>, i: nat) {
    i < |nodes| && Bound(nodes[i], ctx) && forall k :: 0 <= k < i ==> !Bound(nodes[k], ctx)
  }

  ghost predicate LeastPositiveNamed(nodes: seq<Cypher.Node>, i: nat) {
    0 < i < |nodes| && nodes[i].identifier.Some? && forall k :: 0 < k < i ==> nodes[k].identifier.None?
  }

  ghost predicate AnyBound(nodes: seq<Cypher.Node>, ctx: seq<ClausePlan>) {
    exists k :: 0 <= k < |nodes| && Bound(nodes[k], ctx)
  }

  lemma {:induction false} StartFromMeaning(nodes: seq<Cypher.Node>, ctx: seq<ClausePlan>, i: nat, named: nat)
    requires i <= |nodes|
    requires forall k :: 0 <= k < i ==> !Bound(nodes[k], ctx)
    requires if named == 0 then forall k :: 0 < k < i ==> nodes[k].identifier.None?
             else named < i && LeastPositiveNamed(nodes, named)
    ensures var r := StartFrom(nodes, ctx, i, named);
            if AnyBound(nodes, ctx) then LeastBound(nodes, ctx, r)
            else if r == 0 then forall k :: 0 < k < |nodes| ==> nodes[k].identifier.None?
            else LeastPositiveNamed(nodes, r)
    decreases |nodes| - i
  {
    if i < |nodes| && !Bound(nodes[i], ctx) {
      StartFromMeaning(nodes, ctx, i + 1, if nodes[i].identifier.Some? && named == 0 then i else named);
    }
  }

  /** The start index is in range. It is the least node whose name an earlier clause binds, when
      there is one; otherwise the least named node other than the first, and the first node when
      no other has a name. */
  lemma StartIndexMeaning(p: Cypher.Path, ctx: seq<ClausePlan>)
    requires |p.nodes| > 0
    ensures var r := StartIndex(p, ctx);
            && r < |p.nodes|
            && (AnyBound(p.nodes, ctx) <==> Bound(p.nodes[r], ctx))
            && if AnyBound(p.nodes, ctx) then LeastBound(p.nodes, ctx, r)
               else if r == 0 then forall k :: 0 < k < |p.nodes| ==> p.nodes[k].identifier.None?
               else LeastPositiveNamed(p.nodes, r)
  {
    StartFromMeaning(p.nodes, ctx, 0, 0);
  }

  /** With nothing bound, a named first node is the start exactly when no later node has a name: the
      counter for the first named node reads its index 0 as not set, so the first name behind it wins. */
  lemma FirstNameIsPassedOver(p: Cypher.Path, ctx: seq<ClausePlan>)
    requires |p.nodes| > 0 && p.nodes[0].identifier.Some? && !AnyBound(p.nodes, ctx)
    ensures StartIndex(p, ctx) == 0 <==> forall k :: 0 < k < |p.nodes| ==> p.nodes[k].identifier.None?
    ensures forall k :: LeastPositiveNamed(p.nodes, k) ==> StartIndex(p, ctx) == k
  {
    StartIndexMeaning(p, ctx);
  }

  // ---------------------------------------------------------------- planning a clause

  /** The root the WHERE pattern names, if it names one. */
  function WhereRoot(m: Cypher.Match): Option<NodeId>
    requires Cypher.WellFormedMatch(m)
  {
    if m.where.Some? && m.where.value.nodes[0].identifier == Some("root") then m.where.value.nodes[0].Property("NodeId")
    else None
  }

  /** The root of the first clause's visitor. A start node labelled ObjectType overrides the root
      named in the WHERE pattern. */
  function RootOf(m: Cypher.Match, start: nat): NodeId
    requires Cypher.WellFormedMatch(m) && start < |m.path.nodes|
  {
    if Cypher.ParseOptionalNodeClass(m.path.nodes[start].nodeLabel) == ObjectType then OBJECT_TYPES_FOLDER
    else if WhereRoot(m).Some? then WhereRoot(m).value
    else OBJECTS_FOLDER
  }

  predicate WellPlanned(plan: ClausePlan) {
    && Cypher.WellFormed(plan.path)
    && (plan.sink.MatchAt? ==> plan.sink.idx < |plan.path.nodes|)
    && (plan.sink.Collect? ==> |plan.path.nodes| == 1)
  }

  /** A plan fits the clauses before it: it draws on a column one of them has. */
  predicate Plannable(plan: ClausePlan, ctx: seq<ClausePlan>) {
    && WellPlanned(plan)
    && (plan.source.FromColumn? ==>
          plan.source.clause < |ctx| && plan.source.column < |ctx[plan.source.clause].path.nodes|)
  }

  /** `createMatchClause`; none when it gives no clause or its assertion fires. */
  function PlanMatch(m: Cypher.Match, ctx: seq<ClausePlan>): (r: Option<ClausePlan>)
    requires Cypher.WellFormedMatch(m)
    ensures r.Some? ==> Plannable(r.value, ctx) && (r.value.source.FromColumn? <==> ctx != [])
    ensures ctx == [] ==> r.Some?
  {
    StartIndexMeaning(m.path, ctx);
    var start := StartIndex(m.path, ctx);
    var node := m.path.nodes[start];
    if ctx == [] then
      if |m.path.nodes| == 1 && m.path.nodes[0].QueryObjectTypeAndAllSubTypes() then
        Some(ClausePlan(m.path, Hierarchy(m.path.nodes[0].Property("NodeId").value, ObjectType), Collect))
      else
        Some(ClausePlan(m.path, Hierarchy(RootOf(m, start), Cypher.ParseOptionalNodeClass(node.nodeLabel)),
            MatchAt(start)))
    else if Bound(node, ctx) then
      var found := FindSource(node.identifier.value, ctx).value;
      Some(ClausePlan(m.path, FromColumn(found.0, found.1), MatchAt(start)))
    else None
  }

  ghost predicate ValidPlans(plans: seq<ClausePlan>) {
    forall k {:trigger Plannable(plans[k], plans[..k])} :: 0 <= k < |plans| ==> Plannable(plans[k], plans[..k])
  }

  /** The root named by WHERE is the root of the first clause's visitor exactly when the clause does not
      ask for a type and its subtypes, and its start node is not labelled ObjectType; elsewhere it makes no
      difference. The visitor looks for the class the compiled start node asks for. */
  lemma FirstPlanMeaning(m: Cypher.Match, start: nat)
    requires Cypher.WellFormedMatch(m) && start == StartIndex(m.path, [])
    requires !(|m.path.nodes| == 1 && m.path.nodes[0].QueryObjectTypeAndAllSubTypes())
    ensures start < |m.path.nodes|
    ensures var plan, plain := PlanMatch(m, []).value, PlanMatch(m.(where := None), []).value;
            var wanted := Cypher.Compiled(m.path).nodes[start].nodeClass;
            && plan.sink == plain.sink == MatchAt(start) && plan.source.wanted == plain.source.wanted == wanted
            && (WhereRoot(m).None? ==> plan == plain)
            && (WhereRoot(m).Some? ==>
                  && (wanted != ObjectType ==> plan.source.root == WhereRoot(m).value)
                  && (plan == plain <==> wanted == ObjectType || WhereRoot(m).value == OBJECTS_FOLDER))
  {
    StartIndexMeaning(m.path, []);
  }

  /** Planning a later clause works exactly when its pattern uses a name an earlier clause binds;
      the first clause is always planned. The column it then reads is the first one carrying the
      name of its own start node. */
  lemma PlanMatchMeaning(m: Cypher.Match, ctx: seq<ClausePlan>)
    requires Cypher.WellFormedMatch(m)
    ensures PlanMatch(m, ctx).Some? <==> ctx == [] || AnyBound(m.path.nodes, ctx)
    ensures PlanMatch(m, ctx).Some? ==>
      var plan := PlanMatch(m, ctx).value;
      && Plannable(plan, ctx) && plan.path == m.path
      && (plan.source.FromColumn? <==> ctx != [])
      && (ctx != [] ==>
            && plan.sink.MatchAt? && m.path.nodes[plan.sink.idx].identifier.Some?
            && Cypher.HasName(ctx[plan.source.clause].path.nodes[plan.source.column],
                m.path.nodes[plan.sink.idx].identifier.value))
  {
    StartIndexMeaning(m.path, ctx);
  }
}
