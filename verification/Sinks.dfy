/** The two sinks a clause can have, and the two sources that fill them. */
module Sinks {
  import opened Sequences
  import opened AddressSpace
  import opened Matching
  import opened PathResults
  import opened PathMatchers
  import opened Visitors
  import opened Planning
  import opened Runs
  import Cypher

  /** Collects elements as one-element rows. */
  class DefaultSink {
    const results: PathResult

    constructor ()
      ensures results.Valid() && fresh(results) && fresh(results.data) && |results.data| == 1 && results.Rows() == []
    {
      results := new PathResult(1);
    }

    method Filter(element: ReferenceDescription)
      requires results.Valid() && |results.data| == 1
      modifies results.data
      ensures results.Valid() && results.Rows() == old(results.Rows()) + [[element]]
    {
      var stored := results.Emplace([element]);
      assert stored;
    }
  }

  datatype Sink = MatcherSink(matcher: PathMatcher) | CollectorSink(collector: DefaultSink) {
    function Results(): PathResult {
      match this
      case MatcherSink(m) => m.results
      case CollectorSink(c) => c.results
    }

    ghost predicate Valid()
      reads Results(), Results().data
    {
      match this
      case MatcherSink(m) => m.Valid()
      case CollectorSink(c) => c.results.Valid() && |c.results.data| == 1
    }

    /** The sink is the one the plan asks for. */
    ghost predicate Implements(s: Space, plan: ClausePlan) {
      WellPlanned(plan)
      && match this
         case MatcherSink(m) => plan.sink == MatchAt(m.idx) && m.path == Cypher.Compiled(plan.path) && m.server == s
         case CollectorSink(_) => plan.sink == Collect
    }

    method Filter(e: ReferenceDescription, ghost s: Space, ghost plan: ClausePlan) returns (ok: bool)
      requires Valid() && Implements(s, plan)
      modifies Results().data
      ensures Valid() && ok == Produced(s, plan, e).Ok?
      ensures ok ==> Results().Rows() == old(Results().Rows()) + Produced(s, plan, e).value
    {
      match this
      case MatcherSink(m) =>
        ok := m.Filter(e);
      case CollectorSink(c) =>
        c.Filter(e);
        ok := true;
    }
  }

  /** `rows` is what `before` becomes when the sink is fed `es` to the end. */
  ghost predicate FedTo(s: Space, plan: ClausePlan, before: seq<Row>, es: Row, rows: seq<Row>)
    requires WellPlanned(plan)
  {
    Feed(s, plan, es).Ok? && rows == before + Feed(s, plan, es).value
  }

  lemma FedNothing(s: Space, plan: ClausePlan, before: seq<Row>)
    requires WellPlanned(plan)
    ensures FedTo(s, plan, before, [], before)
  {
    assert before + [] == before;
  }

  lemma FedMore(s: Space, plan: ClausePlan, before: seq<Row>, done: Row, now: seq<Row>, es: Row)
    requires WellPlanned(plan) && FedTo(s, plan, before, done, now)
    ensures Feed(s, plan, done + es).Ok? <==> Feed(s, plan, es).Ok?
    ensures Feed(s, plan, es).Ok? ==> FedTo(s, plan, before, done + es, now + Feed(s, plan, es).value)
  {
    FeedConcat(s, plan, done, es);
    var fed, more := Feed(s, plan, done), Feed(s, plan, es);
    if more.Ok? {
      ConcatAssociates(before, fed.value, more.value);
    }
  }

  lemma FedThen(s: Space, plan: ClausePlan, before: seq<Row>, done: Row, now: seq<Row>, es: Row, after: seq<Row>)
    requires WellPlanned(plan) && FedTo(s, plan, before, done, now) && FedTo(s, plan, now, es, after)
    ensures FedTo(s, plan, before, done + es, after)
  {
    FedMore(s, plan, before, done, now, es);
  }

  lemma FedIsOk(s: Space, plan: ClausePlan, before: seq<Row>, done: Row, now: seq<Row>)
    requires WellPlanned(plan) && FedTo(s, plan, before, done, now)
    ensures Feed(s, plan, done).Ok?
  {
  }

  lemma FedOne(s: Space, plan: ClausePlan, e: ReferenceDescription)
    requires WellPlanned(plan)
    ensures Feed(s, plan, [e]) == Produced(s, plan, e)
  {
    if Produced(s, plan, e).Ok? {
      assert Produced(s, plan, e).value + [] == Produced(s, plan, e).value;
    }
  }

  // ---------------------------------------------------------------- the visitor as a source

  /** Emits the root and then what is below it, straight into the sink. */
  method Generate(v: Visitor, sink: Sink, ghost plan: ClausePlan) returns (ok: bool)
    requires Terminates(v) && sink.Valid() && sink.Implements(v.server, plan)
    modifies sink.Results().data
    ensures sink.Valid() && ok == Feed(v.server, plan, Emitted(v)).Ok?
    ensures ok ==> FedTo(v.server, plan, old(sink.Results().Rows()), Emitted(v), sink.Results().Rows())
  {
    ghost var before := sink.Results().Rows();
    if v.root !in v.server.nodes {
      assert before + [] == before;
      return true;
    }
    var root := ReferenceDescription(v.root, v.server.nodes[v.root].nodeClass, NullId, NullId, false);
    FedOne(v.server, plan, root);
    ok := sink.Filter(root, v.server, plan);
    ghost var below := Visit(v, v.root, |v.server.nodes|);
    assert Emitted(v) == [root] + below;
    FeedConcat(v.server, plan, [root], below);
    if ok {
      FedMore(v.server, plan, before, [root], sink.Results().Rows(), below);
      ok := VisitNode(v, v.root, sink, plan, |v.server.nodes|);
    }
  }

  method VisitNode(v: Visitor, n: NodeId, sink: Sink, ghost plan: ClausePlan, ghost d: nat) returns (ok: bool)
    requires DepthAtMost(v, n, d) && sink.Valid() && sink.Implements(v.server, plan)
    modifies sink.Results().data
    ensures sink.Valid() && ok == Feed(v.server, plan, Visit(v, n, d)).Ok?
    ensures ok ==> FedTo(v.server, plan, old(sink.Results().Rows()), Visit(v, n, d), sink.Results().Rows())
    decreases d, 1
  {
    ghost var before := sink.Results().Rows();
    assert before + [] == before;
    var br := Browse(v.server, BrowseChildren(v, n));
    if br.Bad? {
      return true;
    }
    assert br.references == Children(v, n);
    ok := VisitChildren(v, br.references, sink, plan, d);
  }

  /** One child and what is below it. */
  ghost function Under(v: Visitor, c: ReferenceDescription, d: nat): Row
    requires d > 0 && DepthAtMost(v, c.nodeId, d - 1)
  {
    (if c.nodeClass == v.wanted then [c] else []) + Visit(v, c.nodeId, d - 1)
  }

  lemma VisitNone(v: Visitor, d: nat)
    ensures VisitEach(v, [], d) == []
  {
  }

  lemma NextChild(v: Visitor, cs: Row, d: nat, i: nat, done: Row)
    requires i < |cs| && forall c :: c in cs ==> d > 0 && DepthAtMost(v, c.nodeId, d - 1)
    requires (forall c :: c in cs[i..] ==> c in cs) && VisitEach(v, cs, d) == done + VisitEach(v, cs[i..], d)
    ensures cs[i] in cs && forall c :: c in cs[i + 1..] ==> c in cs
    ensures VisitEach(v, cs, d) == done + Under(v, cs[i], d) + VisitEach(v, cs[i + 1..], d)
  {
    assert cs[i..][0] == cs[i] && cs[i..][1..] == cs[i + 1..];
    var mine, later := Under(v, cs[i], d), VisitEach(v, cs[i + 1..], d);
    assert done + (mine + later) == done + mine + later;
  }

  lemma Blocked(s: Space, plan: ClausePlan, done: Row, mine: Row, later: Row)
    requires WellPlanned(plan) && Feed(s, plan, mine).Aborted?
    ensures Feed(s, plan, done + mine + later).Aborted?
  {
    FeedConcat(s, plan, done + mine, later);
    FeedConcat(s, plan, done, mine);
  }

  method VisitChildren(v: Visitor, cs: Row, sink: Sink, ghost plan: ClausePlan, ghost d: nat) returns (ok: bool)
    requires sink.Valid() && sink.Implements(v.server, plan)
    requires forall c :: c in cs ==> d > 0 && DepthAtMost(v, c.nodeId, d - 1)
    modifies sink.Results().data
    ensures sink.Valid() && ok == Feed(v.server, plan, VisitEach(v, cs, d)).Ok?
    ensures ok ==> FedTo(v.server, plan, old(sink.Results().Rows()), VisitEach(v, cs, d), sink.Results().Rows())
    decreases d, 0
  {
    hide Feed, Produced, FedTo, VisitEach, Under, DepthAtMost, PathResult.Rows;
    ghost var before, all := sink.Results().Rows(), VisitEach(v, cs, d);
    ghost var done: Row := [];
    FedNothing(v.server, plan, before);
    VisitNone(v, d);
    assert cs[0..] == cs && cs[|cs|..] == [];
    var i := 0;
    while i < |cs|
      invariant i <= |cs| && sink.Valid()
      invariant FedTo(v.server, plan, before, done, sink.Results().Rows())
      invariant (forall c :: c in cs[i..] ==> c in cs) && all == done + VisitEach(v, cs[i..], d)
    {
      NextChild(v, cs, d, i, done);
      ghost var mine, later := Under(v, cs[i], d), VisitEach(v, cs[i + 1..], d);
      ghost var now := sink.Results().Rows();
      ok := VisitChild(v, cs[i], sink, plan, d);
      if !ok {
        Blocked(v.server, plan, done, mine, later);
        return;
      }
      FedThen(v.server, plan, before, done, now, mine, sink.Results().Rows());
      done := done + mine;
      i := i + 1;
    }
    assert done + [] == done == all;
    FedIsOk(v.server, plan, before, done, sink.Results().Rows());
    ok := true;
  }

  method VisitChild(v: Visitor, c: ReferenceDescription, sink: Sink, ghost plan: ClausePlan, ghost d: nat)
    returns (ok: bool)
    requires d > 0 && DepthAtMost(v, c.nodeId, d - 1) && sink.Valid() && sink.Implements(v.server, plan)
    modifies sink.Results().data
    ensures sink.Valid() && ok == Feed(v.server, plan, Under(v, c, d)).Ok?
    ensures ok ==> FedTo(v.server, plan, old(sink.Results().Rows()), Under(v, c, d), sink.Results().Rows())
    decreases d - 1, 2
  {
    ghost var before := sink.Results().Rows();
    assert before + [] == before;
    ghost var emitted := if c.nodeClass == v.wanted then [c] else [];
    ghost var below := Visit(v, c.nodeId, d - 1);
    FeedConcat(v.server, plan, emitted, below);
    if c.nodeClass == v.wanted {
      FedOne(v.server, plan, c);
      ok := sink.Filter(c, v.server, plan);
      if !ok {
        return;
      }
    }
    FedMore(v.server, plan, before, emitted, sink.Results().Rows(), below);
    ok := VisitNode(v, c.nodeId, sink, plan, d - 1);
  }

  // ---------------------------------------------------------------- a column as a source

  /** Replays a column into a sink that does not own it: the column stays as it is throughout. */
  method GenerateColumn(col: Column, sink: Sink, ghost s: Space, ghost plan: ClausePlan) returns (ok: bool)
    requires sink.Valid() && sink.Implements(s, plan) && col !in sink.Results().data
    modifies sink.Results().data
    ensures sink.Valid() && col.elements == old(col.elements) && ok == Feed(s, plan, col.elements).Ok?
    ensures ok ==> FedTo(s, plan, old(sink.Results().Rows()), col.elements, sink.Results().Rows())
  {
    hide Feed, Produced;
    ghost var before, es := sink.Results().Rows(), col.elements;
    FedNothing(s, plan, before);
    var i := 0;
    while i < |col.elements|
      invariant i <= |col.elements| && sink.Valid() && col.elements == es
      invariant FedTo(s, plan, before, es[..i], sink.Results().Rows())
    {
      FedNext(s, plan, before, es, i, sink.Results().Rows());
      ok := sink.Filter(col.elements[i], s, plan);
      if !ok {
        return;
      }
      i := i + 1;
    }
    assert es[..i] == es;
    ok := true;
  }

  lemma FedNext(s: Space, plan: ClausePlan, before: seq<Row>, es: Row, i: nat, now: seq<Row>)
    requires WellPlanned(plan) && i < |es| && FedTo(s, plan, before, es[..i], now)
    ensures Produced(s, plan, es[i]).Ok? ==> FedTo(s, plan, before, es[..i + 1], now + Produced(s, plan, es[i]).value)
    ensures Produced(s, plan, es[i]).Aborted? ==> Feed(s, plan, es).Aborted?
  {
    hide Feed, Produced;
    var done, x, later := es[..i], es[i], es[i + 1..];
    assert es[..i + 1] == done + [x];
    assert es == (done + [x]) + later;
    FedOne(s, plan, x);
    FedMore(s, plan, before, done, now, [x]);
    FeedConcat(s, plan, done + [x], later);
  }
}
