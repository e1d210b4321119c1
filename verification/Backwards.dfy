/** Asking the same question from its other end: a query whose pattern is written backwards. */
module Backwards {
  import opened Wrappers
  import opened AddressSpace
  import opened Pattern
  import opened Matching
  import opened Meaning
  import opened Mirrors
  import V = Visitors
  import opened Planning
  import opened Runs
  import opened Answers
  import opened ExampleSpaces
  import opened Intentions
  import opened Roots
  import Cypher

  /** The pattern names one node and no other. */
  ghost predicate NamesOnly(p: Cypher.Path, k: nat) {
    && k < |p.nodes| && p.nodes[k].identifier.Some?
    && forall i :: 0 <= i < |p.nodes| && i != k ==> p.nodes[i].identifier.None?
  }

  function FromOtherEnd(m: Cypher.Match): Cypher.Match {
    Cypher.Match(Cypher.Backwards(m.path), m.where)
  }

  lemma OnlyNameStarts(p: Cypher.Path, ctx: seq<ClausePlan>, k: nat)
    requires NamesOnly(p, k)
    ensures StartIndex(p, ctx) == k
  {
    StartIndexMeaning(p, ctx);
  }

  lemma BackwardsNames(p: Cypher.Path, k: nat)
    requires Cypher.WellFormed(p) && NamesOnly(p, k)
    ensures var q := Cypher.Backwards(p);
            Cypher.WellFormed(q) && |q.nodes| == |p.nodes| && NamesOnly(q, |p.nodes| - 1 - k)
            && q.nodes[|p.nodes| - 1 - k] == p.nodes[k]
  {
  }

  /** The engine plans both ways of writing the query alike: from the one named node, with the same
      source of start elements, in the first clause and in later ones. */
  lemma BackwardsPlan(m: Cypher.Match, ctx: seq<ClausePlan>, k: nat)
    requires Cypher.WellFormedMatch(m) && NamesOnly(m.path, k)
    ensures Cypher.WellFormedMatch(FromOtherEnd(m))
    ensures var one, two := PlanMatch(m, ctx), PlanMatch(FromOtherEnd(m), ctx);
            && (one.Some? <==> two.Some?)
            && (one.Some? ==>
                  && one.value.source == two.value.source
                  && two.value.path == Cypher.Backwards(one.value.path)
                  && (one.value.sink.Collect? <==> two.value.sink.Collect?)
                  && (one.value.sink.MatchAt? ==>
                        one.value.sink.idx == k && two.value.sink.idx == |m.path.nodes| - 1 - k))
  {
    hide StartIndex, FindSource;
    BackwardsNames(m.path, k);
    OnlyNameStarts(m.path, ctx, k);
    OnlyNameStarts(Cypher.Backwards(m.path), ctx, |m.path.nodes| - 1 - k);
  }

  predicate PivotsMatch(rows: seq<Row>, idx: nat, n: Node) {
    forall row :: row in rows ==> idx < |row| && Matches(row[idx], n)
  }

  /** Two plans that match mirrored patterns from mirrored pivots, neither losing anything. */
  ghost predicate Mirrored(one: ClausePlan, two: ClausePlan, k: nat) {
    && WellPlanned(one) && WellPlanned(two)
    && one.sink == MatchAt(k) && two.sink == MatchAt(|one.path.nodes| - 1 - k)
    && PatternOf(two) == Mirror(PatternOf(one))
    && SupportedAround(PatternOf(one), k) && IdsSymmetric(PatternOf(one), k)
    && |PatternOf(two).nodes| == |one.path.nodes|
    && SupportedAround(PatternOf(two), |one.path.nodes| - 1 - k)
        && IdsSymmetric(PatternOf(two), |one.path.nodes| - 1 - k)
  }

  /** The pivot has nodes on both sides, or is the only node. */
  predicate Inside(k: nat, n: nat) {
    0 < k < n - 1 || n == 1
  }

  lemma ProducedIsCheckPath(s: Space, plan: ClausePlan, k: nat, e: ReferenceDescription)
    requires WellPlanned(plan) && plan.sink == MatchAt(k)
    ensures k < |PatternOf(plan).nodes| && Produced(s, plan, e) == CheckPath(s, PatternOf(plan), k, e)
  {
    hide CheckPath;
  }

  lemma PivotsMirrored(p: Path, k: nat, e: ReferenceDescription)
    requires k < |p.nodes| && (Inside(k, |p.nodes|) || Matches(e, p.nodes[k]))
    ensures |Mirror(p).nodes| == |p.nodes|
    ensures PivotOk(e, p, k) <==> PivotOk(e, Mirror(p), |p.nodes| - 1 - k)
  {
    hide Matches;
    assert Mirror(p).nodes[|p.nodes| - 1 - k] == p.nodes[k];
  }

  lemma MirroredKnows(one: ClausePlan, two: ClausePlan, k: nat)
    requires Mirrored(one, two, k)
    ensures WellPlanned(one) && WellPlanned(two) && k < |one.path.nodes| == |two.path.nodes|
    ensures one.sink == MatchAt(k) && two.sink == MatchAt(|one.path.nodes| - 1 - k)
    ensures |PatternOf(one).nodes| == |one.path.nodes| && WellFormed(PatternOf(one))
    ensures PatternOf(two) == Mirror(PatternOf(one)) && WellFormed(PatternOf(two))
    ensures |PatternOf(two).nodes| == |one.path.nodes|
    ensures SupportedAround(PatternOf(one), k) && IdsSymmetric(PatternOf(one), k)
    ensures SupportedAround(PatternOf(two), |one.path.nodes| - 1 - k)
    ensures IdsSymmetric(PatternOf(two), |one.path.nodes| - 1 - k)
  {
    hide SupportedAround, IdsSymmetric, Mirror;
  }

  lemma ProducedMirrored(s: Space, one: ClausePlan, two: ClausePlan, k: nat, e: ReferenceDescription)
    requires Mirrored(one, two, k)
    requires Inside(k, |one.path.nodes|) || Matches(e, PatternOf(one).nodes[k])
    ensures var a, b := Produced(s, one, e), Produced(s, two, e);
            a.Ok? && b.Ok? && multiset(MirrorRows(a.value, k)) == multiset(b.value)
  {
    hide *;
    MirroredKnows(one, two, k);
    ProducedIsCheckPath(s, one, k, e);
    ProducedIsCheckPath(s, two, |one.path.nodes| - 1 - k, e);
    PivotsMirrored(PatternOf(one), k, e);
    MirrorFindsTheSame(s, PatternOf(one), k, e);
  }

  lemma NotItsPivot(s: Space, plan: ClausePlan, k: nat, e: ReferenceDescription, n: Node)
    requires WellPlanned(plan) && plan.sink == MatchAt(k) && Produced(s, plan, e).Ok?
    requires PivotsMatch(Produced(s, plan, e).value, k, n)
    ensures Produced(s, plan, e).value == [] || Matches(e, n)
  {
    hide Matches, CheckPath;
    var rows := Produced(s, plan, e).value;
    if rows != [] {
      assert rows[0] in rows && rows[0][k] == e;
    }
  }

  lemma BagsAppended(a: seq<Row>, more: seq<Row>, b: seq<Row>, rest: seq<Row>, k: nat)
    requires (forall row :: row in a ==> k < |row|) && (forall row :: row in more ==> k < |row|)
    requires multiset(MirrorRows(a, k)) == multiset(b) && multiset(MirrorRows(more, k)) == multiset(rest)
    ensures forall row :: row in a + more ==> k < |row|
    ensures multiset(MirrorRows(a + more, k)) == multiset(b + rest)
  {
    MirrorRowsConcat(a, more, k);
  }

  lemma PivotsMatchBoth(a: seq<Row>, b: seq<Row>, k: nat, n: Node)
    requires PivotsMatch(a + b, k, n)
    ensures PivotsMatch(a, k, n) && PivotsMatch(b, k, n)
  {
    hide Matches;
    assert (forall row :: row in a ==> row in a + b) && (forall row :: row in b ==> row in a + b);
  }

  /** The pivot columns of both ways hold only what the pattern asks for, if that is needed. */
  ghost predicate Agreeable(a: seq<Row>, b: seq<Row>, k: nat, w: nat, n: Node)
    requires k < w
  {
    Inside(k, w) || (PivotsMatch(a, k, n) && PivotsMatch(b, w - 1 - k, n))
  }

  lemma AgreeableBoth(a: seq<Row>, more: seq<Row>, b: seq<Row>, rest: seq<Row>, k: nat, w: nat, n: Node)
    requires k < w && Agreeable(a + more, b + rest, k, w, n)
    ensures Agreeable(a, b, k, w, n) && Agreeable(more, rest, k, w, n)
  {
    hide PivotsMatch;
    if !Inside(k, w) {
      PivotsMatchBoth(a, more, k, n);
      PivotsMatchBoth(b, rest, w - 1 - k, n);
    }
  }

  lemma ProducedAgreeable(s: Space, one: ClausePlan, two: ClausePlan, k: nat, e: ReferenceDescription, n: Node)
    requires Mirrored(one, two, k) && n == PatternOf(one).nodes[k] && Produced(s, one, e).Ok? && Produced(s, two, e).Ok?
    requires Agreeable(Produced(s, one, e).value, Produced(s, two, e).value, k, |one.path.nodes|, n)
    ensures multiset(MirrorRows(Produced(s, one, e).value, k)) == multiset(Produced(s, two, e).value)
  {
    hide Produced, Matches, SupportedAround, IdsSymmetric, MirrorRows, PivotsMatch, PatternOf;
    if Inside(k, |one.path.nodes|) || Matches(e, n) {
      ProducedMirrored(s, one, two, k, e);
    } else {
      NotItsPivot(s, one, k, e, n);
      NotItsPivot(s, two, |one.path.nodes| - 1 - k, e, n);
      NoMirrorRows(k);
    }
  }

  lemma FeedRest(s: Space, plan: ClausePlan, k: nat, es: Row)
    requires WellPlanned(plan) && plan.sink == MatchAt(k) && SupportedAround(PatternOf(plan), k)
    ensures Feed(s, plan, es).Ok?
    ensures es == [] ==> Feed(s, plan, es).value == []
    ensures es != [] ==>
      && Produced(s, plan, es[0]).Ok? && Feed(s, plan, es[1..]).Ok?
      && Feed(s, plan, es).value == Produced(s, plan, es[0]).value + Feed(s, plan, es[1..]).value
  {
    hide Feed, Produced, SupportedAround, Cypher.Compiled, WellPlanned;
    FeedEnds(s, plan, es);
    if es == [] {
      EmptyFeed(s, plan);
    } else {
      assert es == [es[0]] + es[1..];
      FeedEnds(s, plan, es[1..]);
      FeedUnfold(s, plan, es, es[0], es[1..]);
    }
  }

  lemma EmptyFeed(s: Space, plan: ClausePlan)
    requires WellPlanned(plan)
    ensures Feed(s, plan, []) == Ok([])
  {
  }

  lemma FeedsRest(s: Space, one: ClausePlan, two: ClausePlan, k: nat, es: Row)
    requires Mirrored(one, two, k)
    ensures Feed(s, one, es).Ok? && Feed(s, two, es).Ok?
    ensures es == [] ==> Feed(s, one, es).value == Feed(s, two, es).value == []
    ensures es != [] ==>
      && Produced(s, one, es[0]).Ok? && Feed(s, one, es[1..]).Ok?
      && Produced(s, two, es[0]).Ok? && Feed(s, two, es[1..]).Ok?
      && Feed(s, one, es).value == Produced(s, one, es[0]).value + Feed(s, one, es[1..]).value
      && Feed(s, two, es).value == Produced(s, two, es[0]).value + Feed(s, two, es[1..]).value
  {
    hide *;
    MirroredKnows(one, two, k);
    FeedRest(s, one, k, es);
    FeedRest(s, two, |one.path.nodes| - 1 - k, es);
  }

  lemma {:induction false} FeedMirrored(s: Space, one: ClausePlan, two: ClausePlan, k: nat, es: Row, n: Node)
    requires Mirrored(one, two, k) && n == PatternOf(one).nodes[k] && Feed(s, one, es).Ok? && Feed(s, two, es).Ok?
    requires Agreeable(Feed(s, one, es).value, Feed(s, two, es).value, k, |one.path.nodes|, n)
    ensures multiset(MirrorRows(Feed(s, one, es).value, k)) == multiset(Feed(s, two, es).value)
    decreases |es|
  {
    MirroredKnows(one, two, k);
    hide *;
    FeedsRest(s, one, two, k, es);
    if es == [] {
      NoMirrorRows(k);
    } else {
      var a, more := Produced(s, one, es[0]).value, Feed(s, one, es[1..]).value;
      var b, rest := Produced(s, two, es[0]).value, Feed(s, two, es[1..]).value;
      AgreeableBoth(a, more, b, rest, k, |one.path.nodes|, n);
      FeedMirrored(s, one, two, k, es[1..], n);
      ProducedAgreeable(s, one, two, k, es[0], n);
      BagsAppended(a, more, b, rest, k);
    }
  }

  lemma MirrorRowAt(a: seq<Row>, k: nat, w: nat, i: nat)
    requires k < w && (forall row :: row in a ==> |row| == w) && i < |a|
    ensures |MirrorRows(a, k)| == |a|
    ensures |MirrorRows(a, k)[i]| == |a[i]| == w && MirrorRows(a, k)[i][w - 1 - k] == a[i][k]
  {
    assert a[i] in a;
  }

  lemma PivotsMatchMirrored(a: seq<Row>, k: nat, w: nat, n: Node)
    requires k < w && forall row :: row in a ==> |row| == w
    ensures PivotsMatch(a, k, n) <==> PivotsMatch(MirrorRows(a, k), w - 1 - k, n)
  {
    var c := MirrorRows(a, k);
    hide MirrorRows, Matches;
    forall i | 0 <= i < |a| ensures |c| == |a| && |c[i]| == |a[i]| == w && c[i][w - 1 - k] == a[i][k] {
      MirrorRowAt(a, k, w, i);
    }
    assert |c| == |a| by { if a != [] { MirrorRowAt(a, k, w, 0); } else { NoMirrorRows(k); } }
    if PivotsMatch(a, k, n) {
      forall row | row in c ensures w - 1 - k < |row| && Matches(row[w - 1 - k], n) {
        var i :| 0 <= i < |c| && c[i] == row;
        assert a[i] in a;
      }
    }
    if PivotsMatch(c, w - 1 - k, n) {
      forall row | row in a ensures k < |row| && Matches(row[k], n) {
        var i :| 0 <= i < |a| && a[i] == row;
        assert c[i] in c;
      }
    }
  }

  lemma PivotsMatchAsBags(a: seq<Row>, b: seq<Row>, k: nat, n: Node)
    requires multiset(a) == multiset(b)
    ensures PivotsMatch(a, k, n) <==> PivotsMatch(b, k, n)
  {
    hide Matches;
    forall row ensures row in a <==> row in b {
      assert row in a <==> row in multiset(a);
      assert row in b <==> row in multiset(b);
    }
  }

  /** What two bags of mirrored rows have in their pivot columns is the same. */
  lemma SamePivots(a: seq<Row>, b: seq<Row>, k: nat, w: nat, n: Node)
    requires k < w && forall row :: row in a ==> |row| == w
    requires multiset(MirrorRows(a, k)) == multiset(b)
    ensures PivotsMatch(a, k, n) <==> PivotsMatch(b, w - 1 - k, n)
  {
    PivotsMatchMirrored(a, k, w, n);
    PivotsMatchAsBags(MirrorRows(a, k), b, w - 1 - k, n);
  }

  lemma LastPivotMatches(s: Space, plan: ClausePlan, es: Row)
    requires WellPlanned(plan) && plan.sink == MatchAt(|plan.path.nodes| - 1) && Feed(s, plan, es).Ok?
    ensures PivotsMatch(Feed(s, plan, es).value, |plan.path.nodes| - 1, PatternOf(plan).nodes[|plan.path.nodes| - 1])
  {
    var rows, idx := Feed(s, plan, es).value, |plan.path.nodes| - 1;
    hide Feed, Matches, Fits, Enforced, EngineOrder, SupportedAround;
    forall row | row in rows ensures idx < |row| && Matches(row[idx], PatternOf(plan).nodes[idx]) {
      var e := FeedSound(s, plan, es, row);
    }
  }

  lemma EitherPivotMatches(s: Space, one: ClausePlan, two: ClausePlan, k: nat, es: Row, n: Node)
    requires Mirrored(one, two, k) && n == PatternOf(one).nodes[k] && !Inside(k, |one.path.nodes|)
    requires Feed(s, one, es).Ok? && Feed(s, two, es).Ok?
    ensures PivotsMatch(Feed(s, one, es).value, k, n)
            || PivotsMatch(Feed(s, two, es).value, |one.path.nodes| - 1 - k, n)
  {
    MirroredKnows(one, two, k);
    hide Feed, Matches, SupportedAround, IdsSymmetric, PivotsMatch, Mirrored, WellPlanned, Cypher.Compiled;
    if k == 0 {
      assert PatternOf(two).nodes[|one.path.nodes| - 1] == n;
      LastPivotMatches(s, two, es);
    } else {
      LastPivotMatches(s, one, es);
    }
  }

  lemma SameBagsAgree(a: seq<Row>, b: seq<Row>, k: nat, w: nat, n: Node)
    requires k < w && forall row :: row in a ==> |row| == w
    requires multiset(MirrorRows(a, k)) == multiset(b)
    requires Inside(k, w) || PivotsMatch(a, k, n) || PivotsMatch(b, w - 1 - k, n)
    ensures Agreeable(a, b, k, w, n)
  {
    SamePivots(a, b, k, w, n);
  }

  ghost predicate AllMatch(es: Row, n: Node) {
    forall e :: e in es ==> Matches(e, n)
  }

  lemma MatchingSource(s: Space, plan: ClausePlan, k: nat, es: Row, n: Node)
    requires WellPlanned(plan) && plan.sink == MatchAt(k) && Feed(s, plan, es).Ok? && AllMatch(es, n)
    ensures PivotsMatch(Feed(s, plan, es).value, k, n)
  {
    hide Feed, Matches, Answer, SupportedAround;
    var rows := Feed(s, plan, es).value;
    forall row | row in rows ensures k < |row| && Matches(row[k], n) {
      var e := FeedSound(s, plan, es, row);
    }
  }

  lemma SourceAgrees(s: Space, one: ClausePlan, two: ClausePlan, k: nat, es: Row, n: Node)
    requires WellPlanned(one) && WellPlanned(two) && k < |one.path.nodes|
    requires one.sink == MatchAt(k) && two.sink == MatchAt(|one.path.nodes| - 1 - k)
    requires Feed(s, one, es).Ok? && Feed(s, two, es).Ok? && (Inside(k, |one.path.nodes|) || AllMatch(es, n))
    ensures Agreeable(Feed(s, one, es).value, Feed(s, two, es).value, k, |one.path.nodes|, n)
  {
    hide Feed, PivotsMatch, AllMatch, WellPlanned;
    if AllMatch(es, n) {
      MatchingSource(s, one, k, es, n);
      MatchingSource(s, two, |one.path.nodes| - 1 - k, es, n);
    }
  }

  /** The same elements fed into a clause and into the one written from the other end give the same bag
      of rows, up to the order of the columns, exactly when the named node is inside the pattern or every
      row either way has a node there that meets what the pattern asks of it, as it does when all the
      elements do. */
  lemma BackwardsFeed(s: Space, one: ClausePlan, two: ClausePlan, k: nat, es: Row)
    requires Mirrored(one, two, k)
    ensures Feed(s, one, es).Ok? && Feed(s, two, es).Ok?
    ensures var n, a, b := PatternOf(one).nodes[k], Feed(s, one, es).value, Feed(s, two, es).value;
            && (multiset(MirrorRows(a, k)) == multiset(b) <==> Agreeable(a, b, k, |one.path.nodes|, n))
            && (Inside(k, |one.path.nodes|) || AllMatch(es, n) ==> Agreeable(a, b, k, |one.path.nodes|, n))
  {
    hide *;
    MirroredKnows(one, two, k);
    FeedsRest(s, one, two, k, es);
    var n, a, b := PatternOf(one).nodes[k], Feed(s, one, es).value, Feed(s, two, es).value;
    if Inside(k, |one.path.nodes|) || AllMatch(es, n) {
      SourceAgrees(s, one, two, k, es, n);
    }
    if Agreeable(a, b, k, |one.path.nodes|, n) {
      FeedMirrored(s, one, two, k, es, n);
    } else if multiset(MirrorRows(a, k)) == multiset(b) {
      if !Inside(k, |one.path.nodes|) {
        EitherPivotMatches(s, one, two, k, es, n);
      }
      SameBagsAgree(a, b, k, |one.path.nodes|, n);
    }
  }

  lemma BackwardsPlansMirrored(m: Cypher.Match, k: nat)
    requires Cypher.WellFormedMatch(m) && NamesOnly(m.path, k) && PlanMatch(m, []).value.sink.MatchAt?
    requires var p, n := Cypher.Compiled(m.path), |m.path.nodes|;
             && SupportedAround(p, k) && IdsSymmetric(p, k)
             && WellFormed(Mirror(p)) && |Mirror(p).nodes| == n
             && SupportedAround(Mirror(p), n - 1 - k) && IdsSymmetric(Mirror(p), n - 1 - k)
    ensures Cypher.WellFormedMatch(FromOtherEnd(m))
    ensures var one, two := PlanMatch(m, []).value, PlanMatch(FromOtherEnd(m), []).value;
            Mirrored(one, two, k) && one.path == m.path && PatternOf(one) == Cypher.Compiled(m.path)
  {
    hide SupportedAround, IdsSymmetric, Mirror, PlanMatch, StartIndex;
    BackwardsPlan(m, [], k);
    Cypher.BackwardsIsMirror(m.path);
    PlanMatchMeaning(m, []);
    PlanMatchMeaning(FromOtherEnd(m), []);
  }

  lemma BothRun(s: Space, m: Cypher.Match, k: nat)
    requires Cypher.WellFormedMatch(m) && NamesOnly(m.path, k)
    requires V.Terminates(VisitorOf(s, PlanMatch(m, []).value.source))
    ensures Cypher.WellFormedMatch(FromOtherEnd(m))
    ensures var one, two := PlanMatch(m, []).value, PlanMatch(FromOtherEnd(m), []).value;
            && one.source == two.source && one.source.Hierarchy?
            && ValidState(s, [one], [[]]) && ValidState(s, [two], [[]])
            && var es := V.Emitted(VisitorOf(s, one.source));
            && RunFrom(s, [one], [[]], 0) == (if Feed(s, one, es).Ok? then Ok([Feed(s, one, es).value]) else Aborted)
            && RunFrom(s, [two], [[]], 0) == (if Feed(s, two, es).Ok? then Ok([Feed(s, two, es).value]) else Aborted)
  {
    hide Feed, RunFrom, ValidState, V.Terminates, V.Emitted, StartIndex;
    BackwardsPlan(m, [], k);
    FirstRun(s, PlanMatch(m, []).value);
    FirstRun(s, PlanMatch(FromOtherEnd(m), []).value);
  }

  /** A one-clause query with one named node and the same query written from its other end, after their
      first runs. Where neither pattern is outside the supported fragment or loses an id, both plans draw on
      the same source, neither run aborts, and the rows are the same bag up to the order of the columns
      exactly when the named node is inside the pattern or every row meets it. */
  lemma BackwardsFindsTheSame(s: Space, m: Cypher.Match, k: nat)
    requires Cypher.WellFormedMatch(m) && NamesOnly(m.path, k) && PlanMatch(m, []).value.sink.MatchAt?
    requires V.Terminates(VisitorOf(s, PlanMatch(m, []).value.source))
    requires var p, n := Cypher.Compiled(m.path), |m.path.nodes|;
             && SupportedAround(p, k) && IdsSymmetric(p, k)
             && WellFormed(Mirror(p)) && |Mirror(p).nodes| == n
             && SupportedAround(Mirror(p), n - 1 - k) && IdsSymmetric(Mirror(p), n - 1 - k)
    ensures Cypher.WellFormedMatch(FromOtherEnd(m))
    ensures var one, two, n := PlanMatch(m, []).value, PlanMatch(FromOtherEnd(m), []).value, |m.path.nodes|;
            && one.source == two.source && ValidState(s, [one], [[]]) && ValidState(s, [two], [[]])
            && var a, b := RunFrom(s, [one], [[]], 0), RunFrom(s, [two], [[]], 0);
            && a.Ok? && b.Ok?
            && (forall row :: row in a.value[0] ==> k < |row|)
            && var pivot := Cypher.Compiled(m.path).nodes[k];
            && (multiset(MirrorRows(a.value[0], k)) == multiset(b.value[0]) <==>
                Agreeable(a.value[0], b.value[0], k, n, pivot))
            && (Inside(k, n) || AllMatch(V.Emitted(VisitorOf(s, one.source)), pivot) ==>
                  Agreeable(a.value[0], b.value[0], k, n, pivot))
  {
    BackwardsPlansMirrored(m, k);
    BothRun(s, m, k);
    hide *;
    var one, two := PlanMatch(m, []).value, PlanMatch(FromOtherEnd(m), []).value;
    BackwardsFeed(s, one, two, k, V.Emitted(VisitorOf(s, one.source)));
  }

  // ---------------------------------------------------------------- exactly which patterns, exactly which queries

  /** Neither way of writing the pattern is outside the supported fragment or loses an id. */
  predicate BothWaysSupported(p: Path, k: nat)
    requires WellFormed(p) && k < |p.nodes|
  {
    var q, j := Mirror(p), |p.nodes| - 1 - k;
    SupportedAround(p, k) && IdsSymmetric(p, k) && SupportedAround(q, j) && IdsSymmetric(q, j)
  }

  /** No two nodes that ask for one id differ in class, no constraint is to a null id, and the pattern is light. */
  predicate Satisfiable(p: Path) {
    && NoNullIds(p) && OneClassPerId(p) && Light(p)
    && forall j :: 0 <= j < |p.nodes| ==> p.nodes[j].typeDefinitionId != Some(NullId)
  }

  lemma MirrorSatisfiable(p: Path, k: nat, id: Option<NodeId>)
    requires WellFormed(p) && k < |p.nodes| && Satisfiable(p) && OnlyPivotAsks(p, k, id)
    ensures WellFormed(Mirror(p)) && |Mirror(p).nodes| == |p.nodes| && Satisfiable(Mirror(p))
    ensures OnlyPivotAsks(Mirror(p), |p.nodes| - 1 - k, id) && Mirror(p).nodes[|p.nodes| - 1 - k] == p.nodes[k]
    ensures AsksForHierarchy(Mirror(p)) ==> AsksForHierarchy(p)
  {
    var q, n := Mirror(p), |p.nodes|;
    assert forall j :: 0 <= j < n ==> q.nodes[j] == p.nodes[n - 1 - j];
    if AsksForHierarchy(q) {
      var i :| 0 <= i < |q.relations| && q.relations[i].referenceType == HIERARCHICAL_REFERENCES;
      assert p.relations[n - 2 - i].referenceType == HIERARCHICAL_REFERENCES;
    }
  }

  /** The two ways of matching give the same bag of rows for the element, up to the order of the columns. */
  ghost predicate SameBag(s: Space, p: Path, k: nat, e: ReferenceDescription)
    requires WellFormed(p) && k < |p.nodes|
  {
    var one, two := CheckPath(s, p, k, e), CheckPath(s, Mirror(p), |p.nodes| - 1 - k, e);
    one.Ok? && two.Ok? && multiset(MirrorRows(one.value, k)) == multiset(two.value)
  }

  ghost predicate AlwaysSameBag(p: Path, k: nat)
    requires WellFormed(p) && k < |p.nodes|
  {
    forall s, e: ReferenceDescription {:trigger SameBag(s, p, k, e)} ::
      Valid(s) && Uncapped(s) && e.nodeId in s.nodes && Describes(s, e) ==> SameBag(s, p, k, e)
  }

  lemma UnmatchedLast(s: Space, p: Path, e: ReferenceDescription)
    requires WellFormed(p) && SupportedAround(p, |p.nodes| - 1)
    ensures CheckPath(s, p, |p.nodes| - 1, e) == Ok([]) || Matches(e, p.nodes[|p.nodes| - 1])
  {
    var idx := |p.nodes| - 1;
    CheckPathIsCross(s, p, idx, e);
    hide CheckPath, SupportedAround, Matches;
    var rows := CheckPath(s, p, idx, e).value;
    if rows != [] {
      assert rows[0] in rows;
      CheckPathSound(s, p, idx, e, rows[0]);
    }
  }

  /** A start that is a pivot one way only, and has rows that way; it may have any id the others do not ask
      for. `one` tells which way. */
  lemma OneWayOnly(p: Path, k: nat, id: Option<NodeId>) returns (s: Space, e: ReferenceDescription)
    requires WellFormed(p) && k < |p.nodes| && Satisfiable(p) && BothWaysSupported(p, k) && OnlyPivotAsks(p, k, id)
    requires !Inside(k, |p.nodes|) && !AsksAtMostFor(p.nodes[k], id)
    ensures Valid(s) && Uncapped(s) && e.nodeId in s.nodes && e == Element(s, e.nodeId)
    ensures id.Some? ==> e.nodeId == id.value
    ensures e.typeDefinition == NullId && (!AsksForHierarchy(p) ==> Flat(s))
    ensures !SameBag(s, p, k, e)
  {
    hide CheckPath, SupportedAround, IdsSymmetric, Matches, Flat, Valid, Uncapped, MirrorRows, Mirror, Satisfiable,
         OnlyPivotAsks, AsksForHierarchy, Info;
    MirrorSatisfiable(p, k, id);
    KnownSatisfiable(p, k);
    KnownSatisfiable(Mirror(p), |p.nodes| - 1 - k);
    var row;
    if k == 0 {
      s, e, row := PivotIgnored(p, 0, id);
      DescribedMatches(s, e, p.nodes[k]);
      UnmatchedLast(s, Mirror(p), e);
    } else {
      s, e, row := PivotIgnored(Mirror(p), 0, id);
      DescribedMatches(s, e, p.nodes[k]);
      UnmatchedLast(s, p, e);
      NoMirrorRows(k);
    }
    SomeRowsOneWay(s, p, k, e);
  }

  lemma KnownSatisfiable(p: Path, k: nat)
    requires k < |p.nodes| && Satisfiable(p)
    ensures NoNullIds(p) && OneClassPerId(p) && Light(p) && p.nodes[k].typeDefinitionId != Some(NullId)
  {
  }

  lemma DescribedMatches(s: Space, e: ReferenceDescription, n: Node)
    requires Describes(s, e)
    ensures Matches(e, n) <==> NodeOk(s, n, e.nodeId)
  {
  }

  lemma SomeRowsOneWay(s: Space, p: Path, k: nat, e: ReferenceDescription)
    requires WellFormed(p) && k < |p.nodes|
    requires var one, two := CheckPath(s, p, k, e), CheckPath(s, Mirror(p), |p.nodes| - 1 - k, e);
             one.Ok? && two.Ok? && (one.value == [] <==> two.value != [])
    ensures !SameBag(s, p, k, e)
  {
    hide CheckPath;
    var one, two := CheckPath(s, p, k, e).value, CheckPath(s, Mirror(p), |p.nodes| - 1 - k, e).value;
    assert |MirrorRows(one, k)| == |one|;
    assert |multiset(MirrorRows(one, k))| == |one| && |multiset(two)| == |two|;
  }

  lemma SamePivotSameBag(s: Space, p: Path, k: nat, e: ReferenceDescription)
    requires WellFormed(p) && k < |p.nodes| && BothWaysSupported(p, k)
    requires WellFormed(Mirror(p)) && |Mirror(p).nodes| == |p.nodes|
    requires Inside(k, |p.nodes|) || Matches(e, p.nodes[k])
    ensures SameBag(s, p, k, e)
  {
    hide CheckPath, SupportedAround, IdsSymmetric, Matches, Mirror, MirrorRows;
    PivotsMirrored(p, k, e);
    MirrorFindsTheSame(s, p, k, e);
  }

  /** Both ways give the same bag of rows, in all spaces and from every described node, exactly when the
      named node is inside the pattern or the pattern asks nothing of it. */
  lemma AlwaysSameBagIff(p: Path, k: nat)
    requires WellFormed(p) && k < |p.nodes| && Satisfiable(p) && BothWaysSupported(p, k)
    ensures AlwaysSameBag(p, k) <==> Inside(k, |p.nodes|) || p.nodes[k] == ANY_NODE
  {
    MirrorSatisfiable(p, k, None);
    hide SameBag, Satisfiable, BothWaysSupported, Valid, Uncapped, Describes, Mirror;
    if Inside(k, |p.nodes|) || p.nodes[k] == ANY_NODE {
      forall s, e: ReferenceDescription | Valid(s) && Uncapped(s) ensures SameBag(s, p, k, e) {
        SamePivotSameBag(s, p, k, e);
      }
    } else {
      var s, e := OneWayOnly(p, k, None);
      assert Describes(s, e) by { ElementDescribes(s, e.nodeId); }
    }
  }

  lemma ElementDescribes(s: Space, n: NodeId)
    ensures Describes(s, Element(s, n))
  {
  }

  /** The first runs of a query and of the query written from its other end leave the same bag of rows. */
  ghost predicate SameRuns(s: Space, one: ClausePlan, two: ClausePlan, k: nat) {
    && ValidState(s, [one], [[]]) && ValidState(s, [two], [[]])
    && var a, b := RunFrom(s, [one], [[]], 0), RunFrom(s, [two], [[]], 0);
    && a.Ok? && b.Ok? && (forall row :: row in a.value[0] ==> k < |row|)
    && multiset(MirrorRows(a.value[0], k)) == multiset(b.value[0])
  }

  ghost predicate AlwaysSameRuns(one: ClausePlan, two: ClausePlan, k: nat)
    requires FirstPlan(one)
  {
    forall s {:trigger SameRuns(s, one, two, k)} :: Visitable(s, one) ==> SameRuns(s, one, two, k)
  }

  /** Either way, the pattern's one named node asks for something the source does not see to. */
  predicate AsksMore(p: Path, k: nat, root: NodeId)
    requires k < |p.nodes|
  {
    !Inside(k, |p.nodes|) && !AsksAtMostFor(p.nodes[k], Some(root))
  }

  lemma RootRunsDiffer(one: ClausePlan, two: ClausePlan, k: nat) returns (s: Space)
    requires FirstPlan(one) && Mirrored(one, two, k) && one.source == two.source
    requires var p := PatternOf(one);
             && Satisfiable(p) && BothWaysSupported(p, k) && OnlyPivotAsks(p, k, Some(one.source.root))
             && AsksMore(p, k, one.source.root)
    requires FirstPlan(two)
    ensures Visitable(s, one) && !SameRuns(s, one, two, k)
  {
    hide CheckPath, SupportedAround, IdsSymmetric, Flat, Valid, Uncapped, MirrorRows, Mirror, Satisfiable,
         OnlyPivotAsks,
         RunFrom, V.Terminates, SameBag, Cypher.Compiled, AsksForHierarchy;
    var p := PatternOf(one);
    MirroredKnows(one, two, k);
    var e;
    s, e := OneWayOnly(p, k, Some(one.source.root));
    assert e == V.RootElement(VisitorOf(s, one.source));
    FlatVisit(VisitorOf(s, one.source));
    RunsOfRoot(s, one, k);
    RunsOfRoot(s, two, |p.nodes| - 1 - k);
    RootBagsDiffer(s, one, two, k, p, e);
  }

  lemma RunsOfRoot(s: Space, plan: ClausePlan, k: nat)
    requires FirstPlan(plan) && plan.sink == MatchAt(k) && SupportedAround(PatternOf(plan), k)
    requires plan.source.root in s.nodes && Flat(s)
    ensures var r := CheckPath(s, PatternOf(plan), k, V.RootElement(VisitorOf(s, plan.source)));
            r.Ok? && ValidState(s, [plan], [[]]) && RunFrom(s, [plan], [[]], 0) == Ok([r.value])
  {
    var v := VisitorOf(s, plan.source);
    FlatVisit(v);
    FirstRun(s, plan);
    FeedEnds(s, plan, [V.RootElement(v)]);
    hide RunFrom, CheckPath, SupportedAround, V.Terminates, V.Emitted;
    assert [V.RootElement(v)][1..] == [] && Feed(s, plan, []) == Ok([]);
    var rows := CheckPath(s, PatternOf(plan), k, V.RootElement(v)).value;
    assert rows + [] == rows;
  }

  lemma RunBags(s: Space, one: ClausePlan, two: ClausePlan, k: nat, a: seq<Row>, b: seq<Row>)
    requires ValidState(s, [one], [[]]) && ValidState(s, [two], [[]])
    requires RunFrom(s, [one], [[]], 0) == Ok([a]) && RunFrom(s, [two], [[]], 0) == Ok([b])
    requires SameRuns(s, one, two, k)
    ensures (forall row :: row in a ==> k < |row|) && multiset(MirrorRows(a, k)) == multiset(b)
  {
    hide RunFrom, ValidState, MirrorRows;
    assert [a][0] == a && [b][0] == b;
  }

  lemma RootBagsDiffer(s: Space, one: ClausePlan, two: ClausePlan, k: nat, p: Path, e: ReferenceDescription)
    requires WellFormed(p) && k < |p.nodes| && WellFormed(Mirror(p)) && |Mirror(p).nodes| == |p.nodes|
    requires CheckPath(s, p, k, e).Ok? && CheckPath(s, Mirror(p), |p.nodes| - 1 - k, e).Ok?
    requires ValidState(s, [one], [[]]) && RunFrom(s, [one], [[]], 0) == Ok([CheckPath(s, p, k, e).value])
    requires ValidState(s, [two], [[]])
    requires RunFrom(s, [two], [[]], 0) == Ok([CheckPath(s, Mirror(p), |p.nodes| - 1 - k, e).value])
    requires !SameBag(s, p, k, e)
    ensures !SameRuns(s, one, two, k)
  {
    hide CheckPath, RunFrom, ValidState, MirrorRows, SameRuns, Mirror;
    if SameRuns(s, one, two, k) {
      RunBags(s, one, two, k, CheckPath(s, p, k, e).value, CheckPath(s, Mirror(p), |p.nodes| - 1 - k, e).value);
    }
  }

  lemma RootMatches(s: Space, one: ClausePlan, n: Node)
    requires FirstPlan(one) && Visitable(s, one) && n == PatternOf(one).nodes[one.sink.idx]
    requires AsksAtMostFor(n, Some(one.source.root))
    ensures AllMatch(V.Emitted(VisitorOf(s, one.source)), n)
  {
    var v := VisitorOf(s, one.source);
    if n != ANY_NODE {
      V.Unfindable(v);
      assert forall e :: e in [V.RootElement(v)] ==> e == V.RootElement(v);
    }
  }

  lemma BothPlans(m: Cypher.Match, k: nat)
    requires Cypher.WellFormedMatch(m) && NamesOnly(m.path, k) && PlanMatch(m, []).value.sink.MatchAt?
    requires var p := Cypher.Compiled(m.path);
             WellFormed(p) && k < |p.nodes| && Satisfiable(p) && BothWaysSupported(p, k)
    ensures Cypher.WellFormedMatch(FromOtherEnd(m))
    ensures var one, two := PlanMatch(m, []).value, PlanMatch(FromOtherEnd(m), []).value;
            && FirstPlan(one) && FirstPlan(two) && Mirrored(one, two, k) && one.source == two.source
            && one.path == m.path && PatternOf(one) == Cypher.Compiled(m.path)
  {
    hide *;
    NothingAsked(Cypher.Compiled(m.path), k);
    MirrorSatisfiable(Cypher.Compiled(m.path), k, None);
    BackwardsPlan(m, [], k);
    CompiledLength(m.path);
    BothWaysKnown(Cypher.Compiled(m.path), k);
    BackwardsPlansMirrored(m, k);
    PlannedFirst(m);
    PlannedFirst(FromOtherEnd(m));
  }

  lemma NothingAsked(p: Path, k: nat)
    requires k < |p.nodes|
    ensures OnlyPivotAsks(p, k, None)
  {
  }

  lemma CompiledLength(p: Cypher.Path)
    ensures |Cypher.Compiled(p).nodes| == |p.nodes|
  {
  }

  lemma BothWaysKnown(p: Path, k: nat)
    requires WellFormed(p) && k < |p.nodes| && WellFormed(Mirror(p)) && |Mirror(p).nodes| == |p.nodes|
    requires BothWaysSupported(p, k)
    ensures SupportedAround(p, k) && IdsSymmetric(p, k)
    ensures SupportedAround(Mirror(p), |p.nodes| - 1 - k) && IdsSymmetric(Mirror(p), |p.nodes| - 1 - k)
  {
    hide SupportedAround, IdsSymmetric, Mirror;
  }

  /** A one-clause query with one named node and the same query written from its other end leave the same bag
      of rows after their first runs, in every space that holds the root, exactly when the named node is inside
      the pattern, or the pattern asks nothing of it, or only that it be the root. */
  lemma AlwaysSameRunsIff(m: Cypher.Match, k: nat)
    requires Cypher.WellFormedMatch(m) && NamesOnly(m.path, k) && PlanMatch(m, []).value.sink.MatchAt?
    requires var p := Cypher.Compiled(m.path);
             && WellFormed(p) && k < |p.nodes| && Satisfiable(p) && BothWaysSupported(p, k)
             && OnlyPivotAsks(p, k, Some(PlanMatch(m, []).value.source.root))
    ensures Cypher.WellFormedMatch(FromOtherEnd(m))
    ensures var one, two := PlanMatch(m, []).value, PlanMatch(FromOtherEnd(m), []).value;
            FirstPlan(one)
            && (AlwaysSameRuns(one, two, k) <==> !AsksMore(Cypher.Compiled(m.path), k, one.source.root))
  {
    BothPlans(m, k);
    hide PlanMatch, FirstPlan, Mirrored, SameRuns, BothWaysSupported, Satisfiable, OnlyPivotAsks, AsksMore, Visitable,
         Cypher.Compiled;
    var one, two := PlanMatch(m, []).value, PlanMatch(FromOtherEnd(m), []).value;
    if AsksMore(PatternOf(one), k, one.source.root) {
      var s := RootRunsDiffer(one, two, k);
    } else {
      forall s | Visitable(s, one) ensures SameRuns(s, one, two, k) {
        AgreeingRuns(s, m, k);
      }
    }
  }

  lemma AgreeingRuns(s: Space, m: Cypher.Match, k: nat)
    requires Cypher.WellFormedMatch(m) && NamesOnly(m.path, k) && PlanMatch(m, []).value.sink.MatchAt?
    requires Cypher.WellFormedMatch(FromOtherEnd(m))
    requires var one, two, p := PlanMatch(m, []).value, PlanMatch(FromOtherEnd(m), []).value, Cypher.Compiled(m.path);
             && FirstPlan(one) && Visitable(s, one) && Mirrored(one, two, k) && one.path == m.path
             && WellFormed(p) && k < |p.nodes| && !AsksMore(p, k, one.source.root)
    ensures SameRuns(s, PlanMatch(m, []).value, PlanMatch(FromOtherEnd(m), []).value, k)
  {
    hide PlanMatch, RunFrom, ValidState, Feed, V.Terminates, V.Emitted, SupportedAround, IdsSymmetric, MirrorRows,
         Agreeable, Cypher.Compiled, Mirror, AllMatch, Uncapped, Valid;
    var one, two := PlanMatch(m, []).value, PlanMatch(FromOtherEnd(m), []).value;
    BothRun(s, m, k);
    MirroredKnows(one, two, k);
    assert PatternOf(one) == Cypher.Compiled(m.path);
    if !Inside(k, |one.path.nodes|) {
      RootMatches(s, one, PatternOf(one).nodes[k]);
    }
    BackwardsFeed(s, one, two, k, V.Emitted(VisitorOf(s, one.source)));
  }
}
