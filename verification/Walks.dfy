/** The rows of one half without the engine's two ways of matching a node: one recursion that
    looks for the next node among the references of the last one, and what it finds. */
module Walks {
  import opened Wrappers
  import opened Sequences
  import opened AddressSpace
  import opened Pattern
  import opened Matching

  /** No node without an id follows one with an id, from position 1 on. This is where splitting
      at 1 in the middle of the loop is right. */
  predicate Supported(p: Path) {
    forall i, j :: 1 <= i < j < |p.nodes| && p.nodes[j].id.None? ==> p.nodes[i].id.None?
  }

  function OfType(refs: Row, t: Option<NodeId>): (found: Row)
    ensures forall d :: d in found <==> d in refs && MatchesId(t, d.typeDefinition)
  {
    if refs == [] then []
    else (if MatchesId(t, refs[0].typeDefinition) then [refs[0]] else []) + OfType(refs[1..], t)
  }

  /** The elements that may follow node `a` at position 1 of the path. */
  function Next(s: Space, a: NodeId, p: Path): Row
    requires WellFormed(p) && |p.nodes| >= 2
  {
    var n := EnforcedHalf(p).nodes[1];
    var refs := Found(s, BrowseStep(a, p.relations[0], n.nodeClass));
    if n.id.Some? then FirstWithId(refs, n.id.value) else OfType(refs, n.typeDefinitionId)
  }

  function Walk(s: Space, start: ReferenceDescription, p: Path): seq<Row>
    requires WellFormed(p)
    decreases |p.nodes|, 0, 0
  {
    if |p.nodes| == 1 then [[start]]
    else WalkEach(s, start, Next(s, start.nodeId, p), Drop(p, 1))
  }

  function WalkEach(s: Space, start: ReferenceDescription, nexts: Row, rest: Path): seq<Row>
    requires WellFormed(rest)
    decreases |rest.nodes|, 1, |nexts|
  {
    if nexts == [] then []
    else Prefixed([start], Walk(s, nexts[0], rest)) + WalkEach(s, start, nexts[1..], rest)
  }

  lemma {:induction false} WalkEachMember(s: Space, start: ReferenceDescription, nexts: Row, rest: Path, row: Row)
    requires WellFormed(rest)
    ensures row in WalkEach(s, start, nexts, rest) <==>
            |row| > 0 && row[0] == start && exists d :: d in nexts && row[1..] in Walk(s, d, rest)
    decreases |nexts|
  {
    if nexts != [] {
      PrefixedMember([start], Walk(s, nexts[0], rest), row);
      WalkEachMember(s, start, nexts[1..], rest, row);
      assert row in WalkEach(s, start, nexts, rest) <==>
             row in Prefixed([start], Walk(s, nexts[0], rest)) || row in WalkEach(s, start, nexts[1..], rest);
      assert [start] <= row <==> |row| > 0 && row[0] == start;
      assert forall d :: d in nexts <==> d == nexts[0] || d in nexts[1..];
    }
  }

  // ---------------------------------------------------------------- check finds the walks

  lemma PrefixedConcat<T>(front: seq<T>, a: seq<seq<T>>, b: seq<seq<T>>)
    ensures Prefixed(front, a + b) == Prefixed(front, a) + Prefixed(front, b)
  {
  }

  lemma {:induction false} WalkEachConcat(s: Space, start: ReferenceDescription, a: Row, b: Row, rest: Path)
    requires WellFormed(rest)
    ensures WalkEach(s, start, a + b, rest) == WalkEach(s, start, a, rest) + WalkEach(s, start, b, rest)
    decreases |a|
  {
    hide Walk, Prefixed;
    if a == [] {
      assert a + b == b;
    } else {
      WalkEachConcat(s, start, a[1..], b, rest);
      assert (a + b)[0] == a[0] && (a + b)[1..] == a[1..] + b;
      var here := Prefixed([start], Walk(s, a[0], rest));
      ConcatAssociates(here, WalkEach(s, start, a[1..], rest), WalkEach(s, start, b, rest));
    }
  }

  /** One reference of the recursive branch. */
  lemma {:induction false} CheckNext(s: Space, d: ReferenceDescription, p: Path)
    requires WellFormed(p) && |p.nodes| >= 2 && Supported(p) && p.nodes[1].id.None?
    requires MatchesClass(p.nodes[1].nodeClass, d.nodeClass)
    ensures CheckPath(s, Drop(p, 1), 0, d)
            == Ok(if MatchesId(EnforcedHalf(p).nodes[1].typeDefinitionId, d.typeDefinition)
                then Walk(s, d, Drop(p, 1)) else [])
    decreases |p.nodes|, 0, 0
  {
    var rest := Drop(p, 1);
    assert Split(rest, 0).1 == rest;
    if |rest.nodes| > 1 {
      assert forall i :: 1 <= i < |rest.nodes| ==> rest.nodes[i] == p.nodes[i + 1];
      CheckIsWalk(s, d, rest);
    }
  }

  lemma {:induction false} FilterAllIsWalkEach(s: Space, start: ReferenceDescription, refs: Row, p: Path)
    requires WellFormed(p) && |p.nodes| >= 2 && Supported(p) && p.nodes[1].id.None?
    requires forall d :: d in refs ==> MatchesClass(p.nodes[1].nodeClass, d.nodeClass)
    ensures var all := FilterAll(s, Drop(p, 1), 0, refs);
            var n := EnforcedHalf(p).nodes[1];
            all.Ok? && Prefixed([start], all.value) == WalkEach(s, start, OfType(refs, n.typeDefinitionId), Drop(p, 1))
    decreases |p.nodes|, 1, |refs|
  {
    var rest := Drop(p, 1);
    var t := EnforcedHalf(p).nodes[1].typeDefinitionId;
    if refs != [] {
      FilterAllIsWalkEach(s, start, refs[1..], p);
      CheckNext(s, refs[0], p);
      PrefixedConcat([start], CheckPath(s, rest, 0, refs[0]).value, FilterAll(s, rest, 0, refs[1..]).value);
      var first := if MatchesId(t, refs[0].typeDefinition) then [refs[0]] else [];
      WalkEachConcat(s, start, first, OfType(refs[1..], t), rest);
    }
  }

  lemma PrefixedTwice<T>(front: seq<T>, x: T, rows: seq<seq<T>>)
    ensures Prefixed(front + [x], rows) == Prefixed(front, Prefixed([x], rows))
  {
    forall k | 0 <= k < |rows| ensures Prefixed(front + [x], rows)[k] == Prefixed(front, Prefixed([x], rows))[k] {
      assert (front + [x]) + rows[k] == front + ([x] + rows[k]);
    }
  }

  /** With a wanted id there is at most one way on. */
  lemma WalkAtId(s: Space, d: ReferenceDescription, p: Path)
    requires WellFormed(p) && |p.nodes| >= 2 && p.nodes[1].id.Some?
    ensures var first := FirstWithId(Found(s, BrowseStep(d.nodeId, p.relations[0], p.nodes[1].nodeClass)),
            p.nodes[1].id.value);
            Walk(s, d, p) == if first == [] then [] else Prefixed([d], Walk(s, first[0], Drop(p, 1)))
  {
    var first := FirstWithId(Found(s, BrowseStep(d.nodeId, p.relations[0], p.nodes[1].nodeClass)), p.nodes[1].id.value);
    assert first == Next(s, d.nodeId, p);
    if first != [] {
      assert WalkEach(s, d, first[1..], Drop(p, 1)) == [];
    }
  }

  lemma {:induction false} CheckFromIsWalk(s: Space, p: Path, i: nat, act: Row)
    requires WellFormed(p) && 1 <= i <= |p.nodes| && |act| == i
    requires forall k :: i <= k < |p.nodes| ==> p.nodes[k].id.Some?
    ensures CheckFrom(s, p, i, act) == Ok(Prefixed(act[..i - 1], Walk(s, act[i - 1], Drop(p, i - 1))))
    decreases |p.nodes| - i
  {
    var here, last := Drop(p, i - 1), act[i - 1];
    assert act[..i - 1] + [last] == act;
    if i == |p.nodes| {
      assert Prefixed(act[..i - 1], [[last]]) == [act];
    } else {
      assert here.nodes[1] == p.nodes[i] && here.relations[0] == p.relations[i - 1] && Drop(here, 1) == Drop(p, i);
      WalkAtId(s, last, here);
      var first := FirstWithId(Found(s, BrowseStep(last.nodeId, p.relations[i - 1], p.nodes[i].nodeClass)),
        p.nodes[i].id.value);
      if first == [] {
        assert Prefixed(act[..i - 1], Walk(s, last, here)) == [];
      } else {
        CheckFromIsWalk(s, p, i + 1, act + first);
        assert (act + first)[..i] == act && (act + first)[i] == first[0];
        PrefixedTwice(act[..i - 1], last, Walk(s, first[0], Drop(p, i)));
      }
    }
  }

  lemma CheckIdsIsWalk(s: Space, start: ReferenceDescription, p: Path)
    requires WellFormed(p) && |p.nodes| >= 2 && forall k :: 1 <= k < |p.nodes| ==> p.nodes[k].id.Some?
    ensures Check(s, start, p) == Ok(Walk(s, start, p))
  {
    CheckFromIsWalk(s, p, 1, [start]);
    hide CheckFrom, Walk;
    assert Drop(p, 0) == p;
    var rows := Walk(s, start, p);
    assert forall k :: 0 <= k < |rows| ==> [] + rows[k] == rows[k];
    assert Prefixed([start][..0], rows) == rows;
  }

  /** In the supported fragment no size assertion fires, and the id fast path, the recursive
      branch and the restarts with shorter patterns together return exactly the walks. */
  lemma {:induction false} CheckIsWalk(s: Space, start: ReferenceDescription, p: Path)
    requires WellFormed(p) && |p.nodes| >= 2 && Supported(p)
    ensures Check(s, start, p) == Ok(Walk(s, start, p))
    decreases |p.nodes|, 2, 0
  {
    if p.nodes[1].id.Some? {
      CheckIdsIsWalk(s, start, p);
    } else {
      var bd := BrowseStep(start.nodeId, p.relations[0], p.nodes[1].nodeClass);
      var refs := Found(s, bd);
      forall d | d in refs ensures MatchesClass(p.nodes[1].nodeClass, d.nodeClass) {
        BrowseSound(s, bd, d);
      }
      FilterAllIsWalkEach(s, start, refs, p);
      if Browse(s, bd).Bad? {
        assert WalkEach(s, start, OfType(refs, EnforcedHalf(p).nodes[1].typeDefinitionId), Drop(p, 1)) == [];
      }
    }
  }

  // ---------------------------------------------------------------- outside the fragment

  lemma {:induction false} FilterAllUnsupported(s: Space, p: Path, refs: Row)
    requires WellFormed(p) && !Supported(p)
    ensures FilterAll(s, p, 0, refs) in {Aborted, Ok([])}
    decreases |p.nodes|, 3, |refs|
  {
    if refs != [] {
      assert Split(p, 0).1 == p;
      CheckUnsupported(s, refs[0], p);
      FilterAllUnsupported(s, p, refs[1..]);
      assert CheckPath(s, p, 0, refs[0]) in {Aborted, Ok([])};
      var none: seq<Row> := [];
      assert none + [] == [];
    }
  }

  lemma {:induction false} CheckFromUnsupported(s: Space, p: Path, i: nat, act: Row, j: nat)
    requires WellFormed(p) && 1 <= i <= j < |p.nodes| && |act| == i
    requires j >= 2 && p.nodes[j].id.None? && p.nodes[1].id.Some?
    ensures CheckFrom(s, p, i, act) in {Aborted, Ok([])}
    decreases |p.nodes| - i
  {
    hide Browse, FilterAll, FirstWithId, BrowseStep;
    var n := p.nodes[i];
    var br := Browse(s, BrowseStep(act[i - 1].nodeId, p.relations[i - 1], n.nodeClass));
    if br.Good? {
      if n.id.Some? {
        var first := FirstWithId(br.references, n.id.value);
        if first != [] {
          CheckFromUnsupported(s, p, i + 1, act + first, j);
        }
      } else {
        var all := FilterAll(s, Split(p, 1).1, 0, br.references);
        assert |Split(p, 1).1.nodes| == |p.nodes| - 1;
        if all.Ok? && all.value != [] {
          assert all.value[0] in all.value;
        } else if all.Ok? {
          assert Prefixed(act, all.value) == [];
        }
      }
    }
  }

  /** Outside the supported fragment `check` never returns a row: it finds nothing, or its size
      assertion fires. */
  lemma {:induction false} CheckUnsupported(s: Space, start: ReferenceDescription, p: Path)
    requires WellFormed(p) && !Supported(p)
    ensures Check(s, start, p) in {Aborted, Ok([])}
    decreases |p.nodes|, 2, 0
  {
    var i, j :| 1 <= i < j < |p.nodes| && p.nodes[j].id.None? && p.nodes[i].id.Some?;
    if p.nodes[1].id.Some? {
      CheckFromUnsupported(s, p, 1, [start], j);
    } else {
      var rest := Drop(p, 1);
      assert rest.nodes[j - 1].id.None? && rest.nodes[i - 1].id.Some?;
      var br := Browse(s, BrowseStep(start.nodeId, p.relations[0], p.nodes[1].nodeClass));
      if br.Good? {
        FilterAllUnsupported(s, rest, br.references);
        assert Prefixed<ReferenceDescription>([start], []) == [];
      }
    }
  }

  // ---------------------------------------------------------------- walks, row by row

  /** A row is a chain of browse answers: each element is one the path allows after the element
      before it. */
  ghost predicate IsWalk(s: Space, start: ReferenceDescription, p: Path, row: Row)
    requires WellFormed(p)
  {
    && |row| == |p.nodes| && row[0] == start
    && forall i :: 1 <= i < |row| ==> row[i] in Next(s, row[i - 1].nodeId, Drop(p, i - 1))
  }

  lemma IsWalkUnfold(s: Space, start: ReferenceDescription, p: Path, row: Row)
    requires WellFormed(p) && |row| == |p.nodes| >= 2
    ensures IsWalk(s, start, p, row) <==>
            row[0] == start && row[1] in Next(s, start.nodeId, p) && IsWalk(s, row[1], Drop(p, 1), row[1..])
  {
    assert Drop(p, 0) == p;
    assert forall i :: 1 <= i < |row| ==> Drop(Drop(p, 1), i - 1) == Drop(p, i);
    if IsWalk(s, start, p, row) {
      forall i | 1 <= i < |row[1..]| ensures row[1..][i] in Next(s, row[1..][i - 1].nodeId, Drop(Drop(p, 1), i - 1)) {
        assert row[i + 1] in Next(s, row[i].nodeId, Drop(p, i));
      }
    }
    if row[0] == start && row[1] in Next(s, start.nodeId, p) && IsWalk(s, row[1], Drop(p, 1), row[1..]) {
      forall i | 1 <= i < |row| ensures row[i] in Next(s, row[i - 1].nodeId, Drop(p, i - 1)) {
        if i > 1 {
          assert row[1..][i - 1] in Next(s, row[1..][i - 2].nodeId, Drop(Drop(p, 1), i - 2));
        }
      }
    }
  }

  lemma {:induction false} WalkMember(s: Space, start: ReferenceDescription, p: Path, row: Row)
    requires WellFormed(p)
    ensures row in Walk(s, start, p) <==> IsWalk(s, start, p, row)
    decreases |p.nodes|
  {
    if |p.nodes| == 1 {
      assert row in [[start]] <==> row == [start];
    } else {
      var nexts := Next(s, start.nodeId, p);
      WalkEachMember(s, start, nexts, Drop(p, 1), row);
      if |row| > 0 {
        forall d ensures row[1..] in Walk(s, d, Drop(p, 1)) <==> IsWalk(s, d, Drop(p, 1), row[1..]) {
          WalkMember(s, d, Drop(p, 1), row[1..]);
        }
      }
      if |row| == |p.nodes| {
        IsWalkUnfold(s, start, p, row);
      }
    }
  }

  lemma {:induction false} OfTypeDistinct(refs: Row, t: Option<NodeId>)
    requires Distinct(refs)
    ensures Distinct(OfType(refs, t))
  {
    if refs != [] {
      OfTypeDistinct(refs[1..], t);
      DistinctConcat(if MatchesId(t, refs[0].typeDefinition) then [refs[0]] else [], OfType(refs[1..], t));
    }
  }

  lemma {:induction false} WalkEachDistinct(s: Space, start: ReferenceDescription, nexts: Row, rest: Path)
    requires WellFormed(rest) && Distinct(s.references) && Distinct(nexts)
    ensures Distinct(WalkEach(s, start, nexts, rest))
    decreases |rest.nodes|, 1, |nexts|
  {
    if nexts != [] {
      var here, later := Prefixed([start], Walk(s, nexts[0], rest)), WalkEach(s, start, nexts[1..], rest);
      WalkDistinct(s, nexts[0], rest);
      PrefixedDistinct([start], Walk(s, nexts[0], rest));
      WalkEachDistinct(s, start, nexts[1..], rest);
      forall row | row in here ensures row !in later {
        PrefixedMember([start], Walk(s, nexts[0], rest), row);
        WalkEachMember(s, start, nexts[1..], rest, row);
        WalkMember(s, nexts[0], rest, row[1..]);
        forall d | d in nexts[1..] ensures row[1..] !in Walk(s, d, rest) {
          WalkMember(s, d, rest, row[1..]);
        }
      }
      DistinctConcat(here, later);
    }
  }

  /** In a space that holds no reference twice, every walk is found once. */
  lemma {:induction false} WalkDistinct(s: Space, start: ReferenceDescription, p: Path)
    requires WellFormed(p) && Distinct(s.references)
    ensures Distinct(Walk(s, start, p))
    decreases |p.nodes|, 0, 0
  {
    if |p.nodes| > 1 {
      var n := EnforcedHalf(p).nodes[1];
      var bd := BrowseStep(start.nodeId, p.relations[0], n.nodeClass);
      FoundDistinct(s, bd);
      if n.id.None? {
        OfTypeDistinct(Found(s, bd), n.typeDefinitionId);
      }
      WalkEachDistinct(s, start, Next(s, start.nodeId, p), Drop(p, 1));
    }
  }

  /** The rows of a half depend on the enforced constraints only. */
  lemma {:induction false} WalkEnforced(s: Space, start: ReferenceDescription, p: Path, q: Path)
    requires WellFormed(p) && WellFormed(q) && EnforcedHalf(p) == EnforcedHalf(q)
    ensures Walk(s, start, p) == Walk(s, start, q)
    decreases |p.nodes|, 0, 0
  {
    if |p.nodes| > 1 {
      EnforcedDrop(p, q);
      WalkEachEnforced(s, start, Next(s, start.nodeId, p), Drop(p, 1), Drop(q, 1));
    }
  }

  lemma EnforcedDrop(p: Path, q: Path)
    requires WellFormed(p) && WellFormed(q) && EnforcedHalf(p) == EnforcedHalf(q) && |p.nodes| > 1
    ensures EnforcedHalf(Drop(p, 1)) == EnforcedHalf(Drop(q, 1))
  {
    assert |EnforcedHalf(p).nodes| == |p.nodes| && |EnforcedHalf(q).nodes| == |q.nodes|;
    forall k | 0 <= k < |p.nodes| - 1 ensures EnforcedHalf(Drop(p, 1)).nodes[k] == EnforcedHalf(Drop(q, 1)).nodes[k] {
      assert EnforcedHalf(p).nodes[k + 1] == EnforcedHalf(q).nodes[k + 1];
    }
  }

  lemma {:induction false} WalkEachEnforced(s: Space, start: ReferenceDescription, nexts: Row, p: Path, q: Path)
    requires WellFormed(p) && WellFormed(q) && EnforcedHalf(p) == EnforcedHalf(q)
    ensures WalkEach(s, start, nexts, p) == WalkEach(s, start, nexts, q)
    decreases |p.nodes|, 1, |nexts|
  {
    if nexts != [] {
      WalkEnforced(s, nexts[0], p, q);
      WalkEachEnforced(s, start, nexts[1..], p, q);
    }
  }
}
