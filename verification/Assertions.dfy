/** Exactly which patterns can make the size assertion of `check` fire, and exactly which type
    constraints it never looks at. */
module Assertions {
  import opened Wrappers
  import opened Sequences
  import opened AddressSpace
  import opened Pattern
  import opened Matching
  import opened Walks
  import opened Meaning
  import opened ExampleSpaces

  // ---------------------------------------------------------------- spaces rich enough for a half

  /** From every node of the space some reference leads to a node that may follow at any position. */
  ghost predicate Serves(s: Space, p: Path)
    requires WellFormed(p)
  {
    forall a, i :: a in s.nodes && 1 <= i < |p.nodes| ==> Continues(s, p, a, i)
  }

  ghost predicate Continues(s: Space, p: Path, a: NodeId, i: nat)
    requires WellFormed(p) && 1 <= i < |p.nodes|
  {
    exists b :: Step(s, a, p.relations[i - 1], b) && NodeOk(s, EnforcedHalf(p).nodes[i], b)
  }

  lemma ServesRest(s: Space, p: Path)
    requires WellFormed(p) && |p.nodes| >= 2 && Serves(s, p)
    ensures Serves(s, Drop(p, 1))
  {
    var rest := Drop(p, 1);
    forall a, i | a in s.nodes && 1 <= i < |rest.nodes| ensures Continues(s, rest, a, i) {
      assert Continues(s, p, a, i + 1);
      assert EnforcedHalf(rest).nodes[i] == EnforcedHalf(p).nodes[i + 1];
    }
  }

  ghost predicate Lively(r: Outcome<seq<Row>>) {
    r.Aborted? || r.value != []
  }

  lemma {:induction false} FilterAllLively(s: Space, p: Path, refs: Row, d: ReferenceDescription)
    requires WellFormed(p) && d in refs && Lively(CheckPath(s, p, 0, d))
    ensures Lively(FilterAll(s, p, 0, refs))
    decreases |refs|
  {
    if d != refs[0] {
      FilterAllLively(s, p, refs[1..], d);
    }
  }

  /** A reference the browse finds that may stand at position `i`. */
  lemma NextAt(s: Space, p: Path, a: NodeId, i: nat) returns (d: ReferenceDescription)
    requires Valid(s) && Uncapped(s) && WellFormed(p) && Serves(s, p) && 1 <= i < |p.nodes| && a in s.nodes
    ensures d in Found(s, BrowseStep(a, p.relations[i - 1], p.nodes[i].nodeClass)) && d.nodeId in s.nodes
    ensures MatchesId(p.nodes[i].id, d.nodeId) && MatchesClass(p.nodes[i].nodeClass, d.nodeClass)
    ensures i == |p.nodes| - 1 && p.nodes[i].id.None? ==> MatchesId(p.nodes[i].typeDefinitionId, d.typeDefinition)
  {
    assert Continues(s, p, a, i);
    var b :| Step(s, a, p.relations[i - 1], b) && NodeOk(s, EnforcedHalf(p).nodes[i], b);
    var bd := BrowseStep(a, p.relations[i - 1], p.nodes[i].nodeClass);
    BrowseComplete(s, bd, b);
    d :| d in Found(s, bd) && d.nodeId == b;
    BrowseSound(s, bd, d);
  }

  lemma PrefixedLength(front: Row, rows: seq<Row>)
    ensures |Prefixed(front, rows)| == |rows|
  {
  }

  lemma {:induction false} CheckFromLively(s: Space, p: Path, i: nat, act: Row)
    requires Valid(s) && Uncapped(s) && WellFormed(p) && |p.nodes| >= 2 && Serves(s, p)
    requires 1 <= i <= |p.nodes| && |act| == i && act[i - 1].nodeId in s.nodes
    ensures Lively(CheckFrom(s, p, i, act))
    decreases |p.nodes|, 0, |p.nodes| - i
  {
    hide Serves, Uncapped, Valid, Describe, DescribeAll, Prefixed;
    if i < |p.nodes| {
      var d := NextAt(s, p, act[i - 1].nodeId, i);
      var refs := Found(s, BrowseStep(act[i - 1].nodeId, p.relations[i - 1], p.nodes[i].nodeClass));
      if p.nodes[i].id.Some? {
        var first := FirstWithId(refs, p.nodes[i].id.value);
        assert first != [] && first[0] in first;
        CheckFromLively(s, p, i + 1, act + first);
      } else {
        var rest := Split(p, 1).1;
        RestLively(s, p, d, i);
        FilterAllLively(s, rest, refs, d);
        var all := FilterAll(s, rest, 0, refs);
        if all.Ok? { PrefixedLength(act, all.value); }
      }
    }
  }

  lemma {:induction false} RestLively(s: Space, p: Path, d: ReferenceDescription, i: nat)
    requires Valid(s) && Uncapped(s) && WellFormed(p) && |p.nodes| >= 2 && Serves(s, p)
    requires 1 <= i < |p.nodes| && d.nodeId in s.nodes && p.nodes[i].id.None?
    requires MatchesClass(p.nodes[i].nodeClass, d.nodeClass)
    requires i == |p.nodes| - 1 ==> MatchesId(p.nodes[i].typeDefinitionId, d.typeDefinition)
    ensures Lively(CheckPath(s, Split(p, 1).1, 0, d))
    decreases |p.nodes|, 0, 0
  {
    var rest := Split(p, 1).1;
    assert Split(rest, 0).1 == rest;
    if |rest.nodes| >= 2 {
      ServesRest(s, p);
      CheckFromLively(s, rest, 1, [d]);
    } else {
      assert Matches(d, rest.nodes[0]);
    }
  }

  /** In a space that serves an unsupported half the assertion fires, wherever matching starts. */
  lemma ServedUnsupportedAborts(s: Space, start: ReferenceDescription, p: Path)
    requires Valid(s) && Uncapped(s) && WellFormed(p) && Serves(s, p) && !Supported(p) && start.nodeId in s.nodes
    ensures Check(s, start, p) == Aborted
  {
    CheckFromLively(s, p, 1, [start]);
    CheckUnsupported(s, start, p);
  }

  // ---------------------------------------------------------------- halves that ask for the null id

  /** Some node behind the first asks for the null id, which no node has. */
  predicate AsksForNull(p: Path) {
    exists i :: 1 <= i < |p.nodes| && p.nodes[i].id == Some(NullId)
  }

  lemma NothingHasNullId(s: Space, bd: BrowseDescription)
    requires Valid(s)
    ensures FirstWithId(Found(s, bd), NullId) == []
  {
    forall d | d in Found(s, bd) ensures d.nodeId != NullId {
      BrowseSound(s, bd, d);
    }
  }

  lemma {:induction false} NullFindsNothing(s: Space, p: Path, i: nat, act: Row, k: nat)
    requires Valid(s) && WellFormed(p) && 1 <= i <= k < |p.nodes| && |act| == i && p.nodes[k].id == Some(NullId)
    ensures CheckFrom(s, p, i, act) == Ok([])
    decreases |p.nodes|, 0, |p.nodes| - i
  {
    hide Valid;
    var bd := BrowseStep(act[i - 1].nodeId, p.relations[i - 1], p.nodes[i].nodeClass);
    if p.nodes[i].id.None? {
      NullFiltersNothing(s, Split(p, 1).1, Found(s, bd), k - 1);
      assert Prefixed(act, []) == [];
    } else if i == k {
      NothingHasNullId(s, bd);
    } else {
      var first := FirstWithId(Found(s, bd), p.nodes[i].id.value);
      if first != [] { NullFindsNothing(s, p, i + 1, act + first, k); }
    }
  }

  lemma {:induction false} NullFiltersNothing(s: Space, p: Path, refs: Row, k: nat)
    requires Valid(s) && WellFormed(p) && 1 <= k < |p.nodes| && p.nodes[k].id == Some(NullId)
    ensures FilterAll(s, p, 0, refs) == Ok([])
    decreases |p.nodes|, 1, |refs|
  {
    if refs != [] {
      assert Split(p, 0).1 == p;
      NullFindsNothing(s, p, 1, [refs[0]], k);
      NullFiltersNothing(s, p, refs[1..], k);
      assert CheckPath(s, p, 0, refs[0]) == Ok([]);
      var none: seq<Row> := [];
      assert none + [] == [];
    }
  }

  /** A half that asks for the null id, as one does whose reversal has lost an id, finds nothing and aborts
      in no space, whether or not it is supported. */
  lemma NullHalfFindsNothing(s: Space, start: ReferenceDescription, p: Path)
    requires Valid(s) && WellFormed(p) && AsksForNull(p)
    ensures Check(s, start, p) == Ok([])
  {
    var k :| 1 <= k < |p.nodes| && p.nodes[k].id == Some(NullId);
    NullFindsNothing(s, p, 1, [start], k);
  }

  // ---------------------------------------------------------------- such a space exists

  lemma NamespaceUnused(p: Path)
    ensures Unused(p, MaxNs(p.nodes) + 1)
  {
    forall k | 0 <= k < |p.nodes| && p.nodes[k].id.Some? && p.nodes[k].id.value.Numeric?
      ensures p.nodes[k].id.value.ns <= MaxNs(p.nodes)
    {
      MaxNsBounds(p.nodes, k);
    }
  }

  lemma EnforcedConsistent(p: Path)
    requires OneClassPerId(p) && !AsksForNull(p)
    ensures OneNodePerId(EnforcedHalf(p)) && Unused(EnforcedHalf(p), MaxNs(p.nodes) + 1)
  {
    NamespaceUnused(p);
  }

  /** A space with all that is enforced of a half. */
  function SpaceFor(p: Path): Space
    requires OneClassPerId(p) && !AsksForNull(p)
  {
    EnforcedConsistent(p);
    SpaceOf(EnforcedHalf(p), MaxNs(p.nodes) + 1)
  }

  lemma SpaceForContinues(p: Path, a: NodeId, i: nat)
    requires WellFormed(p) && OneClassPerId(p) && !AsksForNull(p)
    requires a in SpaceFor(p).nodes && 1 <= i < |p.nodes|
    ensures Continues(SpaceFor(p), p, a, i)
  {
    hide SpaceWith, Step, NodeOk;
    var q, ns := EnforcedHalf(p), MaxNs(p.nodes) + 1;
    EnforcedConsistent(p);
    assert q.relations == p.relations;
    SpaceWithNode(q, ns, AllReferences(q, ns), i);
    SpaceOfSteps(q, ns, a, p.relations[i - 1], NodeFor(q, ns, i));
  }

  lemma SpaceForServes(p: Path)
    requires WellFormed(p) && OneClassPerId(p) && !AsksForNull(p) && 2 * |p.nodes| <= MAX_REFERENCES
    ensures Valid(SpaceFor(p)) && Uncapped(SpaceFor(p)) && Serves(SpaceFor(p), p)
    ensures NodeFor(EnforcedHalf(p), MaxNs(p.nodes) + 1, 0) in SpaceFor(p).nodes
  {
    hide SpaceWith, Continues, Valid, Uncapped;
    EnforcedConsistent(p);
    var q, ns := EnforcedHalf(p), MaxNs(p.nodes) + 1;
    SpaceOfIsValid(q, ns);
    SpaceWithNode(q, ns, AllReferences(q, ns), 0);
    forall a, i | a in SpaceFor(p).nodes && 1 <= i < |p.nodes| ensures Continues(SpaceFor(p), p, a, i) {
      SpaceForContinues(p, a, i);
    }
  }

  lemma SupportedNeverAborts(s: Space, start: ReferenceDescription, p: Path)
    requires WellFormed(p) && Supported(p)
    ensures Check(s, start, p).Ok?
  {
    if |p.nodes| >= 2 { CheckIsWalk(s, start, p); }
  }

  lemma SomeAbort(p: Path) returns (s: Space, start: ReferenceDescription)
    requires WellFormed(p) && OneClassPerId(p) && !AsksForNull(p) && !Supported(p) && 2 * |p.nodes| <= MAX_REFERENCES
    ensures Valid(s) && Uncapped(s) && Check(s, start, p) == Aborted
  {
    hide SpaceFor, Valid, Uncapped, Serves, Supported, Check, OneClassPerId, AsksForNull;
    SpaceForServes(p);
    s := SpaceFor(p);
    start := Element(s, NodeFor(EnforcedHalf(p), MaxNs(p.nodes) + 1, 0));
    ServedUnsupportedAborts(s, start, p);
  }

  /** The size assertion of `check` can never fire, whatever the address space and the start, exactly
      for the halves of the supported fragment and those that ask for the null id. (The way back needs a
      half some space can match: one class per id, and few enough nodes for that space to stay below the
      browse cap.) */
  lemma AssertionSafeIffSupported(p: Path)
    requires WellFormed(p) && OneClassPerId(p) && 2 * |p.nodes| <= MAX_REFERENCES
    ensures (forall s, start :: Valid(s) && Uncapped(s) ==> Check(s, start, p).Ok?) <==> Supported(p) || AsksForNull(p)
  {
    hide Check, Supported, Valid, Uncapped, AsksForNull;
    if Supported(p) || AsksForNull(p) {
      forall s, start | Valid(s) && Uncapped(s) ensures Check(s, start, p).Ok? {
        if Supported(p) {
          SupportedNeverAborts(s, start, p);
        } else {
          NullHalfFindsNothing(s, start, p);
        }
      }
    } else {
      var s, start := SomeAbort(p);
    }
  }

  // ---------------------------------------------------------------- whole patterns

  /** No space and no start make matching the pattern abort. */
  ghost predicate NeverAborts(p: Path, idx: nat)
    requires WellFormed(p) && idx < |p.nodes|
  {
    forall s, start :: Valid(s) && Uncapped(s) ==> CheckPath(s, p, idx, start).Ok?
  }

  lemma SafePatternEnds(s: Space, p: Path, idx: nat, start: ReferenceDescription)
    requires Valid(s) && WellFormed(p) && idx < |p.nodes| && Supported(RightHalf(p, idx))
    requires idx > 0 ==> Supported(LeftHalf(p, idx)) || !IdsSymmetric(p, idx)
    ensures CheckPath(s, p, idx, start).Ok?
  {
    hide Supported, Check, Valid;
    if idx == 0 || Supported(LeftHalf(p, idx)) {
      CheckPathIsCross(s, p, idx, start);
    } else {
      CheckRight(s, p, idx, start);
      var k := LostId(p, idx);
      NullHalfFindsNothing(s, start, LeftHalf(p, idx));
      MergeIsCross(s, LeftHalf(p, idx), Check(s, start, RightHalf(p, idx)).value, start);
    }
  }

  /** What is enforced of the pattern, and all that is asked of the pivot. */
  function WithPivot(p: Path, idx: nat): Path
    requires idx < |p.nodes|
  {
    var e := Enforced(p, idx);
    Path(e.nodes[idx := p.nodes[idx]], e.relations)
  }

  lemma WithPivotConsistent(p: Path, idx: nat)
    requires WellFormed(p) && idx < |p.nodes| && NoNullIds(p) && DistinctIds(p) && IdsSymmetric(p, idx)
    ensures OneNodePerId(WithPivot(p, idx)) && Unused(WithPivot(p, idx), MaxNs(p.nodes) + 1)
  {
    var q := WithPivot(p, idx);
    NamespaceUnused(p);
    forall j | 0 <= j < |p.nodes| ensures q.nodes[j].id == p.nodes[j].id {
      if j != idx { EnforcedNode(p, idx, j); }
    }
  }

  /** The half is a part of the pattern, walked in either direction. */
  ghost predicate PartOf(h: Path, q: Path)
    requires WellFormed(h)
  {
    forall i :: 1 <= i < |h.nodes| ==> NodeOf(h, q, i)
  }

  ghost predicate NodeOf(h: Path, q: Path, i: nat)
    requires WellFormed(h) && 1 <= i < |h.nodes|
  {
    && EnforcedHalf(h).nodes[i] in q.nodes
    && (h.relations[i - 1] in q.relations || FlipRelation(h.relations[i - 1]) in q.relations)
  }

  lemma RightIsPart(p: Path, idx: nat, i: nat)
    requires WellFormed(p) && idx < |p.nodes| && 1 <= i < |RightHalf(p, idx).nodes|
    ensures NodeOf(RightHalf(p, idx), WithPivot(p, idx), i)
  {
    EnforcedHalves(p, idx);
    var q, e, right := WithPivot(p, idx), Enforced(p, idx), RightHalf(p, idx);
    assert EnforcedHalf(right).nodes[i] == e.nodes[idx + i] == q.nodes[idx + i];
    assert right.relations[i - 1] == q.relations[idx + i - 1];
  }

  lemma LeftIsPart(p: Path, idx: nat, i: nat)
    requires WellFormed(p) && 0 < idx < |p.nodes| && 1 <= i < |LeftHalf(p, idx).nodes|
    ensures NodeOf(LeftHalf(p, idx), WithPivot(p, idx), i)
  {
    EnforcedHalves(p, idx);
    var q, e, left := WithPivot(p, idx), Enforced(p, idx), LeftHalf(p, idx);
    assert EnforcedHalf(left).nodes[i] == e.nodes[idx - i] == q.nodes[idx - i];
    assert FlipRelation(left.relations[i - 1]) == q.relations[idx - i];
  }

  lemma HalvesArePart(p: Path, idx: nat)
    requires WellFormed(p) && 0 < idx < |p.nodes|
    ensures PartOf(RightHalf(p, idx), WithPivot(p, idx)) && PartOf(LeftHalf(p, idx), WithPivot(p, idx))
  {
    var q, left, right := WithPivot(p, idx), LeftHalf(p, idx), RightHalf(p, idx);
    hide NodeOf, WithPivot, EnforcedHalf;
    forall i | 1 <= i < |right.nodes| ensures NodeOf(right, q, i) {
      RightIsPart(p, idx, i);
    }
    forall i | 1 <= i < |left.nodes| ensures NodeOf(left, q, i) {
      LeftIsPart(p, idx, i);
    }
  }

  lemma PartServed(h: Path, q: Path, ns: nat, a: NodeId, i: nat)
    requires WellFormed(h) && WellFormed(q) && OneNodePerId(q) && Unused(q, ns) && PartOf(h, q)
    requires a in SpaceOf(q, ns).nodes && 1 <= i < |h.nodes|
    ensures Continues(SpaceOf(q, ns), h, a, i)
  {
    hide SpaceWith, Step, NodeOk;
    assert NodeOf(h, q, i);
    var k :| 0 <= k < |q.nodes| && q.nodes[k] == EnforcedHalf(h).nodes[i];
    var b, r := NodeFor(q, ns, k), h.relations[i - 1];
    SpaceWithNode(q, ns, AllReferences(q, ns), k);
    if r in q.relations {
      SpaceOfSteps(q, ns, a, r, b);
    } else {
      SpaceOfSteps(q, ns, b, FlipRelation(r), a);
      StepMirrored(SpaceOf(q, ns), b, FlipRelation(r), a);
      assert FlipRelation(FlipRelation(r)) == r;
    }
  }

  lemma PartIsServed(h: Path, q: Path, ns: nat)
    requires WellFormed(h) && WellFormed(q) && OneNodePerId(q) && Unused(q, ns) && PartOf(h, q)
    ensures Serves(SpaceOf(q, ns), h)
  {
    hide SpaceOf, Continues, PartOf;
    forall a, i | a in SpaceOf(q, ns).nodes && 1 <= i < |h.nodes| ensures Continues(SpaceOf(q, ns), h, a, i) {
      PartServed(h, q, ns, a, i);
    }
  }

  /** In a space that serves the right half some row of it begins with an element the pivot admits. */
  lemma RightRowsLively(s: Space, p: Path, idx: nat, start: ReferenceDescription)
    requires Valid(s) && Uncapped(s) && WellFormed(p) && idx < |p.nodes| && Serves(s, RightHalf(p, idx))
    requires start.nodeId in s.nodes && Matches(start, p.nodes[idx])
    ensures Lively(Check(s, start, RightHalf(p, idx)))
  {
    var right := RightHalf(p, idx);
    if |right.nodes| >= 2 {
      CheckFromLively(s, right, 1, [start]);
    }
  }

  lemma LeftAborts(s: Space, p: Path, idx: nat, start: ReferenceDescription)
    requires WellFormed(p) && 0 < idx < |p.nodes|
    requires Lively(Check(s, start, RightHalf(p, idx))) && Check(s, start, LeftHalf(p, idx)) == Aborted
    ensures CheckPath(s, p, idx, start) == Aborted
  {
    hide Check;
    var rs := Check(s, start, RightHalf(p, idx));
    if rs.Ok? {
      assert rs.value[0] in rs.value;
    }
  }

  /** A space and a start that make matching the pattern abort. */
  lemma SomePatternAborts(p: Path, idx: nat) returns (s: Space, start: ReferenceDescription)
    requires WellFormed(p) && idx < |p.nodes| && NoNullIds(p) && DistinctIds(p) && 2 * |p.nodes| <= MAX_REFERENCES
    requires !Supported(RightHalf(p, idx)) || (idx > 0 && !Supported(LeftHalf(p, idx)) && IdsSymmetric(p, idx))
    ensures Valid(s) && Uncapped(s) && CheckPath(s, p, idx, start) == Aborted
  {
    hide Supported, Valid, Uncapped, SpaceWith, Serves, Check, Lively, IdsSymmetric;
    if !Supported(RightHalf(p, idx)) {
      s, start := SomeAbort(RightHalf(p, idx));
    } else {
      var q, ns := WithPivot(p, idx), MaxNs(p.nodes) + 1;
      WithPivotConsistent(p, idx);
      HalvesArePart(p, idx);
      s := SpaceOf(q, ns);
      start := Element(s, NodeFor(q, ns, idx));
      SpaceOfIsValid(q, ns);
      SpaceWithNode(q, ns, AllReferences(q, ns), idx);
      hide SpaceOf, PartOf;
      PartIsServed(RightHalf(p, idx), q, ns);
      PartIsServed(LeftHalf(p, idx), q, ns);
      RightRowsLively(s, p, idx, start);
      ServedUnsupportedAborts(s, start, LeftHalf(p, idx));
      LeftAborts(s, p, idx, start);
    }
  }

  /** Matching a pattern can never abort exactly when its right half is supported, and its left half is
      supported too or has lost an id, and with it all its rows. */
  lemma NeverAbortsIff(p: Path, idx: nat)
    requires WellFormed(p) && idx < |p.nodes| && NoNullIds(p) && DistinctIds(p) && 2 * |p.nodes| <= MAX_REFERENCES
    ensures NeverAborts(p, idx) <==>
            Supported(RightHalf(p, idx)) && (idx > 0 ==> Supported(LeftHalf(p, idx)) || !IdsSymmetric(p, idx))
  {
    hide Supported, Valid, Uncapped, CheckPath, IdsSymmetric;
    if Supported(RightHalf(p, idx)) && (idx > 0 ==> Supported(LeftHalf(p, idx)) || !IdsSymmetric(p, idx)) {
      forall s, start | Valid(s) && Uncapped(s) ensures CheckPath(s, p, idx, start).Ok? {
        SafePatternEnds(s, p, idx, start);
      }
    } else {
      var s, start := SomePatternAborts(p, idx);
    }
  }

  // ---------------------------------------------------------------- types that go unchecked

  /** The type constraints of a half from position 1 on are all looked at. */
  predicate TypesAtEnd(p: Path) {
    forall i :: 1 <= i < |p.nodes| && p.nodes[i].typeDefinitionId.Some? ==> i == |p.nodes| - 1 && p.nodes[i].id.None?
  }

  ghost predicate MeetsAll(s: Space, p: Path, w: seq<NodeId>) {
    |w| == |p.nodes| && forall i :: 1 <= i < |p.nodes| ==> NodeOk(s, p.nodes[i], w[i])
  }

  lemma TypesCheckedAtEnd(s: Space, start: ReferenceDescription, p: Path, row: Row)
    requires WellFormed(p) && TypesAtEnd(p) && row in Walk(s, start, p)
    ensures MeetsAll(s, p, Ids(row))
  {
    WalkSound(s, start, p, row);
    forall i | 1 <= i < |p.nodes| ensures NodeOk(s, p.nodes[i], Ids(row)[i]) {
      assert NodeOk(s, EnforcedHalf(p).nodes[i], Ids(row)[i]);
    }
  }

  lemma CheckRowMeetsAll(s: Space, start: ReferenceDescription, p: Path, row: Row)
    requires Valid(s) && WellFormed(p) && (TypesAtEnd(p) || !Supported(p) || AsksForNull(p))
    requires Check(s, start, p).Ok? && row in Check(s, start, p).value
    ensures MeetsAll(s, p, Ids(row))
  {
    hide AsksForNull;
    if |p.nodes| > 1 {
      if AsksForNull(p) {
        NullHalfFindsNothing(s, start, p);
      } else if Supported(p) {
        CheckIsWalk(s, start, p);
        TypesCheckedAtEnd(s, start, p, row);
      } else {
        CheckUnsupported(s, start, p);
      }
    }
  }

  /** A space, a start and a row that ignores a type constraint. */
  lemma TypeIgnored(p: Path, i: nat) returns (s: Space, start: ReferenceDescription, row: Row)
    requires WellFormed(p) && OneClassPerId(p) && !AsksForNull(p) && Supported(p) && Light(p)
    requires 1 <= i < |p.nodes| && p.nodes[i].typeDefinitionId.Some? && p.nodes[i].typeDefinitionId.value != NullId
    requires !(i == |p.nodes| - 1 && p.nodes[i].id.None?)
    ensures Valid(s) && Uncapped(s) && Check(s, start, p).Ok? && row in Check(s, start, p).value
    ensures !MeetsAll(s, p, Ids(row))
  {
    hide LineOf, Fits, Supported, Check, Walk, Uncapped, Valid, OneClassPerId, Light, NodeOk;
    var q, ns := EnforcedHalf(p), MaxNs(p.nodes) + 1;
    EnforcedConsistent(p);
    EnforcedIsLight(p);
    s := LineOf(q, ns);
    var w := Straight(q, ns);
    start := Element(s, w[0]);
    LineIsValid(q, ns);
    LineFits(q, ns);
    CheckIsWalk(s, start, p);
    AllBrowsed(s, p, w);
    WalkComplete(s, start, p, w);
    row := RowOf(Walk(s, start, p), w);
    LineOfNode(q, ns, i);
    TypeNotMet(s, p.nodes[i], w[i]);
  }

  lemma EnforcedIsLight(p: Path)
    requires Light(p)
    ensures Light(EnforcedHalf(p))
  {
  }

  lemma TypeNotMet(s: Space, n: Node, x: NodeId)
    requires n.typeDefinitionId.Some? && n.typeDefinitionId.value != Info(s, x).typeDefinition
    ensures !NodeOk(s, n, x)
  {
  }

  lemma AllBrowsed(s: Space, p: Path, w: seq<NodeId>)
    requires WellFormed(p) && Uncapped(s)
    ensures BrowsedAlong(s, p, w)
  {
    hide NotCut;
    if |w| == |p.nodes| {
      forall i | 0 <= i < |p.relations| ensures NotCut(s, BrowseStep(w[i], p.relations[i], p.nodes[i + 1].nodeClass)) {
      }
    }
  }

  /** The rows `check` returns meet every constraint of the half's nodes from position 1 on, in all
      spaces, exactly when only its last node has a type constraint, and no id, or when there are no rows
      because the half is not supported or asks for the null id. */
  lemma TypesCheckedIffAtEnd(p: Path)
    requires WellFormed(p) && OneClassPerId(p) && Light(p)
    requires forall i :: 0 <= i < |p.nodes| ==> p.nodes[i].typeDefinitionId != Some(NullId)
    ensures (forall s, start, row ::
               Valid(s) && Uncapped(s) && Check(s, start, p).Ok? && row in Check(s, start, p).value ==>
                 MeetsAll(s, p, Ids(row)))
            <==> TypesAtEnd(p) || !Supported(p) || AsksForNull(p)
  {
    hide Check, MeetsAll, Supported, AsksForNull, Valid, Uncapped;
    if TypesAtEnd(p) || !Supported(p) || AsksForNull(p) {
      forall s, start, row | Valid(s) && Check(s, start, p).Ok? && row in Check(s, start, p).value
        ensures MeetsAll(s, p, Ids(row))
      {
        CheckRowMeetsAll(s, start, p, row);
      }
    } else {
      var i :| 1 <= i < |p.nodes| && p.nodes[i].typeDefinitionId.Some? && !(i == |p.nodes| - 1 && p.nodes[i].id.None?);
      var s, start, row := TypeIgnored(p, i);
    }
  }
}
