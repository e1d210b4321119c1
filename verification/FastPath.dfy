/** The id fast path against the general branch: following only the first reference to a wanted
    node, or every one of them. */
module FastPath {
  import opened Wrappers
  import opened Sequences
  import opened AddressSpace
  import opened BrowseResults
  import opened Pattern
  import opened Matching
  import opened Walks
  import opened Meaning

  function Meeting(refs: Row, n: Node): (found: Row)
    ensures forall d :: d in found <==>
                        d in refs && MatchesId(n.id, d.nodeId) && MatchesId(n.typeDefinitionId, d.typeDefinition)
  {
    if refs == [] then []
    else
      (if MatchesId(n.id, refs[0].nodeId) && MatchesId(n.typeDefinitionId, refs[0].typeDefinition)
       then [refs[0]] else [])
      + Meeting(refs[1..], n)
  }

  /** Every reference on, whether or not the node has an id. */
  function AllNext(s: Space, a: NodeId, p: Path): Row
    requires WellFormed(p) && |p.nodes| >= 2
  {
    var n := EnforcedHalf(p).nodes[1];
    Meeting(Found(s, BrowseStep(a, p.relations[0], n.nodeClass)), n)
  }

  function Branch(s: Space, start: ReferenceDescription, p: Path): seq<Row>
    requires WellFormed(p)
    decreases |p.nodes|, 0, 0
  {
    if |p.nodes| == 1 then [[start]] else BranchEach(s, start, AllNext(s, start.nodeId, p), Drop(p, 1))
  }

  function BranchEach(s: Space, start: ReferenceDescription, nexts: Row, rest: Path): seq<Row>
    requires WellFormed(rest)
    decreases |rest.nodes|, 1, |nexts|
  {
    if nexts == [] then []
    else Prefixed([start], Branch(s, nexts[0], rest)) + BranchEach(s, start, nexts[1..], rest)
  }

  lemma {:induction false} BranchEachMember(s: Space, start: ReferenceDescription, nexts: Row, rest: Path, row: Row)
    requires WellFormed(rest)
    ensures row in BranchEach(s, start, nexts, rest) <==>
            |row| > 0 && row[0] == start && exists d :: d in nexts && row[1..] in Branch(s, d, rest)
    decreases |nexts|
  {
    if nexts != [] {
      PrefixedMember([start], Branch(s, nexts[0], rest), row);
      BranchEachMember(s, start, nexts[1..], rest, row);
      assert row in BranchEach(s, start, nexts, rest) <==>
             row in Prefixed([start], Branch(s, nexts[0], rest)) || row in BranchEach(s, start, nexts[1..], rest);
      assert [start] <= row <==> |row| > 0 && row[0] == start;
      assert forall d :: d in nexts <==> d == nexts[0] || d in nexts[1..];
    }
  }

  /** The fast path takes nothing the general branch would not. */
  lemma {:induction false} FastRowsAreBranches(s: Space, start: ReferenceDescription, p: Path, row: Row)
    requires WellFormed(p) && row in Walk(s, start, p)
    ensures row in Branch(s, start, p)
    decreases |p.nodes|
  {
    if |p.nodes| > 1 {
      WalkEachMember(s, start, Next(s, start.nodeId, p), Drop(p, 1), row);
      var d :| d in Next(s, start.nodeId, p) && row[1..] in Walk(s, d, Drop(p, 1));
      FastRowsAreBranches(s, d, Drop(p, 1), row[1..]);
      assert d in AllNext(s, start.nodeId, p);
      BranchEachMember(s, start, AllNext(s, start.nodeId, p), Drop(p, 1), row);
    }
  }

  lemma IdsUnfold(row: Row)
    requires |row| > 0
    ensures Ids(row) == [row[0].nodeId] + Ids(row[1..])
  {
  }

  lemma BranchHead(s: Space, a: ReferenceDescription, p: Path, row: Row) returns (d: ReferenceDescription)
    requires WellFormed(p) && |p.nodes| >= 2 && row in Branch(s, a, p)
    ensures |row| > 0 && row[0] == a && d in AllNext(s, a.nodeId, p) && row[1..] in Branch(s, d, Drop(p, 1))
  {
    BranchEachMember(s, a, AllNext(s, a.nodeId, p), Drop(p, 1), row);
    d :| d in AllNext(s, a.nodeId, p) && row[1..] in Branch(s, d, Drop(p, 1));
  }

  /** Every branch has a fast row through the same nodes, also when the two start from different
      references to one node. */
  lemma {:induction false} BranchesHaveFastRows(s: Space, a: ReferenceDescription, b: ReferenceDescription, p: Path,
          row: Row)
    requires WellFormed(p) && a.nodeId == b.nodeId && row in Branch(s, a, p)
    ensures Yields(Walk(s, b, p), Ids(row))
    decreases |p.nodes|
  {
    if |p.nodes| == 1 {
      assert [b] in Walk(s, b, p) && Ids([b]) == Ids(row);
    } else {
      var d := BranchHead(s, a, p, row);
      var e := FastInstead(s, a.nodeId, p, d);
      BranchesHaveFastRows(s, d, e, Drop(p, 1), row[1..]);
      WalkPush(s, b, p, e, Ids(row[1..]));
      IdsUnfold(row);
    }
  }

  lemma FastInstead(s: Space, a: NodeId, p: Path, d: ReferenceDescription) returns (e: ReferenceDescription)
    requires WellFormed(p) && |p.nodes| >= 2 && d in AllNext(s, a, p)
    ensures e in Next(s, a, p) && e.nodeId == d.nodeId
  {
    var n := EnforcedHalf(p).nodes[1];
    if n.id.Some? {
      e := FirstWithId(Found(s, BrowseStep(a, p.relations[0], n.nodeClass)), n.id.value)[0];
    } else {
      e := d;
    }
  }

  /** In every address space, capped or not, the fast path yields the same node sequences as
      following every reference. */
  lemma FastPathRefines(s: Space, start: ReferenceDescription, p: Path, w: seq<NodeId>)
    requires WellFormed(p)
    ensures Yields(Walk(s, start, p), w) <==> Yields(Branch(s, start, p), w)
  {
    if Yields(Walk(s, start, p), w) {
      var row :| row in Walk(s, start, p) && Ids(row) == w;
      FastRowsAreBranches(s, start, p, row);
    } else if Yields(Branch(s, start, p), w) {
      var row :| row in Branch(s, start, p) && Ids(row) == w;
      BranchesHaveFastRows(s, start, start, p, row);
    }
  }

  // ---------------------------------------------------------------- without parallel references

  ghost predicate NoParallels(s: Space) {
    forall bd, i, j :: 0 <= i < j < |Found(s, bd)| ==> Found(s, bd)[i].nodeId != Found(s, bd)[j].nodeId
  }

  lemma {:induction false} MeetingIsFirst(refs: Row, n: Node)
    requires n.id.Some? && n.typeDefinitionId.None?
    requires forall i, j :: 0 <= i < j < |refs| ==> refs[i].nodeId != refs[j].nodeId
    ensures Meeting(refs, n) == FirstWithId(refs, n.id.value)
  {
    if refs != [] {
      MeetingIsFirst(refs[1..], n);
      if refs[0].nodeId == n.id.value {
        assert forall d :: d in refs[1..] ==> d.nodeId != refs[0].nodeId;
        assert Meeting(refs[1..], n) == [];
      }
    }
  }

  lemma {:induction false} MeetingIsOfType(refs: Row, n: Node)
    requires n.id.None?
    ensures Meeting(refs, n) == OfType(refs, n.typeDefinitionId)
  {
    if refs != [] { MeetingIsOfType(refs[1..], n); }
  }

  /** Where no two references lead from one node to another, the two agree row by row. */
  lemma {:induction false} FastPathIsExact(s: Space, start: ReferenceDescription, p: Path)
    requires WellFormed(p) && NoParallels(s)
    ensures Walk(s, start, p) == Branch(s, start, p)
    decreases |p.nodes|, 0, 0
  {
    if |p.nodes| > 1 {
      var n := EnforcedHalf(p).nodes[1];
      var bd := BrowseStep(start.nodeId, p.relations[0], n.nodeClass);
      if n.id.Some? { MeetingIsFirst(Found(s, bd), n); } else { MeetingIsOfType(Found(s, bd), n); }
      FastEachIsExact(s, start, Next(s, start.nodeId, p), Drop(p, 1));
    }
  }

  lemma {:induction false} FastEachIsExact(s: Space, start: ReferenceDescription, nexts: Row, rest: Path)
    requires WellFormed(rest) && NoParallels(s)
    ensures WalkEach(s, start, nexts, rest) == BranchEach(s, start, nexts, rest)
    decreases |rest.nodes|, 1, |nexts|
  {
    if nexts != [] {
      FastPathIsExact(s, nexts[0], rest);
      FastEachIsExact(s, start, nexts[1..], rest);
    }
  }

  // ---------------------------------------------------------------- which reference it takes

  lemma {:induction false} FirstIsFirst(refs: Row, id: NodeId) returns (i: nat)
    requires FirstWithId(refs, id) != []
    ensures i < |refs| && FirstWithId(refs, id) == [refs[i]] && refs[i].nodeId == id
    ensures forall j :: 0 <= j < i ==> refs[j].nodeId != id
  {
    if refs[0].nodeId == id {
      i := 0;
    } else {
      var k := FirstIsFirst(refs[1..], id);
      i := k + 1;
      assert refs[i] == refs[1..][k];
      assert forall j :: 0 < j < i ==> refs[j] == refs[1..][j - 1];
    }
  }

  /** `d` is the entry of the first reference of the space that leads from `a` to `b` as the relation says. */
  ghost predicate FirstAlong(s: Space, a: NodeId, r: Relation, b: NodeId, d: ReferenceDescription) {
    exists k :: 0 <= k < |s.references| && FirstAt(s, a, r, b, k) && EntryAlong(s, a, r, b, s.references[k], d)
  }

  predicate GoesAlong(s: Space, a: NodeId, r: Relation, b: NodeId, x: Reference) {
    && OfReferenceType(s, x, r.referenceType)
    && ((r.direction != Inverse && x.source == a && x.target == b)
        || (r.direction != Forward && x.target == a && x.source == b))
  }

  ghost predicate FirstAt(s: Space, a: NodeId, r: Relation, b: NodeId, k: nat)
    requires k < |s.references|
  {
    GoesAlong(s, a, r, b, s.references[k]) && forall j :: 0 <= j < k ==> !GoesAlong(s, a, r, b, s.references[j])
  }

  predicate EntryAlong(s: Space, a: NodeId, r: Relation, b: NodeId, x: Reference, d: ReferenceDescription) {
    var forward := r.direction != Inverse && x.source == a && x.target == b;
    d == ReferenceDescription(b, ClassOf(s, b), TypeOf(s, b), x.referenceType, forward)
  }

  lemma FirstEntryIsAlong(s: Space, a: NodeId, r: Relation, c: NodeClass, b: NodeId, k: nat, d: ReferenceDescription)
    requires FirstEntryTo(s, BrowseStep(a, r, c), b, k, d)
    ensures FirstAlong(s, a, r, b, d)
  {
    var bd := BrowseStep(a, r, c);
    forall j | 0 <= j < |s.references| && (c == Unspecified || ClassOf(s, b) == c)
      ensures LeadsTo(s, bd, s.references[j], b) <==> GoesAlong(s, a, r, b, s.references[j])
    {
      hide OfReferenceType, ClassOf;
    }
    var forward :| IsFirstEnd(s, bd, s.references[k], b, forward) && IsEntry(s, bd, s.references[k], forward, d);
    hide OfReferenceType, ClassOf, TypeOf;
    assert LeadsTo(s, bd, s.references[k], b);
    assert FirstAt(s, a, r, b, k) && EntryAlong(s, a, r, b, s.references[k], d);
  }

  lemma NextIsFirst(s: Space, a: NodeId, p: Path, d: ReferenceDescription)
    requires WellFormed(p) && |p.nodes| >= 2 && p.nodes[1].id.Some? && d in Next(s, a, p)
    ensures FirstAlong(s, a, p.relations[0], p.nodes[1].id.value, d)
  {
    var n := p.nodes[1];
    var bd := BrowseStep(a, p.relations[0], n.nodeClass);
    UnknownIsBad(s, bd);
    hide Found, Browse;
    var i := FirstIsFirst(Found(s, bd), n.id.value);
    var k := FirstFound(s, bd, i);
    FirstEntryIsAlong(s, a, p.relations[0], n.nodeClass, n.id.value, k, d);
  }

  /** In every row `check` returns, the element at a position with an id is the entry of the first reference of
      the space that leads to that id from the element before, in the relation's direction and of its type. */
  lemma IdTakesFirstReference(s: Space, start: ReferenceDescription, p: Path, row: Row, i: nat)
    requires WellFormed(p) && Check(s, start, p).Ok? && row in Check(s, start, p).value
    requires 1 <= i < |p.nodes| && p.nodes[i].id.Some?
    ensures |row| == |p.nodes| && FirstAlong(s, row[i - 1].nodeId, p.relations[i - 1], p.nodes[i].id.value, row[i])
  {
    if Supported(p) {
      CheckIsWalk(s, start, p);
      WalkMember(s, start, p, row);
      hide Check, Walk, Next, FirstAlong;
      NextIsFirst(s, row[i - 1].nodeId, Drop(p, i - 1), row[i]);
    } else {
      CheckUnsupported(s, start, p);
    }
  }
}
