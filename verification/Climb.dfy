/** The climb from a node to the root of its hierarchy, and what it says about a visitor that
    starts there. */
module Climb {
  import opened Wrappers
  import opened Sequences
  import opened AddressSpace
  import opened BrowseResults
  import opened Matching
  import opened Visitors

  const MAX_PATH_LENGTH: nat := 100

  function BrowseParents(n: NodeId): BrowseDescription {
    BrowseDescription(n, Inverse, HIERARCHICAL_REFERENCES, {}, false)
  }

  /** The first hierarchical parent. */
  function Parent(s: Space, n: NodeId): Option<ReferenceDescription> {
    var refs := Found(s, BrowseParents(n));
    if refs == [] then None else Some(refs[0])
  }

  /** The reference leads from above to `n`: it is of type HierarchicalReferences, or of a subtype. */
  predicate IsFromAbove(s: Space, n: NodeId, r: Reference) {
    r.target == n && (r.referenceType == Numeric(0, 33) || (r.referenceType, Numeric(0, 33)) in s.subtypes)
  }

  /** No hierarchical reference of the space leads to the node. */
  ghost predicate HasNoParent(s: Space, n: NodeId) {
    forall r :: r in s.references ==> !IsFromAbove(s, n, r)
  }

  /** The first hierarchical reference that leads to the node. */
  ghost predicate IsFirstFromAbove(s: Space, n: NodeId, k: nat) {
    k < |s.references| && IsFromAbove(s, n, s.references[k]) && forall j :: 0 <= j < k ==>
        !IsFromAbove(s, n, s.references[j])
  }

  /** The node at the other end of the first hierarchical reference that leads to `n`, of whatever class. */
  ghost predicate IsFirstParent(s: Space, n: NodeId, p: ReferenceDescription) {
    exists k: nat :: IsFirstFromAbove(s, n, k)
      && p == ReferenceDescription(s.references[k].source, ClassOf(s, s.references[k].source),
                                   TypeOf(s, s.references[k].source), NullId, false)
  }

  lemma AsksForAbove(s: Space, n: NodeId, r: Reference)
    ensures !AsksFor(s, BrowseParents(n), r, true)
    ensures AsksFor(s, BrowseParents(n), r, false) <==> IsFromAbove(s, n, r)
  {
  }

  /** The parent of a node is what the first hierarchical reference to it comes from, in the order of the
      space's references, and there is none exactly when no such reference leads to the node. */
  lemma ParentMeaning(s: Space, n: NodeId)
    requires Valid(s)
    ensures Parent(s, n).None? <==> HasNoParent(s, n)
    ensures Parent(s, n).None? <==> forall a :: !Hop(s, n, Inverse, Numeric(0, 33), a)
    ensures Parent(s, n).Some? ==> IsFirstParent(s, n, Parent(s, n).value)
  {
    ParentIsFirst(s, n);
    HopsFromAbove(s, n);
  }

  lemma HopsFromAbove(s: Space, n: NodeId)
    ensures HasNoParent(s, n) <==> forall a :: !Hop(s, n, Inverse, Numeric(0, 33), a)
  {
    if a :| Hop(s, n, Inverse, Numeric(0, 33), a) {
      var r :| r in s.references && TypeMatches(s, Numeric(0, 33), r.referenceType) && r.source == a && r.target == n;
      assert IsFromAbove(s, n, r);
    }
    if r :| r in s.references && IsFromAbove(s, n, r) {
      assert TypeMatches(s, Numeric(0, 33), r.referenceType);
      assert Hop(s, n, Inverse, Numeric(0, 33), r.source);
    }
  }

  lemma ParentIsFirst(s: Space, n: NodeId)
    requires Valid(s)
    ensures Parent(s, n).None? <==> HasNoParent(s, n)
    ensures Parent(s, n).Some? ==> IsFirstParent(s, n, Parent(s, n).value)
  {
    var bd := BrowseParents(n);
    forall r ensures !AsksFor(s, bd, r, true) && (AsksFor(s, bd, r, false) <==> IsFromAbove(s, n, r)) {
      AsksForAbove(s, n, r);
    }
    UnknownIsBad(s, bd);
    hide Found, Browse, AsksFor, IsFromAbove;
    if n !in s.nodes {
      NothingAboveUnknown(s, n);
    } else {
      FoundNothing(s, bd);
      if Found(s, bd) == [] {
        forall r | r in s.references ensures !IsFromAbove(s, n, r) {
          var k :| 0 <= k < |s.references| && s.references[k] == r;
          assert !AsksFor(s, bd, s.references[k], false);
        }
      } else {
        FirstIsParent(s, n);
      }
    }
  }

  lemma NothingAboveUnknown(s: Space, n: NodeId)
    requires Valid(s) && n !in s.nodes
    ensures HasNoParent(s, n)
  {
  }

  lemma FirstIsParent(s: Space, n: NodeId)
    requires n in s.nodes && Found(s, BrowseParents(n)) != []
    ensures !HasNoParent(s, n) && IsFirstParent(s, n, Found(s, BrowseParents(n))[0])
  {
    var bd := BrowseParents(n);
    var ends := FoundInOrder(s, bd);
    hide Found;
    assert EntryAt(s, bd, ends[0], Found(s, bd)[0]) && ends[0] in ends;
    var k := ends[0].place;
    AsksForAbove(s, n, s.references[k]);
    forall j | 0 <= j < |s.references| && IsFromAbove(s, n, s.references[j]) ensures k <= j {
      AsksForAbove(s, n, s.references[j]);
      assert End(j, false) in ends;
      var m :| 0 <= m < |ends| && ends[m] == End(j, false);
    }
    assert IsFirstFromAbove(s, n, k);
  }

  method GetInverseHierachicalReference(s: Space, n: NodeId) returns (r: Option<ReferenceDescription>)
    ensures r == Parent(s, n)
    ensures Valid(s) ==> (r.None? <==> HasNoParent(s, n)) && (r.Some? ==> IsFirstParent(s, n, r.value))
  {
    if Valid(s) {
      ParentMeaning(s, n);
    }
    var br := Browse(s, BrowseParents(n));
    if br.Good? {
      for i := 0 to |br.references|
        invariant i == 0
      {
        return Some(br.references[i]);
      }
    }
    return None;
  }

  /** Each element is the first parent of the one before it, and the first of `n`. */
  ghost predicate ParentChain(s: Space, n: NodeId, path: Row) {
    forall i :: 0 <= i < |path| ==> ParentAt(s, n, path, i)
  }

  /** The node from which the climb reached element `i`. */
  function Below(n: NodeId, path: Row, i: nat): NodeId
    requires i <= |path|
  {
    if i == 0 then n else path[i - 1].nodeId
  }

  ghost predicate ParentAt(s: Space, n: NodeId, path: Row, i: nat)
    requires i < |path|
  {
    Parent(s, Below(n, path, i)) == Some(path[i])
  }

  lemma ChainGrows(s: Space, n: NodeId, path: Row, p: ReferenceDescription)
    requires ParentChain(s, n, path) && Parent(s, Top(n, path)) == Some(p)
    ensures ParentChain(s, n, path + [p])
  {
    hide Parent;
    forall i | 0 <= i < |path + [p]| ensures ParentAt(s, n, path + [p], i) {
      if i < |path| { assert ParentAt(s, n, path, i); }
    }
  }

  /** The climb goes from each node to what its first hierarchical reference comes from. It ends after 100
      steps, or at a node no such reference leads to. */
  method GetPathToParentNode(s: Space, n: NodeId) returns (path: Row)
    ensures ParentChain(s, n, path) && |path| <= MAX_PATH_LENGTH
    ensures |path| < MAX_PATH_LENGTH ==> Parent(s, Top(n, path)).None?
    ensures Valid(s) ==> ClimbsFirstParents(s, n, path)
    ensures |path| <= 100 && (Valid(s) && |path| < 100 ==> HasNoParent(s, Top(n, path)))
  {
    path := [];
    var actNode := n;
    var i := 0;
    while i < MAX_PATH_LENGTH
      invariant i <= MAX_PATH_LENGTH && |path| == i && ParentChain(s, n, path) && actNode == Top(n, path)
    {
      var parent := GetInverseHierachicalReference(s, actNode);
      if parent.None? {
        break;
      }
      actNode := parent.value.nodeId;
      ChainGrows(s, n, path, parent.value);
      path := path + [parent.value];
      i := i + 1;
    }
    ClimbMeaning(s, n, path);
  }

  ghost predicate ClimbsFirstParents(s: Space, n: NodeId, path: Row) {
    forall i :: 0 <= i < |path| ==> IsFirstParent(s, Below(n, path, i), path[i])
  }

  lemma ClimbMeaning(s: Space, n: NodeId, path: Row)
    requires ParentChain(s, n, path)
    ensures Valid(s) ==> ClimbsFirstParents(s, n, path)
    ensures Valid(s) ==> (Parent(s, Top(n, path)).None? <==> HasNoParent(s, Top(n, path)))
  {
    if Valid(s) {
      ParentMeaning(s, Top(n, path));
      hide Parent, IsFirstParent, Hop, HasNoParent;
      forall i | 0 <= i < |path| ensures IsFirstParent(s, Below(n, path, i), path[i]) {
        assert ParentAt(s, n, path, i);
        ParentMeaning(s, Below(n, path, i));
      }
    }
  }

  /** Where a climb ends. */
  function Top(n: NodeId, path: Row): NodeId {
    if path == [] then n else path[|path| - 1].nodeId
  }

  /** The chain of first parents upwards from `n` is no longer than `d`. */
  predicate HeightAtMost(s: Space, n: NodeId, d: nat)
    decreases d
  {
    Parent(s, n).Some? ==> d > 0 && HeightAtMost(s, Parent(s, n).value.nodeId, d - 1)
  }

  lemma {:induction false} ChainIsBounded(s: Space, n: NodeId, path: Row, d: nat)
    requires ParentChain(s, n, path) && HeightAtMost(s, n, d)
    ensures |path| <= d
    decreases |path|
  {
    hide Parent;
    if path != [] {
      assert ParentAt(s, n, path, 0);
      forall i | 0 <= i < |path[1..]| ensures ParentAt(s, path[0].nodeId, path[1..], i) {
        assert ParentAt(s, n, path, i + 1);
      }
      ChainIsBounded(s, path[0].nodeId, path[1..], d - 1);
    }
  }

  /** Two climbs from one node agree as far as both go. */
  lemma {:induction false} ChainsAgree(s: Space, n: NodeId, a: Row, b: Row, i: nat)
    requires ParentChain(s, n, a) && ParentChain(s, n, b) && i < |a| && i < |b|
    ensures a[i] == b[i]
    decreases i
  {
    if i > 0 {
      ChainsAgree(s, n, a, b, i - 1);
    }
    assert ParentAt(s, n, a, i) && ParentAt(s, n, b, i);
  }

  /** What the climb returns is determined, and where the chain of first parents above the node is no longer
      than the limit it ends at a node without parents. */
  lemma ClimbReachesTop(s: Space, n: NodeId, path: Row, d: nat)
    requires ParentChain(s, n, path) && |path| <= MAX_PATH_LENGTH
    requires |path| < MAX_PATH_LENGTH ==> Parent(s, Top(n, path)).None?
    requires HeightAtMost(s, n, d) && d <= MAX_PATH_LENGTH
    ensures |path| <= d && Parent(s, Top(n, path)).None? && (Valid(s) ==> HasNoParent(s, Top(n, path)))
    ensures forall other: Row :: ParentChain(s, n, other) && Parent(s, Top(n, other)).None? ==> other == path
  {
    ChainIsBounded(s, n, path, d);
    ClimbMeaning(s, n, path);
    if p: ReferenceDescription :| Parent(s, Top(n, path)) == Some(p) {
      ChainGrows(s, n, path, p);
      ChainIsBounded(s, n, path + [p], d);
    }
    forall other: Row | ParentChain(s, n, other) && Parent(s, Top(n, other)).None? ensures other == path {
      CompleteClimbIsLongest(s, n, path, other);
      CompleteClimbIsLongest(s, n, other, path);
      forall i | 0 <= i < |path| ensures path[i] == other[i] {
        ChainsAgree(s, n, path, other, i);
      }
    }
  }

  lemma CompleteClimbIsLongest(s: Space, n: NodeId, path: Row, other: Row)
    requires ParentChain(s, n, path) && Parent(s, Top(n, path)).None?
    requires ParentChain(s, n, other)
    ensures |other| <= |path|
  {
    forall i | 0 <= i < |path| && i < |other| ensures path[i] == other[i] {
      ChainsAgree(s, n, path, other, i);
    }
    assert |path| < |other| ==> Below(n, other, |path|) == Top(n, path);
    assert |path| < |other| ==> ParentAt(s, n, other, |path|);
  }

  /** The climb read from its end down to the node. */
  function Downwards(n: NodeId, path: Row): seq<NodeId> {
    Reverse(seq(|path| + 1, i requires 0 <= i <= |path| => Below(n, path, i)))
  }

  lemma ClimbIsWalk(v: Visitor, n: NodeId, path: Row)
    requires v.referenceType == HIERARCHICAL_REFERENCES && ParentChain(v.server, n, path)
    requires var down := Downwards(n, path);
             forall i :: 1 <= i < |down| ==>
               GoesThrough(v.wanted, Info(v.server, down[i]).nodeClass)
    ensures HierarchyWalk(v, Downwards(n, path))
  {
    hide Hop, Parent;
    var down := Downwards(n, path);
    forall i | 0 <= i < |down| - 1 ensures AllowedHop(v, down[i], down[i + 1]) {
      var k := |path| - 1 - i;
      assert ParentAt(v.server, n, path, k);
      ParentIsHop(v.server, Below(n, path, k), path[k]);
      assert down[i] == path[k].nodeId && down[i + 1] == Below(n, path, k);
    }
  }

  lemma ParentIsHop(s: Space, child: NodeId, p: ReferenceDescription)
    requires Parent(s, child) == Some(p)
    ensures Hop(s, p.nodeId, Forward, HIERARCHICAL_REFERENCES, child)
  {
    BrowseSound(s, BrowseParents(child), p);
    HopMirrored(s, child, Inverse, HIERARCHICAL_REFERENCES, p.nodeId);
  }

  /** The climb backwards is a walk down the hierarchy, so a visitor rooted where it ends emits the
      node it started from, if the visitor's mask allows every node below the root on the way and no
      browse of the visitor is cut short. */
  lemma ClimbIsVisited(v: Visitor, n: NodeId, path: Row)
    requires Valid(v.server) && BrowsedBelow(v) && Terminates(v)
    requires v.referenceType == HIERARCHICAL_REFERENCES && n in v.server.nodes
    requires ParentChain(v.server, n, path) && v.root == Top(n, path)
    requires v.wanted == Info(v.server, n).nodeClass
    requires var down := Downwards(n, path);
             forall i :: 1 <= i < |down| ==>
               GoesThrough(v.wanted, Info(v.server, down[i]).nodeClass)
    ensures exists e :: e in Emitted(v) && e.nodeId == n
  {
    var down := Downwards(n, path);
    if path != [] {
      ClimbIsWalk(v, n, path);
      assert HierarchyWalk(v, down) && down[0] == v.root && down[|down| - 1] == n;
      assert Reaches(v, v.root, n);
      RootIsKnown(v, n, path);
    }
    EmittedMeaning(v, n);
  }

  lemma RootIsKnown(v: Visitor, n: NodeId, path: Row)
    requires Valid(v.server) && ParentChain(v.server, n, path) && path != []
    ensures Top(n, path) in v.server.nodes
  {
    var k := |path| - 1;
    assert ParentAt(v.server, n, path, k);
    BrowseSound(v.server, BrowseParents(Below(n, path, k)), path[k]);
  }
}
