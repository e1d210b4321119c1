/** The whole of a Browse result, entry by entry and in order, in terms of the references of the space. */
module BrowseResults {
  import opened AddressSpace

  /** An end of a reference, by the reference's place in the space and whether it is the forward one. */
  datatype End = End(place: nat, forward: bool)

  function OtherNode(r: Reference, forward: bool): NodeId {
    if forward then r.target else r.source
  }

  function ClassOf(s: Space, n: NodeId): NodeClass {
    if n in s.nodes then s.nodes[n].nodeClass else Unspecified
  }

  function TypeOf(s: Space, n: NodeId): NodeId {
    if n in s.nodes then s.nodes[n].typeDefinition else NullId
  }

  /** The reference is of the type or of a subtype of it; the null type stands for any. */
  predicate OfReferenceType(s: Space, r: Reference, refType: NodeId) {
    refType == NullId || r.referenceType == refType || (r.referenceType, refType) in s.subtypes
  }

  /** The description asks for this end of the reference. */
  predicate AsksFor(s: Space, bd: BrowseDescription, r: Reference, forward: bool) {
    && bd.nodeId == OtherNode(r, !forward)
    && (bd.direction == Both || bd.direction == (if forward then Forward else Inverse))
    && OfReferenceType(s, r, bd.referenceType)
    && (bd.classMask == {} || ClassOf(s, OtherNode(r, forward)) in bd.classMask)
  }

  /** The entry for that end: the node there with its class and type, and, only when asked for, the type
      and direction of the reference. */
  predicate IsEntry(s: Space, bd: BrowseDescription, r: Reference, forward: bool, d: ReferenceDescription) {
    var n := OtherNode(r, forward);
    d == if bd.withReference then ReferenceDescription(n, ClassOf(s, n), TypeOf(s, n), r.referenceType, forward)
         else ReferenceDescription(n, ClassOf(s, n), TypeOf(s, n), NullId, false)
  }

  predicate IsAsked(s: Space, bd: BrowseDescription, end: End) {
    end.place < |s.references| && AsksFor(s, bd, s.references[end.place], end.forward)
  }

  /** In the order of the references, the forward end of each first. */
  predicate EndBefore(a: End, b: End) {
    a.place < b.place || (a.place == b.place && a.forward && !b.forward)
  }

  ghost predicate EndsInOrder(ends: seq<End>) {
    forall i, j :: 0 <= i < j < |ends| ==> EndBefore(ends[i], ends[j])
  }

  /** The ends asked for, of the references from place `k` on. */
  function EndsFrom(s: Space, bd: BrowseDescription, k: nat): seq<End>
    requires k <= |s.references|
    decreases |s.references| - k
  {
    if k == |s.references| then []
    else
      (if AsksFor(s, bd, s.references[k], true) then [End(k, true)] else [])
      + (if AsksFor(s, bd, s.references[k], false) then [End(k, false)] else [])
      + EndsFrom(s, bd, k + 1)
  }

  lemma {:induction false} EndsFromMember(s: Space, bd: BrowseDescription, k: nat, end: End)
    requires k <= |s.references|
    ensures end in EndsFrom(s, bd, k) <==> k <= end.place && IsAsked(s, bd, end)
    decreases |s.references| - k
  {
    if k < |s.references| {
      EndsFromMember(s, bd, k + 1, end);
    }
  }

  lemma {:induction false} EndsFromOrder(s: Space, bd: BrowseDescription, k: nat)
    requires k <= |s.references|
    ensures EndsInOrder(EndsFrom(s, bd, k))
    decreases |s.references| - k
  {
    if k < |s.references| {
      EndsFromOrder(s, bd, k + 1);
      var later := EndsFrom(s, bd, k + 1);
      forall i | 0 <= i < |later| ensures later[i].place > k {
        EndsFromMember(s, bd, k + 1, later[i]);
        assert later[i] in later;
      }
      hide AsksFor;
      var first := if AsksFor(s, bd, s.references[k], true) then [End(k, true)] else [];
      var second := if AsksFor(s, bd, s.references[k], false) then [End(k, false)] else [];
      assert EndsFrom(s, bd, k) == first + second + later;
    }
  }

  ghost predicate Entries(s: Space, bd: BrowseDescription, ends: seq<End>, ds: seq<ReferenceDescription>) {
    |ds| <= |ends| && forall i :: 0 <= i < |ds| ==> EntryAt(s, bd, ends[i], ds[i])
  }

  ghost predicate EntryAt(s: Space, bd: BrowseDescription, end: End, d: ReferenceDescription) {
    end.place < |s.references| && IsEntry(s, bd, s.references[end.place], end.forward, d)
  }

  lemma EndsOfOne(s: Space, bd: BrowseDescription, k: nat)
    requires k < |s.references|
    ensures var r := s.references[k];
            DescribeEnds(s, bd, r) ==
            (if AsksFor(s, bd, r, true) then [Describe(s, bd, r, true)] else [])
            + (if AsksFor(s, bd, r, false) then [Describe(s, bd, r, false)] else [])
    ensures IsEntry(s, bd, s.references[k], true, Describe(s, bd, s.references[k], true))
    ensures IsEntry(s, bd, s.references[k], false, Describe(s, bd, s.references[k], false))
  {
  }

  lemma EntriesJoined(s: Space, bd: BrowseDescription, a: seq<End>, x: seq<ReferenceDescription>, b: seq<End>,
          y: seq<ReferenceDescription>)
    requires Entries(s, bd, a, x) && |a| == |x| && Entries(s, bd, b, y) && |b| == |y|
    ensures Entries(s, bd, a + b, x + y)
  {
    hide EntryAt;
  }

  lemma {:induction false} AllEntries(s: Space, bd: BrowseDescription, k: nat)
    requires k <= |s.references|
    ensures |EndsFrom(s, bd, k)| == |DescribeAll(s, bd, s.references[k..])|
    ensures Entries(s, bd, EndsFrom(s, bd, k), DescribeAll(s, bd, s.references[k..]))
    decreases |s.references| - k
  {
    if k < |s.references| {
      AllEntries(s, bd, k + 1);
      EndsOfOne(s, bd, k);
      hide AsksFor, IsEntry, Describe, DescribeEnds;
      var r, rest := s.references[k], s.references[k + 1..];
      assert s.references[k..][0] == r && s.references[k..][1..] == rest;
      var first := if AsksFor(s, bd, r, true) then [End(k, true)] else [];
      var second := if AsksFor(s, bd, r, false) then [End(k, false)] else [];
      EntriesJoined(s, bd, first + second, DescribeEnds(s, bd, r), EndsFrom(s, bd, k + 1), DescribeAll(s, bd, rest));
    }
  }

  /** The whole of a Browse result: entries for the ends the description asks for, all of them in the order
      of the references, or the first 1000 where there are more. */
  lemma FoundInOrder(s: Space, bd: BrowseDescription) returns (ends: seq<End>)
    requires bd.nodeId in s.nodes
    ensures EndsInOrder(ends)
    ensures forall end: End :: end in ends <==> IsAsked(s, bd, end)
    ensures |Found(s, bd)| == if |ends| < 1000 then |ends| else 1000
    ensures Entries(s, bd, ends, Found(s, bd))
  {
    ends := EndsFrom(s, bd, 0);
    assert s.references[0..] == s.references;
    AllEntries(s, bd, 0);
    EndsFromOrder(s, bd, 0);
    forall end: End
      ensures end in ends <==> IsAsked(s, bd, end)
    {
      EndsFromMember(s, bd, 0, end);
    }
  }

  /** Browsing a node that is not there fails. */
  lemma UnknownIsBad(s: Space, bd: BrowseDescription)
    ensures Browse(s, bd).Bad? <==> bd.nodeId !in s.nodes
    ensures bd.nodeId !in s.nodes ==> Found(s, bd) == []
  {
  }

  /** The reference at place `k` is the first one that leads to `b` as asked, and `d` is the entry for it. A
      loop is entered forwards first. */
  ghost predicate FirstEntryTo(s: Space, bd: BrowseDescription, b: NodeId, k: nat, d: ReferenceDescription) {
    && k < |s.references|
    && (forall j :: 0 <= j < k ==> !LeadsTo(s, bd, s.references[j], b))
    && exists forward :: IsFirstEnd(s, bd, s.references[k], b, forward) && IsEntry(s, bd, s.references[k], forward, d)
  }

  predicate EndLeadsTo(s: Space, bd: BrowseDescription, r: Reference, b: NodeId, forward: bool) {
    AsksFor(s, bd, r, forward) && OtherNode(r, forward) == b
  }

  predicate LeadsTo(s: Space, bd: BrowseDescription, r: Reference, b: NodeId) {
    EndLeadsTo(s, bd, r, b, true) || EndLeadsTo(s, bd, r, b, false)
  }

  predicate IsFirstEnd(s: Space, bd: BrowseDescription, r: Reference, b: NodeId, forward: bool) {
    EndLeadsTo(s, bd, r, b, forward) && (!forward ==> !EndLeadsTo(s, bd, r, b, true))
  }

  /** The first entry of a result for a node is that of the first reference that leads to it, whether or not
      the call is cut short. */
  lemma FirstFound(s: Space, bd: BrowseDescription, i: nat) returns (k: nat)
    requires bd.nodeId in s.nodes && i < |Found(s, bd)|
    requires forall j :: 0 <= j < i ==> Found(s, bd)[j].nodeId != Found(s, bd)[i].nodeId
    ensures FirstEntryTo(s, bd, Found(s, bd)[i].nodeId, k, Found(s, bd)[i])
  {
    var found, b := Found(s, bd), Found(s, bd)[i].nodeId;
    var ends := FoundInOrder(s, bd);
    hide Found, AsksFor;
    assert EntryAt(s, bd, ends[i], found[i]);
    assert ends[i] in ends;
    k := ends[i].place;
    forall m | 0 <= m < i ensures OtherNode(s.references[ends[m].place], ends[m].forward) != b {
      assert EntryAt(s, bd, ends[m], found[m]) && ends[m] in ends;
    }
    forall j, f | 0 <= j < |s.references| && EndLeadsTo(s, bd, s.references[j], b, f)
      ensures End(j, f) == ends[i] || EndBefore(ends[i], End(j, f))
    {
      assert End(j, f) in ends;
      var m :| 0 <= m < |ends| && ends[m] == End(j, f);
    }
    assert IsFirstEnd(s, bd, s.references[k], b, ends[i].forward);
  }

  /** A result is empty exactly when the description asks for no end of any reference. */
  lemma FoundNothing(s: Space, bd: BrowseDescription)
    requires bd.nodeId in s.nodes
    ensures Found(s, bd) == [] <==> forall k, f :: 0 <= k < |s.references| ==> !AsksFor(s, bd, s.references[k], f)
  {
    var ends := FoundInOrder(s, bd);
    hide Found, AsksFor;
    if Found(s, bd) == [] {
      forall k, f | 0 <= k < |s.references| ensures !AsksFor(s, bd, s.references[k], f) {
        assert End(k, f) !in ends;
      }
    } else {
      assert ends[0] in ends;
    }
  }
}
