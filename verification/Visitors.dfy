/** The depth-first source: which nodes a hierarchical visitor emits, how often and in which
    order, and when it comes to an end. */
module Visitors {
  import opened Sequences
  import opened AddressSpace
  import opened Matching

  datatype Visitor = Visitor(server: Space, root: NodeId, referenceType: NodeId, wanted: NodeClass)

  function CalculateNodeClassMaskForBrowse(wanted: NodeClass): set<NodeClass> {
    match wanted
    case Object => {Object, ObjectType}
    case Variable => {Variable, Object, ObjectType, Method}
    case ObjectType => {ObjectType}
    case DataType => {DataType}
    case ReferenceType => {ReferenceType}
    case _ => {Object, Variable, Method}
  }

  /** Whether a visitor that looks for one class goes through nodes of another. It does not look into every
      class that can hold what it looks for, and never passes on three of them. */
  predicate GoesThrough(wanted: NodeClass, through: NodeClass) {
    match through
    case Object => wanted in {Object, Variable, Method, VariableType, View, Unspecified}
    case ObjectType => wanted in {Object, Variable, ObjectType}
    case Method => wanted in {Variable, Method, VariableType, View, Unspecified}
    case Variable => wanted in {Variable, Method, VariableType, View, Unspecified}
    case DataType => wanted == DataType
    case ReferenceType => wanted == ReferenceType
    case VariableType => false
    case View => false
    case Unspecified => false
  }

  lemma MaskIsWhatItGoesThrough(wanted: NodeClass, c: NodeClass)
    ensures c in CalculateNodeClassMaskForBrowse(wanted) <==> GoesThrough(wanted, c)
    ensures CalculateNodeClassMaskForBrowse(wanted) != {}
    ensures GoesThrough(wanted, wanted) <==> wanted !in {Unspecified, VariableType, View}
  {
  }

  function BrowseChildren(v: Visitor, n: NodeId): BrowseDescription {
    BrowseDescription(n, Forward, v.referenceType, CalculateNodeClassMaskForBrowse(v.wanted), false)
  }

  function Children(v: Visitor, n: NodeId): Row {
    Found(v.server, BrowseChildren(v, n))
  }

  /** No chain of children below `n` is longer than `d`. */
  ghost predicate DepthAtMost(v: Visitor, n: NodeId, d: nat)
    decreases d
  {
    forall c :: c in Children(v, n) ==> d > 0 && DepthAtMost(v, c.nodeId, d - 1)
  }

  /** What `visit` passes to its callback below `n`. */
  ghost function Visit(v: Visitor, n: NodeId, d: nat): Row
    requires DepthAtMost(v, n, d)
    decreases d, 1, 0
  {
    VisitEach(v, Children(v, n), d)
  }

  ghost function VisitEach(v: Visitor, cs: Row, d: nat): Row
    requires forall c :: c in cs ==> d > 0 && DepthAtMost(v, c.nodeId, d - 1)
    decreases d, 0, |cs|
  {
    if cs == [] then []
    else
      assert cs[0] in cs && forall c :: c in cs[1..] ==> c in cs;
      (if cs[0].nodeClass == v.wanted then [cs[0]] else []) + Visit(v, cs[0].nodeId, d - 1) + VisitEach(v, cs[1..], d)
  }

  /** The root is emitted with its class and no type definition, whatever the wanted class. */
  function RootElement(v: Visitor): ReferenceDescription {
    ReferenceDescription(v.root, Info(v.server, v.root).nodeClass, NullId, NullId, false)
  }

  ghost predicate Terminates(v: Visitor) {
    DepthAtMost(v, v.root, |v.server.nodes|)
  }

  ghost function Emitted(v: Visitor): Row
    requires Terminates(v)
  {
    if v.root in v.server.nodes then [RootElement(v)] + Visit(v, v.root, |v.server.nodes|) else []
  }

  // ---------------------------------------------------------------- the depth bound is immaterial

  lemma {:induction false} DeeperIsFine(v: Visitor, n: NodeId, d: nat, e: nat)
    requires DepthAtMost(v, n, d) && d <= e
    ensures DepthAtMost(v, n, e)
    decreases d
  {
    forall c | c in Children(v, n) ensures e > 0 && DepthAtMost(v, c.nodeId, e - 1) {
      DeeperIsFine(v, c.nodeId, d - 1, e - 1);
    }
  }

  lemma {:induction false} VisitIgnoresBound(v: Visitor, n: NodeId, d: nat, e: nat)
    requires DepthAtMost(v, n, d) && DepthAtMost(v, n, e)
    ensures Visit(v, n, d) == Visit(v, n, e)
    decreases d, 1, 0
  {
    VisitEachIgnoresBound(v, Children(v, n), d, e);
  }

  lemma {:induction false} VisitEachIgnoresBound(v: Visitor, cs: Row, d: nat, e: nat)
    requires forall c :: c in cs ==> d > 0 && DepthAtMost(v, c.nodeId, d - 1)
    requires forall c :: c in cs ==> e > 0 && DepthAtMost(v, c.nodeId, e - 1)
    ensures VisitEach(v, cs, d) == VisitEach(v, cs, e)
    decreases d, 0, |cs|
  {
    if cs != [] {
      assert cs[0] in cs && forall c :: c in cs[1..] ==> c in cs;
      VisitIgnoresBound(v, cs[0].nodeId, d - 1, e - 1);
      VisitEachIgnoresBound(v, cs[1..], d, e);
    }
  }

  // ---------------------------------------------------------------- termination

  ghost predicate IsChild(v: Visitor, a: NodeId, b: NodeId) {
    exists c :: c in Children(v, a) && c.nodeId == b
  }

  ghost predicate Chain(v: Visitor, ns: seq<NodeId>) {
    |ns| > 0 && forall i :: 0 <= i < |ns| - 1 ==> IsChild(v, ns[i], ns[i + 1])
  }

  /** A chain of children from the root comes back to a node it has visited. */
  ghost predicate Cyclic(v: Visitor) {
    exists ns, i, j :: Chain(v, ns) && ns[0] == v.root && 0 <= i < j < |ns| && ns[i] == ns[j]
  }

  lemma ChainTail(v: Visitor, ns: seq<NodeId>)
    requires Chain(v, ns) && |ns| > 1
    ensures Chain(v, ns[1..]) && IsChild(v, ns[0], ns[1])
  {
    assert IsChild(v, ns[0], ns[0 + 1]);
    forall i | 0 <= i < |ns[1..]| - 1 ensures IsChild(v, ns[1..][i], ns[1..][i + 1]) {
      assert IsChild(v, ns[i + 1], ns[i + 1 + 1]);
    }
  }

  lemma ShallowerChild(v: Visitor, a: NodeId, b: NodeId, d: nat)
    requires DepthAtMost(v, a, d) && IsChild(v, a, b)
    ensures d > 0 && DepthAtMost(v, b, d - 1)
  {
    var c :| c in Children(v, a) && c.nodeId == b;
  }

  /** A chain that starts and ends at one node has no depth bound. */
  lemma {:induction false} LoopIsBottomless(v: Visitor, ns: seq<NodeId>, d: nat)
    requires Chain(v, ns) && |ns| > 1 && ns[|ns| - 1] == ns[0]
    ensures !DepthAtMost(v, ns[0], d)
    decreases d
  {
    hide Chain, IsChild, DepthAtMost;
    if DepthAtMost(v, ns[0], d) {
      ChainTail(v, ns);
      ShallowerChild(v, ns[0], ns[1], d);
      LoopTurned(v, ns);
      LoopIsBottomless(v, ns[1..] + [ns[1]], d - 1);
    }
  }

  lemma LoopTurned(v: Visitor, ns: seq<NodeId>)
    requires Chain(v, ns) && |ns| > 1 && ns[|ns| - 1] == ns[0]
    ensures Chain(v, ns[1..] + [ns[1]])
  {
    ChainTail(v, ns);
    hide IsChild;
    var rest, turned := ns[1..], ns[1..] + [ns[1]];
    forall i | 0 <= i < |turned| - 1 ensures IsChild(v, turned[i], turned[i + 1]) {
      if i + 1 < |rest| {
        assert IsChild(v, rest[i], rest[i + 1]);
      }
    }
  }

  lemma {:induction false} DepthAlongChain(v: Visitor, ns: seq<NodeId>, d: nat, i: nat)
    requires Chain(v, ns) && DepthAtMost(v, ns[0], d) && i < |ns|
    ensures exists e: nat :: DepthAtMost(v, ns[i], e)
    decreases i
  {
    if i > 0 {
      ChainTail(v, ns);
      DepthAlongChain(v, ns[1..], d - 1, i - 1);
      assert ns[1..][i - 1] == ns[i];
    }
  }

  lemma {:induction false} LongChain(v: Visitor, n: NodeId, d: nat) returns (ns: seq<NodeId>)
    requires Valid(v.server) && !DepthAtMost(v, n, d)
    ensures Chain(v, ns) && ns[0] == n && |ns| == d + 2
    ensures forall i :: 0 <= i < |ns| ==> ns[i] in v.server.nodes
    decreases d
  {
    var c :| c in Children(v, n) && !(d > 0 && DepthAtMost(v, c.nodeId, d - 1));
    BrowseSound(v.server, BrowseChildren(v, n), c);
    if d == 0 {
      ns := [n, c.nodeId];
    } else {
      var deeper := LongChain(v, c.nodeId, d - 1);
      ns := [n] + deeper;
      forall i | 0 <= i < |ns| - 1 ensures IsChild(v, ns[i], ns[i + 1]) {
        if i > 0 {
          assert IsChild(v, deeper[i - 1], deeper[i - 1 + 1]);
        }
      }
    }
  }

  lemma {:induction false} Pigeonhole(ns: seq<NodeId>, s: set<NodeId>)
    requires forall i :: 0 <= i < |ns| ==> ns[i] in s
    requires |ns| > |s|
    ensures exists i, j :: 0 <= i < j < |ns| && ns[i] == ns[j]
    decreases |ns|
  {
    var last := ns[|ns| - 1];
    var rest := ns[..|ns| - 1];
    if k :| 0 <= k < |rest| && rest[k] == last {
      assert ns[k] == ns[|ns| - 1];
    } else {
      assert |s - {last}| == |s| - 1;
      Pigeonhole(rest, s - {last});
      var i, j :| 0 <= i < j < |rest| && rest[i] == rest[j];
      assert ns[i] == ns[j];
    }
  }

  lemma PartOfChain(v: Visitor, ns: seq<NodeId>, i: nat, j: nat)
    requires Chain(v, ns) && i < j <= |ns|
    ensures Chain(v, ns[i..j])
  {
    hide IsChild;
    var part := ns[i..j];
    forall k | 0 <= k < |part| - 1 ensures IsChild(v, part[k], part[k + 1]) {
      assert IsChild(v, ns[i + k], ns[i + k + 1]);
    }
  }

  lemma CyclicIsBottomless(v: Visitor, d: nat)
    requires Cyclic(v)
    ensures !DepthAtMost(v, v.root, d)
  {
    var ns, i, j :| Chain(v, ns) && ns[0] == v.root && 0 <= i < j < |ns| && ns[i] == ns[j];
    hide Chain, DepthAtMost, Cyclic;
    if DepthAtMost(v, v.root, d) {
      DepthAlongChain(v, ns, d, i);
      var e: nat :| DepthAtMost(v, ns[i], e);
      PartOfChain(v, ns, i, j + 1);
      LoopIsBottomless(v, ns[i..j + 1], e);
    }
  }

  lemma BottomlessIsCyclic(v: Visitor)
    requires Valid(v.server) && !DepthAtMost(v, v.root, |v.server.nodes|)
    ensures Cyclic(v)
  {
    hide Chain, DepthAtMost;
    var ns := LongChain(v, v.root, |v.server.nodes|);
    assert |v.server.nodes.Keys| == |v.server.nodes|;
    Pigeonhole(ns, v.server.nodes.Keys);
  }

  /** The visitor keeps no record of visited nodes: its recursion has a depth bound, and then the
      number of nodes is one, exactly when no chain of allowed references from the root is
      cyclic. */
  lemma TerminatesIffAcyclic(v: Visitor)
    requires Valid(v.server)
    ensures Terminates(v) <==> !Cyclic(v)
    ensures (exists d: nat :: DepthAtMost(v, v.root, d)) <==> !Cyclic(v)
  {
    hide DepthAtMost, Cyclic;
    if Cyclic(v) {
      forall d: nat ensures !DepthAtMost(v, v.root, d) {
        CyclicIsBottomless(v, d);
      }
    } else {
      if !Terminates(v) {
        BottomlessIsCyclic(v);
      }
      var d: nat := |v.server.nodes|;
      assert DepthAtMost(v, v.root, d);
    }
  }

  // ---------------------------------------------------------------- walks by child index

  /** A walk below `n`, as the index of the child taken at each step. Parallel references are
      different walks. */
  ghost predicate ValidWalk(v: Visitor, n: NodeId, w: seq<nat>)
    decreases |w|
  {
    w == [] || (w[0] < |Children(v, n)| && ValidWalk(v, Children(v, n)[w[0]].nodeId, w[1..]))
  }

  ghost function WalkEnd(v: Visitor, n: NodeId, w: seq<nat>): ReferenceDescription
    requires w != [] && ValidWalk(v, n, w)
    decreases |w|
  {
    var c := Children(v, n)[w[0]];
    if |w| == 1 then c else WalkEnd(v, c.nodeId, w[1..])
  }

  /** Depth-first order: a walk comes before those that go on from it, and walks that part ways
      are ordered by where they do. */
  predicate Before(a: seq<nat>, b: seq<nat>) {
    b != [] && (a == [] || a[0] < b[0] || (a[0] == b[0] && Before(a[1..], b[1..])))
  }

  ghost predicate InOrder(ws: seq<seq<nat>>) {
    forall i, j :: 0 <= i < j < |ws| ==> Before(ws[i], ws[j])
  }

  lemma {:induction false} BeforeIsStrict(a: seq<nat>, b: seq<nat>)
    ensures Before(a, b) ==> a != b && !Before(b, a)
    ensures a != b ==> Before(a, b) || Before(b, a)
    decreases |a|
  {
    if a != [] && b != [] {
      BeforeIsStrict(a[1..], b[1..]);
      assert a == [a[0]] + a[1..] && b == [b[0]] + b[1..];
    }
  }

  /** All nonempty walks below `n`, those through child `i` and later ones. */
  ghost function Walks(v: Visitor, n: NodeId, d: nat, i: nat): seq<seq<nat>>
    requires DepthAtMost(v, n, d) && i <= |Children(v, n)|
    decreases d, |Children(v, n)| - i
  {
    if i == |Children(v, n)| then []
    else [[i]] + Prefixed([i], Walks(v, Children(v, n)[i].nodeId, d - 1, 0)) + Walks(v, n, d, i + 1)
  }

  lemma WalksThrough(v: Visitor, n: NodeId, i: nat, below: seq<seq<nat>>, w: seq<nat>)
    requires i < |Children(v, n)|
    requires w != [] ==> (w[1..] in below <==> w[1..] != [] && ValidWalk(v, Children(v, n)[i].nodeId, w[1..]))
    ensures w == [i] || w in Prefixed([i], below) <==> w != [] && w[0] == i && ValidWalk(v, n, w)
  {
    PrefixedMember([i], below, w);
    if w != [] && w[0] == i {
      assert [i] <= w && w == [i] + w[1..];
    }
  }

  lemma {:induction false} WalksMember(v: Visitor, n: NodeId, d: nat, i: nat, w: seq<nat>)
    requires DepthAtMost(v, n, d) && i <= |Children(v, n)|
    ensures w in Walks(v, n, d, i) <==> w != [] && i <= w[0] && ValidWalk(v, n, w)
    decreases d, |Children(v, n)| - i
  {
    if i < |Children(v, n)| {
      var c := Children(v, n)[i];
      var below := Walks(v, c.nodeId, d - 1, 0);
      WalksMember(v, n, d, i + 1, w);
      if w != [] {
        WalksMember(v, c.nodeId, d - 1, 0, w[1..]);
      }
      WalksThrough(v, n, i, below, w);
      assert w in Walks(v, n, d, i) <==> w == [i] || w in Prefixed([i], below) || w in Walks(v, n, d, i + 1);
    }
  }

  lemma {:induction false} WalksInOrder(v: Visitor, n: NodeId, d: nat, i: nat)
    requires DepthAtMost(v, n, d) && i <= |Children(v, n)|
    ensures InOrder(Walks(v, n, d, i))
    decreases d, |Children(v, n)| - i
  {
    if i < |Children(v, n)| {
      var below := Walks(v, Children(v, n)[i].nodeId, d - 1, 0);
      var through := Prefixed([i], below);
      var later := Walks(v, n, d, i + 1);
      WalksInOrder(v, Children(v, n)[i].nodeId, d - 1, 0);
      WalksInOrder(v, n, d, i + 1);
      forall k | 0 <= k < |below| ensures below[k] != [] {
        assert below[k] in below;
        WalksMember(v, Children(v, n)[i].nodeId, d - 1, 0, below[k]);
      }
      forall k, l | 0 <= k < l < |through| ensures Before(through[k], through[l]) {
        assert through[k][1..] == below[k] && through[l][1..] == below[l];
      }
      forall k | 0 <= k < |later| ensures later[k] != [] && i < later[k][0] {
        assert later[k] in later;
        WalksMember(v, n, d, i + 1, later[k]);
      }
      forall k | 0 <= k < |through| ensures Before([i], through[k]) {
        assert through[k][1..] == below[k];
      }
      OrderConcat([i], through, later);
    }
  }

  lemma OrderConcat(first: seq<nat>, mid: seq<seq<nat>>, later: seq<seq<nat>>)
    requires |first| == 1 && InOrder(mid) && InOrder(later)
    requires forall k :: 0 <= k < |mid| ==> Before(first, mid[k]) && mid[k] != [] && mid[k][0] == first[0]
    requires forall k :: 0 <= k < |later| ==> later[k] != [] && first[0] < later[k][0]
    ensures InOrder([first] + mid + later)
  {
    var all := [first] + mid + later;
    forall k, l | 0 <= k < l < |all| ensures Before(all[k], all[l]) {
      if 1 <= k && l < 1 + |mid| {
        assert Before(mid[k - 1], mid[l - 1]);
      } else if k >= 1 + |mid| {
        assert Before(later[k - 1 - |mid|], later[l - 1 - |mid|]);
      }
    }
  }

  /** The ends of the walks, in their order, where the class is the wanted one. */
  ghost function Ends(v: Visitor, n: NodeId, ws: seq<seq<nat>>): Row
    requires forall w :: w in ws ==> w != [] && ValidWalk(v, n, w)
  {
    if ws == [] then []
    else
      assert ws[0] in ws && forall w :: w in ws[1..] ==> w in ws;
      (if WalkEnd(v, n, ws[0]).nodeClass == v.wanted then [WalkEnd(v, n, ws[0])] else []) + Ends(v, n, ws[1..])
  }

  lemma {:induction false} EndsConcat(v: Visitor, n: NodeId, a: seq<seq<nat>>, b: seq<seq<nat>>)
    requires forall w :: w in a + b ==> w != [] && ValidWalk(v, n, w)
    ensures (forall w :: w in a ==> w in a + b) && (forall w :: w in b ==> w in a + b)
    ensures Ends(v, n, a + b) == Ends(v, n, a) + Ends(v, n, b)
    decreases |a|
  {
    if a == [] {
      assert a + b == b;
    } else {
      var rest := a[1..];
      assert (a + b)[0] == a[0] && (a + b)[0] in a + b && (a + b)[1..] == rest + b;
      assert forall w :: w in rest + b ==> w in a + b;
      EndsConcat(v, n, rest, b);
      var first := if WalkEnd(v, n, a[0]).nodeClass == v.wanted then [WalkEnd(v, n, a[0])] else [];
      ConcatAssociates(first, Ends(v, n, rest), Ends(v, n, b));
    }
  }

  lemma {:induction false} EndsThroughChild(v: Visitor, n: NodeId, i: nat, ws: seq<seq<nat>>)
    requires i < |Children(v, n)|
    requires forall w :: w in ws ==> w != [] && ValidWalk(v, Children(v, n)[i].nodeId, w)
    ensures forall w :: w in Prefixed([i], ws) ==> w != [] && ValidWalk(v, n, w)
    ensures Ends(v, n, Prefixed([i], ws)) == Ends(v, Children(v, n)[i].nodeId, ws)
  {
    var through := Prefixed([i], ws);
    forall w | w in through ensures w != [] && ValidWalk(v, n, w) {
      PrefixedMember([i], ws, w);
    }
    if ws != [] {
      assert ws[0] in ws && forall w :: w in ws[1..] ==> w in ws;
      EndsThroughChild(v, n, i, ws[1..]);
      assert through[0] == [i] + ws[0] && through[0][1..] == ws[0] && through[0] in through;
      assert through[1..] == Prefixed([i], ws[1..]);
    }
  }

  ghost function WalksBelow(v: Visitor, n: NodeId, d: nat): (ws: seq<seq<nat>>)
    requires DepthAtMost(v, n, d)
    ensures forall w :: w in ws <==> w != [] && ValidWalk(v, n, w)
  {
    var ws := Walks(v, n, d, 0);
    assert forall w :: w in ws <==> w != [] && ValidWalk(v, n, w) by {
      forall w ensures w in ws <==> w != [] && ValidWalk(v, n, w) {
        WalksMember(v, n, d, 0, w);
      }
    }
    ws
  }

  lemma WalksValid(v: Visitor, n: NodeId, d: nat, i: nat)
    requires DepthAtMost(v, n, d) && i <= |Children(v, n)|
    ensures forall w :: w in Walks(v, n, d, i) ==> w != [] && ValidWalk(v, n, w)
  {
    forall w | w in Walks(v, n, d, i) ensures w != [] && ValidWalk(v, n, w) {
      WalksMember(v, n, d, i, w);
    }
  }

  lemma EndsStep(v: Visitor, n: NodeId, i: nat, below: seq<seq<nat>>, later: seq<seq<nat>>)
    requires i < |Children(v, n)|
    requires forall w :: w in below ==> w != [] && ValidWalk(v, Children(v, n)[i].nodeId, w)
    requires forall w :: w in later ==> w != [] && ValidWalk(v, n, w)
    ensures var c := Children(v, n)[i];
            var all := [[i]] + Prefixed([i], below) + later;
            && (forall w :: w in all ==> w != [] && ValidWalk(v, n, w))
            && Ends(v, n, all) == (if c.nodeClass == v.wanted then [c] else []) + Ends(v, c.nodeId, below)
                + Ends(v, n, later)
  {
    EndsThroughChild(v, n, i, below);
    EndsConcat(v, n, [[i]] + Prefixed([i], below), later);
    EndsConcat(v, n, [[i]], Prefixed([i], below));
    assert WalkEnd(v, n, [i]) == Children(v, n)[i];
  }

  lemma {:induction false} VisitIsEnds(v: Visitor, n: NodeId, d: nat, i: nat)
    requires DepthAtMost(v, n, d) && i <= |Children(v, n)|
    ensures forall w :: w in Walks(v, n, d, i) ==> w != [] && ValidWalk(v, n, w)
    ensures VisitEach(v, Children(v, n)[i..], d) == Ends(v, n, Walks(v, n, d, i))
    decreases d, |Children(v, n)| - i
  {
    WalksValid(v, n, d, i);
    var cs := Children(v, n);
    if i < |cs| {
      var c := cs[i];
      WalksValid(v, c.nodeId, d - 1, 0);
      VisitIsEnds(v, c.nodeId, d - 1, 0);
      assert Children(v, c.nodeId)[0..] == Children(v, c.nodeId);
      VisitIsEnds(v, n, d, i + 1);
      EndsStep(v, n, i, Walks(v, c.nodeId, d - 1, 0), Walks(v, n, d, i + 1));
      assert cs[i..][0] == c && cs[i..][1..] == cs[i + 1..];
    }
  }

  /** What `generate` emits: the root, then the end of every nonempty walk of allowed references
      from the root whose class is the wanted one, once per walk, in depth-first order. */
  lemma EmittedWalks(v: Visitor)
    requires Terminates(v) && v.root in v.server.nodes
    ensures var ws := WalksBelow(v, v.root, |v.server.nodes|);
            InOrder(ws) && Emitted(v) == [RootElement(v)] + Ends(v, v.root, ws)
  {
    var d := |v.server.nodes|;
    VisitIsEnds(v, v.root, d, 0);
    WalksInOrder(v, v.root, d, 0);
    assert Children(v, v.root)[0..] == Children(v, v.root);
  }

  // ---------------------------------------------------------------- which nodes are emitted

  lemma EndsMember(v: Visitor, n: NodeId, ws: seq<seq<nat>>, e: ReferenceDescription)
    requires forall w :: w in ws ==> w != [] && ValidWalk(v, n, w)
    ensures e in Ends(v, n, ws) ==> e.nodeClass == v.wanted && exists w :: w in ws && WalkEnd(v, n, w) == e
    decreases |ws|
  {
    if ws != [] {
      assert ws[0] in ws && forall w :: w in ws[1..] ==> w in ws;
      EndsMember(v, n, ws[1..], e);
    }
  }

  ghost predicate DistinctNodes(es: Row) {
    forall i, j :: 0 <= i < j < |es| ==> es[i].nodeId != es[j].nodeId
  }

  /** The node a walk leads to, the root for the empty one. */
  ghost function WalkNode(v: Visitor, w: seq<nat>): NodeId
    requires ValidWalk(v, v.root, w)
  {
    if w == [] then v.root else WalkEnd(v, v.root, w).nodeId
  }

  /** Among the lists of children of the root and the nodes reached, no node stands twice, and the root in
      none. */
  ghost predicate IsTree(v: Visitor) {
    && (forall a, b, i, j |
          ValidWalk(v, v.root, a) && ValidWalk(v, v.root, b)
          && 0 <= i < |Children(v, WalkNode(v, a))| && 0 <= j < |Children(v, WalkNode(v, b))| ::
          Children(v, WalkNode(v, a))[i].nodeId == Children(v, WalkNode(v, b))[j].nodeId ==>
            WalkNode(v, a) == WalkNode(v, b) && i == j)
    && (forall a, i | ValidWalk(v, v.root, a) && 0 <= i < |Children(v, WalkNode(v, a))| ::
          Children(v, WalkNode(v, a))[i].nodeId != v.root)
  }

  lemma {:induction false} LastChild(v: Visitor, n: NodeId, w: seq<nat>)
    requires w != [] && ValidWalk(v, n, w)
    ensures var front, i := w[..|w| - 1], w[|w| - 1];
            && ValidWalk(v, n, front)
            && var m := if front == [] then n else WalkEnd(v, n, front).nodeId;
            i < |Children(v, m)| && WalkEnd(v, n, w) == Children(v, m)[i]
    decreases |w|
  {
    if |w| > 1 {
      var c := Children(v, n)[w[0]];
      LastChild(v, c.nodeId, w[1..]);
      assert w[1..][..|w| - 2] == w[..|w| - 1][1..];
    }
  }

  lemma LastNode(v: Visitor, w: seq<nat>)
    requires w != [] && ValidWalk(v, v.root, w)
    ensures var front, i := w[..|w| - 1], w[|w| - 1];
            && ValidWalk(v, v.root, front)
            && i < |Children(v, WalkNode(v, front))| && WalkNode(v, w) == Children(v, WalkNode(v, front))[i].nodeId
  {
    LastChild(v, v.root, w);
    hide ValidWalk, Children, WalkEnd;
  }

  lemma TreeRoot(v: Visitor, w: seq<nat>)
    requires IsTree(v) && ValidWalk(v, v.root, w)
    ensures WalkNode(v, w) == v.root <==> w == []
  {
    if w != [] { LastNode(v, w); }
    hide ValidWalk, Children, WalkEnd;
  }

  /** On a tree no node is the end of two walks from the root. */
  lemma {:induction false} EndsOnce(v: Visitor, a: seq<nat>, b: seq<nat>)
    requires IsTree(v) && ValidWalk(v, v.root, a) && ValidWalk(v, v.root, b)
    requires WalkNode(v, a) == WalkNode(v, b)
    ensures a == b
    decreases |a|
  {
    TreeRoot(v, a);
    TreeRoot(v, b);
    if a != [] && b != [] {
      LastNode(v, a);
      LastNode(v, b);
      hide ValidWalk, WalkEnd, Children, WalkNode;
      EndsOnce(v, a[..|a| - 1], b[..|b| - 1]);
      assert a == a[..|a| - 1] + [a[|a| - 1]] && b == b[..|b| - 1] + [b[|b| - 1]];
    }
  }

  lemma {:induction false} TreeEnds(v: Visitor, ws: seq<seq<nat>>)
    requires forall w :: w in ws ==> w != [] && ValidWalk(v, v.root, w)
    requires IsTree(v) && InOrder(ws)
    ensures DistinctNodes(Ends(v, v.root, ws))
    decreases |ws|
  {
    if ws != [] {
      assert ws[0] in ws && forall w :: w in ws[1..] ==> w in ws;
      var later := Ends(v, v.root, ws[1..]);
      forall i, j | 0 <= i < j < |ws[1..]| ensures Before(ws[1..][i], ws[1..][j]) {
        assert Before(ws[i + 1], ws[j + 1]);
      }
      TreeEnds(v, ws[1..]);
      forall k | 0 <= k < |later| ensures later[k].nodeId != WalkEnd(v, v.root, ws[0]).nodeId {
        EndsMember(v, v.root, ws[1..], later[k]);
        var w :| w in ws[1..] && WalkEnd(v, v.root, w) == later[k];
        var j :| 0 <= j < |ws[1..]| && ws[1..][j] == w;
        assert Before(ws[0], ws[j + 1]);
        BeforeIsStrict(ws[0], w);
        if later[k].nodeId == WalkEnd(v, v.root, ws[0]).nodeId {
          EndsOnce(v, ws[0], w);
        }
      }
    }
  }

  /** On a tree every node is emitted at most once. */
  lemma TreeEmitsOnce(v: Visitor)
    requires Terminates(v) && IsTree(v)
    ensures DistinctNodes(Emitted(v))
  {
    if v.root in v.server.nodes {
      EmittedWalks(v);
      var ws := WalksBelow(v, v.root, |v.server.nodes|);
      var es := Ends(v, v.root, ws);
      TreeEnds(v, ws);
      hide IsTree, Walks, Children, ValidWalk, WalkEnd;
      forall k | 0 <= k < |es| ensures es[k].nodeId != v.root {
        EndsMember(v, v.root, ws, es[k]);
        var w :| w in ws && WalkEnd(v, v.root, w) == es[k];
        TreeRoot(v, w);
      }
    }
  }

  /** A walk along references the mask allows, in terms of the address space alone. */
  ghost predicate HierarchyWalk(v: Visitor, ns: seq<NodeId>) {
    |ns| > 0 && forall i :: 0 <= i < |ns| - 1 ==> AllowedHop(v, ns[i], ns[i + 1])
  }

  ghost predicate AllowedHop(v: Visitor, a: NodeId, b: NodeId) {
    Hop(v.server, a, Forward, v.referenceType, b)
    && GoesThrough(v.wanted, Info(v.server, b).nodeClass)
  }

  ghost predicate Reaches(v: Visitor, n: NodeId, x: NodeId) {
    exists ns :: |ns| > 1 && HierarchyWalk(v, ns) && ns[0] == n && ns[|ns| - 1] == x
  }

  /** No browse for the children of the root, or of a node reached from it, is cut short. */
  ghost predicate BrowsedBelow(v: Visitor) {
    forall n :: n == v.root || Reaches(v, v.root, n) ==> NotCut(v.server, BrowseChildren(v, n))
  }

  ghost predicate BrowsedOnTheWay(v: Visitor, ns: seq<NodeId>) {
    forall i :: 0 <= i < |ns| - 1 ==> NotCut(v.server, BrowseChildren(v, ns[i]))
  }

  lemma WalksAreBrowsed(v: Visitor, ns: seq<NodeId>)
    requires BrowsedBelow(v) && |ns| > 0 && HierarchyWalk(v, ns) && ns[0] == v.root
    ensures BrowsedOnTheWay(v, ns)
  {
    hide AllowedHop, NotCut;
    forall i | 0 <= i < |ns| - 1 ensures NotCut(v.server, BrowseChildren(v, ns[i])) {
      if i > 0 {
        var front := ns[..i + 1];
        assert HierarchyWalk(v, front) && front[0] == v.root && front[|front| - 1] == ns[i];
      }
    }
  }

  lemma ReachesDirectly(v: Visitor, n: NodeId, x: NodeId)
    requires AllowedHop(v, n, x)
    ensures Reaches(v, n, x)
  {
    assert HierarchyWalk(v, [n, x]);
  }

  lemma ReachesThrough(v: Visitor, n: NodeId, c: NodeId, x: NodeId)
    requires AllowedHop(v, n, c) && Reaches(v, c, x)
    ensures Reaches(v, n, x)
  {
    var ns :| |ns| > 1 && HierarchyWalk(v, ns) && ns[0] == c && ns[|ns| - 1] == x;
    var longer := [n] + ns;
    forall i | 0 <= i < |longer| - 1 ensures AllowedHop(v, longer[i], longer[i + 1]) {
      if i > 0 { assert AllowedHop(v, ns[i - 1], ns[i - 1 + 1]); }
    }
    assert HierarchyWalk(v, longer);
  }

  lemma ChildIsAllowed(v: Visitor, n: NodeId, c: ReferenceDescription)
    requires c in Children(v, n)
    ensures AllowedHop(v, n, c.nodeId) && Describes(v.server, c) && (Valid(v.server) ==> c.nodeId in v.server.nodes)
  {
    BrowseSound(v.server, BrowseChildren(v, n), c);
  }

  lemma {:induction false} VisitEachSound(v: Visitor, n: NodeId, cs: Row, d: nat, e: ReferenceDescription)
    requires forall c :: c in cs ==> c in Children(v, n) && d > 0 && DepthAtMost(v, c.nodeId, d - 1)
    requires e in VisitEach(v, cs, d)
    ensures e.nodeClass == v.wanted && Reaches(v, n, e.nodeId) && Describes(v.server, e)
    decreases d, |cs|
  {
    var c := cs[0];
    assert c in cs && forall c :: c in cs[1..] ==> c in cs;
    ChildIsAllowed(v, n, c);
    if e == c && c.nodeClass == v.wanted {
      ReachesDirectly(v, n, c.nodeId);
    } else if e in Visit(v, c.nodeId, d - 1) {
      VisitEachSound(v, c.nodeId, Children(v, c.nodeId), d - 1, e);
      ReachesThrough(v, n, c.nodeId, e.nodeId);
    } else {
      VisitEachSound(v, n, cs[1..], d, e);
    }
  }

  lemma {:induction false} VisitEachHolds(v: Visitor, cs: Row, d: nat, c: ReferenceDescription)
    requires forall c :: c in cs ==> d > 0 && DepthAtMost(v, c.nodeId, d - 1)
    requires c in cs
    ensures c.nodeClass == v.wanted ==> c in VisitEach(v, cs, d)
    ensures forall e :: e in Visit(v, c.nodeId, d - 1) ==> e in VisitEach(v, cs, d)
    decreases |cs|
  {
    assert cs[0] in cs && forall c :: c in cs[1..] ==> c in cs;
    if c != cs[0] {
      VisitEachHolds(v, cs[1..], d, c);
    }
  }

  lemma {:induction false} VisitComplete(v: Visitor, ns: seq<NodeId>, d: nat)
    requires Valid(v.server) && BrowsedOnTheWay(v, ns)
    requires |ns| > 1 && HierarchyWalk(v, ns) && DepthAtMost(v, ns[0], d)
    requires Info(v.server, ns[|ns| - 1]).nodeClass == v.wanted
    ensures exists e :: e in Visit(v, ns[0], d) && e.nodeId == ns[|ns| - 1]
    decreases |ns|
  {
    assert AllowedHop(v, ns[0], ns[0 + 1]) && NotCut(v.server, BrowseChildren(v, ns[0]));
    BrowseComplete(v.server, BrowseChildren(v, ns[0]), ns[1]);
    var c :| c in Children(v, ns[0]) && c.nodeId == ns[1];
    ChildIsAllowed(v, ns[0], c);
    VisitEachHolds(v, Children(v, ns[0]), d, c);
    if |ns| > 2 {
      forall i | 0 <= i < |ns[1..]| - 1 ensures AllowedHop(v, ns[1..][i], ns[1..][i + 1]) {
        assert AllowedHop(v, ns[i + 1], ns[i + 1 + 1]);
      }
      assert forall i :: 0 <= i < |ns[1..]| - 1 ==> ns[1..][i] == ns[i + 1];
      VisitComplete(v, ns[1..], d - 1);
      var e :| e in Visit(v, ns[1..][0], d - 1) && e.nodeId == ns[1..][|ns[1..]| - 1];
      assert e in Visit(v, ns[0], d);
    } else {
      assert c in Visit(v, ns[0], d);
    }
  }

  /** Whatever the visitor passes on below its root is of the wanted class, comes with its own class
      and type, and is reached from the root along allowed nodes. */
  lemma VisitSound(v: Visitor, e: ReferenceDescription)
    requires Terminates(v) && e in Visit(v, v.root, |v.server.nodes|)
    ensures e.nodeClass == v.wanted && Reaches(v, v.root, e.nodeId) && Describes(v.server, e)
    ensures Valid(v.server) ==> e.nodeId in v.server.nodes
  {
    VisitEachSound(v, v.root, Children(v, v.root), |v.server.nodes|, e);
    if Valid(v.server) {
      var a := LastStep(v, e.nodeId);
    }
  }

  /** The last step of a walk that reaches a node. */
  lemma LastStep(v: Visitor, x: NodeId) returns (a: NodeId)
    requires Reaches(v, v.root, x)
    ensures AllowedHop(v, a, x)
    ensures Valid(v.server) ==> x in v.server.nodes && v.root in v.server.nodes
  {
    var ns :| |ns| > 1 && HierarchyWalk(v, ns) && ns[0] == v.root && ns[|ns| - 1] == x;
    a := ns[|ns| - 2];
    assert AllowedHop(v, a, ns[|ns| - 2 + 1]);
    assert AllowedHop(v, ns[0], ns[0 + 1]);
  }

  ghost predicate ChainsTo(v: Visitor, n: NodeId, x: NodeId) {
    exists ns :: |ns| > 1 && Chain(v, ns) && ns[0] == n && ns[|ns| - 1] == x
  }

  lemma ChainsThrough(v: Visitor, n: NodeId, c: NodeId, x: NodeId)
    requires IsChild(v, n, c) && (x == c || ChainsTo(v, c, x))
    ensures ChainsTo(v, n, x)
  {
    hide IsChild;
    if x == c {
      assert Chain(v, [n, c]);
    } else {
      var ns :| |ns| > 1 && Chain(v, ns) && ns[0] == c && ns[|ns| - 1] == x;
      var longer := [n] + ns;
      forall i | 0 <= i < |longer| - 1 ensures IsChild(v, longer[i], longer[i + 1]) {
        if i > 0 { assert IsChild(v, ns[i - 1], ns[i - 1 + 1]); }
      }
      assert Chain(v, longer);
    }
  }

  lemma {:induction false} VisitEachChains(v: Visitor, n: NodeId, cs: Row, d: nat, e: ReferenceDescription)
    requires forall c :: c in cs ==> c in Children(v, n) && d > 0 && DepthAtMost(v, c.nodeId, d - 1)
    requires e in VisitEach(v, cs, d)
    ensures ChainsTo(v, n, e.nodeId)
    decreases d, |cs|
  {
    var c := cs[0];
    assert c in cs && forall c :: c in cs[1..] ==> c in cs;
    assert IsChild(v, n, c.nodeId);
    if e == c && c.nodeClass == v.wanted {
      ChainsThrough(v, n, c.nodeId, e.nodeId);
    } else if e in Visit(v, c.nodeId, d - 1) {
      VisitEachChains(v, c.nodeId, Children(v, c.nodeId), d - 1, e);
      ChainsThrough(v, n, c.nodeId, e.nodeId);
    } else {
      VisitEachChains(v, n, cs[1..], d, e);
    }
  }

  /** A visit that comes to an end does not come back to its root. */
  lemma RootIsNotBelow(v: Visitor, e: ReferenceDescription)
    requires Terminates(v) && e in Visit(v, v.root, |v.server.nodes|)
    ensures e.nodeId != v.root
  {
    VisitEachChains(v, v.root, Children(v, v.root), |v.server.nodes|, e);
    var ns :| |ns| > 1 && Chain(v, ns) && ns[0] == v.root && ns[|ns| - 1] == e.nodeId;
    if e.nodeId == v.root {
      LoopIsBottomless(v, ns, |v.server.nodes|);
    }
  }

  /** Which nodes the visitor emits below its root, when no browse it makes is cut short: those of the
      wanted class to which references lead along allowed nodes. */
  lemma VisitMeaning(v: Visitor, x: NodeId)
    requires Valid(v.server) && BrowsedBelow(v) && Terminates(v)
    ensures (exists e :: e in Visit(v, v.root, |v.server.nodes|) && e.nodeId == x) <==>
            Info(v.server, x).nodeClass == v.wanted && Reaches(v, v.root, x)
  {
    var below := Visit(v, v.root, |v.server.nodes|);
    if e :| e in below && e.nodeId == x {
      VisitSound(v, e);
    }
    if Info(v.server, x).nodeClass == v.wanted && Reaches(v, v.root, x) {
      var ns :| |ns| > 1 && HierarchyWalk(v, ns) && ns[0] == v.root && ns[|ns| - 1] == x;
      WalksAreBrowsed(v, ns);
      VisitComplete(v, ns, |v.server.nodes|);
    }
  }

  lemma EmittedMembers(v: Visitor, e: ReferenceDescription)
    requires Terminates(v)
    ensures e in Emitted(v) <==>
            v.root in v.server.nodes && (e == RootElement(v) || e in Visit(v, v.root, |v.server.nodes|))
  {
    if v.root in v.server.nodes {
      var below := Visit(v, v.root, |v.server.nodes|);
      assert Emitted(v) == [RootElement(v)] + below;
      assert [RootElement(v)][0] == RootElement(v);
    }
  }

  /** Which nodes the visitor emits: the root, if it exists, and those below it; all of them when no
      browse it makes is cut short. */
  lemma EmittedMeaning(v: Visitor, x: NodeId)
    requires Valid(v.server) && Terminates(v)
    ensures var wanted := v.root in v.server.nodes
                          && (x == v.root || (Info(v.server, x).nodeClass == v.wanted && Reaches(v, v.root, x)));
            && ((exists e :: e in Emitted(v) && e.nodeId == x) ==> wanted)
            && (wanted && BrowsedBelow(v) ==> exists e :: e in Emitted(v) && e.nodeId == x)
  {
    hide Visit, Emitted, Reaches, Info, BrowsedBelow;
    if e :| e in Emitted(v) && e.nodeId == x {
      EmittedMembers(v, e);
      if e != RootElement(v) {
        VisitSound(v, e);
      }
    }
    if v.root in v.server.nodes && BrowsedBelow(v) {
      VisitMeaning(v, x);
      EmittedMembers(v, RootElement(v));
      if e :| e in Visit(v, v.root, |v.server.nodes|) && e.nodeId == x {
        EmittedMembers(v, e);
      }
    }
  }

  /** The browse mask leaves out some classes it is asked to find: a visitor for them, or for a
      node without a label, emits its root and nothing else. */
  lemma Unfindable(v: Visitor)
    requires Valid(v.server) && Terminates(v)
    requires v.wanted in {Unspecified, VariableType, View}
    ensures Emitted(v) == if v.root in v.server.nodes then [RootElement(v)] else []
  {
    var below := Visit(v, v.root, |v.server.nodes|);
    if below != [] {
      assert below[0] in below;
      NothingToFind(v, below[0]);
    }
  }

  lemma NothingToFind(v: Visitor, e: ReferenceDescription)
    requires Valid(v.server) && Terminates(v) && v.wanted in {Unspecified, VariableType, View}
    ensures e !in Visit(v, v.root, |v.server.nodes|)
  {
    hide Visit, Reaches, Hop;
    assert !GoesThrough(v.wanted, v.wanted);
    if e in Visit(v, v.root, |v.server.nodes|) {
      VisitSound(v, e);
      var a := LastStep(v, e.nodeId);
    }
  }

  /** A root with one child of the class. */
  function Family(c: NodeClass): Visitor {
    var root, child := OBJECTS_FOLDER, Numeric(1, 1);
    Visitor(Space(map[root := Attributes(Object, NullId), child := Attributes(c, NullId)],
                  [Reference(root, HIERARCHICAL_REFERENCES, child)], {}),
            root, HIERARCHICAL_REFERENCES, c)
  }

  lemma FamilyEmitsChild(c: NodeClass)
    requires GoesThrough(c, c)
    ensures var v := Family(c);
            && Valid(v.server) && Terminates(v) && v.root in v.server.nodes
            && Emitted(v) == [RootElement(v), ReferenceDescription(Numeric(1, 1), c, NullId, NullId, false)]
  {
    var v, child := Family(c), Numeric(1, 1);
    var e := ReferenceDescription(child, c, NullId, NullId, false);
    var r := Reference(v.root, HIERARCHICAL_REFERENCES, child);
    assert v.server.references == [r] && [r][1..] == [];
    assert DescribeAll(v.server, BrowseChildren(v, v.root), []) == []
           && DescribeAll(v.server, BrowseChildren(v, child), []) == [];
    assert Children(v, v.root) == [e];
    assert Children(v, child) == [];
    assert |v.server.nodes| == 2;
    assert DepthAtMost(v, child, 1);
    assert Visit(v, child, 1) == [];
    assert VisitEach(v, [], 2) == [] && [e][1..] == [];
    assert VisitEach(v, [e], 2) == [e];
  }

  /** A class is one the visitor can find, in some address space, unless it is one of three. */
  lemma UnfindableClasses(c: NodeClass)
    ensures (forall v: Visitor :: v.wanted == c && Valid(v.server) && Terminates(v) && v.root in v.server.nodes ==>
                                    Emitted(v) == [RootElement(v)])
            <==> c in {Unspecified, VariableType, View}
  {
    if c in {Unspecified, VariableType, View} {
      forall v: Visitor | v.wanted == c && Valid(v.server) && Terminates(v) && v.root in v.server.nodes
        ensures Emitted(v) == [RootElement(v)] { Unfindable(v); }
    } else {
      FamilyEmitsChild(c);
      assert Family(c).wanted == c;
    }
  }

  // ---------------------------------------------------------------- which classes are gone through

  /** The first thing emitted, of a known root: it with its class, and nothing else. */
  lemma RootIsFirst(v: Visitor)
    requires Terminates(v)
    ensures v.root !in v.server.nodes ==> Emitted(v) == []
    ensures v.root in v.server.nodes ==>
      Emitted(v) != [] && Emitted(v)[0] == ReferenceDescription(v.root, v.server.nodes[v.root].nodeClass, NullId,
          NullId, false)
  {
  }

  lemma {:induction false} MaskedIsShorter(s: Space, bd: BrowseDescription, rs: seq<Reference>)
    ensures |DescribeAll(s, bd, rs)| <= |DescribeAll(s, bd.(classMask := {}), rs)|
  {
    if rs != [] {
      MaskedIsShorter(s, bd, rs[1..]);
      assert |DescribeEnds(s, bd, rs[0])| <= |DescribeEnds(s, bd.(classMask := {}), rs[0])|;
    }
  }

  /** References lead from each node to the next, and the visitor goes through those in between. */
  ghost predicate Descends(v: Visitor, ns: seq<NodeId>) {
    && |ns| > 1
    && (forall i :: 0 <= i < |ns| - 1 ==> Hop(v.server, ns[i], Forward, v.referenceType, ns[i + 1]))
    && (forall i :: 0 < i < |ns| - 1 ==> GoesThrough(v.wanted, Info(v.server, ns[i]).nodeClass))
  }

  /** No node on the way has more references down the hierarchy than a Browse call returns. */
  ghost predicate FewChildren(v: Visitor, ns: seq<NodeId>) {
    forall i :: 0 <= i < |ns| - 1 ==> NotCut(v.server, BrowseDescription(ns[i], Forward, v.referenceType, {}, false))
  }

  lemma DescendsAsAllowed(v: Visitor, ns: seq<NodeId>)
    requires Descends(v, ns) && GoesThrough(v.wanted, Info(v.server, ns[|ns| - 1]).nodeClass)
    ensures HierarchyWalk(v, ns)
  {
    hide Hop, GoesThrough, Info;
    forall i | 0 <= i < |ns| - 1 ensures AllowedHop(v, ns[i], ns[i + 1]) {
      assert Hop(v.server, ns[i], Forward, v.referenceType, ns[i + 1]);
    }
  }

  lemma FewAreBrowsed(v: Visitor, ns: seq<NodeId>)
    requires FewChildren(v, ns)
    ensures BrowsedOnTheWay(v, ns)
  {
    forall i | 0 <= i < |ns| - 1 ensures NotCut(v.server, BrowseChildren(v, ns[i])) {
      assert NotCut(v.server, BrowseDescription(ns[i], Forward, v.referenceType, {}, false));
      MaskedIsShorter(v.server, BrowseChildren(v, ns[i]), v.server.references);
    }
  }

  /** A node of the wanted class at the end of a chain of references down from the root is emitted, if the
      visitor goes through the classes of the nodes in between and none of these has too many references. */
  lemma DescendantIsEmitted(v: Visitor, ns: seq<NodeId>)
    requires Valid(v.server) && Terminates(v) && Descends(v, ns) && ns[0] == v.root && FewChildren(v, ns)
    requires Info(v.server, ns[|ns| - 1]).nodeClass == v.wanted && v.wanted !in {Unspecified, VariableType, View}
    ensures exists e :: e in Emitted(v) && e.nodeId == ns[|ns| - 1]
  {
    var x := ns[|ns| - 1];
    MaskIsWhatItGoesThrough(v.wanted, v.wanted);
    DescendsAsAllowed(v, ns);
    FewAreBrowsed(v, ns);
    hide BrowsedOnTheWay, Hop, Info, Visit, Emitted, FewChildren, Descends;
    VisitComplete(v, ns, |v.server.nodes|);
    var e :| e in Visit(v, v.root, |v.server.nodes|) && e.nodeId == x;
    EmittedMembers(v, e);
    assert Reaches(v, v.root, x);
    var a := LastStep(v, x);
  }

  /** The visitor emits `x`, which it can only come to by way of `y`, a node below its root. */
  ghost predicate EmitsBehind(v: Visitor, y: NodeId, x: NodeId) {
    && Valid(v.server) && Terminates(v) && y != v.root && x != v.root && y in v.server.nodes
    && Info(v.server, x).nodeClass == v.wanted
    && (forall r :: r in v.server.references && r.target == x ==> r.source == y)
    && exists e :: e in Emitted(v) && e.nodeId == x
  }

  lemma BehindIsThrough(v: Visitor, y: NodeId, x: NodeId)
    requires EmitsBehind(v, y, x)
    ensures GoesThrough(v.wanted, Info(v.server, y).nodeClass) && GoesThrough(v.wanted, v.wanted)
  {
    var e :| e in Emitted(v) && e.nodeId == x;
    EmittedMembers(v, e);
    VisitSound(v, e);
    hide Emitted, Visit, GoesThrough, Terminates;
    var ns :| |ns| > 1 && HierarchyWalk(v, ns) && ns[0] == v.root && ns[|ns| - 1] == x;
    assert AllowedHop(v, ns[|ns| - 2], ns[|ns| - 2 + 1]);
    assert ns[|ns| - 2] == y;
    assert AllowedHop(v, ns[|ns| - 3], ns[|ns| - 3 + 1]);
  }

  /** A root, a node of one class below it, and one of another below that. */
  function Lineage(wanted: NodeClass, through: NodeClass): Visitor {
    var root, y, x := Numeric(0, 85), Numeric(1, 1), Numeric(1, 2);
    Visitor(Space(map[root := Attributes(Object, NullId), y := Attributes(through, NullId), x :=
        Attributes(wanted, NullId)],
                  [Reference(root, Numeric(0, 33), y), Reference(y, Numeric(0, 33), x)], {}),
            root, Numeric(0, 33), wanted)
  }

  lemma LineageHops(wanted: NodeClass, through: NodeClass, a: NodeId, b: NodeId)
    ensures var v := Lineage(wanted, through);
            Hop(v.server, a, Forward, v.referenceType, b) <==>
            (a == v.root && b == Numeric(1, 1)) || (a == Numeric(1, 1) && b == Numeric(1, 2))
  {
    var v := Lineage(wanted, through);
    assert v.server.references[0] in v.server.references && v.server.references[1] in v.server.references;
  }

  lemma {:induction false} AtMostTwoEach(s: Space, bd: BrowseDescription, rs: seq<Reference>)
    ensures |DescribeAll(s, bd, rs)| <= 2 * |rs|
  {
    if rs != [] { AtMostTwoEach(s, bd, rs[1..]); }
  }

  lemma LineageEnds(wanted: NodeClass, through: NodeClass)
    ensures var v := Lineage(wanted, through);
            Terminates(v) && FewChildren(v, [v.root, Numeric(1, 1), Numeric(1, 2)])
  {
    var v, y, x := Lineage(wanted, through), Numeric(1, 1), Numeric(1, 2);
    assert |v.server.nodes| == 3;
    forall n, c | c in Children(v, n)
      ensures (n == v.root && c.nodeId == y) || (n == y && c.nodeId == x)
    {
      BrowseSound(v.server, BrowseChildren(v, n), c);
      LineageHops(wanted, through, n, c.nodeId);
    }
    forall bd ensures NotCut(v.server, bd) {
      AtMostTwoEach(v.server, bd, v.server.references);
    }
    hide Children, NotCut, Lineage;
    assert DepthAtMost(v, x, 1);
    assert DepthAtMost(v, y, 2);
  }

  lemma LineageEmits(wanted: NodeClass, through: NodeClass)
    requires GoesThrough(wanted, through) && GoesThrough(wanted, wanted)
    ensures EmitsBehind(Lineage(wanted, through), Numeric(1, 1), Numeric(1, 2))
  {
    var v, ns := Lineage(wanted, through), [Numeric(0, 85), Numeric(1, 1), Numeric(1, 2)];
    LineageEnds(wanted, through);
    LineageHops(wanted, through, ns[0], ns[1]);
    LineageHops(wanted, through, ns[1], ns[2]);
    MaskIsWhatItGoesThrough(wanted, wanted);
    MaskIsWhatItGoesThrough(wanted, through);
    hide Hop, GoesThrough, Terminates, FewChildren, Emitted;
    assert Descends(v, ns);
    DescendantIsEmitted(v, ns);
  }

  ghost predicate EmitsThrough(wanted: NodeClass, through: NodeClass) {
    exists v, y, x :: EmitsBehind(v, y, x) && v.wanted == wanted && Info(v.server, y).nodeClass == through
  }

  /** Which classes a visitor finds nodes behind, in some address space: for objects behind objects and object
      types; for variables behind variables, objects, object types and methods; for methods behind objects,
      variables and methods; for object types, data types and reference types behind their own class only; and
      for the other classes, and behind the others, never. */
  lemma ClassesGoneThrough(wanted: NodeClass, through: NodeClass)
    ensures EmitsThrough(wanted, through) <==>
            match wanted
            case Object => through in {Object, ObjectType}
            case Variable => through in {Variable, Object, ObjectType, Method}
            case Method => through in {Object, Variable, Method}
            case ObjectType => through == ObjectType
            case DataType => through == DataType
            case ReferenceType => through == ReferenceType
            case VariableType => false
            case View => false
            case Unspecified => false
  {
    hide EmitsBehind;
    if v, y, x :| EmitsBehind(v, y, x) && v.wanted == wanted && Info(v.server, y).nodeClass == through {
      BehindIsThrough(v, y, x);
    }
    if GoesThrough(wanted, through) && GoesThrough(wanted, wanted) {
      LineageEmits(wanted, through);
      var v := Lineage(wanted, through);
      assert EmitsBehind(v, Numeric(1, 1), Numeric(1, 2)) && Info(v.server, Numeric(1, 1)).nodeClass == through;
    }
  }
}
