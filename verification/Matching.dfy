/** The matching recursion of the path matcher as functions: what `check`, `checkPath` and
    `filter` return for a start element, with the one size assertion that can fire. */
module Matching {
  import opened Wrappers
  import opened Sequences
  import opened AddressSpace
  import opened Pattern

  type Row = seq<ReferenceDescription>

  function BrowseStep(a: NodeId, r: Relation, c: NodeClass): BrowseDescription {
    BrowseDescription(a, r.direction, r.referenceType, ClassMask(c), true)
  }

  /** The first reference to the wanted node, as a list of at most one. */
  function FirstWithId(refs: Row, id: NodeId): (found: Row)
    ensures |found| <= 1
    ensures forall d :: d in found ==> d in refs && d.nodeId == id
    ensures found == [] <==> forall d :: d in refs ==> d.nodeId != id
  {
    if refs == [] then [] else if refs[0].nodeId == id then [refs[0]] else FirstWithId(refs[1..], id)
  }

  /** `check`: the rows of one half. */
  function Check(s: Space, start: ReferenceDescription, p: Path): (r: Outcome<seq<Row>>)
    requires WellFormed(p)
    ensures r.Ok? ==> forall row :: row in r.value ==> |row| == |p.nodes| && row[0] == start
    decreases |p.nodes|, 1, 0
  {
    if |p.nodes| == 1 then Ok(if Matches(start, p.nodes[0]) then [[start]] else [])
    else CheckFrom(s, p, 1, [start])
  }

  /** The loop of `check` from position `i` on, with `act` matched so far. */
  function CheckFrom(s: Space, p: Path, i: nat, act: Row): (r: Outcome<seq<Row>>)
    requires WellFormed(p) && 1 <= i <= |p.nodes| && |act| == i
    ensures r.Ok? ==> forall row :: row in r.value ==> |row| == |p.nodes| && row[0] == act[0]
    decreases |p.nodes|, 0, |p.nodes| - i
  {
    if i == |p.nodes| then Ok([act])
    else
      var n := p.nodes[i];
      match Browse(s, BrowseStep(act[i - 1].nodeId, p.relations[i - 1], n.nodeClass))
      case Bad => Ok([])
      case Good(refs) =>
        if n.id.Some? then
          var first := FirstWithId(refs, n.id.value);
          if first == [] then Ok([]) else CheckFrom(s, p, i + 1, act + first)
        else
          match FilterAll(s, Split(p, 1).1, 0, refs)
          case Aborted => Aborted
          case Ok(rows) =>
            // the size assertion on every merged row
            if forall row :: row in rows ==> |act| + |row| == |p.nodes|
            then Ok(Prefixed(act, rows))
            else Aborted
  }

  /** `filter` called for every element in turn. */
  function FilterAll(s: Space, p: Path, idx: nat, elements: seq<ReferenceDescription>): (r: Outcome<seq<Row>>)
    requires WellFormed(p) && idx < |p.nodes|
    ensures r.Ok? ==> forall row :: row in r.value ==> |row| == |p.nodes| && row[idx] in elements
    decreases |p.nodes|, 4, |elements|
  {
    if elements == [] then Ok([])
    else
      match CheckPath(s, p, idx, elements[0])
      case Aborted => Aborted
      case Ok(rows) => Then(rows, FilterAll(s, p, idx, elements[1..]))
  }

  /** `checkPath`: the rows of a whole pattern whose pivot is node `idx`. */
  function CheckPath(s: Space, p: Path, idx: nat, start: ReferenceDescription): (r: Outcome<seq<Row>>)
    requires WellFormed(p) && idx < |p.nodes|
    ensures r.Ok? ==> forall row :: row in r.value ==> |row| == |p.nodes| && row[idx] == start
    decreases |p.nodes|, 3, 0
  {
    var lhs, rhs := Transformed(Split(p, idx).0), Split(p, idx).1;
    match Check(s, start, rhs)
    case Aborted => Aborted
    case Ok(rs) => if idx > 0 then Merge(s, lhs, rs, start) else Ok(rs)
  }

  /** Every right row joined with the left rows of its first element, which is `start`. */
  function Merge(s: Space, lhs: Path, rs: seq<Row>, ghost start: ReferenceDescription): (r: Outcome<seq<Row>>)
    requires WellFormed(lhs)
    requires forall row :: row in rs ==> |row| > 0 && row[0] == start
    ensures r.Ok? && rs != [] ==> Check(s, start, lhs).Ok?
    ensures r.Ok? ==> forall row :: row in r.value ==>
      |row| >= |lhs.nodes| && row[|lhs.nodes| - 1..] in rs && row[|lhs.nodes| - 1] == start
    decreases |lhs.nodes|, 2, |rs|
  {
    if rs == [] then Ok([])
    else
      match Check(s, rs[0][0], lhs)
      case Aborted => Aborted
      case Ok(ls) =>
        assert forall row :: row in rs[1..] ==> row in rs;
        Then(Joined(Reverse(ls), rs[0]), Merge(s, lhs, rs[1..], start))
  }

  /** Every left row without its first element, in front of the right row. */
  function Joined(ls: seq<Row>, r: Row): seq<Row>
    requires forall l :: l in ls ==> |l| > 0
  {
    seq(|ls|, i requires 0 <= i < |ls| => ls[i][1..] + r)
  }
}
