/** The path matcher: the object whose methods browse the server, grow partial rows, restart
    themselves with shorter patterns and store what they find. */
module PathMatchers {
  import opened Wrappers
  import opened Sequences
  import opened AddressSpace
  import opened Pattern
  import Matching
  import opened PathResults

  type Row = Matching.Row

  lemma ThenTwice<T>(a: seq<T>, b: seq<T>, more: Outcome<seq<T>>)
    ensures Then(a, Then(b, more)) == Then(a + b, more)
  {
    if more.Ok? {
      assert a + (b + more.value) == a + b + more.value;
    }
  }

  lemma ThenNothing<T>(more: Outcome<seq<T>>)
    ensures Then([], more) == more
  {
    if more.Ok? {
      assert [] + more.value == more.value;
    }
  }

  lemma CheckUnfold(s: Space, start: ReferenceDescription, p: Path)
    requires WellFormed(p)
    ensures |p.nodes| == 1 ==> Matching.Check(s, start, p) == Ok(if Matches(start, p.nodes[0]) then [[start]] else [])
    ensures |p.nodes| > 1 ==> Matching.Check(s, start, p) == Matching.CheckFrom(s, p, 1, [start])
  {
  }

  lemma CheckFromUnfold(s: Space, p: Path, i: nat, act: Row)
    requires WellFormed(p) && 1 <= i <= |p.nodes| && |act| == i
    ensures i == |p.nodes| ==> Matching.CheckFrom(s, p, i, act) == Ok([act])
    ensures i < |p.nodes| ==>
      var n := p.nodes[i];
      var br := Browse(s, Matching.BrowseStep(act[i - 1].nodeId, p.relations[i - 1], n.nodeClass));
      && (br.Bad? ==> Matching.CheckFrom(s, p, i, act) == Ok([]))
      && (br.Good? && n.id.Some? ==>
            var first := Matching.FirstWithId(br.references, n.id.value);
            && (first == [] ==> Matching.CheckFrom(s, p, i, act) == Ok([]))
            && (first != [] ==> Matching.CheckFrom(s, p, i, act) == Matching.CheckFrom(s, p, i + 1, act + first)))
      && (br.Good? && n.id.None? ==>
            Matching.CheckFrom(s, p, i, act) ==
              match Matching.FilterAll(s, Split(p, 1).1, 0, br.references)
              case Aborted => Aborted
              case Ok(rows) =>
                if forall row :: row in rows ==> |act| + |row| == |p.nodes| then Ok(Prefixed(act, rows)) else Aborted)
  {
  }

  class PathMatcher {
    const server: Space
    const path: Path
    const lhs: Path
    const rhs: Path
    const idx: nat
    const results: PathResult

    ghost predicate Valid()
      reads results, results.data
    {
      && WellFormed(path) && idx < |path.nodes|
      && lhs == Transformed(Split(path, idx).0) && rhs == Split(path, idx).1
      && results.Valid() && |results.data| == |path.nodes|
    }

    constructor (server: Space, path: Path, startIndex: nat)
      requires WellFormed(path) && startIndex < |path.nodes|
      ensures Valid() && fresh(results) && fresh(results.data)
      ensures this.server == server && this.path == path && idx == startIndex
      ensures results.Rows() == []
    {
      var halves := Split(path, startIndex);
      var left := new MutablePath(halves.0);
      left.TransformForLeftToRightTraversal();
      this.server, this.path, idx := server, path, startIndex;
      lhs, rhs := left.Value(), halves.1;
      results := new PathResult(|path.nodes|);
    }

    /** Stores the rows of one start element behind those already stored. */
    method Filter(startNode: ReferenceDescription) returns (ok: bool)
      requires Valid()
      modifies results.data
      ensures Valid()
      ensures ok <==> Matching.CheckPath(server, path, idx, startNode).Ok?
      ensures ok ==> results.Rows() == old(results.Rows()) + Matching.CheckPath(server, path, idx, startNode).value
      decreases |path.nodes|, 4
    {
      var found := CheckPath(startNode);
      if found.Aborted? {
        return false;
      }
      Store(found.value);
      return true;
    }

    method Store(rows: seq<Row>)
      requires Valid() && forall row :: row in rows ==> |row| == |path.nodes|
      modifies results.data
      ensures Valid() && results.Rows() == old(results.Rows()) + rows
    {
      hide PathResult.Rows, Appended, Transformed, Split;
      ghost var before := results.Rows();
      var i := 0;
      while i < |rows|
        invariant i <= |rows| && Valid()
        invariant results.Rows() == before + rows[..i]
      {
        assert rows[i] in rows;
        var stored := results.Emplace(rows[i]);
        assert stored;
        assert before + rows[..i] + [rows[i]] == before + rows[..i + 1];
        i := i + 1;
      }
      assert rows[..i] == rows;
    }

    method CheckPath(startNode: ReferenceDescription) returns (r: Outcome<seq<Row>>)
      requires Valid()
      ensures r == Matching.CheckPath(server, path, idx, startNode)
      decreases |path.nodes|, 3
    {
      var right := Check(startNode, rhs);
      if right.Aborted? {
        return Aborted;
      }
      r := MergeAll(right.value, startNode);
    }

    method MergeAll(rs: seq<Row>, ghost start: ReferenceDescription) returns (r: Outcome<seq<Row>>)
      requires Valid() && forall row :: row in rs ==> |row| == |rhs.nodes| && row[0] == start
      ensures r == Merged(rs, start)
      decreases |path.nodes|, 2, 2
    {
      var endResult: seq<Row> := [];
      var i := 0;
      ThenNothing(Merged(rs, start));
      while i < |rs|
        invariant i <= |rs|
        invariant Then(endResult, Merged(rs[i..], start)) == Merged(rs, start)
      {
        assert rs[i] in rs && rs[i..][1..] == rs[i + 1..];
        MergedStep(rs[i..], start);
        var part := WithLeft(rs[i], start);
        if part.Aborted? {
          return Aborted;
        }
        ThenTwice(endResult, part.value, Merged(rs[i + 1..], start));
        endResult := endResult + part.value;
        i := i + 1;
      }
      assert endResult + [] == endResult;
      r := Ok(endResult);
    }

    ghost function LeftOf(r: Row, start: ReferenceDescription): Outcome<seq<Row>>
      requires Valid()
      reads results, results.data
    {
      if idx == 0 then Ok([r])
      else
        match Matching.Check(server, start, lhs)
        case Aborted => Aborted
        case Ok(ls) => Ok(Matching.Joined(Reverse(ls), r))
    }

    lemma MergedStep(rs: seq<Row>, start: ReferenceDescription)
      requires Valid() && rs != [] && forall row :: row in rs ==> |row| == |rhs.nodes| && row[0] == start
      ensures Merged(rs, start) == if LeftOf(rs[0], start).Aborted? then Aborted
                                   else Then(LeftOf(rs[0], start).value, Merged(rs[1..], start))
    {
      assert rs[0] in rs;
      if idx == 0 {
        assert rs == [rs[0]] + rs[1..];
      }
    }

    ghost function Merged(rs: seq<Row>, start: ReferenceDescription): Outcome<seq<Row>>
      requires Valid() && forall row :: row in rs ==> |row| == |rhs.nodes| && row[0] == start
      reads results, results.data
    {
      if idx > 0 then Matching.Merge(server, lhs, rs, start) else Ok(rs)
    }

    /** One right row and what the left half adds to it. */
    method WithLeft(r: Row, ghost start: ReferenceDescription) returns (part: Outcome<seq<Row>>)
      requires Valid() && |r| == |rhs.nodes| && r[0] == start
      ensures part == LeftOf(r, start)
      decreases |path.nodes|, 2, 1
    {
      if idx > 0 {
        var left := Check(r[0], lhs);
        if left.Aborted? {
          return Aborted;
        }
        ReverseMembers(left.value);
        var joined := Join(Reverse(left.value), r);
        part := Ok(joined);
      } else {
        assert |r| == |path.nodes|;
        part := Ok([r]);
      }
    }

    /** One right row merged with every left row. The size assertions of the merge hold. */
    method Join(ls: seq<Row>, r: Row) returns (joined: seq<Row>)
      requires WellFormed(path) && 0 < idx < |path.nodes| && |r| == |path.nodes| - idx
      requires forall l :: l in ls ==> |l| == idx + 1
      ensures joined == Matching.Joined(ls, r)
    {
      joined := [];
      var j := 0;
      while j < |ls|
        invariant j <= |ls|
        invariant joined == Matching.Joined(ls, r)[..j]
      {
        assert ls[j] in ls && |r| + |ls[j]| - 1 == |path.nodes|;
        joined := joined + [ls[j][1..] + r];
        j := j + 1;
      }
    }

    method Check(start: ReferenceDescription, p: Path) returns (r: Outcome<seq<Row>>)
      requires WellFormed(p)
      ensures r == Matching.Check(server, start, p)
      decreases |p.nodes|, 2, 0
    {
      hide Matching.Check, Matching.CheckFrom, Matching.FilterAll, Matching.FirstWithId, Browse, Matches, Split;
      CheckUnfold(server, start, p);
      if |p.nodes| == 1 {
        if Matches(start, p.nodes[0]) {
          return Ok([[start]]);
        }
        return Ok([]);
      }
      var actPath := [start];
      var i := 1;
      while i < |p.nodes|
        invariant 1 <= i <= |p.nodes| && |actPath| == i
        invariant Matching.CheckFrom(server, p, i, actPath) == Matching.Check(server, start, p)
      {
        CheckFromUnfold(server, p, i, actPath);
        var node := p.nodes[i];
        var br := Browse(server, Matching.BrowseStep(actPath[i - 1].nodeId, p.relations[i - 1], node.nodeClass));
        if br.Bad? {
          return Ok([]);
        }
        if node.id.Some? {
          var found := FindReference(br.references, node.id.value);
          if found.None? {
            return Ok([]);
          }
          actPath := actPath + [found.value];
        } else {
          r := CheckReferences(p, actPath, br.references);
          return;
        }
        i := i + 1;
      }
      CheckFromUnfold(server, p, i, actPath);
      r := Ok([actPath]);
    }

    /** The scan of the id fast path. */
    method FindReference(refs: Row, id: NodeId) returns (found: Option<ReferenceDescription>)
      ensures Matching.FirstWithId(refs, id) == if found.Some? then [found.value] else []
    {
      var k := 0;
      while k < |refs|
        invariant k <= |refs|
        invariant Matching.FirstWithId(refs[k..], id) == Matching.FirstWithId(refs, id)
      {
        if refs[k].nodeId == id {
          return Some(refs[k]);
        }
        k := k + 1;
      }
      return None;
    }

    /** The branch for a node without id: a matcher for the path without its first node filters
        every reference, and its rows are put behind the partial row. */
    method CheckReferences(p: Path, actPath: Row, refs: Row) returns (r: Outcome<seq<Row>>)
      requires WellFormed(p) && |p.nodes| >= 2
      ensures r == match Matching.FilterAll(server, Split(p, 1).1, 0, refs)
                   case Aborted => Aborted
                   case Ok(rows) =>
                     if forall row :: row in rows ==> |actPath| + |row| == |p.nodes|
                     then Ok(Prefixed(actPath, rows)) else Aborted
      decreases |p.nodes|, 1
    {
      hide Matching.FilterAll, Matching.CheckPath;
      var filtered := FilterReferences(Split(p, 1).1, refs);
      if filtered.Aborted? {
        return Aborted;
      }
      var rows := filtered.value;
      var res: seq<Row> := [];
      var k := 0;
      while k < |rows|
        invariant k <= |rows|
        invariant res == Prefixed(actPath, rows)[..k]
        invariant forall row :: row in rows[..k] ==> |actPath| + |row| == |p.nodes|
      {
        var newPath := actPath + rows[k];
        if |newPath| != |p.nodes| {
          assert rows[k] in rows;
          return Aborted;
        }
        res := res + [newPath];
        k := k + 1;
      }
      assert rows[..k] == rows && Prefixed(actPath, rows)[..k] == Prefixed(actPath, rows);
      r := Ok(res);
    }

    method FilterReferences(rest: Path, refs: Row) returns (r: Outcome<seq<Row>>)
      requires WellFormed(rest)
      ensures r == Matching.FilterAll(server, rest, 0, refs)
      decreases |rest.nodes|, 5
    {
      var m := new PathMatcher(server, rest, 0);
      ghost var goal := Matching.FilterAll(server, rest, 0, refs);
      var k := 0;
      ThenNothing(goal);
      while k < |refs|
        invariant k <= |refs| && m.Valid() && fresh(m.results) && fresh(m.results.data)
        invariant Then(m.results.Rows(), Matching.FilterAll(server, rest, 0, refs[k..])) == goal
      {
        ghost var before := m.results.Rows();
        assert refs[k..][1..] == refs[k + 1..];
        var ok := m.Filter(refs[k]);
        if !ok {
          assert Matching.FilterAll(server, rest, 0, refs[k..]) == Aborted;
          return Aborted;
        }
        ThenTwice(before, Matching.CheckPath(server, rest, 0, refs[k]).value,
            Matching.FilterAll(server, rest, 0, refs[k + 1..]));
        k := k + 1;
      }
      var rows := m.results.Paths();
      assert rows + [] == rows;
      r := Ok(rows);
    }
  }
}
