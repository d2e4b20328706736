/** Choosing the direction of curve 1 that warps the ruled quadrilaterals
    least: the per-element warping coefficients of the mesh, their totals,
    and the comparison between the mesh and the one ruled from curve 1
    reversed.  The warping coefficient of one element (half the distance
    between the diagonals' midpoints times the mean diagonal, with square
    roots) is a parameter `wc` of the four corner coordinates. */
module WarpCheck {
  import opened Common
  import opened RuledMesh

  /** The warping coefficient of one element, `[EID, WC]`. */
  datatype ElementWarp = ElementWarp(eid: int, wc: real)

  /** Why the warp computation fails: the node builder fails on the
      reversed curve, or a corner of the first element is not found among
      the nodes (its coordinate variable was never assigned). */
  datatype WarpError = RuledFailure(cause: RuledError) | UnboundLocalError

  /** The coordinates of corners N1..N4 found so far.  The variables that
      hold them live for the whole call, so an element whose corner is
      missing from the node list silently reuses the previous element's. */
  datatype Corners = Corners(n1: Option<Point>, n2: Option<Point>, n3: Option<Point>, n4: Option<Point>)

  const NoCorners := Corners(None, None, None, None)

  /** All four corners have a coordinate. */
  predicate Found(c: Corners)
  {
    c.n1.Some? && c.n2.Some? && c.n3.Some? && c.n4.Some?
  }

  /** One step of the `if`/`elif` chain for element `e = [EID, N1, N2, N3,
      N4]`: a node whose ID is N1 sets corner 1 and is not compared with
      the other corners, and so on down the chain. */
  function ScanNode(c: Corners, e: seq<int>, n: GridNode): Corners
    requires |e| >= 5
  {
    if n.nid == e[1] then c.(n1 := Some(n.pos))
    else if n.nid == e[2] then c.(n2 := Some(n.pos))
    else if n.nid == e[3] then c.(n3 := Some(n.pos))
    else if n.nid == e[4] then c.(n4 := Some(n.pos))
    else c
  }

  /** The corners after the scan over all nodes, in list order. */
  function Scan(c: Corners, e: seq<int>, nodes: seq<GridNode>): Corners
    requires |e| >= 5
  {
    if nodes == [] then c else ScanNode(Scan(c, e, nodes[..|nodes| - 1]), e, nodes[|nodes| - 1])
  }

  /** The coordinates of the last node carrying ID `id`, if any. */
  function LastWithId(nodes: seq<GridNode>, id: int): Option<Point>
  {
    if nodes == [] then None
    else if nodes[|nodes| - 1].nid == id then Some(nodes[|nodes| - 1].pos)
    else LastWithId(nodes[..|nodes| - 1], id)
  }

  /** LastWithId finds a node exactly when one carries the ID, and then the
      one that no later node with the same ID follows. */
  lemma {:induction false} LastWithIdIsLast(nodes: seq<GridNode>, id: int)
    ensures LastWithId(nodes, id).None? <==> forall k :: 0 <= k < |nodes| ==> nodes[k].nid != id
    ensures LastWithId(nodes, id).Some? ==>
              exists k :: 0 <= k < |nodes| && nodes[k].nid == id && nodes[k].pos == LastWithId(nodes, id).value &&
                          forall k' :: k < k' < |nodes| ==> nodes[k'].nid != id
  {
    if nodes != [] && nodes[|nodes| - 1].nid != id {
      var front := nodes[..|nodes| - 1];
      LastWithIdIsLast(front, id);
      assert forall k :: 0 <= k < |front| ==> front[k] == nodes[k];
      if LastWithId(front, id).Some? {
        var k :| 0 <= k < |front| && front[k].nid == id && front[k].pos == LastWithId(front, id).value &&
                 forall k' :: k < k' < |front| ==> front[k'].nid != id;
        assert nodes[k].nid == id && nodes[k].pos == LastWithId(nodes, id).value;
      }
    }
  }

  /** A corner found during the scan, or the value carried over. */
  function Latest(found: Option<Point>, before: Option<Point>): Option<Point>
  {
    if found.Some? then found else before
  }

  /** When the element's four corner IDs differ, the scan gives each corner
      the coordinates of the last node carrying its ID, and keeps the
      carried-over value for a corner no node carries. */
  lemma {:induction false} ScanFindsLast(c: Corners, e: seq<int>, nodes: seq<GridNode>)
    requires |e| >= 5 && Distinct(e[1..5])
    ensures Scan(c, e, nodes) == Corners(Latest(LastWithId(nodes, e[1]), c.n1), Latest(LastWithId(nodes, e[2]), c.n2),
                                         Latest(LastWithId(nodes, e[3]), c.n3), Latest(LastWithId(nodes, e[4]), c.n4))
  {
    if nodes != [] {
      ScanFindsLast(c, e, nodes[..|nodes| - 1]);
      assert e[1] != e[2] && e[1] != e[3] && e[1] != e[4] && e[2] != e[3] && e[2] != e[4] && e[3] != e[4] by {
        assert e[1..5][0] == e[1] && e[1..5][1] == e[2] && e[1..5][2] == e[3] && e[1..5][3] == e[4];
      }
    }
  }

  /** `acc` in front of a successful result; a failure stays a failure. */
  function Prepend(acc: seq<ElementWarp>, r: Result<seq<ElementWarp>, WarpError>): Result<seq<ElementWarp>, WarpError>
  {
    if r.Ok? then Ok(acc + r.value) else r
  }

  /** Every element names N1..N4 after its EID. */
  predicate WellFormed(e2n: seq<seq<int>>)
  {
    forall k :: 0 <= k < |e2n| ==> |e2n[k]| >= 5
  }

  /** `get_E2Warp` from the corner values carried in `c`: one `[EID, WC]`
      per element in E2N order, or an error as soon as a corner has no
      value. */
  function Warps(e2n: seq<seq<int>>, nodes: seq<GridNode>, wc: (Point, Point, Point, Point) -> real, c: Corners)
    : Result<seq<ElementWarp>, WarpError>
    requires WellFormed(e2n)
  {
    if e2n == [] then Ok([])
    else
      var c' := Scan(c, e2n[0], nodes);
      if !Found(c') then Err(UnboundLocalError)
      else Prepend([ElementWarp(e2n[0][0], wc(c'.n1.value, c'.n2.value, c'.n3.value, c'.n4.value))],
                   Warps(e2n[1..], nodes, wc, c'))
  }

  /** `get_E2Warp`. */
  method GetE2Warp(e2n: seq<seq<int>>, nodes: seq<GridNode>, wc: (Point, Point, Point, Point) -> real)
    returns (r: Result<seq<ElementWarp>, WarpError>)
    requires WellFormed(e2n)
    ensures r == Warps(e2n, nodes, wc, NoCorners)
  {
    var e2warp: seq<ElementWarp> := [];
    var c := NoCorners;
    var k := 0;
    assert e2n[0..] == e2n;
    assert Warps(e2n, nodes, wc, c).Ok? ==> [] + Warps(e2n, nodes, wc, c).value == Warps(e2n, nodes, wc, c).value;
    while k < |e2n|
      invariant 0 <= k <= |e2n|
      invariant Warps(e2n, nodes, wc, NoCorners) == Prepend(e2warp, Warps(e2n[k..], nodes, wc, c))
    {
      var e := e2n[k];
      var i := 0;
      var c0 := c;
      while i < |nodes|
        invariant 0 <= i <= |nodes|
        invariant c == Scan(c0, e, nodes[..i])
      {
        var n := nodes[i];
        if n.nid == e[1] {
          c := c.(n1 := Some(n.pos));
        } else if n.nid == e[2] {
          c := c.(n2 := Some(n.pos));
        } else if n.nid == e[3] {
          c := c.(n3 := Some(n.pos));
        } else if n.nid == e[4] {
          c := c.(n4 := Some(n.pos));
        }
        assert nodes[..i + 1][..i] == nodes[..i];
        i := i + 1;
      }
      assert nodes[..i] == nodes;
      assert e2n[k..][0] == e && e2n[k..][1..] == e2n[k + 1..];
      if !Found(c) {
        return Err(UnboundLocalError);
      }
      var w := ElementWarp(e[0], wc(c.n1.value, c.n2.value, c.n3.value, c.n4.value));
      var rest := Warps(e2n[k + 1..], nodes, wc, c);
      assert rest.Ok? ==> e2warp + ([w] + rest.value) == (e2warp + [w]) + rest.value;
      e2warp := e2warp + [w];
      k := k + 1;
    }
    assert e2warp + [] == e2warp;
    return Ok(e2warp);
  }

  /** Whatever the node list, a successful warp list has one entry per
      element, in E2N order and with the element's EID. */
  lemma {:induction false} WarpsShape(e2n: seq<seq<int>>, nodes: seq<GridNode>, wc: (Point, Point, Point, Point) -> real, c: Corners)
    requires WellFormed(e2n)
    ensures Warps(e2n, nodes, wc, c).Ok? ==>
              |Warps(e2n, nodes, wc, c).value| == |e2n| &&
              forall k :: 0 <= k < |e2n| ==> Warps(e2n, nodes, wc, c).value[k].eid == e2n[k][0]
  {
    if e2n != [] {
      var c' := Scan(c, e2n[0], nodes);
      if Found(c') {
        WarpsShape(e2n[1..], nodes, wc, c');
      }
    }
  }

  /** Every corner of every element is named by some node. */
  predicate CornersPresent(e2n: seq<seq<int>>, nodes: seq<GridNode>)
    requires WellFormed(e2n)
  {
    forall k, q :: 0 <= k < |e2n| && 1 <= q < 5 ==> exists n :: 0 <= n < |nodes| && nodes[n].nid == e2n[k][q]
  }

  /** The four corner IDs of every element differ. */
  predicate CornersDiffer(e2n: seq<seq<int>>)
    requires WellFormed(e2n)
  {
    forall k :: 0 <= k < |e2n| ==> Distinct(e2n[k][1..5])
  }

  /** When every element has four different corner IDs, each named by some
      node, the warp computation succeeds, and the coefficient of each
      element is that of the last nodes carrying its corner IDs (nothing is
      carried over between elements). */
  lemma {:induction false} WarpsOfPresentCorners(e2n: seq<seq<int>>, nodes: seq<GridNode>, wc: (Point, Point, Point, Point) -> real, c: Corners)
    requires WellFormed(e2n) && CornersDiffer(e2n) && CornersPresent(e2n, nodes)
    ensures Warps(e2n, nodes, wc, c).Ok? && |Warps(e2n, nodes, wc, c).value| == |e2n|
    ensures forall k, q :: 0 <= k < |e2n| && 1 <= q < 5 ==> LastWithId(nodes, e2n[k][q]).Some?
    ensures forall k :: 0 <= k < |e2n| ==>
              Warps(e2n, nodes, wc, c).value[k] ==
                ElementWarp(e2n[k][0], wc(LastWithId(nodes, e2n[k][1]).value, LastWithId(nodes, e2n[k][2]).value,
                                          LastWithId(nodes, e2n[k][3]).value, LastWithId(nodes, e2n[k][4]).value))
  {
    WarpsShape(e2n, nodes, wc, c);
    forall k, q | 0 <= k < |e2n| && 1 <= q < 5 ensures LastWithId(nodes, e2n[k][q]).Some? {
      LastWithIdIsLast(nodes, e2n[k][q]);
    }
    if e2n != [] {
      var e := e2n[0];
      ScanFindsLast(c, e, nodes);
      var c' := Scan(c, e, nodes);
      var rest := e2n[1..];
      assert forall k :: 0 <= k < |rest| ==> rest[k] == e2n[k + 1];
      WarpsOfPresentCorners(rest, nodes, wc, c');
    }
  }

  /** The running total `total_warp += E2W[1]`. */
  function TotalWarp(ws: seq<ElementWarp>): real
  {
    if ws == [] then 0.0 else TotalWarp(ws[..|ws| - 1]) + ws[|ws| - 1].wc
  }

  method SumWarp(ws: seq<ElementWarp>) returns (total: real)
    ensures total == TotalWarp(ws)
  {
    total := 0.0;
    var i := 0;
    while i < |ws|
      invariant 0 <= i <= |ws|
      invariant total == TotalWarp(ws[..i])
    {
      assert ws[..i + 1][..i] == ws[..i];
      total := total + ws[i].wc;
      i := i + 1;
    }
    assert ws[..i] == ws;
  }

  /** `correct_curve_order_for_warp`: rule the nodes again from curve 1
      reversed (curve 2 and the elements are kept), and return that node
      list only when the mesh's total warp strictly exceeds the reversed
      mesh's; a tie keeps the mesh as it is. */
  method CorrectCurveOrderForWarp(c1: seq<Point>, c2: seq<Point>, ney: nat, e2n: seq<seq<int>>,
                                  e2warp: seq<ElementWarp>, nodes: seq<GridNode>, wc: (Point, Point, Point, Point) -> real)
    returns (r: Result<seq<GridNode>, WarpError>)
    requires WellFormed(e2n)
    ensures NodesFailure(|c1|, |c2|, ney).Some? ==> r == Err(RuledFailure(NodesFailure(|c1|, |c2|, ney).value))
    ensures NodesFailure(|c1|, |c2|, ney).None? ==>
              var revNodes := RuledNodes(Reverse(c1), c2, ney);
              var revWarps := Warps(e2n, revNodes, wc, NoCorners);
              (revWarps.Err? ==> r == Err(revWarps.error)) &&
              (revWarps.Ok? ==> r == Ok(if TotalWarp(e2warp) > TotalWarp(revWarps.value) then revNodes else nodes))
  {
    var c1Rev := Reverse(c1);
    var nodesRev := MakeNodesList(c1Rev, c2, ney);
    if nodesRev.Err? {
      return Err(RuledFailure(nodesRev.error));
    }
    RuledNodeListIsRuledNodes(nodesRev.value, c1Rev, c2, ney);
    var e2warpRev := GetE2Warp(e2n, nodesRev.value, wc);
    if e2warpRev.Err? {
      return Err(e2warpRev.error);
    }
    var totalRevWarp := SumWarp(e2warpRev.value);
    var totalWarp := SumWarp(e2warp);
    if totalWarp > totalRevWarp {
      return Ok(nodesRev.value);
    } else {
      return Ok(nodes);
    }
  }

  /** The two candidate node lists have the same length and the same node
      IDs in the same order, so the element list fits both. */
  lemma ReversedCandidateSameIds(c1: seq<Point>, c2: seq<Point>, ney: nat)
    requires NodesFailure(|c1|, |c2|, ney).None?
    ensures NodesFailure(|Reverse(c1)|, |c2|, ney).None?
    ensures |RuledNodes(Reverse(c1), c2, ney)| == |RuledNodes(c1, c2, ney)|
    ensures forall k :: 0 <= k < |RuledNodes(c1, c2, ney)| ==>
              RuledNodes(Reverse(c1), c2, ney)[k].nid == RuledNodes(c1, c2, ney)[k].nid == k + 1
  {
  }
}
