/** The ruled quadrilateral shell mesh between two discretised curves.
    Curve 1 and curve 2 each carry the same number of points; node rows
    are interpolated linearly from curve 1 (row 0) to curve 2 (last row),
    and nodes and elements are numbered row by row from 1. */
module RuledMesh {
  import opened Common
  import opened PyDict

  /** A node as the list version writes it, `[x, y, z, NID]`. */
  datatype GridNode = GridNode(pos: Point, nid: int)

  /** How the node builder fails when the curves do not fit. */
  datatype RuledError = IndexError | ZeroDivisionError

  /** `(b - a) * t + a`, componentwise. */
  function Lerp(a: Point, b: Point, t: real): Point
  {
    Point((b.x - a.x) * t + a.x, (b.y - a.y) * t + a.y, (b.z - a.z) * t + a.z)
  }

  /** Position of the node in row i (of ney + 1 rows) ruled from point j of
      each curve. */
  function RuledPoint(c1: seq<Point>, c2: seq<Point>, ney: nat, i: nat, j: nat): Point
    requires j < |c1| && j < |c2| && ney > 0
  {
    Lerp(c1[j], c2[j], (i as real) / (ney as real))
  }

  /** ID of the node in row i, column j, when every row holds m nodes. */
  function GridNodeId(m: nat, i: nat, j: nat): int
  {
    i * m + j + 1
  }

  /** The corners N1..N4 of the element in row `row`, column `col`, of a
      grid with nx nodes per row: they walk around the cell from its
      lower-left node, up the column, across and back down. */
  function QuadCorners(nx: nat, row: nat, col: nat): seq<int>
  {
    var n1 := 1 + nx * row + col;
    var n2 := 1 + nx * (row + 1) + col;
    [n1, n2, n2 + 1, n1 + 1]
  }

  /** How the node builder fails, if it does: an empty curve 1 builds
      nothing; otherwise a short curve 2 is indexed past its end in the
      first row, and with zero rows of elements the ruling parameter
      divides by zero (after curve 2's first point has been read). */
  function NodesFailure(m: nat, m2: nat, ney: nat): Option<RuledError>
  {
    if m == 0 then None
    else if ney == 0 then Some(if m2 == 0 then IndexError else ZeroDivisionError)
    else if m2 < m then Some(IndexError)
    else None
  }

  lemma DivModRowCol(i: nat, j: nat, m: nat)
    requires j < m
    ensures (i * m + j) / m == i && (i * m + j) % m == j
  {
    var k := i * m + j;
    var q := k / m;
    var r := k % m;
    assert k == q * m + r;
    assert (q - i) * m == j - r;
    if q - i >= 1 {
      MulAtLeast(q - i, m);
    } else if q - i <= -1 {
      MulAtLeast(i - q, m);
    }
  }

  lemma MulAtLeast(d: int, m: nat)
    requires d >= 1
    ensures d * m >= m
  {
  }

  /** Row k (from 0) of the element list is element k + 1, the cell in row
      k / nex and column k % nex. */
  ghost predicate RuledQuadList(e2n: seq<seq<int>>, nex: nat)
  {
    forall k :: 0 <= k < |e2n| ==> nex > 0 && e2n[k] == [k + 1] + QuadCorners(nex + 1, k / nex, k % nex)
  }

  lemma QuadListStep(e2n: seq<seq<int>>, nex: nat, nx: nat, j: nat, i: nat, row: seq<int>)
    requires RuledQuadList(e2n, nex) && nx == nex + 1 && i < nex && |e2n| == j * nex + i
    requires row == [|e2n| + 1, 1 + nx * j + i, 1 + nx * (j + 1) + i, 1 + nx * (j + 1) + i + 1, 1 + nx * j + i + 1]
    ensures RuledQuadList(e2n + [row], nex)
  {
    var k := |e2n|;
    var after := e2n + [row];
    assert k / nex == j && k % nex == i by {
      DivModRowCol(j, i, nex);
    }
    assert row == [k + 1] + QuadCorners(nex + 1, j, i);
    assert forall k' :: 0 <= k' < k ==> after[k'] == e2n[k'];
  }

  /** The list version (`make_elements_of_ruled_mesh` returning
      `[EID, N1, N2, N3, N4]` rows): it walks every grid node and skips the
      last column and the last row, which start no element. */
  method MakeElementsList(nex: nat, ney: nat) returns (e2n: seq<seq<int>>)
    ensures |e2n| == nex * ney && RuledQuadList(e2n, nex)
  {
    var ny := ney + 1;
    e2n := [];
    var j := 0;
    while j < ny
      invariant 0 <= j <= ny
      invariant |e2n| == (if j <= ney then j * nex else ney * nex)
      invariant RuledQuadList(e2n, nex)
    {
      e2n := ElementRowList(nex, ney, j, e2n);
      j := j + 1;
    }
  }

  /** One pass of the outer loop of `make_elements_of_ruled_mesh`: the
      elements whose first corner lies in grid row j (none for the last
      row, and none for the last node of a row). */
  method ElementRowList(nex: nat, ney: nat, j: nat, e2n: seq<seq<int>>) returns (e2n': seq<seq<int>>)
    requires j <= ney && |e2n| == j * nex && RuledQuadList(e2n, nex)
    ensures j < ney ==> |e2n'| == j * nex + nex
    ensures j == ney ==> e2n' == e2n
    ensures RuledQuadList(e2n', nex)
  {
    var nx := nex + 1;
    var ny := ney + 1;
    var eid := |e2n|;
    e2n' := e2n;
    var i := 0;
    while i < nx
      invariant 0 <= i <= nx
      invariant j < ney ==> |e2n'| == j * nex + (if i <= nex then i else nex)
      invariant j == ney ==> e2n' == e2n
      invariant eid == |e2n'|
      invariant RuledQuadList(e2n', nex)
    {
      var nid := 1 + nx * j + i;
      if i == nx - 1 || j == ny - 1 {
        i := i + 1;
        continue;
      }
      eid := eid + 1;
      var n1 := nid;
      var n2 := 1 + nx * (j + 1) + i;
      var n3 := n2 + 1;
      var n4 := n1 + 1;
      var row := [eid, n1, n2, n3, n4];
      QuadListStep(e2n', nex, nx, j, i, row);
      e2n' := e2n' + [row];
      i := i + 1;
    }
  }

  /** Element e of the dictionary is the cell in row (e - 1) / nex and
      column (e - 1) % nex. */
  ghost predicate RuledQuadDict(e2n: Dict<seq<int>>, nex: nat)
  {
    NumberedFromOne(e2n) &&
    forall e :: e in e2n.m ==> nex > 0 && e2n.m[e] == QuadCorners(nex + 1, (e - 1) / nex, (e - 1) % nex)
  }

  lemma QuadDictStep(e2n: Dict<seq<int>>, nex: nat, j: nat, i: nat)
    requires RuledQuadDict(e2n, nex) && i < nex && |e2n.keys| == j * nex + i
    ensures RuledQuadDict(e2n.Put(|e2n.keys| + 1, QuadCorners(nex + 1, j, i)), nex)
    ensures |e2n.Put(|e2n.keys| + 1, QuadCorners(nex + 1, j, i)).keys| == |e2n.keys| + 1
  {
    var eid := |e2n.keys| + 1;
    NumberedKeys(e2n, eid);
    var after := e2n.Put(eid, QuadCorners(nex + 1, j, i));
    DivModRowCol(j, i, nex);
    assert eid - 1 == j * nex + i;
    assert forall e :: e in e2n.m ==> after.m[e] == e2n.m[e];
  }

  /** The dictionary version (`make_elements_of_ruled_mesh` returning
      `{EID: [N1, N2, N3, N4]}`): it walks only the cells, so nothing is
      skipped, and yields the same connectivity. */
  method MakeElementsDict(nex: nat, ney: nat) returns (e2n: Dict<seq<int>>)
    ensures |e2n.keys| == nex * ney && RuledQuadDict(e2n, nex)
  {
    var nx := nex + 1;
    var ny := ney + 1;
    var eid := 0;
    e2n := Empty();
    var j := 0;
    while j < ny - 1
      invariant 0 <= j <= ney
      invariant |e2n.keys| == j * nex && eid == |e2n.keys|
      invariant RuledQuadDict(e2n, nex)
    {
      var i := 0;
      while i < nx - 1
        invariant 0 <= i <= nex
        invariant |e2n.keys| == j * nex + i && eid == |e2n.keys|
        invariant RuledQuadDict(e2n, nex)
      {
        var nid := 1 + nx * j + i;
        eid := eid + 1;
        var n1 := nid;
        var n2 := 1 + nx * (j + 1) + i;
        var n3 := n2 + 1;
        var n4 := n1 + 1;
        QuadDictStep(e2n, nex, j, i);
        e2n := e2n.Put(eid, [n1, n2, n3, n4]);
        i := i + 1;
      }
      assert (j + 1) * nex == j * nex + nex;
      j := j + 1;
    }
  }

  /** Every node of the list sits where the ruling puts it: node k (from 0)
      is in row k / |c1| and column k % |c1|, and carries ID k + 1. */
  ghost predicate RuledNodeList(nodes: seq<GridNode>, c1: seq<Point>, c2: seq<Point>, ney: nat)
  {
    forall k :: 0 <= k < |nodes| ==>
      |c1| > 0 && ney > 0 && k % |c1| < |c2| &&
      nodes[k] == GridNode(RuledPoint(c1, c2, ney, k / |c1|, k % |c1|), k + 1)
  }

  /** The node list the ruling determines, when the curves fit: node k
      (from 0) lies in row k / |c1| and column k % |c1|. */
  function RuledNodes(c1: seq<Point>, c2: seq<Point>, ney: nat): (nodes: seq<GridNode>)
    requires NodesFailure(|c1|, |c2|, ney).None?
    ensures |nodes| == (ney + 1) * |c1|
  {
    if |c1| == 0 then []
    else
      seq((ney + 1) * |c1|, k requires 0 <= k < (ney + 1) * |c1| =>
        GridNode(RuledPoint(c1, c2, ney, k / |c1|, k % |c1|), k + 1))
  }

  /** A node list of the right length that follows the ruling is the one
      the ruling determines. */
  lemma RuledNodeListIsRuledNodes(nodes: seq<GridNode>, c1: seq<Point>, c2: seq<Point>, ney: nat)
    requires NodesFailure(|c1|, |c2|, ney).None?
    requires |nodes| == (ney + 1) * |c1| && RuledNodeList(nodes, c1, c2, ney)
    ensures nodes == RuledNodes(c1, c2, ney)
  {
    var r := RuledNodes(c1, c2, ney);
    forall k | 0 <= k < |nodes| ensures nodes[k] == r[k] {
    }
  }

  /** The same for the dictionary version: node n is in row (n - 1) / |c1|
      and column (n - 1) % |c1|. */
  ghost predicate RuledNodeDict(nodes: Dict<Point>, c1: seq<Point>, c2: seq<Point>, ney: nat)
  {
    NumberedFromOne(nodes) &&
    forall n :: n in nodes.m ==>
      |c1| > 0 && ney > 0 && (n - 1) % |c1| < |c2| &&
      nodes.m[n] == RuledPoint(c1, c2, ney, (n - 1) / |c1|, (n - 1) % |c1|)
  }

  lemma NodeListStep(nodes: seq<GridNode>, c1: seq<Point>, c2: seq<Point>, ney: nat, i: nat, j: nat)
    requires RuledNodeList(nodes, c1, c2, ney)
    requires j < |c1| && j < |c2| && ney > 0 && |nodes| == i * |c1| + j
    ensures RuledNodeList(nodes + [GridNode(RuledPoint(c1, c2, ney, i, j), |nodes| + 1)], c1, c2, ney)
  {
    var m := |c1|;
    var last := GridNode(RuledPoint(c1, c2, ney, i, j), |nodes| + 1);
    var after := nodes + [last];
    var k := |nodes|;
    DivModRowCol(i, j, m);
    assert k % m < |c2| && last == GridNode(RuledPoint(c1, c2, ney, k / m, k % m), k + 1);
    assert forall k' :: 0 <= k' < |nodes| ==> after[k'] == nodes[k'];
  }

  lemma NodeDictStep(nodes: Dict<Point>, c1: seq<Point>, c2: seq<Point>, ney: nat, i: nat, j: nat)
    requires RuledNodeDict(nodes, c1, c2, ney)
    requires j < |c1| && j < |c2| && ney > 0 && |nodes.keys| == i * |c1| + j
    ensures RuledNodeDict(nodes.Put(|nodes.keys| + 1, RuledPoint(c1, c2, ney, i, j)), c1, c2, ney)
    ensures |nodes.Put(|nodes.keys| + 1, RuledPoint(c1, c2, ney, i, j)).keys| == |nodes.keys| + 1
  {
    var m := |c1|;
    var nid := |nodes.keys| + 1;
    NumberedKeys(nodes, nid);
    var p := RuledPoint(c1, c2, ney, i, j);
    var after := nodes.Put(nid, p);
    DivModRowCol(i, j, m);
    assert nid - 1 == i * m + j;
    assert (nid - 1) % m < |c2| && p == RuledPoint(c1, c2, ney, (nid - 1) / m, (nid - 1) % m);
    assert forall n :: n in nodes.m ==> after.m[n] == nodes.m[n];
  }

  /** The list version of `make_nodes_of_ruled_mesh`: row by row, one node
      per point of curve 1, numbered from 1. */
  method MakeNodesList(c1: seq<Point>, c2: seq<Point>, ney: nat) returns (r: Result<seq<GridNode>, RuledError>)
    ensures r.Err? <==> NodesFailure(|c1|, |c2|, ney).Some?
    ensures r.Err? ==> r.error == NodesFailure(|c1|, |c2|, ney).value
    ensures r.Ok? ==> |r.value| == (ney + 1) * |c1| && RuledNodeList(r.value, c1, c2, ney)
    ensures r.Ok? && |c1| > 0 ==> ney > 0 && |c2| >= |c1|
  {
    var nodes: seq<GridNode> := [];
    var i := 0;
    while i < ney + 1
      invariant 0 <= i <= ney + 1
      invariant |nodes| == i * |c1|
      invariant i > 0 && |c1| > 0 ==> ney > 0 && |c2| >= |c1|
      invariant RuledNodeList(nodes, c1, c2, ney)
    {
      var row := NodeRowList(c1, c2, ney, i, nodes);
      if row.Err? {
        return Err(row.error);
      }
      nodes := row.value;
      i := i + 1;
    }
    return Ok(nodes);
  }

  /** One pass of the outer loop of the list version: appends row i. */
  method NodeRowList(c1: seq<Point>, c2: seq<Point>, ney: nat, i: nat, nodes: seq<GridNode>)
    returns (r: Result<seq<GridNode>, RuledError>)
    requires RuledNodeList(nodes, c1, c2, ney) && |nodes| == i * |c1|
    requires i > 0 && |c1| > 0 ==> ney > 0 && |c2| >= |c1|
    ensures r.Err? <==> i == 0 && NodesFailure(|c1|, |c2|, ney).Some?
    ensures r.Err? ==> r.error == NodesFailure(|c1|, |c2|, ney).value
    ensures r.Ok? ==> |r.value| == (i + 1) * |c1| && RuledNodeList(r.value, c1, c2, ney)
    ensures r.Ok? && |c1| > 0 ==> ney > 0 && |c2| >= |c1|
  {
    var m := |c1|;
    var nodes := nodes;
    var nid := |nodes|;
    var j := 0;
    while j < m
      invariant 0 <= j <= m
      invariant |nodes| == i * m + j && nid == |nodes|
      invariant i == 0 ==> j <= |c2| && (j > 0 ==> ney > 0)
      invariant RuledNodeList(nodes, c1, c2, ney)
    {
      nid := nid + 1;
      if j >= |c2| {
        return Err(IndexError);
      }
      if ney == 0 {
        return Err(ZeroDivisionError);
      }
      var t := (i as real) / (ney as real);
      var p := Lerp(c1[j], c2[j], t);
      NodeListStep(nodes, c1, c2, ney, i, j);
      nodes := nodes + [GridNode(p, nid)];
      j := j + 1;
    }
    assert (i + 1) * m == i * m + m;
    return Ok(nodes);
  }

  /** The dictionary version of `make_nodes_of_ruled_mesh`: `{NID: [x, y, z]}`
      with the same numbering and positions as the list version. */
  method MakeNodesDict(c1: seq<Point>, c2: seq<Point>, ney: nat) returns (r: Result<Dict<Point>, RuledError>)
    ensures r.Err? <==> NodesFailure(|c1|, |c2|, ney).Some?
    ensures r.Err? ==> r.error == NodesFailure(|c1|, |c2|, ney).value
    ensures r.Ok? ==> |r.value.keys| == (ney + 1) * |c1| && RuledNodeDict(r.value, c1, c2, ney)
    ensures r.Ok? && |c1| > 0 ==> ney > 0 && |c2| >= |c1|
  {
    var nodes: Dict<Point> := Empty();
    var i := 0;
    while i < ney + 1
      invariant 0 <= i <= ney + 1
      invariant |nodes.keys| == i * |c1|
      invariant i > 0 && |c1| > 0 ==> ney > 0 && |c2| >= |c1|
      invariant RuledNodeDict(nodes, c1, c2, ney)
    {
      var row := NodeRowDict(c1, c2, ney, i, nodes);
      if row.Err? {
        return Err(row.error);
      }
      nodes := row.value;
      i := i + 1;
    }
    return Ok(nodes);
  }

  /** One pass of the outer loop of the dictionary version: adds row i. */
  method NodeRowDict(c1: seq<Point>, c2: seq<Point>, ney: nat, i: nat, nodes: Dict<Point>)
    returns (r: Result<Dict<Point>, RuledError>)
    requires RuledNodeDict(nodes, c1, c2, ney) && |nodes.keys| == i * |c1|
    requires i > 0 && |c1| > 0 ==> ney > 0 && |c2| >= |c1|
    ensures r.Err? <==> i == 0 && NodesFailure(|c1|, |c2|, ney).Some?
    ensures r.Err? ==> r.error == NodesFailure(|c1|, |c2|, ney).value
    ensures r.Ok? ==> |r.value.keys| == (i + 1) * |c1| && RuledNodeDict(r.value, c1, c2, ney)
    ensures r.Ok? && |c1| > 0 ==> ney > 0 && |c2| >= |c1|
  {
    var m := |c1|;
    var nodes := nodes;
    var nid := |nodes.keys|;
    var j := 0;
    while j < m
      invariant 0 <= j <= m
      invariant |nodes.keys| == i * m + j && nid == |nodes.keys|
      invariant i == 0 ==> j <= |c2| && (j > 0 ==> ney > 0)
      invariant RuledNodeDict(nodes, c1, c2, ney)
    {
      nid := nid + 1;
      if j >= |c2| {
        return Err(IndexError);
      }
      if ney == 0 {
        return Err(ZeroDivisionError);
      }
      var t := (i as real) / (ney as real);
      var p := Lerp(c1[j], c2[j], t);
      NodeDictStep(nodes, c1, c2, ney, i, j);
      nodes := nodes.Put(nid, p);
      j := j + 1;
    }
    assert (i + 1) * m == i * m + m;
    return Ok(nodes);
  }

  /** The node in row r, column c of the ruled grid is entry
      GridNodeId(m, r, c) - 1 of the list, carries that ID, and sits at the
      ruled point (r, c). */
  lemma GridNodeAt(nodes: seq<GridNode>, c1: seq<Point>, c2: seq<Point>, ney: nat, r: nat, c: nat)
    requires RuledNodeList(nodes, c1, c2, ney) && |nodes| == (ney + 1) * |c1|
    requires r <= ney && c < |c1|
    ensures 1 <= GridNodeId(|c1|, r, c) <= |nodes| && c < |c2| && ney > 0
    ensures nodes[GridNodeId(|c1|, r, c) - 1] == GridNode(RuledPoint(c1, c2, ney, r, c), GridNodeId(|c1|, r, c))
  {
    var m := |c1|;
    assert r * m + c < |nodes| by {
      MulLeq(r, ney, m);
      assert (ney + 1) * m == ney * m + m;
    }
    DivModRowCol(r, c, m);
  }

  lemma MulLeq(a: nat, b: nat, m: nat)
    requires a <= b
    ensures a * m <= b * m
  {
  }

  /** Row 0 of the ruled nodes lies on curve 1 and the last row on curve 2,
      whatever the curves: the ruling interpolates between them (with
      GridNodeAt, these are the nodes with IDs j + 1 and ney * m + j + 1). */
  lemma EndRowsAreTheCurves(c1: seq<Point>, c2: seq<Point>, ney: nat, j: nat)
    requires j < |c1| && j < |c2| && ney > 0
    ensures RuledPoint(c1, c2, ney, 0, j) == c1[j]
    ensures RuledPoint(c1, c2, ney, ney, j) == c2[j]
  {
    assert (ney as real) / (ney as real) == 1.0;
  }

  /** Each element spans one cell of the node grid: with m nodes per row,
      the corners N1, N2, N3, N4 of the element in row `row` and column `col`
      are the grid nodes (row, col), (row + 1, col), (row + 1, col + 1) and
      (row, col + 1); with GridNodeAt, every corner names a node the node
      builder made, at the place the ruling puts it. */
  lemma ElementCornersOnGrid(m: nat, row: nat, col: nat)
    ensures QuadCorners(m, row, col) ==
      [GridNodeId(m, row, col), GridNodeId(m, row + 1, col),
       GridNodeId(m, row + 1, col + 1), GridNodeId(m, row, col + 1)]
  {
    assert (row + 1) * m == m * (row + 1);
  }

  /** Distinct grid cells have distinct lower-left corners. */
  lemma CornerInjective(nx: nat, r1: nat, c1: nat, r2: nat, c2: nat)
    requires c1 < nx && c2 < nx
    ensures QuadCorners(nx, r1, c1)[0] == QuadCorners(nx, r2, c2)[0] ==> r1 == r2 && c1 == c2
  {
    DivModRowCol(r1, c1, nx);
    DivModRowCol(r2, c2, nx);
  }

  /** No two elements of the mesh are the same cell. */
  lemma ElementsDistinct(nex: nat, k1: nat, k2: nat)
    requires nex > 0 && k1 != k2
    ensures QuadCorners(nex + 1, k1 / nex, k1 % nex) != QuadCorners(nex + 1, k2 / nex, k2 % nex)
  {
    RowColDiffer(k1, k2, nex);
    CornerInjective(nex + 1, k1 / nex, k1 % nex, k2 / nex, k2 % nex);
  }

  /** Different positions in the element list are different cells. */
  lemma RowColDiffer(k1: nat, k2: nat, nex: nat)
    requires nex > 0 && k1 != k2
    ensures k1 / nex != k2 / nex || k1 % nex != k2 % nex
  {
    if k1 / nex == k2 / nex && k1 % nex == k2 % nex {
      DivModIdentity(k1, nex);
      DivModIdentity(k2, nex);
    }
  }

  lemma DivModIdentity(k: nat, n: nat)
    requires n > 0
    ensures k == (k / n) * n + k % n
  {
  }

  /** The four corners of an element are four different nodes. */
  lemma CornersDistinct(nx: nat, row: nat, col: nat)
    requires nx >= 2
    ensures Distinct(QuadCorners(nx, row, col))
  {
    var q := QuadCorners(nx, row, col);
    assert q[1] == q[0] + nx;
  }
}
