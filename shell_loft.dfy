/** Building a CQUAD4 shell mesh between two curves: orienting the second
    curve, then ruling nodes and elements between the two (the FreeCAD
    `FemMesh` container the nodes and faces are finally added to is not
    modelled). */
module ShellLoft {
  import opened Common
  import opened PyDict
  import opened RuledMesh

  /** The element type code of a four-node shell (CQUAD4). */
  const CQuad4: int := 15

  /** The second curve, reversed if the four-point warp test says its
      direction opposes the first curve's, and reversed (again) on request.
      Only two separate edges (four vertices between them) are oriented;
      closed curves such as circles, which have one vertex each, are left
      alone and the forced flip is ignored for them. */
  method OrientSecondCurve(c2: seq<Point>, vertexCount: nat, warped: bool, forceFlip: bool)
    returns (oriented: seq<Point>, flipped: bool)
    ensures flipped <==> vertexCount == 4 && warped != forceFlip
    ensures oriented == if flipped then Reverse(c2) else c2
  {
    oriented := c2;
    flipped := false;
    if vertexCount == 4 {
      if warped {
        oriented := Reverse(oriented);
        flipped := !flipped;
      }
      if forceFlip {
        ReverseReverse(c2);
        oriented := Reverse(oriented);
        flipped := !flipped;
      }
    }
  }

  /** `make_mesh_from_edges`: the node and element lists of the ruled mesh
      between the discretised edges, and whether the second edge was
      flipped. */
  method MakeMeshFromEdges(c1: seq<Point>, c2: seq<Point>, nex: nat, ney: nat,
                           vertexCount: nat, warped: bool, forceFlip: bool)
    returns (r: Result<(seq<GridNode>, seq<seq<int>>), RuledError>, flipped: bool)
    ensures flipped <==> vertexCount == 4 && warped != forceFlip
    ensures var c2o := if flipped then Reverse(c2) else c2;
      (r.Err? <==> NodesFailure(|c1|, |c2|, ney).Some?) &&
      (r.Ok? ==> |r.value.0| == (ney + 1) * |c1| && RuledNodeList(r.value.0, c1, c2o, ney))
    ensures r.Ok? ==> |r.value.1| == nex * ney && RuledQuadList(r.value.1, nex)
  {
    var c2o;
    c2o, flipped := OrientSecondCurve(c2, vertexCount, warped, forceFlip);
    var nodes := MakeNodesList(c1, c2o, ney);
    var e2n := MakeElementsList(nex, ney);
    if nodes.Err? {
      return Err(nodes.error), flipped;
    }
    r := Ok((nodes.value, e2n));
  }

  /** `shell_mesh_loft_between_two_curves` (dictionary form): nodes, E2N and
      the element types, every element being a CQUAD4. */
  datatype ShellMesh = ShellMesh(nodes: Dict<Point>, e2n: Dict<seq<int>>, e2t: Dict<int>)

  /** Gives every element the CQUAD4 type, in element order. */
  method AllQuad4(e2n: Dict<seq<int>>) returns (e2t: Dict<int>)
    requires e2n.Valid()
    ensures e2t.Valid() && e2t.keys == e2n.keys
    ensures forall e :: e in e2t.m ==> e2t.m[e] == CQuad4
  {
    e2t := Empty();
    var i := 0;
    while i < |e2n.keys|
      invariant 0 <= i <= |e2n.keys|
      invariant e2t.Valid() && e2t.keys == e2n.keys[..i]
      invariant forall e :: e in e2t.m ==> e2t.m[e] == CQuad4
    {
      var e := e2n.keys[i];
      assert e !in e2t.keys by {
        assert forall j :: 0 <= j < i ==> e2n.keys[j] != e;
      }
      e2t := e2t.Put(e, CQuad4);
      assert e2n.keys[..i + 1] == e2n.keys[..i] + [e];
      i := i + 1;
    }
    assert e2n.keys[..i] == e2n.keys;
  }

  method ShellMeshLoft(c1: seq<Point>, c2: seq<Point>, nex: nat, ney: nat) returns (r: Result<ShellMesh, RuledError>)
    ensures r.Err? <==> NodesFailure(|c1|, |c2|, ney).Some?
    ensures r.Ok? ==> |r.value.e2n.keys| == nex * ney && RuledQuadDict(r.value.e2n, nex)
    ensures r.Ok? ==> |r.value.nodes.keys| == (ney + 1) * |c1| && RuledNodeDict(r.value.nodes, c1, c2, ney)
    ensures r.Ok? ==> r.value.e2t.Valid() && r.value.e2t.keys == r.value.e2n.keys
    ensures r.Ok? ==> forall e :: e in r.value.e2t.m ==> r.value.e2t.m[e] == CQuad4
  {
    var e2n := MakeElementsDict(nex, ney);
    var nodes := MakeNodesDict(c1, c2, ney);
    if nodes.Err? {
      return Err(nodes.error);
    }
    var e2t := AllQuad4(e2n);
    return Ok(ShellMesh(nodes.value, e2n, e2t));
  }

  lemma DivBelow(k: nat, nex: nat, ney: nat)
    requires nex > 0 && k < nex * ney
    ensures k / nex < ney
  {
    if k / nex >= ney {
      MulLeq(ney, k / nex, nex);
    }
  }

  /** The corners of the element in row `row` and column `col` of a mesh
      with ney rows of elements and nx nodes per row are node IDs between 1
      and the node count (ney + 1) * nx. */
  lemma CornersWithinNodeCount(nx: nat, ney: nat, row: nat, col: nat)
    requires row < ney && col + 1 < nx
    ensures forall n :: n in QuadCorners(nx, row, col) ==> 1 <= n <= (ney + 1) * nx
  {
    var q := QuadCorners(nx, row, col);
    assert q[2] <= (ney + 1) * nx by {
      MulLeq(row + 1, ney, nx);
      assert (ney + 1) * nx == ney * nx + nx;
    }
  }

  /** A lofted shell mesh is closed: when each curve carries nex + 1 points
      (as the discretisation of an edge into nex segments gives), every node
      ID an element names is a node of the mesh. */
  lemma LoftedMeshClosed(sm: ShellMesh, c1: seq<Point>, c2: seq<Point>, nex: nat, ney: nat)
    requires |c1| == nex + 1
    requires |sm.e2n.keys| == nex * ney && RuledQuadDict(sm.e2n, nex)
    requires |sm.nodes.keys| == (ney + 1) * |c1| && RuledNodeDict(sm.nodes, c1, c2, ney)
    ensures forall e, n :: e in sm.e2n.m && n in sm.e2n.m[e] ==> n in sm.nodes.m
  {
    forall e, n | e in sm.e2n.m && n in sm.e2n.m[e] ensures n in sm.nodes.m {
      NumberedKeys(sm.e2n, e);
      DivBelow(e - 1, nex, ney);
      CornersWithinNodeCount(nex + 1, ney, (e - 1) / nex, (e - 1) % nex);
      NumberedKeys(sm.nodes, n);
    }
  }
}
