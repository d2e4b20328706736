/** Thickening a quadrilateral shell mesh into `N_layers` layers of
    hexahedra: every node is copied once per layer, pushed along its nodal
    normal, and every element once per layer, joining the copies below and
    above it.  Node IDs of layer l are the original IDs plus l times the
    node count, element IDs the original plus l times the element count.
    The nodal normals (cross products and square roots) are an input. */
module SolidThicken {
  import opened Common
  import opened PyDict

  datatype ThickenError = ZeroDivisionError | KeyError | IndexError

  /** `node + mag * vector`, componentwise. */
  function Offset(p: Point, v: Point, mag: real): Point
  {
    Point(p.x + mag * v.x, p.y + mag * v.y, p.z + mag * v.z)
  }

  /** `layer * (thickness / N_layers)`: how far layer `layer` lies from the
      shell. */
  function LayerMag(layer: nat, thickness: real, nLayers: nat): real
    requires nLayers > 0
  {
    (layer as real) * (thickness / (nLayers as real))
  }

  /** Every node of `ks` has a coordinate and a normal. */
  predicate HasNormals(ks: seq<int>, nodes: Dict<Point>, n2norm: map<int, Point>)
  {
    forall i :: 0 <= i < |ks| ==> ks[i] in nodes.m && ks[i] in n2norm
  }

  /** ID `id` moved to layer l, where every layer holds `count` IDs. */
  function LayerId(id: int, l: nat, count: nat): int
  {
    id + l * count
  }

  /** The node copies `get_new_nodes` has written once it has done layers
      0 .. layer - 1 and the first i nodes of layer `layer`, for a shell
      whose node IDs are 1..n in insertion order: IDs 1 .. layer n + i in
      order, the copy of node nid in layer l being node nid pushed along
      its normal by the distance of layer l. */
  ghost predicate NodesFilled(d: Dict<Point>, nodes: Dict<Point>, n2norm: map<int, Point>, thickness: real, nLayers: nat, layer: nat, i: nat)
  {
    var n := |nodes.keys|;
    nLayers > 0 && NumberedFromOne(d) && |d.keys| == layer * n + i &&
    forall l: nat, nid :: (l < layer || (l == layer && nid <= i)) && 1 <= nid <= n && nid in nodes.m && nid in n2norm ==>
      LayerId(nid, l, n) in d.m && d.m[LayerId(nid, l, n)] == Offset(nodes.m[nid], n2norm[nid], LayerMag(l, thickness, nLayers))
  }

  /** Writing the copy of the next node extends what has been filled. */
  lemma NodeStep(d: Dict<Point>, nodes: Dict<Point>, n2norm: map<int, Point>, thickness: real, nLayers: nat, layer: nat, i: nat, p: Point)
    requires NumberedFromOne(nodes) && i < |nodes.keys| && nodes.keys[i] in n2norm
    requires NodesFilled(d, nodes, n2norm, thickness, nLayers, layer, i)
    requires p == Offset(nodes.m[nodes.keys[i]], n2norm[nodes.keys[i]], LayerMag(layer, thickness, nLayers))
    ensures NodesFilled(d.Put(nodes.keys[i] + layer * |nodes.keys|, p), nodes, n2norm, thickness, nLayers, layer, i + 1)
  {
    var n := |nodes.keys|;
    assert nodes.keys[i] == i + 1;
    NumberedPut(d, p);
    var d' := d.Put(nodes.keys[i] + layer * n, p);
    forall l: nat, nid | (l < layer || (l == layer && nid <= i + 1)) && 1 <= nid <= n && nid in nodes.m && nid in n2norm
      ensures LayerId(nid, l, n) in d'.m && d'.m[LayerId(nid, l, n)] == Offset(nodes.m[nid], n2norm[nid], LayerMag(l, thickness, nLayers))
    {
      if !(l == layer && nid == i + 1) {
        assert LayerId(nid, l, n) in d.m;
      }
    }
  }

  /** A finished layer is the start of the next one. */
  lemma NodesNextLayer(d: Dict<Point>, nodes: Dict<Point>, n2norm: map<int, Point>, thickness: real, nLayers: nat, layer: nat)
    requires NodesFilled(d, nodes, n2norm, thickness, nLayers, layer, |nodes.keys|)
    ensures NodesFilled(d, nodes, n2norm, thickness, nLayers, layer + 1, 0)
  {
    assert (layer + 1) * |nodes.keys| == layer * |nodes.keys| + |nodes.keys|;
  }

  /** `get_new_nodes`: the layer distance divides by N_layers, so no layer
      at all fails before anything is written; a node without a normal
      fails on the first layer; otherwise layers 0 .. N_layers are
      written, and for a shell numbered 1..n they are complete. */
  method GetNewNodes(nLayers: nat, thickness: real, nodes: Dict<Point>, n2norm: map<int, Point>)
    returns (r: Result<Dict<Point>, ThickenError>)
    requires nodes.Valid()
    ensures r.Err? <==> nLayers == 0 || !HasNormals(nodes.keys, nodes, n2norm)
    ensures r.Err? ==> r.error == (if nLayers == 0 then ZeroDivisionError else KeyError)
    ensures r.Ok? ==> r.value.Valid()
    ensures r.Ok? && NumberedFromOne(nodes) ==> NodesFilled(r.value, nodes, n2norm, thickness, nLayers, nLayers + 1, 0)
  {
    var newNodes: Dict<Point> := Empty();
    var nodeIdOffset := 0;
    var layer := 0;
    while layer < nLayers + 1
      invariant 0 <= layer <= nLayers + 1
      invariant nodeIdOffset == layer * |nodes.keys|
      invariant newNodes.Valid()
      invariant layer > 0 ==> nLayers > 0 && HasNormals(nodes.keys, nodes, n2norm)
      invariant NumberedFromOne(nodes) && nLayers > 0 ==> NodesFilled(newNodes, nodes, n2norm, thickness, nLayers, layer, 0)
    {
      if nLayers == 0 {
        return Err(ZeroDivisionError);
      }
      var mag := LayerMag(layer, thickness, nLayers);
      var next := NodeLayer(nodes, n2norm, nodeIdOffset, mag, newNodes, thickness, nLayers, layer);
      if next.Err? {
        return next;
      }
      if NumberedFromOne(nodes) {
        NodesNextLayer(next.value, nodes, n2norm, thickness, nLayers, layer);
      }
      newNodes := next.value;
      nodeIdOffset := nodeIdOffset + |nodes.keys|;
      layer := layer + 1;
    }
    return Ok(newNodes);
  }

  /** One pass of the inner loop of `get_new_nodes`: every node, its ID
      moved up by `offset` and its position pushed `mag` along its normal,
      written in turn; the first node without a normal fails. */
  method NodeLayer(nodes: Dict<Point>, n2norm: map<int, Point>, offset: int, mag: real, before: Dict<Point>,
                   ghost thickness: real, ghost nLayers: nat, ghost layer: nat)
    returns (r: Result<Dict<Point>, ThickenError>)
    requires nodes.Valid() && before.Valid()
    ensures r.Err? <==> !HasNormals(nodes.keys, nodes, n2norm)
    ensures r.Err? ==> r.error == KeyError
    ensures r.Ok? ==> r.value.Valid()
    ensures r.Ok? && NumberedFromOne(nodes) && NodesFilled(before, nodes, n2norm, thickness, nLayers, layer, 0) &&
            offset == layer * |nodes.keys| && mag == LayerMag(layer, thickness, nLayers) ==>
              NodesFilled(r.value, nodes, n2norm, thickness, nLayers, layer, |nodes.keys|)
  {
    ghost var filling := NumberedFromOne(nodes) && NodesFilled(before, nodes, n2norm, thickness, nLayers, layer, 0) &&
                         offset == layer * |nodes.keys| && mag == LayerMag(layer, thickness, nLayers);
    var d := before;
    var i := 0;
    while i < |nodes.keys|
      invariant 0 <= i <= |nodes.keys|
      invariant forall j :: 0 <= j < i ==> nodes.keys[j] in nodes.m && nodes.keys[j] in n2norm
      invariant d.Valid()
      invariant filling ==> NodesFilled(d, nodes, n2norm, thickness, nLayers, layer, i)
    {
      var nid := nodes.keys[i];
      if nid !in n2norm {
        return Err(KeyError);
      }
      var p := Offset(nodes.m[nid], n2norm[nid], mag);
      if filling {
        NodeStep(d, nodes, n2norm, thickness, nLayers, layer, i, p);
      }
      d := d.Put(nid + offset, p);
      i := i + 1;
    }
    return Ok(d);
  }

  /** Layer 0 of the thickened nodes is the shell itself. */
  lemma LayerZeroIsShell(p: Point, v: Point, thickness: real, nLayers: nat)
    requires nLayers > 0
    ensures Offset(p, v, LayerMag(0, thickness, nLayers)) == p
  {
  }

  /** The first four entries of every element exist. */
  predicate FourCorners(e2n: Dict<seq<int>>)
  {
    forall i :: 0 <= i < |e2n.keys| ==> e2n.keys[i] in e2n.m && |e2n.m[e2n.keys[i]]| >= 4
  }

  /** The hexahedron joining the layer copies of a quadrilateral's corners
      at `offset1` (below) and `offset2` (above). */
  function Hex(q: seq<int>, offset1: int, offset2: int): (h: seq<int>)
    requires |q| >= 4
    ensures |h| == 8
    ensures forall k :: 0 <= k < 4 ==> h[k] == q[k] + offset1 && h[k + 4] == q[k] + offset2
  {
    [q[0] + offset1, q[1] + offset1, q[2] + offset1, q[3] + offset1,
     q[0] + offset2, q[1] + offset2, q[2] + offset2, q[3] + offset2]
  }

  /** The hexahedra `get_new_E2N` has written once it has done layers
      0 .. layer - 1 and the first i elements of layer `layer`, for
      elements numbered 1..m in insertion order: IDs 1 .. layer m + i in
      order, the copy of element eid in layer l joining the layer-l and
      layer-(l + 1) copies of its corners. */
  ghost predicate ElementsFilled(d: Dict<seq<int>>, e2n: Dict<seq<int>>, nnodes: nat, layer: nat, i: nat)
  {
    var m := |e2n.keys|;
    NumberedFromOne(d) && |d.keys| == layer * m + i &&
    forall l: nat, eid :: (l < layer || (l == layer && eid <= i)) && 1 <= eid <= m && eid in e2n.m && |e2n.m[eid]| >= 4 ==>
      LayerId(eid, l, m) in d.m && d.m[LayerId(eid, l, m)] == Hex(e2n.m[eid], l * nnodes, (l + 1) * nnodes)
  }

  /** Writing the next element's hexahedron extends what has been filled. */
  lemma ElementStep(d: Dict<seq<int>>, e2n: Dict<seq<int>>, nnodes: nat, layer: nat, i: nat, h: seq<int>)
    requires NumberedFromOne(e2n) && i < |e2n.keys| && |e2n.m[e2n.keys[i]]| >= 4
    requires ElementsFilled(d, e2n, nnodes, layer, i)
    requires h == Hex(e2n.m[e2n.keys[i]], layer * nnodes, (layer + 1) * nnodes)
    ensures ElementsFilled(d.Put(e2n.keys[i] + layer * |e2n.keys|, h), e2n, nnodes, layer, i + 1)
  {
    var m := |e2n.keys|;
    assert e2n.keys[i] == i + 1;
    NumberedPut(d, h);
    var d' := d.Put(e2n.keys[i] + layer * m, h);
    forall l: nat, eid | (l < layer || (l == layer && eid <= i + 1)) && 1 <= eid <= m && eid in e2n.m && |e2n.m[eid]| >= 4
      ensures LayerId(eid, l, m) in d'.m && d'.m[LayerId(eid, l, m)] == Hex(e2n.m[eid], l * nnodes, (l + 1) * nnodes)
    {
      if !(l == layer && eid == i + 1) {
        assert LayerId(eid, l, m) in d.m;
      }
    }
  }

  /** A finished layer of elements is the start of the next one. */
  lemma ElementsNextLayer(d: Dict<seq<int>>, e2n: Dict<seq<int>>, nnodes: nat, layer: nat)
    requires ElementsFilled(d, e2n, nnodes, layer, |e2n.keys|)
    ensures ElementsFilled(d, e2n, nnodes, layer + 1, 0)
  {
    assert (layer + 1) * |e2n.keys| == layer * |e2n.keys| + |e2n.keys|;
  }

  /** `get_new_E2N`: no layer gives an empty E2N; otherwise an element with
      fewer than four nodes fails on the first layer, and layers
      0 .. N_layers - 1 of hexahedra are written, complete for elements
      numbered 1..m. */
  method GetNewE2N(e2n: Dict<seq<int>>, nodes: Dict<Point>, nLayers: nat) returns (r: Result<Dict<seq<int>>, ThickenError>)
    requires e2n.Valid()
    ensures r.Err? <==> nLayers > 0 && !FourCorners(e2n)
    ensures r.Err? ==> r.error == IndexError
    ensures nLayers == 0 ==> r == Ok(Empty())
    ensures r.Ok? ==> r.value.Valid()
    ensures r.Ok? && NumberedFromOne(e2n) ==> ElementsFilled(r.value, e2n, |nodes.keys|, nLayers, 0)
  {
    var newE2N: Dict<seq<int>> := Empty();
    var elementIdOffset := 0;
    var nnodes := |nodes.keys|;
    var layer := 0;
    while layer < nLayers
      invariant 0 <= layer <= nLayers
      invariant elementIdOffset == layer * |e2n.keys|
      invariant newE2N.Valid()
      invariant layer > 0 ==> FourCorners(e2n)
      invariant layer == 0 ==> newE2N == Empty()
      invariant NumberedFromOne(e2n) ==> ElementsFilled(newE2N, e2n, nnodes, layer, 0)
    {
      var offset1 := layer * nnodes;
      var offset2 := (layer + 1) * nnodes;
      var next := ElementLayer(e2n, elementIdOffset, offset1, offset2, newE2N, nnodes, layer);
      if next.Err? {
        return next;
      }
      if NumberedFromOne(e2n) {
        ElementsNextLayer(next.value, e2n, nnodes, layer);
      }
      newE2N := next.value;
      elementIdOffset := elementIdOffset + |e2n.keys|;
      layer := layer + 1;
    }
    return Ok(newE2N);
  }

  /** One pass of the inner loop of `get_new_E2N`: every element, its ID
      moved up by `eidOffset`, becomes the hexahedron between its first
      four nodes moved up by `offset1` and by `offset2`; an element with
      fewer than four nodes fails. */
  method ElementLayer(e2n: Dict<seq<int>>, eidOffset: int, offset1: int, offset2: int, before: Dict<seq<int>>,
                      ghost nnodes: nat, ghost layer: nat)
    returns (r: Result<Dict<seq<int>>, ThickenError>)
    requires e2n.Valid() && before.Valid()
    ensures r.Err? <==> !FourCorners(e2n)
    ensures r.Err? ==> r.error == IndexError
    ensures r.Ok? ==> r.value.Valid()
    ensures r.Ok? && NumberedFromOne(e2n) && ElementsFilled(before, e2n, nnodes, layer, 0) &&
            eidOffset == layer * |e2n.keys| && offset1 == layer * nnodes && offset2 == (layer + 1) * nnodes ==>
              ElementsFilled(r.value, e2n, nnodes, layer, |e2n.keys|)
  {
    ghost var filling := NumberedFromOne(e2n) && ElementsFilled(before, e2n, nnodes, layer, 0) &&
                         eidOffset == layer * |e2n.keys| && offset1 == layer * nnodes && offset2 == (layer + 1) * nnodes;
    var d := before;
    var i := 0;
    while i < |e2n.keys|
      invariant 0 <= i <= |e2n.keys|
      invariant forall j :: 0 <= j < i ==> e2n.keys[j] in e2n.m && |e2n.m[e2n.keys[j]]| >= 4
      invariant d.Valid()
      invariant filling ==> ElementsFilled(d, e2n, nnodes, layer, i)
    {
      var eid := e2n.keys[i];
      var element := e2n.m[eid];
      if |element| < 4 {
        return Err(IndexError);
      }
      var hex := [element[0] + offset1, element[1] + offset1, element[2] + offset1, element[3] + offset1,
                  element[0] + offset2, element[1] + offset2, element[2] + offset2, element[3] + offset2];
      if filling {
        ElementStep(d, e2n, nnodes, layer, i, hex);
      }
      d := d.Put(eid + eidOffset, hex);
      i := i + 1;
    }
    return Ok(d);
  }

  lemma MulLeq(a: nat, b: nat, m: nat)
    requires a <= b
    ensures a * m <= b * m
  {
  }

  /** The layer and position of ID e among `count` layers of m IDs. */
  lemma LayerOf(e: int, m: nat, count: nat) returns (l: nat, i: nat)
    requires 1 <= e <= count * m
    ensures l < count && i < m && e == LayerId(i + 1, l, m)
  {
    l := (e - 1) / m;
    i := (e - 1) % m;
    if l >= count {
      MulLeq(count, l, m);
    }
  }

  /** Every node ID 1..(N_layers + 1) n of the thickened nodes is the copy,
      in some layer, of a node of the shell, pushed along its normal by
      that layer's distance. */
  lemma EveryNewNodeIsACopy(rn: Dict<Point>, nodes: Dict<Point>, n2norm: map<int, Point>, thickness: real, nLayers: nat, e: int)
    returns (l: nat, nid: int)
    requires NumberedFromOne(nodes) && HasNormals(nodes.keys, nodes, n2norm)
    requires NodesFilled(rn, nodes, n2norm, thickness, nLayers, nLayers + 1, 0)
    requires e in rn.m
    ensures l <= nLayers && nid in nodes.m && nid in n2norm && e == LayerId(nid, l, |nodes.keys|)
    ensures rn.m[e] == Offset(nodes.m[nid], n2norm[nid], LayerMag(l, thickness, nLayers))
  {
    NumberedKeys(rn, e);
    var i;
    l, i := LayerOf(e, |nodes.keys|, nLayers + 1);
    nid := i + 1;
    assert nodes.keys[i] == nid;
  }

  /** A corner 1..n moved up to layer l or l + 1, below the top layer,
      stays among the (layers + 1) n node IDs. */
  lemma CornerCopyInRange(c: int, n: nat, l: nat, layers: nat)
    requires 1 <= c <= n && l < layers
    ensures 1 <= LayerId(c, l, n) && LayerId(c, l + 1, n) <= (layers + 1) * n
  {
    MulLeq(l + 2, layers + 1, n);
    assert (l + 2) * n == (l + 1) * n + n;
  }

  /** Every node an element names (among its first four) is a node ID
      1..n. */
  predicate CornersAreNodes(e2n: Dict<seq<int>>, n: nat)
    requires FourCorners(e2n)
  {
    forall i, q :: 0 <= i < |e2n.keys| && 0 <= q < 4 ==> 1 <= e2n.m[e2n.keys[i]][q] <= n
  }

  /** The layered solid mesh is closed: with node IDs 1..n and element IDs
      1..m in order and every element naming only nodes of the shell,
      every node a thickened hexahedron names is a thickened node. */
  lemma ThickenedMeshClosed(rn: Dict<Point>, re: Dict<seq<int>>, nodes: Dict<Point>, n2norm: map<int, Point>,
                            thickness: real, nLayers: nat, e2n: Dict<seq<int>>)
    requires NumberedFromOne(nodes) && NumberedFromOne(e2n) && FourCorners(e2n) && CornersAreNodes(e2n, |nodes.keys|)
    requires NodesFilled(rn, nodes, n2norm, thickness, nLayers, nLayers + 1, 0)
    requires ElementsFilled(re, e2n, |nodes.keys|, nLayers, 0)
    ensures forall e, k :: e in re.m && 0 <= k < |re.m[e]| ==> re.m[e][k] in rn.m
  {
    var n := |nodes.keys|;
    forall e, k | e in re.m && 0 <= k < |re.m[e]| ensures re.m[e][k] in rn.m {
      NumberedKeys(re, e);
      var l, i := LayerOf(e, |e2n.keys|, nLayers);
      assert e2n.keys[i] == i + 1;
      var q := e2n.m[i + 1];
      assert re.m[e] == Hex(q, l * n, (l + 1) * n);
      var c := if k < 4 then q[k] else q[k - 4];
      assert 1 <= c <= n;
      CornerCopyInRange(c, n, l, nLayers);
      NumberedKeys(rn, re.m[e][k]);
    }
  }
}
