/** The one-layer thickening of mesh_utilities.py,
    `solid_mesh_by_thickened_shell_mesh`: every node of a quadrilateral
    shell gains a copy, pushed `thickness` along its nodal normal, under
    the ID node + highest node ID; every quadrilateral becomes the
    hexahedron between its corners and their copies, under the ID
    element + highest element ID; every hexahedron is then typed 7
    (CHEXA) and written out as a CHEXA card.  The nodal normals are an
    input.  As written, the routine raises before any of this: its
    `get_N2E` never builds the node-to-element map the normals need. */
module Thicken {
  import opened Common
  import opened Text
  import opened PyDict
  import opened SmallField
  import SolidThicken

  datatype ThickenError = ValueError | KeyError | IndexError | NameError | TypeError

  /** ID k moved above h: the ID `k + h` the thickening gives the copy of
      node k (h the highest node ID) or the hexahedron over element k (h
      the highest element ID). */
  function IdAbove(k: int, h: int): int
  {
    k + h
  }

  /** `[k + h for k in ks]`. */
  function ShiftKeys(ks: seq<int>, h: int): (r: seq<int>)
    ensures |r| == |ks| && forall j :: 0 <= j < |ks| ==> r[j] == IdAbove(ks[j], h)
  {
    seq(|ks|, j requires 0 <= j < |ks| => IdAbove(ks[j], h))
  }

  lemma ShiftKeysSnoc(ks: seq<int>, i: nat, h: int)
    requires i < |ks|
    ensures ShiftKeys(ks[..i + 1], h) == ShiftKeys(ks[..i], h) + [IdAbove(ks[i], h)]
  {
  }

  /** Every node ID is positive, as the IDs of a FreeCAD mesh are. */
  predicate PositiveKeys<V>(d: Dict<V>)
  {
    forall j :: 0 <= j < |d.keys| ==> d.keys[j] > 0
  }

  /** `create_thickened_nodes` after the first i nodes: the dictionary is
      the input with the copies of those i nodes appended in order, the
      copy of N under N + h at N pushed `thickness` along its normal. */
  ghost predicate CopiesAppended(d: Dict<Point>, nodes: Dict<Point>, n2norm: map<int, Point>, thickness: real, h: int, i: nat)
  {
    nodes.Valid() && d.Valid() && i <= |nodes.keys| &&
    d.keys == nodes.keys + ShiftKeys(nodes.keys[..i], h) &&
    (forall k :: k in nodes.m ==> k in d.m && d.m[k] == nodes.m[k]) &&
    (forall j {:trigger IdAbove(nodes.keys[j], h)} :: 0 <= j < i ==>
       nodes.keys[j] in nodes.m && nodes.keys[j] in n2norm && IdAbove(nodes.keys[j], h) in d.m &&
       d.m[IdAbove(nodes.keys[j], h)] == SolidThicken.Offset(nodes.m[nodes.keys[j]], n2norm[nodes.keys[j]], thickness))
  }

  /** With positive IDs, the copy of a node lies above every node of the
      shell and differs from the copies of the other nodes. */
  lemma CopyIsFresh(d: Dict<Point>, nodes: Dict<Point>, n2norm: map<int, Point>, thickness: real, i: nat)
    requires nodes.Valid() && PositiveKeys(nodes) && i < |nodes.keys|
    requires CopiesAppended(d, nodes, n2norm, thickness, nodes.MaxKey(), i)
    ensures IdAbove(nodes.keys[i], nodes.MaxKey()) !in d.m
  {
  }

  /** Writing the copy of the next node appends its ID. */
  lemma CopyStepKeys(d: Dict<Point>, nodes: Dict<Point>, n2norm: map<int, Point>, thickness: real, i: nat, p: Point)
    requires nodes.Valid() && PositiveKeys(nodes) && i < |nodes.keys|
    requires CopiesAppended(d, nodes, n2norm, thickness, nodes.MaxKey(), i)
    ensures d.Put(IdAbove(nodes.keys[i], nodes.MaxKey()), p).keys ==
            nodes.keys + ShiftKeys(nodes.keys[..i + 1], nodes.MaxKey())
  {
    CopyIsFresh(d, nodes, n2norm, thickness, i);
    ShiftKeysSnoc(nodes.keys, i, nodes.MaxKey());
  }

  /** Writing the copy of the next node keeps every entry written so far. */
  lemma CopyStepEntries(d: Dict<Point>, nodes: Dict<Point>, n2norm: map<int, Point>, thickness: real, i: nat, p: Point)
    requires nodes.Valid() && PositiveKeys(nodes) && i < |nodes.keys| && nodes.keys[i] in n2norm
    requires CopiesAppended(d, nodes, n2norm, thickness, nodes.MaxKey(), i)
    requires p == SolidThicken.Offset(nodes.m[nodes.keys[i]], n2norm[nodes.keys[i]], thickness)
    ensures var d2 := d.Put(IdAbove(nodes.keys[i], nodes.MaxKey()), p);
      (forall k :: k in nodes.m ==> k in d2.m && d2.m[k] == nodes.m[k]) &&
      (forall j {:trigger IdAbove(nodes.keys[j], nodes.MaxKey())} :: 0 <= j < i + 1 ==>
         nodes.keys[j] in nodes.m && nodes.keys[j] in n2norm && IdAbove(nodes.keys[j], nodes.MaxKey()) in d2.m &&
         d2.m[IdAbove(nodes.keys[j], nodes.MaxKey())] ==
           SolidThicken.Offset(nodes.m[nodes.keys[j]], n2norm[nodes.keys[j]], thickness))
  {
    CopyIsFresh(d, nodes, n2norm, thickness, i);
  }

  /** Writing the copy of the next node appends it. */
  lemma CopyStep(d: Dict<Point>, nodes: Dict<Point>, n2norm: map<int, Point>, thickness: real, i: nat, p: Point)
    requires nodes.Valid() && PositiveKeys(nodes) && i < |nodes.keys| && nodes.keys[i] in n2norm
    requires CopiesAppended(d, nodes, n2norm, thickness, nodes.MaxKey(), i)
    requires p == SolidThicken.Offset(nodes.m[nodes.keys[i]], n2norm[nodes.keys[i]], thickness)
    ensures CopiesAppended(d.Put(IdAbove(nodes.keys[i], nodes.MaxKey()), p), nodes, n2norm, thickness, nodes.MaxKey(), i + 1)
  {
    CopyStepKeys(d, nodes, n2norm, thickness, i, p);
    CopyStepEntries(d, nodes, n2norm, thickness, i, p);
  }

  /** `create_thickened_nodes`: `max` of no keys fails; a node without a
      normal fails; otherwise, for positive IDs, the input dictionary (the
      source writes into it) is kept and followed by the copy of every
      node, in order. */
  method CreateThickenedNodes(nodes: Dict<Point>, thickness: real, n2norm: map<int, Point>)
    returns (r: Result<Dict<Point>, ThickenError>)
    requires nodes.Valid()
    ensures r.Err? <==> |nodes.keys| == 0 || exists j :: 0 <= j < |nodes.keys| && nodes.keys[j] !in n2norm
    ensures r.Err? ==> r.error == (if |nodes.keys| == 0 then ValueError else KeyError)
    ensures r.Ok? ==> r.value.Valid()
    ensures r.Ok? && |nodes.keys| > 0 && PositiveKeys(nodes) ==>
              CopiesAppended(r.value, nodes, n2norm, thickness, nodes.MaxKey(), |nodes.keys|)
  {
    if |nodes.keys| == 0 {
      return Err(ValueError);
    }
    var highest := nodes.MaxKey();
    var d := nodes;
    var i := 0;
    while i < |nodes.keys|
      invariant 0 <= i <= |nodes.keys|
      invariant d.Valid()
      invariant forall k :: k in nodes.m ==> k in d.m
      invariant forall j :: 0 <= j < i ==> nodes.keys[j] in n2norm
      invariant PositiveKeys(nodes) ==> CopiesAppended(d, nodes, n2norm, thickness, highest, i)
    {
      var n := nodes.keys[i];
      if n !in n2norm {
        return Err(KeyError);
      }
      assert n in nodes.m;
      var p := SolidThicken.Offset(d.m[n], n2norm[n], thickness);
      if PositiveKeys(nodes) {
        CopyStep(d, nodes, n2norm, thickness, i, p);
      }
      d := d.Put(IdAbove(n, highest), p);
      i := i + 1;
    }
    return Ok(d);
  }

  /** Python's `ks[len(ks) // 2 - 1]` for non-empty ks, a negative index
      counting from the end. */
  function KeyAtHalf(ks: seq<int>): int
    requires |ks| > 0
  {
    var i := |ks| / 2 - 1;
    if i >= 0 then ks[i] else ks[|ks| + i]
  }

  /** On the thickened node dictionary, which the source hands to
      `create_thickened_E2N`, the key at half the length is the last node
      of the shell in insertion order. */
  lemma KeyAtHalfIsLastShellNode(ks: seq<int>, h: int)
    requires |ks| > 0
    ensures KeyAtHalf(ks + ShiftKeys(ks, h)) == ks[|ks| - 1]
  {
    assert (|ks| + |ks|) / 2 - 1 == |ks| - 1;
  }

  /** Shell nodes 4, 1, 2, 3 in that order: the thickened keys are
      4, 1, 2, 3, 8, 5, 6, 7, the key at half the length is 3 although
      the highest node is 4, so the top of the hexahedron over element
      [1, 2, 3, 4] starts at node 4 of the shell instead of 5, the copy of
      node 1. */
  lemma ThickenedOffsetCounterexample()
    ensures Max([4, 1, 2, 3]) == 4
    ensures KeyAtHalf([4, 1, 2, 3] + ShiftKeys([4, 1, 2, 3], 4)) == 3
    ensures SolidThicken.Hex([1, 2, 3, 4], 0, 3)[4] == 4 && 1 + Max([4, 1, 2, 3]) == 5
  {
    KeyAtHalfIsLastShellNode([4, 1, 2, 3], 4);
  }

  /** The thickened dictionary's key at half its length is the highest
      shell node exactly when the shell's last node is its highest, as in
      a shell numbered in increasing order. */
  lemma KeyAtHalfIsHighestWhenLast(ks: seq<int>, h: int)
    requires |ks| > 0 && h == Max(ks)
    ensures KeyAtHalf(ks + ShiftKeys(ks, h)) == h <==> ks[|ks| - 1] == h
  {
    KeyAtHalfIsLastShellNode(ks, h);
  }

  /** The hexahedra written so far: element E of the first i in order
      under ID E + he, joining its first four nodes to the same nodes
      moved up by k. */
  ghost predicate HexesAppended(d: Dict<seq<int>>, e2n: Dict<seq<int>>, he: int, k: int, i: nat)
  {
    e2n.Valid() && d.Valid() && i <= |e2n.keys| &&
    d.keys == ShiftKeys(e2n.keys[..i], he) &&
    (forall j {:trigger IdAbove(e2n.keys[j], he)} :: 0 <= j < i ==>
       e2n.keys[j] in e2n.m && |e2n.m[e2n.keys[j]]| >= 4 && IdAbove(e2n.keys[j], he) in d.m &&
       d.m[IdAbove(e2n.keys[j], he)] == SolidThicken.Hex(e2n.m[e2n.keys[j]], 0, k))
  }

  /** Writing the hexahedron over the next element appends it: the
      element IDs are distinct, so the moved IDs are too. */
  lemma HexStep(d: Dict<seq<int>>, e2n: Dict<seq<int>>, he: int, k: int, i: nat, hex: seq<int>)
    requires e2n.Valid() && i < |e2n.keys| && e2n.keys[i] in e2n.m && |e2n.m[e2n.keys[i]]| >= 4
    requires HexesAppended(d, e2n, he, k, i)
    requires hex == SolidThicken.Hex(e2n.m[e2n.keys[i]], 0, k)
    ensures HexesAppended(d.Put(IdAbove(e2n.keys[i], he), hex), e2n, he, k, i + 1)
  {
    ShiftKeysSnoc(e2n.keys, i, he);
  }

  /** The loop of `create_thickened_E2N` with the node offset k given:
      every element E, in order, becomes the hexahedron
      [N1, N2, N3, N4, N1 + k, N2 + k, N3 + k, N4 + k] under the ID E + he;
      an element with fewer than four nodes fails. */
  method ThickenedElements(e2n: Dict<seq<int>>, he: int, k: int) returns (r: Result<Dict<seq<int>>, ThickenError>)
    requires e2n.Valid()
    ensures r.Err? <==> !SolidThicken.FourCorners(e2n)
    ensures r.Err? ==> r.error == IndexError
    ensures r.Ok? ==> HexesAppended(r.value, e2n, he, k, |e2n.keys|)
  {
    var d: Dict<seq<int>> := Empty();
    var i := 0;
    while i < |e2n.keys|
      invariant 0 <= i <= |e2n.keys|
      invariant HexesAppended(d, e2n, he, k, i)
    {
      var e := e2n.keys[i];
      var element := e2n.m[e];
      if |element| < 4 {
        return Err(IndexError);
      }
      var n1, n2, n3, n4 := element[0], element[1], element[2], element[3];
      var hex := [n1, n2, n3, n4, n1 + k, n2 + k, n3 + k, n4 + k];
      HexStep(d, e2n, he, k, i, hex);
      d := d.Put(IdAbove(e, he), hex);
      i := i + 1;
    }
    assert e2n.keys[..i] == e2n.keys;
    return Ok(d);
  }

  /** `create_thickened_E2N` as written: `max` of no element IDs fails, the
      node offset is the key at half the length of the (already thickened)
      node dictionary, which fails when that dictionary is empty. */
  method CreateThickenedE2N(e2n: Dict<seq<int>>, nodes: Dict<Point>) returns (r: Result<Dict<seq<int>>, ThickenError>)
    requires e2n.Valid() && nodes.Valid()
    ensures |e2n.keys| == 0 ==> r == Err(ValueError)
    ensures |e2n.keys| > 0 && |nodes.keys| == 0 ==> r == Err(IndexError)
    ensures |e2n.keys| > 0 && |nodes.keys| > 0 ==>
              (r.Err? <==> !SolidThicken.FourCorners(e2n)) && (r.Err? ==> r.error == IndexError) &&
              (r.Ok? ==> HexesAppended(r.value, e2n, e2n.MaxKey(), KeyAtHalf(nodes.keys), |e2n.keys|))
  {
    if |e2n.keys| == 0 {
      return Err(ValueError);
    }
    var highestEid := e2n.MaxKey();
    if |nodes.keys| == 0 {
      return Err(IndexError);
    }
    var nidOffset := KeyAtHalf(nodes.keys);
    r := ThickenedElements(e2n, highestEid, nidOffset);
  }

  /** `create_thickened_E2N` as evidently intended: the node offset is the
      highest node ID of the shell, the offset its copies were given. */
  method CorrectedThickenedE2N(e2n: Dict<seq<int>>, highestNid: int) returns (r: Result<Dict<seq<int>>, ThickenError>)
    requires e2n.Valid()
    ensures |e2n.keys| == 0 ==> r == Err(ValueError)
    ensures |e2n.keys| > 0 ==>
              (r.Err? <==> !SolidThicken.FourCorners(e2n)) && (r.Err? ==> r.error == IndexError) &&
              (r.Ok? ==> HexesAppended(r.value, e2n, e2n.MaxKey(), highestNid, |e2n.keys|))
  {
    if |e2n.keys| == 0 {
      return Err(ValueError);
    }
    var highestEid := e2n.MaxKey();
    r := ThickenedElements(e2n, highestEid, highestNid);
  }

  /** The E2T step of `solid_mesh_by_thickened_shell_mesh` after the first
      i elements: same keys in the same order, 8 nodes typed 7, 6 nodes
      typed 14. */
  ghost predicate TypesAssigned(d: Dict<int>, e2n: Dict<seq<int>>, i: nat)
  {
    e2n.Valid() && d.Valid() && i <= |e2n.keys| && d.keys == e2n.keys[..i] &&
    forall j :: 0 <= j < i ==>
      e2n.keys[j] in e2n.m && e2n.keys[j] in d.m &&
      d.m[e2n.keys[j]] == (if |e2n.m[e2n.keys[j]]| == 8 then 7 else 14)
  }

  /** Every element has 8 or 6 nodes. */
  predicate HexOrPenta(e2n: Dict<seq<int>>)
  {
    forall j :: 0 <= j < |e2n.keys| ==> e2n.keys[j] in e2n.m && |e2n.m[e2n.keys[j]]| in {6, 8}
  }

  /** Element types of the thickened mesh: 7 for 8 nodes, 14 for 6, and
      `False` (here None) for any other count. */
  method ElementTypes(e2n: Dict<seq<int>>) returns (r: Option<Dict<int>>)
    requires e2n.Valid()
    ensures r.None? <==> !HexOrPenta(e2n)
    ensures r.Some? ==> TypesAssigned(r.value, e2n, |e2n.keys|)
  {
    var d: Dict<int> := Empty();
    var i := 0;
    while i < |e2n.keys|
      invariant 0 <= i <= |e2n.keys|
      invariant TypesAssigned(d, e2n, i)
      invariant forall j :: 0 <= j < i ==> |e2n.m[e2n.keys[j]]| in {6, 8}
    {
      var e := e2n.keys[i];
      var t;
      if |e2n.m[e]| == 8 {
        t := 7;
      } else if |e2n.m[e]| == 6 {
        t := 14;
      } else {
        return None;
      }
      assert e2n.keys[..i + 1] == e2n.keys[..i] + [e];
      d := d.Put(e, t);
      i := i + 1;
    }
    assert e2n.keys[..i] == e2n.keys;
    return Some(d);
  }

  /** What `solid_mesh_by_thickened_shell_mesh` ends with: `False` for a
      bad argument list or an unknown element size, an exception, or the
      thickened mesh handed to the BDF writer. */
  datatype ThickenOutcome =
    | ReturnsFalse
    | Raises(error: ThickenError)
    | Written(nodes: Dict<Point>, e2n: Dict<seq<int>>, e2t: Dict<int>)

  /** Every element of a shell names (among its first four) only nodes of
      the shell. */
  predicate CornersInNodes(e2n: Dict<seq<int>>, nodes: Dict<Point>)
    requires SolidThicken.FourCorners(e2n)
  {
    forall j, q :: 0 <= j < |e2n.keys| && 0 <= q < 4 ==> e2n.m[e2n.keys[j]][q] in nodes.m
  }

  /** Corner q of a hexahedron is a shell node with a normal, and corner
      q + 4 is its copy: the node h above it, pushed `thickness` along the
      normal.  Both are nodes of the thickened mesh tn. */
  ghost predicate CopiedCorner(hex: seq<int>, q: nat, tn: Dict<Point>, nodes: Dict<Point>, n2norm: map<int, Point>,
                               thickness: real, h: int)
    requires |hex| == 8 && q < 4
  {
    hex[q] in nodes.m && hex[q] in n2norm && hex[q] in tn.m &&
    hex[q + 4] == IdAbove(hex[q], h) && hex[q + 4] in tn.m &&
    tn.m[hex[q + 4]] == SolidThicken.Offset(nodes.m[hex[q]], n2norm[hex[q]], thickness)
  }

  /** What `solid_mesh_by_thickened_shell_mesh` builds, for a shell of
      positive IDs whose elements name its nodes: every element is a
      hexahedron typed 7 whose top corners are the copies of its bottom
      corners, all of them nodes of the thickened mesh. */
  ghost predicate ThickenedMesh(tn: Dict<Point>, te: Dict<seq<int>>, tt: Dict<int>, nodes: Dict<Point>,
                                n2norm: map<int, Point>, thickness: real)
    requires nodes.Valid() && |nodes.keys| > 0
  {
    forall e :: e in te.m ==>
      e in tt.m && tt.m[e] == 7 && |te.m[e]| == 8 &&
      forall q :: 0 <= q < 4 ==> CopiedCorner(te.m[e], q, tn, nodes, n2norm, thickness, nodes.MaxKey())
  }

  /** `solid_mesh_by_thickened_shell_mesh` with the argument list
      `[thickness, nodes, E2N, E2T]` (only its length matters besides the
      first three), using the corrected `create_thickened_E2N`. */
  method SolidMeshByThickenedShellMesh(argCount: nat, thickness: real, nodes: Dict<Point>, e2n: Dict<seq<int>>,
                                       n2norm: map<int, Point>)
    returns (r: ThickenOutcome)
    requires nodes.Valid() && e2n.Valid()
    ensures argCount != 4 ==> r == ReturnsFalse
    ensures argCount == 4 ==>
              (r.Written? <==> |nodes.keys| > 0 && (forall j :: 0 <= j < |nodes.keys| ==> nodes.keys[j] in n2norm) &&
                               |e2n.keys| > 0 && SolidThicken.FourCorners(e2n))
    ensures argCount == 4 && !r.Written? ==>
              r == Raises(if |nodes.keys| == 0 then ValueError
                          else if exists j :: 0 <= j < |nodes.keys| && nodes.keys[j] !in n2norm then KeyError
                          else if |e2n.keys| == 0 then ValueError
                          else IndexError)
    ensures argCount == 4 && r.Written? && PositiveKeys(nodes) && SolidThicken.FourCorners(e2n) &&
            CornersInNodes(e2n, nodes) ==>
              ThickenedMesh(r.nodes, r.e2n, r.e2t, nodes, n2norm, thickness)
  {
    if argCount == 0 || argCount != 4 {
      return ReturnsFalse;
    }
    var thick := CreateThickenedNodes(nodes, thickness, n2norm);
    if thick.Err? {
      return Raises(thick.error);
    }
    var highestNid := nodes.MaxKey();
    var hexes := CorrectedThickenedE2N(e2n, highestNid);
    if hexes.Err? {
      return Raises(hexes.error);
    }
    HexesAreHexes(hexes.value, e2n, e2n.MaxKey(), highestNid);
    var types := ElementTypes(hexes.value);
    if types.None? {
      return ReturnsFalse;
    }
    r := Written(thick.value, hexes.value, types.value);
    if PositiveKeys(nodes) && SolidThicken.FourCorners(e2n) && CornersInNodes(e2n, nodes) {
      ThickenedHexesClosed(thick.value, hexes.value, types.value, nodes, n2norm, thickness, e2n);
    }
  }

  /** Every element of the thickened E2N has eight nodes, so the E2T step
      never returns `False`. */
  lemma HexesAreHexes(d: Dict<seq<int>>, e2n: Dict<seq<int>>, he: int, k: int)
    requires HexesAppended(d, e2n, he, k, |e2n.keys|)
    ensures HexOrPenta(d)
    ensures forall e :: e in d.m ==> |d.m[e]| == 8
  {
    assert e2n.keys[..|e2n.keys|] == e2n.keys;
    forall e | e in d.m ensures |d.m[e]| == 8 {
      assert e in d.keys;
      var j :| 0 <= j < |d.keys| && d.keys[j] == e;
      assert e == IdAbove(e2n.keys[j], he);
    }
    forall j | 0 <= j < |d.keys| ensures d.keys[j] in d.m && |d.m[d.keys[j]]| in {6, 8} {
      assert d.keys[j] == IdAbove(e2n.keys[j], he);
    }
  }

  /** How many of the IDs in `ns` are nodes: the length of the list
      `these_nodes` that `get_E2NormVec` collects for an element
      (mesh_utilities.py:372-381), whose inner loop over the node IDs is a
      membership test. */
  function PresentCount(ns: seq<int>, nodes: map<int, Point>): (c: nat)
    ensures c <= |ns|
    ensures c == |ns| <==> forall k :: 0 <= k < |ns| ==> ns[k] in nodes
    decreases |ns|
  {
    if ns == [] then 0
    else PresentCount(ns[..|ns| - 1], nodes) + (if ns[|ns| - 1] in nodes then 1 else 0)
  }

  /** `get_E2NormVec` (mesh_utilities.py:366-404) up to where it can
      raise: an element with fewer than four of its IDs among the nodes
      leaves `these_nodes` too short for P1..P4, an IndexError.  The
      normal vectors it computes are not modelled. */
  method E2NormVecFails(nodes: Dict<Point>, e2n: Dict<seq<int>>) returns (r: Option<ThickenError>)
    requires e2n.Valid()
    ensures r.Some? <==>
              exists j :: 0 <= j < |e2n.keys| && e2n.keys[j] in e2n.m && PresentCount(e2n.m[e2n.keys[j]], nodes.m) < 4
    ensures r.Some? ==> r.value == IndexError
  {
    KeysIn(e2n);
    for i := 0 to |e2n.keys|
      invariant forall j :: 0 <= j < i ==> PresentCount(e2n.m[e2n.keys[j]], nodes.m) >= 4
    {
      var ids := e2n.m[e2n.keys[i]];
      var found := 0;
      for k := 0 to |ids|
        invariant found == PresentCount(ids[..k], nodes.m)
      {
        assert ids[..k + 1][..k] == ids[..k];
        if ids[k] in nodes.m {
          found := found + 1;
        }
      }
      assert ids[..|ids|] == ids;
      if found < 4 {
        return Some(IndexError);
      }
    }
    return None;
  }

  /** `get_N2E` of mesh_utilities.py:332-343 as written: it fills a
      dictionary `N2E` that it never creates, so the first node of the
      first non-empty element raises NameError; without any node it ends
      without a `return`, giving None. */
  method GetN2EAsWritten(e2n: Dict<seq<int>>) returns (r: Option<ThickenError>)
    requires e2n.Valid()
    ensures r.Some? <==> exists j :: 0 <= j < |e2n.keys| && e2n.keys[j] in e2n.m && |e2n.m[e2n.keys[j]]| > 0
    ensures r.Some? ==> r.value == NameError
  {
    KeysIn(e2n);
    for i := 0 to |e2n.keys|
      invariant forall j :: 0 <= j < i ==> |e2n.m[e2n.keys[j]]| == 0
    {
      if |e2n.m[e2n.keys[i]]| > 0 {
        return Some(NameError);
      }
    }
    return None;
  }

  /** An element either has fewer than four nodes or has a first node, so
      no non-empty E2N gets past both `get_E2NormVec` and `get_N2E`. */
  lemma SomeElementFails(nodes: Dict<Point>, e2n: Dict<seq<int>>)
    requires e2n.Valid() && |e2n.keys| > 0
    ensures (exists j :: 0 <= j < |e2n.keys| && e2n.keys[j] in e2n.m && PresentCount(e2n.m[e2n.keys[j]], nodes.m) < 4) ||
            (exists j :: 0 <= j < |e2n.keys| && e2n.keys[j] in e2n.m && |e2n.m[e2n.keys[j]]| > 0)
  {
    KeysIn(e2n);
    var ns := e2n.m[e2n.keys[0]];
    assert PresentCount(ns, nodes.m) < 4 || |ns| > 0;
  }

  /** `solid_mesh_by_thickened_shell_mesh` (mesh_utilities.py:5-67) as
      written, with the argument list `[thickness, nodes, E2N, E2T]`: an
      element short of four nodes fails in `get_E2NormVec`, any other
      element makes `get_N2E` raise NameError, `N2E[NID]` on its None
      result raises TypeError (line 350), and with neither elements nor
      nodes the `max` of no node IDs raises ValueError.  Every
      four-argument call raises. */
  method SolidMeshAsWritten(argCount: nat, thickness: real, nodes: Dict<Point>, e2n: Dict<seq<int>>)
    returns (r: ThickenOutcome)
    requires nodes.Valid() && e2n.Valid()
    ensures argCount != 4 ==> r == ReturnsFalse
    ensures argCount == 4 ==> r.Raises?
    ensures argCount == 4 ==>
              r.error == (if |e2n.keys| == 0 then (if |nodes.keys| == 0 then ValueError else TypeError)
                          else if exists j :: 0 <= j < |e2n.keys| && e2n.keys[j] in e2n.m &&
                                              PresentCount(e2n.m[e2n.keys[j]], nodes.m) < 4 then IndexError
                          else NameError)
  {
    if argCount == 0 || argCount != 4 {
      return ReturnsFalse;
    }
    if |e2n.keys| > 0 {
      SomeElementFails(nodes, e2n);
    }
    var normFailure := E2NormVecFails(nodes, e2n);
    if normFailure.Some? {
      return Raises(normFailure.value);
    }
    var n2eFailure := GetN2EAsWritten(e2n);
    if n2eFailure.Some? {
      return Raises(n2eFailure.value);
    }
    if |nodes.keys| > 0 {
      return Raises(TypeError);
    }
    // No nodes and so no normals: `create_thickened_nodes` takes the max of no IDs.
    var thick := CreateThickenedNodes(nodes, thickness, map[]);
    return Raises(thick.error);
  }

  /** The hexahedron over element j has eight nodes, and each top corner
      is the copy of the bottom corner below it. */
  lemma HexOverElement(tn: Dict<Point>, te: Dict<seq<int>>, nodes: Dict<Point>, n2norm: map<int, Point>,
                       thickness: real, e2n: Dict<seq<int>>, j: nat)
    requires nodes.Valid() && e2n.Valid() && |nodes.keys| > 0 && |e2n.keys| > 0
    requires PositiveKeys(nodes) && SolidThicken.FourCorners(e2n) && CornersInNodes(e2n, nodes)
    requires CopiesAppended(tn, nodes, n2norm, thickness, nodes.MaxKey(), |nodes.keys|)
    requires HexesAppended(te, e2n, e2n.MaxKey(), nodes.MaxKey(), |e2n.keys|)
    requires j < |e2n.keys|
    ensures IdAbove(e2n.keys[j], e2n.MaxKey()) in te.m
    ensures |te.m[IdAbove(e2n.keys[j], e2n.MaxKey())]| == 8
    ensures forall q :: 0 <= q < 4 ==>
              CopiedCorner(te.m[IdAbove(e2n.keys[j], e2n.MaxKey())], q, tn, nodes, n2norm, thickness, nodes.MaxKey())
  {
    var h := nodes.MaxKey();
    var hex := te.m[IdAbove(e2n.keys[j], e2n.MaxKey())];
    var quad := e2n.m[e2n.keys[j]];
    assert hex == SolidThicken.Hex(quad, 0, h);
    forall q | 0 <= q < 4 ensures CopiedCorner(hex, q, tn, nodes, n2norm, thickness, h) {
      var c := quad[q];
      assert c in nodes.m;
      assert c in nodes.keys;
      var ci :| 0 <= ci < |nodes.keys| && nodes.keys[ci] == c;
      assert IdAbove(nodes.keys[ci], h) in tn.m;
    }
  }

  /** Every hexahedron's ID is the ID of a shell element moved above the
      highest element ID. */
  lemma HexKeyIndex(te: Dict<seq<int>>, e2n: Dict<seq<int>>, k: int, e: int) returns (j: nat)
    requires e2n.Valid() && |e2n.keys| > 0
    requires HexesAppended(te, e2n, e2n.MaxKey(), k, |e2n.keys|)
    requires e in te.m
    ensures j < |e2n.keys| && e == IdAbove(e2n.keys[j], e2n.MaxKey())
  {
    assert e in te.keys;
    var i :| 0 <= i < |te.keys| && te.keys[i] == e;
    assert e2n.keys[..|e2n.keys|] == e2n.keys;
    j := i;
  }

  /** Once every element is typed, an eight-node element is typed 7. */
  lemma TypedHexahedron(tt: Dict<int>, te: Dict<seq<int>>, e: int)
    requires TypesAssigned(tt, te, |te.keys|)
    requires e in te.m && |te.m[e]| == 8
    ensures e in tt.m && tt.m[e] == 7
  {
    assert e in te.keys;
    var i :| 0 <= i < |te.keys| && te.keys[i] == e;
  }

  /** The thickened mesh is closed and every hexahedron's top corners are
      the copies of its bottom corners. */
  lemma ThickenedHexesClosed(tn: Dict<Point>, te: Dict<seq<int>>, tt: Dict<int>, nodes: Dict<Point>,
                             n2norm: map<int, Point>, thickness: real, e2n: Dict<seq<int>>)
    requires nodes.Valid() && e2n.Valid() && |nodes.keys| > 0 && |e2n.keys| > 0
    requires PositiveKeys(nodes) && SolidThicken.FourCorners(e2n) && CornersInNodes(e2n, nodes)
    requires CopiesAppended(tn, nodes, n2norm, thickness, nodes.MaxKey(), |nodes.keys|)
    requires HexesAppended(te, e2n, e2n.MaxKey(), nodes.MaxKey(), |e2n.keys|)
    requires TypesAssigned(tt, te, |te.keys|)
    ensures ThickenedMesh(tn, te, tt, nodes, n2norm, thickness)
  {
    forall e | e in te.m
      ensures e in tt.m && tt.m[e] == 7 && |te.m[e]| == 8
      ensures forall q :: 0 <= q < 4 ==> CopiedCorner(te.m[e], q, tn, nodes, n2norm, thickness, nodes.MaxKey())
    {
      var j := HexKeyIndex(te, e2n, nodes.MaxKey(), e);
      HexOverElement(tn, te, nodes, n2norm, thickness, e2n, j);
      TypedHexahedron(tt, te, e);
    }
  }

  /** The CHEXA card `write_hex_and_pent_data` writes for an eight-node
      element: "CHEXA   ", the element and property IDs and nodes 1-6 as
      padded fields, a newline, eight blanks, nodes 7 and 8, a newline. */
  function HexCard(eid: int, pid: int, ns: seq<int>): string
    requires |ns| == 8
  {
    "CHEXA   " + Fields(HexFirstLine(eid, pid, ns)) + "\n" + Spaces(8) + Fields(HexSecondLine(ns)) + "\n"
  }

  /** `create_padded_bulkdata_field` applied to each ID. */
  function PaddedIds(xs: seq<int>): (fs: seq<string>)
    ensures |fs| == |xs| && forall k :: 0 <= k < |xs| ==> fs[k] == PaddedField(IntToString(xs[k]))
  {
    seq(|xs|, k requires 0 <= k < |xs| => PaddedField(IntToString(xs[k])))
  }

  /** The fields after "CHEXA   ": element ID, property ID, nodes 1-6. */
  function HexFirstLine(eid: int, pid: int, ns: seq<int>): (fs: seq<string>)
    requires |ns| == 8
    ensures |fs| == 8
  {
    PaddedIds([eid, pid] + ns[..6])
  }

  /** The fields of the continuation line: nodes 7 and 8. */
  function HexSecondLine(ns: seq<int>): (fs: seq<string>)
    requires |ns| == 8
    ensures |fs| == 2
  {
    PaddedIds(ns[6..])
  }

  /** Fields of eight written at position o of c are found at o, o + 8,
      o + 16, ... */
  lemma LineFields(c: string, o: nat, l: seq<string>)
    requires forall k :: 0 <= k < |l| ==> |l[k]| == 8
    requires o + 8 * |l| <= |c| && c[o..o + 8 * |l|] == Fields(l)
    ensures forall k :: 0 <= k < |l| ==> c[o + 8 * k..o + 8 * k + 8] == l[k]
  {
    FieldsAt(l);
    forall k | 0 <= k < |l| ensures c[o + 8 * k..o + 8 * k + 8] == l[k] {
      var whole := c[o + 8 * k..o + 8 * k + 8];
      var part := FieldAt(Fields(l), k);
      forall i | 0 <= i < 8 ensures whole[i] == part[i] {
        assert whole[i] == c[o + 8 * k + i];
        assert part[i] == c[o..o + 8 * |l|][8 * k + i];
      }
    }
  }

  /** The two-line shape of a card: an eight-character name, 64 characters
      of fields, a newline, eight blanks, 16 characters of fields and a
      newline. */
  lemma TwoLineCard(name: string, a: string, b: string)
    requires |name| == 8 && |a| == 64 && |b| == 16
    ensures var c := name + a + "\n" + Spaces(8) + b + "\n";
      |c| == 98 && c[..8] == name && c[8..72] == a && c[72] == '\n' &&
      c[73..81] == Spaces(8) && c[81..97] == b && c[97] == '\n'
  {
  }

  /** Each ID of at most eight characters fills one field of eight. */
  lemma PaddedIdsWidth(xs: seq<int>)
    requires forall k :: 0 <= k < |xs| ==> |IntToString(xs[k])| <= 8
    ensures forall k :: 0 <= k < |xs| ==> |PaddedIds(xs)[k]| == 8
  {
    forall k | 0 <= k < |xs| ensures |PaddedIds(xs)[k]| == 8 {
      PaddedFieldLayout(IntToString(xs[k]));
    }
  }

  /** A two-line card of eight fields and then two, each eight wide, has
      field k of the first line at 8 + 8k and field k of the second at
      81 + 8k. */
  lemma FieldCardLayout(name: string, l1: seq<string>, l2: seq<string>)
    requires |name| == 8 && |l1| == 8 && |l2| == 2
    requires forall k :: 0 <= k < 8 ==> |l1[k]| == 8
    requires forall k :: 0 <= k < 2 ==> |l2[k]| == 8
    ensures var c := name + Fields(l1) + "\n" + Spaces(8) + Fields(l2) + "\n";
      |c| == 98 && c[..8] == name && c[72] == '\n' && c[73..81] == Spaces(8) && c[97] == '\n' &&
      (forall k :: 0 <= k < 8 ==> c[8 + 8 * k..16 + 8 * k] == l1[k]) &&
      (forall k :: 0 <= k < 2 ==> c[81 + 8 * k..89 + 8 * k] == l2[k])
  {
    FieldsAt(l1);
    FieldsAt(l2);
    TwoLineCard(name, Fields(l1), Fields(l2));
    var c := name + Fields(l1) + "\n" + Spaces(8) + Fields(l2) + "\n";
    LineFields(c, 8, l1);
    LineFields(c, 81, l2);
  }

  /** With every ID of at most eight characters, a CHEXA card is a line of
      72 characters and one of 24: the name, then the element ID, the
      property ID and nodes 1-6 in the eight-character fields starting at
      8, 16, ..., 64, a newline, eight blanks, nodes 7 and 8 in the fields
      starting at 81 and 89, and a newline. */
  lemma HexCardLayout(eid: int, pid: int, ns: seq<int>)
    requires |ns| == 8
    requires |IntToString(eid)| <= 8 && |IntToString(pid)| <= 8
    requires forall q :: 0 <= q < 8 ==> |IntToString(ns[q])| <= 8
    ensures var c := HexCard(eid, pid, ns);
      |c| == 98 && c[..8] == "CHEXA   " && c[72] == '\n' && c[73..81] == Spaces(8) && c[97] == '\n' &&
      (forall k :: 0 <= k < 8 ==> c[8 + 8 * k..16 + 8 * k] == HexFirstLine(eid, pid, ns)[k]) &&
      (forall k :: 0 <= k < 2 ==> c[81 + 8 * k..89 + 8 * k] == HexSecondLine(ns)[k])
  {
    var first := [eid, pid] + ns[..6];
    assert forall k :: 2 <= k < 8 ==> first[k] == ns[k - 2];
    PaddedIdsWidth(first);
    PaddedIdsWidth(ns[6..]);
    FieldCardLayout("CHEXA   ", HexFirstLine(eid, pid, ns), HexSecondLine(ns));
  }

  /** What the writer does next. */
  datatype WriteStop = Finished | Stopped | Raised

  /** `write_hex_and_pent_data` from the i-th element ID on, in insertion
      order: the text it writes and how it ends.  An ID missing from E2T
      raises; a type-7 element without 8 nodes, or a type-14 element
      without 6, stops the writer; a six-node CPENTA card is built but
      never written; other types are skipped. */
  function HexAndPentText(e2n: Dict<seq<int>>, e2t: map<int, int>, pid: int, i: nat): (string, WriteStop)
    requires e2n.Valid() && i <= |e2n.keys|
    decreases |e2n.keys| - i
  {
    if i == |e2n.keys| then ("", Finished)
    else
      var eid := e2n.keys[i];
      assert eid in e2n.keys;
      if eid !in e2t then ("", Raised)
      else
        var t := e2t[eid];
        var q := e2n.m[eid];
        var rest := HexAndPentText(e2n, e2t, pid, i + 1);
        if t == 7 then
          if |q| == 8 then (HexCard(eid, pid, q) + rest.0, rest.1) else ("", Stopped)
        else if t == 14 then
          if |q| == 6 then rest else ("", Stopped)
        else rest
  }

  method WriteHexAndPentData(e2n: Dict<seq<int>>, e2t: map<int, int>, pid: int) returns (text: string, stop: WriteStop)
    requires e2n.Valid()
    ensures (text, stop) == HexAndPentText(e2n, e2t, pid, 0)
  {
    text := "";
    var i := 0;
    assert text + HexAndPentText(e2n, e2t, pid, 0).0 == HexAndPentText(e2n, e2t, pid, 0).0;
    while i < |e2n.keys|
      invariant 0 <= i <= |e2n.keys|
      invariant HexAndPentText(e2n, e2t, pid, 0).0 == text + HexAndPentText(e2n, e2t, pid, i).0
      invariant HexAndPentText(e2n, e2t, pid, 0).1 == HexAndPentText(e2n, e2t, pid, i).1
    {
      var eid := e2n.keys[i];
      assert eid in e2n.keys;
      if eid !in e2t {
        assert text + "" == text;
        return text, Raised;
      }
      var t := e2t[eid];
      var q := e2n.m[eid];
      if t == 7 {
        if |q| == 8 {
          text := text + HexCard(eid, pid, q);
        } else {
          return text, Stopped;
        }
      } else if t == 14 {
        if |q| != 6 {
          return text, Stopped;
        }
      }
      i := i + 1;
    }
    return text, Finished;
  }

  /** Elements from the i-th on have eight nodes each. */
  predicate EightNodes(e2n: Dict<seq<int>>, i: nat)
  {
    forall j :: i <= j < |e2n.keys| ==> e2n.keys[j] in e2n.m && |e2n.m[e2n.keys[j]]| == 8
  }

  /** Elements from the i-th on are all eight-node hexahedra typed 7. */
  predicate AllHexahedra(e2n: Dict<seq<int>>, e2t: map<int, int>, i: nat)
  {
    EightNodes(e2n, i) && forall j :: i <= j < |e2n.keys| ==> e2n.keys[j] in e2t && e2t[e2n.keys[j]] == 7
  }

  /** The CHEXA cards of the elements from the i-th on, in order. */
  function HexCards(e2n: Dict<seq<int>>, pid: int, i: nat): string
    requires i <= |e2n.keys| && EightNodes(e2n, i)
    decreases |e2n.keys| - i
  {
    if i == |e2n.keys| then "" else HexCard(e2n.keys[i], pid, e2n.m[e2n.keys[i]]) + HexCards(e2n, pid, i + 1)
  }

  /** When every element is an eight-node hexahedron typed 7, the writer
      finishes and writes one CHEXA card per element, in order. */
  lemma {:induction false} AllHexesWritten(e2n: Dict<seq<int>>, e2t: map<int, int>, pid: int, i: nat)
    requires e2n.Valid() && i <= |e2n.keys| && AllHexahedra(e2n, e2t, i)
    ensures HexAndPentText(e2n, e2t, pid, i).1 == Finished
    ensures HexAndPentText(e2n, e2t, pid, i).0 == HexCards(e2n, pid, i)
    decreases |e2n.keys| - i
  {
    if i < |e2n.keys| {
      AllHexesWritten(e2n, e2t, pid, i + 1);
    }
  }

}
