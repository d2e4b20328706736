/** macros/flip_shell_mesh_normals.py: one selected FemMesh is read into
    the scripts' dictionaries (nodes, E2N, E2T, E2P, P2M), every element
    type is checked to be a shell type, and a copy of the mesh is built
    whose elements list their nodes in reverse order, which turns each
    shell's normal around. */
module FlipNormals {
  import opened Common
  import opened PyDict
  import opened FemMesh

  datatype FlipError =
    | NothingSelected   // no FemMesh object among the selection
    | SeveralSelected   // more than one
    | QuadraticHexa     // the hexahedron pass met a volume without 8 nodes
    | LinearTetra       // the tetrahedron pass met a volume without 10 nodes
    | Pyramids
    | Prisms
    | UnsupportedType   // an element type other than 15, 16, 20 and 21

  /** The two document type names the selection check counts. */
  predicate IsFemMeshObject(typeName: string)
  {
    typeName == "Fem::FemMeshObject" || typeName == "Fem::FemMeshObjectPython"
  }

  /** How many selected objects are FemMesh objects. */
  function FemMeshCount(typeNames: seq<string>): (n: nat)
    ensures n <= |typeNames|
  {
    if typeNames == [] then 0
    else FemMeshCount(typeNames[..|typeNames| - 1]) + (if IsFemMeshObject(typeNames[|typeNames| - 1]) then 1 else 0)
  }

  lemma {:induction false} FemMeshCountPositive(typeNames: seq<string>)
    ensures FemMeshCount(typeNames) > 0 <==> exists i :: 0 <= i < |typeNames| && IsFemMeshObject(typeNames[i])
  {
    if typeNames != [] {
      var front := typeNames[..|typeNames| - 1];
      FemMeshCountPositive(front);
      if exists i :: 0 <= i < |front| && IsFemMeshObject(front[i]) {
        var i :| 0 <= i < |front| && IsFemMeshObject(front[i]);
        assert typeNames[i] == front[i];
      }
      if exists i :: 0 <= i < |typeNames| && IsFemMeshObject(typeNames[i]) {
        var i :| 0 <= i < |typeNames| && IsFemMeshObject(typeNames[i]);
        if i < |front| {
          assert front[i] == typeNames[i];
        }
      }
    }
  }

  /** `check_that_a_FemMesh_object_is_selected`: the count, or an error
      when it is zero. */
  method CheckSelection(typeNames: seq<string>) returns (r: Result<nat, FlipError>)
    ensures FemMeshCount(typeNames) == 0 ==> r == Err(NothingSelected)
    ensures FemMeshCount(typeNames) > 0 ==> r == Ok(FemMeshCount(typeNames))
  {
    var n := 0;
    var i := 0;
    while i < |typeNames|
      invariant 0 <= i <= |typeNames|
      invariant n == FemMeshCount(typeNames[..i])
    {
      assert typeNames[..i + 1][..i] == typeNames[..i];
      if typeNames[i] == "Fem::FemMeshObject" {
        n := n + 1;
      } else if typeNames[i] == "Fem::FemMeshObjectPython" {
        n := n + 1;
      }
      i := i + 1;
    }
    assert typeNames[..i] == typeNames;
    if n == 0 {
      return Err(NothingSelected);
    }
    return Ok(n);
  }

  /** The four element passes of `get_data_from_mesh_objects`. */
  datatype Kind = Triangle | Quadrangle | Hexahedron | Tetrahedron

  /** The node count an element of the pass must have. */
  function NodeCount(kind: Kind): nat
  {
    match kind
    case Triangle => 3
    case Quadrangle => 4
    case Hexahedron => 8
    case Tetrahedron => 10
  }

  /** The FreeCAD type number E2T records. */
  function TypeOf(kind: Kind): int
  {
    match kind
    case Triangle => 20
    case Quadrangle => 15
    case Hexahedron => 7
    case Tetrahedron => 19
  }

  /** The volume passes raise on an element of the wrong size; the face
      passes skip it. */
  predicate Strict(kind: Kind)
  {
    kind == Hexahedron || kind == Tetrahedron
  }

  /** The positions at which a hexahedron's and a tetrahedron's source
      nodes are taken. */
  const HexOrder: seq<nat> := [6, 7, 4, 5, 2, 3, 0, 1]
  const TetOrder: seq<nat> := [3, 2, 0, 1, 9, 6, 7, 8, 5, 4]

  /** `[ns[order[0]], ns[order[1]], ...]`. */
  function Reorder(ns: seq<int>, order: seq<nat>): (r: seq<int>)
    requires forall k :: 0 <= k < |order| ==> order[k] < |ns|
    ensures |r| == |order| && forall k :: 0 <= k < |order| ==> r[k] == ns[order[k]]
  {
    seq(|order|, k requires 0 <= k < |order| => ns[order[k]])
  }

  /** The node list an element of the pass is stored with. */
  function Connectivity(kind: Kind, ns: seq<int>): seq<int>
    requires |ns| == NodeCount(kind)
  {
    match kind
    case Hexahedron => Reorder(ns, HexOrder)
    case Tetrahedron => Reorder(ns, TetOrder)
    case _ => ns
  }

  /** The hexahedron order is a permutation of the source nodes. */
  lemma HexOrderIsPermutation(ns: seq<int>)
    requires |ns| == 8
    ensures multiset(Reorder(ns, HexOrder)) == multiset(ns)
  {
    var r := Reorder(ns, HexOrder);
    assert r == [ns[6], ns[7]] + [ns[4], ns[5]] + [ns[2], ns[3]] + [ns[0], ns[1]];
    assert ns == [ns[0], ns[1]] + [ns[2], ns[3]] + [ns[4], ns[5]] + [ns[6], ns[7]];
  }

  /** The tetrahedron order is a permutation of the source nodes. */
  lemma TetOrderIsPermutation(ns: seq<int>)
    requires |ns| == 10
    ensures multiset(Reorder(ns, TetOrder)) == multiset(ns)
  {
    var r := Reorder(ns, TetOrder);
    assert r == [ns[3]] + [ns[2]] + [ns[0], ns[1]] + [ns[9]] + [ns[6], ns[7], ns[8]] + [ns[5]] + [ns[4]];
    assert ns == [ns[0], ns[1]] + [ns[2]] + [ns[3]] + [ns[4]] + [ns[5]] + [ns[6], ns[7], ns[8]] + [ns[9]];
  }

  /** Every pass stores a permutation of the element's source nodes; the
      face passes keep the source order, because the reordered list is
      overwritten by the source list on the next line. */
  lemma ConnectivityIsPermutation(kind: Kind, ns: seq<int>)
    requires |ns| == NodeCount(kind)
    ensures multiset(Connectivity(kind, ns)) == multiset(ns)
    ensures !Strict(kind) ==> Connectivity(kind, ns) == ns
  {
    if kind == Hexahedron {
      HexOrderIsPermutation(ns);
    } else if kind == Tetrahedron {
      TetOrderIsPermutation(ns);
    }
  }

  /** The connectivities of the first i elements of `list` that have the
      pass's node count, in order. */
  function Picked(list: seq<seq<int>>, kind: Kind, i: nat): seq<seq<int>>
    requires i <= |list|
  {
    if i == 0 then []
    else if |list[i - 1]| == NodeCount(kind) then Picked(list, kind, i - 1) + [Connectivity(kind, list[i - 1])]
    else Picked(list, kind, i - 1)
  }

  lemma PickedStep(list: seq<seq<int>>, kind: Kind, i: nat)
    requires i < |list|
    ensures Picked(list, kind, i + 1) ==
            if |list[i]| == NodeCount(kind) then Picked(list, kind, i) + [Connectivity(kind, list[i])]
            else Picked(list, kind, i)
    ensures Misfit(list, kind, i + 1) == (Misfit(list, kind, i) || |list[i]| != NodeCount(kind))
  {
  }

  /** One of the first i elements of `list` has another node count. */
  predicate Misfit(list: seq<seq<int>>, kind: Kind, i: nat)
    requires i <= |list|
  {
    i > 0 && (Misfit(list, kind, i - 1) || |list[i - 1]| != NodeCount(kind))
  }

  lemma {:induction false} MisfitExists(list: seq<seq<int>>, kind: Kind, i: nat)
    requires i <= |list|
    ensures Misfit(list, kind, i) <==> exists j :: 0 <= j < i && |list[j]| != NodeCount(kind)
  {
    if i > 0 {
      MisfitExists(list, kind, i - 1);
    }
  }

  /** A misfit among the first i elements is one among the first n. */
  lemma {:induction false} MisfitGrows(list: seq<seq<int>>, kind: Kind, i: nat, n: nat)
    requires i <= n <= |list| && Misfit(list, kind, i)
    ensures Misfit(list, kind, n)
  {
    if i < n {
      MisfitGrows(list, kind, i, n - 1);
    }
  }

  /** Without a misfit every element is kept, in order, with its pass's
      connectivity; so a face pass stores each face's nodes unchanged. */
  lemma {:induction false} PickedAll(list: seq<seq<int>>, kind: Kind, i: nat)
    requires i <= |list| && !Misfit(list, kind, i)
    ensures |Picked(list, kind, i)| == i
    ensures forall j :: 0 <= j < i ==> |list[j]| == NodeCount(kind) && Picked(list, kind, i)[j] == Connectivity(kind, list[j])
  {
    if i > 0 {
      PickedAll(list, kind, i - 1);
    }
  }

  /** Every stored connectivity is a permutation of the nodes of an
      element of the pass's size, and no more elements are stored than
      were visited. */
  lemma {:induction false} PickedFromList(list: seq<seq<int>>, kind: Kind, i: nat)
    requires i <= |list|
    ensures |Picked(list, kind, i)| <= i
    ensures forall r :: r in Picked(list, kind, i) ==>
              exists j :: 0 <= j < i && |list[j]| == NodeCount(kind) && multiset(r) == multiset(list[j])
  {
    if i > 0 {
      PickedFromList(list, kind, i - 1);
      if |list[i - 1]| == NodeCount(kind) {
        ConnectivityIsPermutation(kind, list[i - 1]);
      }
    }
  }

  /** E2N, E2T and E2P are numbered 1..n alike. */
  ghost predicate Consistent(d: MeshData)
  {
    d.nodes.Valid() && d.p2m.Valid() &&
    NumberedFromOne(d.e2n) && NumberedFromOne(d.e2t) && NumberedFromOne(d.e2p) &&
    |d.e2t.keys| == |d.e2n.keys| && |d.e2p.keys| == |d.e2n.keys|
  }

  /** `d2` is `d` after a pass that stored `rows`: the elements get the next
      IDs, the pass's type, and the property ID max(E2P) + 1, which is the
      element count before the pass plus one; that property gets material
      max(P2M) + 1 when the pass stored anything. */
  ghost predicate SectionAdded(d: MeshData, d2: MeshData, rows: seq<seq<int>>, typ: int)
    requires Consistent(d)
  {
    Consistent(d2) && d2.nodes == d.nodes &&
    Values(d2.e2n) == Values(d.e2n) + rows &&
    Values(d2.e2t) == Values(d.e2t) + Repeat(typ, |rows|) &&
    Values(d2.e2p) == Values(d.e2p) + Repeat(|d.e2n.keys| + 1, |rows|) &&
    d2.p2m == if rows == [] then d.p2m else d.p2m.Put(|d.e2n.keys| + 1, MaxKeyOrZero(d.p2m) + 1)
  }

  /** One element stored under ID `id`: the E2N, E2T, E2P and P2M
      assignments. */
  function Next(cur: MeshData, id: int, row: seq<int>, typ: int, pid: int, mid: int): MeshData
  {
    MeshData(cur.nodes, cur.e2n.Put(id, row), cur.e2t.Put(id, typ), cur.e2p.Put(id, pid), cur.p2m.Put(pid, mid))
  }

  /** A pass that stored nothing leaves the state as it was. */
  lemma AddedNothing(d: MeshData, typ: int)
    requires Consistent(d)
    ensures SectionAdded(d, d, [], typ)
  {
    assert Values(d.e2n) + [] == Values(d.e2n);
    assert Values(d.e2t) + [] == Values(d.e2t);
    assert Values(d.e2p) + [] == Values(d.e2p);
  }

  /** Storing one more element under the ID after the last one, with
      property max(E2P) + 1 and material max(P2M) + 1, extends the pass
      by that element. */
  lemma AddedNext(d: MeshData, data: MeshData, rows: seq<seq<int>>, typ: int, row: seq<int>, nx: MeshData)
    requires Consistent(d) && SectionAdded(d, data, rows, typ)
    requires nx == Next(data, |data.e2n.keys| + 1, row, typ, |d.e2n.keys| + 1, MaxKeyOrZero(d.p2m) + 1)
    ensures SectionAdded(d, nx, rows + [row], typ) && |nx.e2n.keys| == |data.e2n.keys| + 1
  {
    NextConsistent(data, row, typ, |d.e2n.keys| + 1, MaxKeyOrZero(d.p2m) + 1, nx);
    NextValues(d, data, rows, typ, row, nx);
  }

  /** Storing one element under the next ID keeps the dictionaries
      numbered 1..n and of equal length. */
  lemma NextConsistent(data: MeshData, row: seq<int>, typ: int, pid: int, mid: int, nx: MeshData)
    requires Consistent(data)
    requires nx == Next(data, |data.e2n.keys| + 1, row, typ, pid, mid)
    ensures Consistent(nx) && |nx.e2n.keys| == |data.e2n.keys| + 1
  {
    NumberedPut(data.e2n, row);
    NumberedPut(data.e2t, typ);
    NumberedPut(data.e2p, pid);
  }

  /** ... and lists the element after the pass's earlier ones. */
  lemma NextValues(d: MeshData, data: MeshData, rows: seq<seq<int>>, typ: int, row: seq<int>, nx: MeshData)
    requires Consistent(d) && SectionAdded(d, data, rows, typ)
    requires nx == Next(data, |data.e2n.keys| + 1, row, typ, |d.e2n.keys| + 1, MaxKeyOrZero(d.p2m) + 1)
    ensures Values(nx.e2n) == Values(d.e2n) + (rows + [row])
    ensures Values(nx.e2t) == Values(d.e2t) + Repeat(typ, |rows| + 1)
    ensures Values(nx.e2p) == Values(d.e2p) + Repeat(|d.e2n.keys| + 1, |rows| + 1)
    ensures nx.p2m == d.p2m.Put(|d.e2n.keys| + 1, MaxKeyOrZero(d.p2m) + 1)
  {
    var id, pid, mid := |data.e2n.keys| + 1, |d.e2n.keys| + 1, MaxKeyOrZero(d.p2m) + 1;
    NumberedAppend(data.e2n, id, row);
    SnocAssoc(Values(d.e2n), rows, row);
    NumberedAppend(data.e2t, id, typ);
    RepeatSnoc(typ, |rows|);
    SnocAssoc(Values(d.e2t), Repeat(typ, |rows|), typ);
    NumberedAppend(data.e2p, id, pid);
    RepeatSnoc(pid, |rows|);
    SnocAssoc(Values(d.e2p), Repeat(pid, |rows|), pid);
    if rows != [] {
      PutOverwrite(d.p2m, pid, mid, mid);
    }
  }

  /** k + 1 copies of `x` are k copies and one more. */
  lemma RepeatSnoc<T>(x: T, k: nat)
    ensures Repeat(x, k + 1) == Repeat(x, k) + [x]
  {
  }

  /** The E2N assignments of one element; the face passes store the
      reordered list and then overwrite it with the source list. */
  method StoreElement(e2n: Dict<seq<int>>, eid: int, kind: Kind, ns: seq<int>) returns (r: Dict<seq<int>>)
    requires |ns| == NodeCount(kind)
    ensures r == e2n.Put(eid, Connectivity(kind, ns))
  {
    match kind {
      case Triangle =>
        r := e2n.Put(eid, [ns[0], ns[1], ns[2]]);
        PutOverwrite(e2n, eid, [ns[0], ns[1], ns[2]], ns);
        r := r.Put(eid, ns);
      case Quadrangle =>
        r := e2n.Put(eid, [ns[0], ns[3], ns[2], ns[1]]);
        PutOverwrite(e2n, eid, [ns[0], ns[3], ns[2], ns[1]], ns);
        r := r.Put(eid, ns);
      case Hexahedron =>
        assert Reorder(ns, HexOrder) == [ns[6], ns[7], ns[4], ns[5], ns[2], ns[3], ns[0], ns[1]];
        r := e2n.Put(eid, [ns[6], ns[7], ns[4], ns[5], ns[2], ns[3], ns[0], ns[1]]);
      case Tetrahedron =>
        assert Reorder(ns, TetOrder) == [ns[3], ns[2], ns[0], ns[1], ns[9], ns[6], ns[7], ns[8], ns[5], ns[4]];
        r := e2n.Put(eid, [ns[3], ns[2], ns[0], ns[1], ns[9], ns[6], ns[7], ns[8], ns[5], ns[4]]);
    }
  }

  /** `EID += 1`, then the E2N, E2T, E2P and P2M assignments for an
      element of the pass's size: the pass that stored `rows` now stored
      the element's connectivity too. */
  method Store(d: MeshData, data: MeshData, eid: int, ns: seq<int>, kind: Kind, pid: int, mid: int,
               ghost rows: seq<seq<int>>)
    returns (nx: MeshData, eid2: int)
    requires |ns| == NodeCount(kind)
    requires Consistent(d) && SectionAdded(d, data, rows, TypeOf(kind))
    requires eid == |data.e2n.keys| && pid == |d.e2n.keys| + 1 && mid == MaxKeyOrZero(d.p2m) + 1
    ensures SectionAdded(d, nx, rows + [Connectivity(kind, ns)], TypeOf(kind)) && eid2 == |nx.e2n.keys|
  {
    eid2 := eid + 1;
    var e2n := StoreElement(data.e2n, eid2, kind, ns);
    var e2t := data.e2t.Put(eid2, TypeOf(kind));
    var e2p := data.e2p.Put(eid2, pid);
    var p2m := data.p2m.Put(pid, mid);
    nx := MeshData(data.nodes, e2n, e2t, e2p, p2m);
    AddedNext(d, data, rows, TypeOf(kind), Connectivity(kind, ns), nx);
  }

  /** One turn of a pass's loop over the node lists `list`, at element
      i with nodes `ns`: for an element of the pass's size, `EID += 1`
      and the E2N, E2T, E2P and P2M assignments; for one of another size,
      the volume passes' error. */
  method Visit(d: MeshData, data: MeshData, eid: int, ns: seq<int>, kind: Kind, pid: int, mid: int,
               ghost list: seq<seq<int>>, ghost i: nat)
    returns (r: Result<MeshData, FlipError>, eid2: int)
    requires i < |list| && list[i] == ns && (Strict(kind) ==> !Misfit(list, kind, i))
    requires Consistent(d) && SectionAdded(d, data, Picked(list, kind, i), TypeOf(kind))
    requires eid == |data.e2n.keys| && pid == |d.e2n.keys| + 1 && mid == MaxKeyOrZero(d.p2m) + 1
    ensures r.Err? ==> Strict(kind) && Misfit(list, kind, |list|)
    ensures r.Err? ==> r.error == if kind == Hexahedron then QuadraticHexa else LinearTetra
    ensures r.Ok? ==> (Strict(kind) ==> !Misfit(list, kind, i + 1))
    ensures r.Ok? ==> SectionAdded(d, r.value, Picked(list, kind, i + 1), TypeOf(kind))
    ensures r.Ok? ==> eid2 == |r.value.e2n.keys|
  {
    PickedStep(list, kind, i);
    if |ns| == NodeCount(kind) {
      var nx;
      nx, eid2 := Store(d, data, eid, ns, kind, pid, mid, Picked(list, kind, i));
      r := Ok(nx);
    } else if kind == Hexahedron {
      MisfitGrows(list, kind, i + 1, |list|);
      r, eid2 := Err(QuadraticHexa), eid;
    } else if kind == Tetrahedron {
      MisfitGrows(list, kind, i + 1, |list|);
      r, eid2 := Err(LinearTetra), eid;
    } else {
      r, eid2 := Ok(data), eid;
    }
  }

  /** The IDs a pass starts from: the last element ID max(E2N), the new
      property ID max(E2P) + 1 and the new material ID max(P2M) + 1. */
  method StartIds(d: MeshData) returns (eid: int, pid: int, mid: int)
    requires Consistent(d)
    ensures eid == |d.e2n.keys| && pid == |d.e2n.keys| + 1 && mid == MaxKeyOrZero(d.p2m) + 1
  {
    NumberedMax(d.e2n);
    NumberedMax(d.e2p);
    eid := MaxKeyOrZero(d.e2n);
    pid := MaxKeyOrZero(d.e2p) + 1;
    mid := MaxKeyOrZero(d.p2m) + 1;
  }

  /** One pass of `get_data_from_mesh_objects` over the elements `elems`
      (the mesh's faces or volumes): every element with the pass's node
      count is stored, in order, under the next ID; the volume passes
      raise at the first element of another size. */
  method AddSection(d: MeshData, elems: Dict<seq<int>>, kind: Kind) returns (r: Result<MeshData, FlipError>)
    requires Consistent(d) && elems.Valid()
    ensures r.Err? <==> Strict(kind) && Misfit(Values(elems), kind, |elems.keys|)
    ensures r.Err? ==> r.error == if kind == Hexahedron then QuadraticHexa else LinearTetra
    ensures r.Ok? ==> SectionAdded(d, r.value, Picked(Values(elems), kind, |elems.keys|), TypeOf(kind))
  {
    var eid, pid, mid := StartIds(d);
    ghost var list := Values(elems);
    AddedNothing(d, TypeOf(kind));
    var data := d;
    var i := 0;
    while i < |elems.keys|
      invariant 0 <= i <= |elems.keys|
      invariant Strict(kind) ==> !Misfit(list, kind, i)
      invariant SectionAdded(d, data, Picked(list, kind, i), TypeOf(kind))
      invariant eid == |data.e2n.keys|
    {
      ValuesAt(elems, i);
      var step;
      step, eid := Visit(d, data, eid, elems.m[elems.keys[i]], kind, pid, mid, list, i);
      if step.Err? {
        return Err(step.error);
      }
      data := step.value;
      i := i + 1;
    }
    return Ok(data);
  }

  /** A dictionary rebuilt key by key in its own order: the node copy of
      `get_data_from_mesh_objects`, and the `addNode` / `addFace` loops
      that fill the new FemMesh. */
  method CopyDict<V>(src: Dict<V>) returns (r: Dict<V>)
    requires src.Valid()
    ensures r == src
  {
    r := Empty();
    var i := 0;
    while i < |src.keys|
      invariant 0 <= i <= |src.keys|
      invariant r.Valid() && r.keys == src.keys[..i]
      invariant forall k :: k in r.m ==> k in src.m && r.m[k] == src.m[k]
    {
      var k := src.keys[i];
      assert k in src.keys;
      assert forall j :: 0 <= j < i ==> src.keys[j] != k;
      r := r.Put(k, src.m[k]);
      assert src.keys[..i + 1] == src.keys[..i] + [k];
      i := i + 1;
    }
    assert src.keys[..i] == src.keys;
    assert r.m.Keys == src.m.Keys by {
      forall k | k in src.m ensures k in r.m {
        assert k in src.keys;
        assert k in r.keys;
      }
      forall k | k in r.m ensures k in src.m {
      }
    }
    assert forall k :: k in r.m ==> r.m[k] == src.m[k];
    assert r.m == src.m;
  }

  /** The elements a pass works on: faces for the triangle and
      quadrangle passes, volumes for the others. */
  function Elements(mesh: Mesh, kind: Kind): Dict<seq<int>>
  {
    if kind == Triangle || kind == Quadrangle then mesh.faces else mesh.volumes
  }

  /** The count that switches a pass on (`mesh.TriangleCount != 0`, ...). */
  function KindCount(mesh: Mesh, kind: Kind): nat
  {
    match kind
    case Triangle => mesh.triangleCount
    case Quadrangle => mesh.quadrangleCount
    case Hexahedron => mesh.hexaCount
    case Tetrahedron => mesh.tetraCount
  }

  /** The connectivities a pass stores. */
  function Pass(mesh: Mesh, kind: Kind): seq<seq<int>>
    requires WellFormed(mesh)
  {
    if KindCount(mesh, kind) == 0 then []
    else Picked(Values(Elements(mesh, kind)), kind, |Elements(mesh, kind).keys|)
  }

  /** A volume pass that runs and meets an element of another size. */
  predicate PassFails(mesh: Mesh, kind: Kind)
    requires WellFormed(mesh)
  {
    KindCount(mesh, kind) != 0 && Strict(kind) &&
    Misfit(Values(Elements(mesh, kind)), kind, |Elements(mesh, kind).keys|)
  }

  /** The error `get_data_from_mesh_objects` raises, in the order it
      checks: the hexahedron pass, the tetrahedron pass, pyramids,
      prisms. */
  function Failure(mesh: Mesh): Option<FlipError>
    requires WellFormed(mesh)
  {
    if PassFails(mesh, Hexahedron) then Some(QuadraticHexa)
    else if PassFails(mesh, Tetrahedron) then Some(LinearTetra)
    else if mesh.pyramidCount != 0 then Some(Pyramids)
    else if mesh.prismCount != 0 then Some(Prisms)
    else None
  }

  /** One pass with its switch: skipped when its count is zero. */
  method RunPass(d: MeshData, mesh: Mesh, kind: Kind) returns (r: Result<MeshData, FlipError>)
    requires Consistent(d) && WellFormed(mesh)
    ensures r.Err? <==> PassFails(mesh, kind)
    ensures r.Err? ==> r.error == if kind == Hexahedron then QuadraticHexa else LinearTetra
    ensures r.Ok? ==> SectionAdded(d, r.value, Pass(mesh, kind), TypeOf(kind))
  {
    if KindCount(mesh, kind) == 0 {
      AddedNothing(d, TypeOf(kind));
      return Ok(d);
    }
    r := AddSection(d, Elements(mesh, kind), kind);
  }

  /** What a pass adds to E2N and E2T, on top of lists `rows` and `types`. */
  lemma Chain(d: MeshData, d2: MeshData, rows: seq<seq<int>>, typ: int,
              before: seq<seq<int>>, types: seq<int>)
    requires Consistent(d) && SectionAdded(d, d2, rows, typ)
    requires Values(d.e2n) == before && Values(d.e2t) == types
    ensures Consistent(d2) && d2.nodes == d.nodes
    ensures Values(d2.e2n) == before + rows && Values(d2.e2t) == types + Repeat(typ, |rows|)
  {
  }

  /** The triangle and quadrangle passes over a fresh state. */
  method ShellPasses(d0: MeshData, mesh: Mesh) returns (d2: MeshData)
    requires Consistent(d0) && WellFormed(mesh)
    requires Values(d0.e2n) == [] && Values(d0.e2t) == []
    ensures Consistent(d2) && d2.nodes == d0.nodes
    ensures Values(d2.e2n) == Pass(mesh, Triangle) + Pass(mesh, Quadrangle)
    ensures Values(d2.e2t) == Repeat(20, |Pass(mesh, Triangle)|) + Repeat(15, |Pass(mesh, Quadrangle)|)
  {
    var s1 := RunPass(d0, mesh, Triangle);
    var d1 := s1.value;
    Chain(d0, d1, Pass(mesh, Triangle), 20, [], []);
    assert [] + Pass(mesh, Triangle) == Pass(mesh, Triangle);
    assert [] + Repeat(20, |Pass(mesh, Triangle)|) == Repeat(20, |Pass(mesh, Triangle)|);
    var s2 := RunPass(d1, mesh, Quadrangle);
    d2 := s2.value;
    Chain(d1, d2, Pass(mesh, Quadrangle), 15, Values(d1.e2n), Values(d1.e2t));
  }

  /** The hexahedron and tetrahedron passes, each of which may raise. */
  method VolumePasses(d2: MeshData, mesh: Mesh, ghost rows: seq<seq<int>>, ghost types: seq<int>)
    returns (r: Result<MeshData, FlipError>)
    requires Consistent(d2) && WellFormed(mesh)
    requires Values(d2.e2n) == rows && Values(d2.e2t) == types
    ensures r.Err? <==> PassFails(mesh, Hexahedron) || PassFails(mesh, Tetrahedron)
    ensures r.Err? ==> r.error == if PassFails(mesh, Hexahedron) then QuadraticHexa else LinearTetra
    ensures r.Ok? ==> Consistent(r.value) && r.value.nodes == d2.nodes
    ensures r.Ok? ==> Values(r.value.e2n) == rows + Pass(mesh, Hexahedron) + Pass(mesh, Tetrahedron)
    ensures r.Ok? ==> Values(r.value.e2t) == types + Repeat(7, |Pass(mesh, Hexahedron)|) + Repeat(19, |Pass(mesh, Tetrahedron)|)
  {
    var s3 := RunPass(d2, mesh, Hexahedron);
    if s3.Err? {
      return Err(s3.error);
    }
    var d3 := s3.value;
    Chain(d2, d3, Pass(mesh, Hexahedron), TypeOf(Hexahedron), rows, types);
    var s4 := RunPass(d3, mesh, Tetrahedron);
    if s4.Err? {
      return Err(s4.error);
    }
    Chain(d3, s4.value, Pass(mesh, Tetrahedron), TypeOf(Tetrahedron), Values(d3.e2n), Values(d3.e2t));
    return Ok(s4.value);
  }

  /** `get_data_from_mesh_objects` for one mesh: the nodes as they are,
      then the triangle, quadrangle, hexahedron and tetrahedron passes in
      that order, then the pyramid and prism checks. */
  method GetData(mesh: Mesh) returns (r: Result<MeshData, FlipError>)
    requires WellFormed(mesh)
    ensures r.Err? <==> Failure(mesh).Some?
    ensures r.Err? ==> r.error == Failure(mesh).value
    ensures r.Ok? ==> Consistent(r.value) && r.value.nodes == mesh.nodes
    ensures r.Ok? ==> Values(r.value.e2n) == Pass(mesh, Triangle) + Pass(mesh, Quadrangle) +
                                            Pass(mesh, Hexahedron) + Pass(mesh, Tetrahedron)
    ensures r.Ok? ==> Values(r.value.e2t) == Repeat(20, |Pass(mesh, Triangle)|) + Repeat(15, |Pass(mesh, Quadrangle)|) +
                                            Repeat(7, |Pass(mesh, Hexahedron)|) + Repeat(19, |Pass(mesh, Tetrahedron)|)
  {
    var nodes := CopyDict(mesh.nodes);
    var d0 := MeshData(nodes, Empty(), Empty(), Empty(), Empty());
    assert Values(d0.e2n) == [] && Values(d0.e2t) == [];
    var d2 := ShellPasses(d0, mesh);
    var v := VolumePasses(d2, mesh, Values(d2.e2n), Values(d2.e2t));
    if v.Err? {
      return Err(v.error);
    }
    if mesh.pyramidCount != 0 {
      return Err(Pyramids);
    }
    if mesh.prismCount != 0 {
      return Err(Prisms);
    }
    return v;
  }

  /** The element types the macro accepts: CQUAD4 (15), CQUAD4K (16),
      CTRIA3 (20) and CTRIA3K (21). */
  predicate IsShellType(t: int)
  {
    t == 15 || t == 16 || t == 20 || t == 21
  }

  predicate AllShell(types: seq<int>)
  {
    forall i :: 0 <= i < |types| ==> IsShellType(types[i])
  }

  /** The loop over E2T that raises on the first type outside the four
      shell types. */
  method CheckShellTypes(e2t: Dict<int>) returns (ok: bool)
    requires e2t.Valid()
    ensures ok <==> AllShell(Values(e2t))
  {
    var i := 0;
    while i < |e2t.keys|
      invariant 0 <= i <= |e2t.keys|
      invariant forall j :: 0 <= j < i ==> IsShellType(Values(e2t)[j])
    {
      var eid := e2t.keys[i];
      ValuesAt(e2t, i);
      var t := e2t.m[eid];
      if !(t == 15 || t == 16 || t == 20 || t == 21) {
        return false;
      }
      i := i + 1;
    }
    return true;
  }

  /** The types `get_data_from_mesh_objects` writes (20 per triangle, 15
      per quadrangle, 7 per hexahedron, 19 per tetrahedron) are all shell
      types exactly when no volume was stored. */
  lemma ShellTypesOfPasses(t: nat, q: nat, h: nat, te: nat)
    ensures AllShell(Repeat(20, t) + Repeat(15, q) + Repeat(7, h) + Repeat(19, te)) <==> h == 0 && te == 0
  {
    var types := Repeat(20, t) + Repeat(15, q) + Repeat(7, h) + Repeat(19, te);
    if h > 0 {
      assert types[t + q] == 7;
    } else if te > 0 {
      assert types[t + q + h] == 19;
    } else {
      forall i | 0 <= i < |types| ensures IsShellType(types[i]) {
        if i < t {
          assert types[i] == 20;
        } else {
          assert types[i] == 15;
        }
      }
    }
  }

  /** The inner loop that appends the nodes of an element in
      `reversed(...)` order. */
  method ReversedNodes(ns: seq<int>) returns (r: seq<int>)
    ensures r == Reverse(ns)
  {
    r := [];
    var k := |ns|;
    while k > 0
      invariant 0 <= k <= |ns|
      invariant |r| == |ns| - k
      invariant forall j :: 0 <= j < |r| ==> r[j] == ns[|ns| - 1 - j]
    {
      k := k - 1;
      r := r + [ns[k]];
    }
  }

  /** `b` is `a` with every node list reversed, under the same keys in
      the same order. */
  ghost predicate FlippedOf(a: Dict<seq<int>>, b: Dict<seq<int>>)
  {
    b.keys == a.keys && (forall k :: k in b.m <==> k in a.m) &&
    forall k :: k in a.m && k in b.m ==> b.m[k] == Reverse(a.m[k])
  }

  /** The loop that fills `flipped_normals_E2N`. */
  method FlipE2N(e2n: Dict<seq<int>>) returns (f: Dict<seq<int>>)
    requires e2n.Valid()
    ensures f.Valid() && FlippedOf(e2n, f)
  {
    f := Empty();
    var i := 0;
    while i < |e2n.keys|
      invariant 0 <= i <= |e2n.keys|
      invariant f.Valid() && f.keys == e2n.keys[..i]
      invariant forall k :: k in f.m ==> k in e2n.m && f.m[k] == Reverse(e2n.m[k])
    {
      var eid := e2n.keys[i];
      assert eid in e2n.keys;
      assert forall j :: 0 <= j < i ==> e2n.keys[j] != eid;
      var flipped := ReversedNodes(e2n.m[eid]);
      f := f.Put(eid, flipped);
      assert e2n.keys[..i + 1] == e2n.keys[..i] + [eid];
      i := i + 1;
    }
    assert e2n.keys[..i] == e2n.keys;
    forall k | k in e2n.m ensures k in f.m {
      assert k in e2n.keys;
      assert k in f.keys;
    }
  }

  /** Reversing a node list keeps the nodes, so a flipped element has
      the same corners. */
  lemma {:induction false} ReverseKeepsNodes(s: seq<int>)
    ensures multiset(Reverse(s)) == multiset(s)
  {
    if s != [] {
      ReverseKeepsNodes(s[1..]);
      assert s == [s[0]] + s[1..];
    }
  }

  /** Flipping twice gives back the original connectivity. */
  lemma FlipTwiceRestores(a: Dict<seq<int>>, b: Dict<seq<int>>, c: Dict<seq<int>>)
    requires FlippedOf(a, b) && FlippedOf(b, c)
    ensures c == a
  {
    forall k | k in a.m ensures c.m[k] == a.m[k] {
      ReverseReverse(a.m[k]);
    }
    forall k ensures k in c.m <==> k in a.m {
      assert k in c.m <==> k in b.m;
    }
    assert c.m == a.m;
  }

  /** Every element list, reversed. */
  function ReverseEach(rows: seq<seq<int>>): (r: seq<seq<int>>)
    ensures |r| == |rows| && forall i :: 0 <= i < |rows| ==> r[i] == Reverse(rows[i])
  {
    seq(|rows|, i requires 0 <= i < |rows| => Reverse(rows[i]))
  }

  /** The flipped dictionary lists the reversed elements in the original
      order, under keys numbered as before. */
  lemma FlippedValues(a: Dict<seq<int>>, b: Dict<seq<int>>)
    requires a.Valid() && FlippedOf(a, b)
    ensures b.Valid() && Values(b) == ReverseEach(Values(a))
    ensures NumberedFromOne(a) ==> NumberedFromOne(b)
  {
    assert b.Valid();
    forall i | 0 <= i < |a.keys| ensures Values(b)[i] == Reverse(Values(a)[i]) {
      ValuesAt(a, i);
      ValuesAt(b, i);
      var k := a.keys[i];
      assert b.keys[i] == k && k in b.m;
      assert b.m[k] == Reverse(a.m[k]);
    }
  }

  /** The new mesh the macro adds to the document. */
  datatype NewMesh = NewMesh(objectLabel: string, nodes: Dict<Point>, faces: Dict<seq<int>>)

  /** From the data dictionaries on: the type check, the reversal and the
      new FemMesh filled node by node and face by face. */
  method Rebuild(data: MeshData, meshLabel: string) returns (r: Result<NewMesh, FlipError>)
    requires NumberedFromOne(data.e2n) && data.e2t.Valid() && data.nodes.Valid()
    ensures r.Err? <==> !AllShell(Values(data.e2t))
    ensures r.Err? ==> r.error == UnsupportedType
    ensures r.Ok? ==> r.value.objectLabel == meshLabel + "_flipped" && r.value.nodes == data.nodes
    ensures r.Ok? ==> NumberedFromOne(r.value.faces) && Values(r.value.faces) == ReverseEach(Values(data.e2n))
  {
    var ok := CheckShellTypes(data.e2t);
    if !ok {
      return Err(UnsupportedType);
    }
    var flipped := FlipE2N(data.e2n);
    FlippedValues(data.e2n, flipped);
    var nodes := CopyDict(data.nodes);
    var faces := CopyDict(flipped);
    return Ok(NewMesh(meshLabel + "_flipped", nodes, faces));
  }

  /** `main` of the macro, for the selection's type names and the mesh of
      the selected object. */
  method FlipShellMeshNormals(typeNames: seq<string>, mesh: Mesh, meshLabel: string) returns (r: Result<NewMesh, FlipError>)
    requires WellFormed(mesh)
    ensures FemMeshCount(typeNames) == 0 ==> r == Err(NothingSelected)
    ensures FemMeshCount(typeNames) > 1 ==> r == Err(SeveralSelected)
    ensures FemMeshCount(typeNames) == 1 && Failure(mesh).Some? ==> r == Err(Failure(mesh).value)
    ensures FemMeshCount(typeNames) == 1 && Failure(mesh).None? ==>
              (r.Ok? <==> Pass(mesh, Hexahedron) == [] && Pass(mesh, Tetrahedron) == [])
    ensures r.Err? && r.error == UnsupportedType ==> Pass(mesh, Hexahedron) != [] || Pass(mesh, Tetrahedron) != []
    ensures r.Ok? ==> r.value.objectLabel == meshLabel + "_flipped" && r.value.nodes == mesh.nodes && NumberedFromOne(r.value.faces)
    ensures r.Ok? ==> Values(r.value.faces) == ReverseEach(Pass(mesh, Triangle) + Pass(mesh, Quadrangle))
  {
    var n := CheckSelection(typeNames);
    if n.Err? {
      return Err(n.error);
    }
    if n.value != 1 {
      return Err(SeveralSelected);
    }
    var data := GetData(mesh);
    if data.Err? {
      return Err(data.error);
    }
    ShellTypesOfPasses(|Pass(mesh, Triangle)|, |Pass(mesh, Quadrangle)|, |Pass(mesh, Hexahedron)|, |Pass(mesh, Tetrahedron)|);
    r := Rebuild(data.value, meshLabel);
    if r.Ok? {
      assert Pass(mesh, Hexahedron) == [] && Pass(mesh, Tetrahedron) == [];
      assert Values(data.value.e2n) == Pass(mesh, Triangle) + Pass(mesh, Quadrangle);
    }
  }
}
