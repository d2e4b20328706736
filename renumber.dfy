/** `get_E2N_nodes_and_E2T` (macros/solid_mesh_thicken.py; the same code
    is in macros/make_rbe3_within_sphere.py and
    macros/proto_mesh_equivalencer.py): several FemMesh bodies become one
    quadrilateral mesh whose nodes and faces are numbered 1, 2, 3, ... body
    by body, each face's nodes mapped through its own body's old-to-new
    node table. */
module Renumber {
  import opened Common
  import opened PyDict
  import opened FemMesh

  /** `ELEMENT_TYPE_QUAD`, the FreeCAD type number of a four-node face. */
  const QuadType := 15

  datatype RenumberError =
    | UnsupportedElements  // the type screen raised
    | KeyError             // a face names a node its body does not have
    | UnknownElements      // no body had quadrilaterals

  /** One row of `nid_transform` or `eid_transform`: [body ID, old ID, new ID]. */
  datatype Row = Row(body: int, oldId: int, newId: int)

  /** How many IDs the bodies before b hold. */
  function Off(ids: seq<seq<int>>, b: nat): nat
    requires b <= |ids|
  {
    if b == 0 then 0 else Off(ids, b - 1) + |ids[b - 1]|
  }

  lemma {:induction false} OffMonotone(ids: seq<seq<int>>, a: nat, c: nat)
    requires a <= c <= |ids|
    ensures Off(ids, a) <= Off(ids, c)
    decreases c
  {
    if a < c {
      OffMonotone(ids, a, c - 1);
    }
  }

  /** The new ID of the j-th ID of body b: the count before it, plus one. */
  function NewId(ids: seq<seq<int>>, b: nat, j: nat): int
    requires b < |ids|
  {
    Off(ids, b) + j + 1
  }

  /** The rows of body b, which is body ID b + 1. */
  function BodyRows(ids: seq<seq<int>>, b: nat): (r: seq<Row>)
    requires b < |ids|
    ensures |r| == |ids[b]|
    ensures forall j :: 0 <= j < |r| ==> r[j] == Row(b + 1, ids[b][j], NewId(ids, b, j))
  {
    seq(|ids[b]|, j requires 0 <= j < |ids[b]| => Row(b + 1, ids[b][j], NewId(ids, b, j)))
  }

  /** The transform table of the first n bodies, in body order. */
  function Rows(ids: seq<seq<int>>, n: nat): seq<Row>
    requires n <= |ids|
  {
    if n == 0 then [] else Rows(ids, n - 1) + BodyRows(ids, n - 1)
  }

  /** New IDs run 1, 2, 3, ... down the table, and body IDs are 1..n. */
  lemma {:induction false} RowsShape(ids: seq<seq<int>>, n: nat)
    requires n <= |ids|
    ensures |Rows(ids, n)| == Off(ids, n)
    ensures forall k :: 0 <= k < |Rows(ids, n)| ==> Rows(ids, n)[k].newId == k + 1 && 1 <= Rows(ids, n)[k].body <= n
  {
    if n > 0 {
      RowsShape(ids, n - 1);
      var t := Rows(ids, n);
      forall k | 0 <= k < |t| ensures t[k].newId == k + 1 && 1 <= t[k].body <= n {
        if k >= Off(ids, n - 1) {
          assert t[k] == BodyRows(ids, n - 1)[k - Off(ids, n - 1)];
        } else {
          assert t[k] == Rows(ids, n - 1)[k];
        }
      }
    }
  }

  /** Row j of body b sits at position Off(b) + j of the table. */
  lemma {:induction false} RowsAt(ids: seq<seq<int>>, n: nat, b: nat, j: nat)
    requires b < n <= |ids| && j < |ids[b]|
    ensures Off(ids, b) + j < |Rows(ids, n)|
    ensures Rows(ids, n)[Off(ids, b) + j] == BodyRows(ids, b)[j]
  {
    RowsShape(ids, n);
    RowsShape(ids, n - 1);
    if b < n - 1 {
      RowsAt(ids, n - 1, b, j);
    }
  }

  /** `[e for e in t if e[0] == body]`. */
  function OfBody(t: seq<Row>, body: int): seq<Row>
  {
    if t == [] then []
    else OfBody(t[..|t| - 1], body) + (if t[|t| - 1].body == body then [t[|t| - 1]] else [])
  }

  lemma {:induction false} OfBodyAppend(a: seq<Row>, c: seq<Row>, body: int)
    ensures OfBody(a + c, body) == OfBody(a, body) + OfBody(c, body)
    decreases |c|
  {
    if c == [] {
      assert a + c == a;
    } else {
      assert (a + c)[..|a + c| - 1] == a + c[..|c| - 1];
      assert (a + c)[|a + c| - 1] == c[|c| - 1];
      OfBodyAppend(a, c[..|c| - 1], body);
    }
  }

  /** A block whose rows all carry one body ID is kept whole for that body
      and dropped for every other. */
  lemma {:induction false} OfBodyUniform(t: seq<Row>, b: int, body: int)
    requires forall k :: 0 <= k < |t| ==> t[k].body == b
    ensures OfBody(t, body) == if b == body then t else []
  {
    if t != [] {
      OfBodyUniform(t[..|t| - 1], b, body);
    }
  }

  /** Body m's block is kept whole for body ID m + 1 and dropped for
      every other. */
  lemma OfBodyBlock(ids: seq<seq<int>>, m: nat, b: nat)
    requires m < |ids|
    ensures OfBody(BodyRows(ids, m), b + 1) == if b == m then BodyRows(ids, m) else []
  {
    OfBodyUniform(BodyRows(ids, m), m + 1, b + 1);
  }

  /** Filtering a table whose second part has no rows for the body. */
  lemma OfBodyFront(front: seq<Row>, block: seq<Row>, body: int)
    requires OfBody(block, body) == []
    ensures OfBody(front + block, body) == OfBody(front, body)
  {
    OfBodyAppend(front, block, body);
    AppendEmpty(OfBody(front, body));
  }

  /** Filtering a table whose first part has no rows for the body. */
  lemma OfBodyBack(front: seq<Row>, block: seq<Row>, body: int)
    requires OfBody(front, body) == []
    ensures OfBody(front + block, body) == OfBody(block, body)
  {
    OfBodyAppend(front, block, body);
    AppendEmpty(OfBody(block, body));
  }

  /** The first n bodies' table has no rows for body ID b + 1 when b >= n. */
  lemma {:induction false} OfBodyPast(ids: seq<seq<int>>, n: nat, b: nat)
    requires n <= b && n <= |ids|
    ensures OfBody(Rows(ids, n), b + 1) == []
  {
    if n > 0 {
      OfBodyPast(ids, n - 1, b);
      OfBodyBlock(ids, n - 1, b);
      OfBodyFront(Rows(ids, n - 1), BodyRows(ids, n - 1), b + 1);
    }
  }

  /** Filtering the whole table by body ID b + 1 gives body b's rows. */
  lemma {:induction false} OfBodyRows(ids: seq<seq<int>>, n: nat, b: nat)
    requires b < n <= |ids|
    ensures OfBody(Rows(ids, n), b + 1) == BodyRows(ids, b)
  {
    OfBodyBlock(ids, n - 1, b);
    if b < n - 1 {
      OfBodyRows(ids, n - 1, b);
      OfBodyFront(Rows(ids, n - 1), BodyRows(ids, n - 1), b + 1);
    } else {
      OfBodyPast(ids, n - 1, b);
      OfBodyBack(Rows(ids, n - 1), BodyRows(ids, n - 1), b + 1);
    }
  }

  /** `{e[1]: e[2] for e in rows}`, written in order. */
  function AsMap(rows: seq<Row>): map<int, int>
  {
    if rows == [] then map[] else AsMap(rows[..|rows| - 1])[rows[|rows| - 1].oldId := rows[|rows| - 1].newId]
  }

  /** With distinct old IDs, the map sends each row's old ID to its new ID
      and has no other keys. */
  lemma {:induction false} AsMapRows(rows: seq<Row>)
    requires forall i, j :: 0 <= i < j < |rows| ==> rows[i].oldId != rows[j].oldId
    ensures forall n :: n in AsMap(rows) <==> exists j :: 0 <= j < |rows| && rows[j].oldId == n
    ensures forall j :: 0 <= j < |rows| ==> rows[j].oldId in AsMap(rows) && AsMap(rows)[rows[j].oldId] == rows[j].newId
  {
    if rows != [] {
      var front := rows[..|rows| - 1];
      AsMapRows(front);
      forall n ensures n in AsMap(rows) <==> exists j :: 0 <= j < |rows| && rows[j].oldId == n {
        if n in AsMap(front) {
          var j :| 0 <= j < |front| && front[j].oldId == n;
          assert rows[j].oldId == n;
        }
        if exists j :: 0 <= j < |rows| && rows[j].oldId == n {
          var j :| 0 <= j < |rows| && rows[j].oldId == n;
          if j < |front| {
            assert front[j].oldId == n;
          }
        }
      }
      forall j | 0 <= j < |rows| ensures rows[j].oldId in AsMap(rows) && AsMap(rows)[rows[j].oldId] == rows[j].newId {
        if j < |front| {
          assert front[j] == rows[j];
        }
      }
    }
  }

  /** The node IDs of each body, in the mesh's order. */
  function NodeIds(meshes: seq<Mesh>): (r: seq<seq<int>>)
    ensures |r| == |meshes| && forall b :: 0 <= b < |meshes| ==> r[b] == meshes[b].nodes.keys
  {
    seq(|meshes|, b requires 0 <= b < |meshes| => meshes[b].nodes.keys)
  }

  /** The face IDs of each body, in the mesh's order. */
  function FaceIds(meshes: seq<Mesh>): (r: seq<seq<int>>)
    ensures |r| == |meshes| && forall b :: 0 <= b < |meshes| ==> r[b] == meshes[b].faces.keys
  {
    seq(|meshes|, b requires 0 <= b < |meshes| => meshes[b].faces.keys)
  }

  /** `n_rel` of body b: its old node IDs to their new ones. */
  function BodyNodeMap(meshes: seq<Mesh>, b: nat): map<int, int>
    requires b < |meshes|
  {
    AsMap(BodyRows(NodeIds(meshes), b))
  }

  /** Node j of body b is renumbered NewId(b, j), and only nodes of body b
      have an entry. */
  lemma BodyNodeMapAt(meshes: seq<Mesh>, b: nat)
    requires AllWellFormed(meshes) && b < |meshes|
    ensures BodyNodeMap(meshes, b).Keys == meshes[b].nodes.m.Keys
    ensures forall j :: 0 <= j < |meshes[b].nodes.keys| ==>
              meshes[b].nodes.keys[j] in BodyNodeMap(meshes, b) &&
              BodyNodeMap(meshes, b)[meshes[b].nodes.keys[j]] == NewId(NodeIds(meshes), b, j)
  {
    var rows := BodyRows(NodeIds(meshes), b);
    assert WellFormed(meshes[b]);
    AsMapRows(rows);
    forall n ensures n in BodyNodeMap(meshes, b).Keys <==> n in meshes[b].nodes.m.Keys {
      if n in meshes[b].nodes.m {
        assert n in meshes[b].nodes.keys;
        var j :| 0 <= j < |meshes[b].nodes.keys| && meshes[b].nodes.keys[j] == n;
        assert rows[j].oldId == n;
      }
    }
  }

  /** Every ID of `ns` is a key of `m`. */
  predicate AllIn<V>(ns: seq<int>, m: map<int, V>)
  {
    forall q :: 0 <= q < |ns| ==> ns[q] in m
  }

  lemma AllInSameKeys<V, W>(ns: seq<int>, m1: map<int, V>, m2: map<int, W>)
    requires m1.Keys == m2.Keys
    ensures AllIn(ns, m1) <==> AllIn(ns, m2)
  {
    forall q | 0 <= q < |ns| ensures ns[q] in m1 <==> ns[q] in m2 {
      assert ns[q] in m1 <==> ns[q] in m1.Keys;
      assert ns[q] in m2 <==> ns[q] in m2.Keys;
    }
  }

  /** Every node ID of `ns` replaced by its entry in `rel`. */
  function Mapped(rel: map<int, int>, ns: seq<int>): (r: seq<int>)
    requires AllIn(ns, rel)
    ensures |r| == |ns| && forall q :: 0 <= q < |ns| ==> r[q] == rel[ns[q]]
  {
    seq(|ns|, q requires 0 <= q < |ns| => rel[ns[q]])
  }

  /** The face a row of `eid_transform` stands for names only nodes of its
      own body. */
  ghost predicate Resolves(meshes: seq<Mesh>, row: Row)
  {
    1 <= row.body <= |meshes| && row.oldId in meshes[row.body - 1].faces.m &&
    AllIn(meshes[row.body - 1].faces.m[row.oldId], meshes[row.body - 1].nodes.m)
  }

  /** The renumbered nodes of the face a row stands for. */
  ghost function RenumberedFace(meshes: seq<Mesh>, row: Row): seq<int>
    requires AllWellFormed(meshes) && Resolves(meshes, row)
  {
    BodyNodeMapAt(meshes, row.body - 1);
    AllInSameKeys(meshes[row.body - 1].faces.m[row.oldId], meshes[row.body - 1].nodes.m, BodyNodeMap(meshes, row.body - 1));
    Mapped(BodyNodeMap(meshes, row.body - 1), meshes[row.body - 1].faces.m[row.oldId])
  }

  /** Face j of body b resolves exactly when the body's node table has an
      entry for each of its nodes. */
  lemma FaceRowResolves(meshes: seq<Mesh>, b: nat, j: nat)
    requires AllWellFormed(meshes) && b < |meshes| && j < |meshes[b].faces.keys|
    ensures var row := BodyRows(FaceIds(meshes), b)[j];
      row.body == b + 1 && row.oldId == meshes[b].faces.keys[j] && row.oldId in meshes[b].faces.m &&
      (Resolves(meshes, row) <==> AllIn(meshes[b].faces.m[row.oldId], BodyNodeMap(meshes, b)))
  {
    var id := meshes[b].faces.keys[j];
    assert WellFormed(meshes[b]);
    assert id in meshes[b].faces.keys;
    BodyNodeMapAt(meshes, b);
    AllInSameKeys(meshes[b].faces.m[id], meshes[b].nodes.m, BodyNodeMap(meshes, b));
  }

  /** The combined face table, `eid_transform`. */
  function FaceRows(meshes: seq<Mesh>): seq<Row>
  {
    Rows(FaceIds(meshes), |meshes|)
  }

  /** The combined node table, `nid_transform`. */
  function NodeRows(meshes: seq<Mesh>): seq<Row>
  {
    Rows(NodeIds(meshes), |meshes|)
  }

  /** Some face names a node that its body does not have. */
  ghost predicate Dangling(meshes: seq<Mesh>)
  {
    exists k :: 0 <= k < |FaceRows(meshes)| && !Resolves(meshes, FaceRows(meshes)[k])
  }

  /** The elif chain of the type screen for one body. */
  datatype Screen = Raises | Quads | Nothing

  function ScreenOf(mesh: Mesh): Screen
  {
    if mesh.edgeCount != 0 then Raises
    else if mesh.triangleCount != 0 then Raises
    else if mesh.quadrangleCount != 0 then Quads
    else if mesh.hexaCount != 0 then Raises
    else if mesh.tetraCount != 0 then Raises
    else if mesh.volumeCount != 0 then Raises
    else if mesh.pyramidCount != 0 then Raises
    else if mesh.prismCount != 0 then Raises
    else Nothing
  }

  /** A quadrilateral body is never checked for volumes, pyramids or prisms:
      the chain stops at its first non-zero count. */
  lemma QuadBodyPassesWithVolumes(mesh: Mesh)
    requires mesh.edgeCount == 0 && mesh.triangleCount == 0 && mesh.quadrangleCount > 0
    ensures ScreenOf(mesh) == Quads
  {
  }

  /** The type screen over all bodies: whether one raised, and
      `mesh_types_expected`, one 15 per quadrilateral body. */
  method ScreenAll(meshes: seq<Mesh>) returns (raised: bool, expected: seq<int>)
    ensures raised <==> exists b :: 0 <= b < |meshes| && ScreenOf(meshes[b]) == Raises
    ensures !raised ==> (forall k :: 0 <= k < |expected| ==> expected[k] == QuadType) &&
                        (|expected| > 0 <==> exists b :: 0 <= b < |meshes| && ScreenOf(meshes[b]) == Quads)
  {
    expected := [];
    var b := 0;
    while b < |meshes|
      invariant 0 <= b <= |meshes|
      invariant forall c :: 0 <= c < b ==> ScreenOf(meshes[c]) != Raises
      invariant forall k :: 0 <= k < |expected| ==> expected[k] == QuadType
      invariant |expected| > 0 <==> exists c :: 0 <= c < b && ScreenOf(meshes[c]) == Quads
    {
      var obj := meshes[b];
      if obj.edgeCount != 0 {
        return true, expected;
      } else if obj.triangleCount != 0 {
        return true, expected;
      } else if obj.quadrangleCount != 0 {
        expected := expected + [QuadType];
      } else if obj.hexaCount != 0 {
        return true, expected;
      } else if obj.tetraCount != 0 {
        return true, expected;
      } else if obj.volumeCount != 0 {
        return true, expected;
      } else if obj.pyramidCount != 0 {
        return true, expected;
      } else if obj.prismCount != 0 {
        return true, expected;
      }
      b := b + 1;
    }
    return false, expected;
  }

  /** The loops that build `nid_transform` and `eid_transform`. */
  method TransformTable(ids: seq<seq<int>>) returns (t: seq<Row>)
    ensures t == Rows(ids, |ids|)
  {
    t := [];
    var bodyId := 1;
    var id := 1;
    var b := 0;
    while b < |ids|
      invariant 0 <= b <= |ids|
      invariant t == Rows(ids, b) && bodyId == b + 1 && id == Off(ids, b) + 1
    {
      var j := 0;
      while j < |ids[b]|
        invariant 0 <= j <= |ids[b]|
        invariant t == Rows(ids, b) + BodyRows(ids, b)[..j] && id == NewId(ids, b, j)
      {
        assert BodyRows(ids, b)[..j + 1] == BodyRows(ids, b)[..j] + [Row(bodyId, ids[b][j], id)];
        t := t + [Row(bodyId, ids[b][j], id)];
        id := id + 1;
        j := j + 1;
      }
      assert BodyRows(ids, b)[..j] == BodyRows(ids, b);
      bodyId := bodyId + 1;
      b := b + 1;
    }
  }

  /** The rows of one body: `[e for e in t if e[0] == body]`. */
  method RowsOfBody(t: seq<Row>, body: int) returns (r: seq<Row>)
    ensures r == OfBody(t, body)
  {
    r := [];
    var i := 0;
    while i < |t|
      invariant 0 <= i <= |t|
      invariant r == OfBody(t[..i], body)
    {
      assert t[..i + 1][..i] == t[..i];
      if t[i].body == body {
        r := r + [t[i]];
      }
      i := i + 1;
    }
    assert t[..i] == t;
  }

  /** `n_rel`: the loop that writes old -> new for every row of a body. */
  method NodeTable(rows: seq<Row>) returns (rel: map<int, int>)
    ensures rel == AsMap(rows)
  {
    rel := map[];
    var i := 0;
    while i < |rows|
      invariant 0 <= i <= |rows|
      invariant rel == AsMap(rows[..i])
    {
      assert rows[..i + 1][..i] == rows[..i];
      rel := rel[rows[i].oldId := rows[i].newId];
      i := i + 1;
    }
    assert rows[..i] == rows;
  }

  /** The inner loop over a face's nodes: `n_rel[n]` for each, a KeyError
      for a node without an entry. */
  method MapNodes(rel: map<int, int>, ns: seq<int>) returns (r: Option<seq<int>>)
    ensures r.None? <==> !AllIn(ns, rel)
    ensures r.Some? ==> AllIn(ns, rel) && r.value == Mapped(rel, ns)
  {
    var out := [];
    var q := 0;
    while q < |ns|
      invariant 0 <= q <= |ns|
      invariant forall p :: 0 <= p < q ==> ns[p] in rel
      invariant |out| == q && forall p :: 0 <= p < q ==> out[p] == rel[ns[p]]
    {
      if ns[q] !in rel {
        return None;
      }
      out := out + [rel[ns[q]]];
      q := q + 1;
    }
    return Some(out);
  }

  /** The first `count` faces of the combined table are written: E2N is
      numbered 1..count and entry k + 1 is the renumbered k-th face. */
  ghost predicate FacesWritten(e2n: Dict<seq<int>>, meshes: seq<Mesh>, count: nat)
  {
    AllWellFormed(meshes) && NumberedFromOne(e2n) && |e2n.keys| == count && count <= |FaceRows(meshes)| &&
    forall k :: 0 <= k < count ==> WrittenAt(e2n, meshes, FaceRows(meshes)[k], k + 1)
  }

  /** E2N holds, under `id`, the renumbered face of `row`. */
  ghost predicate WrittenAt(e2n: Dict<seq<int>>, meshes: seq<Mesh>, row: Row, id: int)
  {
    AllWellFormed(meshes) && Resolves(meshes, row) && id in e2n.m && e2n.m[id] == RenumberedFace(meshes, row)
  }

  /** Writing the renumbered face j of body b, the next face of the table. */
  lemma FaceStep(e2n: Dict<seq<int>>, meshes: seq<Mesh>, b: nat, j: nat, ns: seq<int>)
    requires b < |meshes| && j < |meshes[b].faces.keys|
    requires FacesWritten(e2n, meshes, Off(FaceIds(meshes), b) + j)
    requires Resolves(meshes, BodyRows(FaceIds(meshes), b)[j])
    requires ns == RenumberedFace(meshes, BodyRows(FaceIds(meshes), b)[j])
    ensures FacesWritten(e2n.Put(NewId(FaceIds(meshes), b, j), ns), meshes, Off(FaceIds(meshes), b) + j + 1)
  {
    var ids := FaceIds(meshes);
    var count := Off(ids, b) + j;
    RowsAt(ids, |meshes|, b, j);
    NumberedPut(e2n, ns);
    var d := e2n.Put(count + 1, ns);
    WrittenKept(e2n, d, meshes, count, ns);
    WrittenNew(d, meshes, b, j, ns);
  }

  lemma WrittenNew(d: Dict<seq<int>>, meshes: seq<Mesh>, b: nat, j: nat, ns: seq<int>)
    requires AllWellFormed(meshes) && b < |meshes| && j < |meshes[b].faces.keys|
    requires Resolves(meshes, BodyRows(FaceIds(meshes), b)[j])
    requires ns == RenumberedFace(meshes, BodyRows(FaceIds(meshes), b)[j])
    requires NewId(FaceIds(meshes), b, j) in d.m && d.m[NewId(FaceIds(meshes), b, j)] == ns
    ensures Off(FaceIds(meshes), b) + j < |FaceRows(meshes)|
    ensures WrittenAt(d, meshes, FaceRows(meshes)[Off(FaceIds(meshes), b) + j], Off(FaceIds(meshes), b) + j + 1)
  {
    RowsAt(FaceIds(meshes), |meshes|, b, j);
  }

  /** Writing a new ID keeps every face already written. */
  lemma WrittenKept(e2n: Dict<seq<int>>, d: Dict<seq<int>>, meshes: seq<Mesh>, count: nat, ns: seq<int>)
    requires FacesWritten(e2n, meshes, count) && count + 1 !in e2n.m && d.m == e2n.m[count + 1 := ns]
    ensures forall k :: 0 <= k < count ==> WrittenAt(d, meshes, FaceRows(meshes)[k], k + 1)
  {
    forall k | 0 <= k < count ensures WrittenAt(d, meshes, FaceRows(meshes)[k], k + 1) {
      assert WrittenAt(e2n, meshes, FaceRows(meshes)[k], k + 1);
    }
  }

  /** The E2N loop of one body: each face, in order, renumbered through the
      body's node table and written under its new ID. */
  method WriteBodyFaces(e2n: Dict<seq<int>>, meshes: seq<Mesh>, b: nat, eRel: seq<Row>, nRel: map<int, int>)
    returns (r: Option<Dict<seq<int>>>)
    requires b < |meshes| && FacesWritten(e2n, meshes, Off(FaceIds(meshes), b))
    requires eRel == BodyRows(FaceIds(meshes), b) && nRel == BodyNodeMap(meshes, b)
    ensures r.None? <==> exists j :: 0 <= j < |eRel| && !Resolves(meshes, eRel[j])
    ensures r.Some? ==> FacesWritten(r.value, meshes, Off(FaceIds(meshes), b + 1))
  {
    var d := e2n;
    var j := 0;
    while j < |eRel|
      invariant 0 <= j <= |eRel|
      invariant FacesWritten(d, meshes, Off(FaceIds(meshes), b) + j)
      invariant forall p :: 0 <= p < j ==> Resolves(meshes, eRel[p])
    {
      var e := eRel[j];
      FaceRowResolves(meshes, b, j);
      var nodesInElm := meshes[b].faces.m[e.oldId];
      var mapped := MapNodes(nRel, nodesInElm);
      if mapped.None? {
        return None;
      }
      FaceStep(d, meshes, b, j, mapped.value);
      d := d.Put(e.newId, mapped.value);
      j := j + 1;
    }
    return Some(d);
  }

  /** The first `count` nodes of the combined table are written: nodes is
      numbered 1..count and entry k + 1 holds the coordinates of the k-th
      node of the table in its own body. */
  ghost predicate NodesWritten(nodes: Dict<Point>, meshes: seq<Mesh>, count: nat)
  {
    AllWellFormed(meshes) && NumberedFromOne(nodes) && |nodes.keys| == count && count <= |NodeRows(meshes)| &&
    forall k :: 0 <= k < count ==>
      1 <= NodeRows(meshes)[k].body <= |meshes| &&
      NodeRows(meshes)[k].oldId in meshes[NodeRows(meshes)[k].body - 1].nodes.m && k + 1 in nodes.m &&
      nodes.m[k + 1] == meshes[NodeRows(meshes)[k].body - 1].nodes.m[NodeRows(meshes)[k].oldId]
  }

  lemma NodeStep(nodes: Dict<Point>, meshes: seq<Mesh>, k: nat, p: Point)
    requires NodesWritten(nodes, meshes, k) && k < |NodeRows(meshes)|
    requires 1 <= NodeRows(meshes)[k].body <= |meshes|
    requires NodeRows(meshes)[k].oldId in meshes[NodeRows(meshes)[k].body - 1].nodes.m
    requires p == meshes[NodeRows(meshes)[k].body - 1].nodes.m[NodeRows(meshes)[k].oldId]
    ensures NodesWritten(nodes.Put(k + 1, p), meshes, k + 1)
  {
    NumberedPut(nodes, p);
  }

  /** Every row of the node table names a node of its body. */
  lemma NodeRowsResolve(meshes: seq<Mesh>, k: nat)
    requires AllWellFormed(meshes) && k < |NodeRows(meshes)|
    ensures 1 <= NodeRows(meshes)[k].body <= |meshes|
    ensures NodeRows(meshes)[k].oldId in meshes[NodeRows(meshes)[k].body - 1].nodes.m
  {
    var ids := NodeIds(meshes);
    RowsShape(ids, |meshes|);
    var b := NodeRows(meshes)[k].body - 1;
    OffMonotone(ids, b + 1, |meshes|);
    RowsInBlock(ids, |meshes|, k);
    var j := k - Off(ids, b);
    assert WellFormed(meshes[b]);
    assert meshes[b].nodes.keys[j] in meshes[b].nodes.keys;
  }

  /** Position k of the table lies in the block of its own body. */
  lemma {:induction false} RowsInBlock(ids: seq<seq<int>>, n: nat, k: nat)
    requires n <= |ids| && k < |Rows(ids, n)|
    ensures var row := Rows(ids, n)[k];
      1 <= row.body <= n && Off(ids, row.body - 1) <= k < Off(ids, row.body) &&
      row == BodyRows(ids, row.body - 1)[k - Off(ids, row.body - 1)]
  {
    RowsShape(ids, n);
    RowsShape(ids, n - 1);
    if k < Off(ids, n - 1) {
      RowsInBlock(ids, n - 1, k);
    }
  }

  /** The `nodes` loop over `nid_transform`. */
  method GatherNodes(meshes: seq<Mesh>, t: seq<Row>) returns (nodes: Dict<Point>)
    requires AllWellFormed(meshes) && t == NodeRows(meshes)
    ensures NodesWritten(nodes, meshes, |t|)
  {
    nodes := Empty();
    var i := 0;
    while i < |t|
      invariant 0 <= i <= |t|
      invariant NodesWritten(nodes, meshes, i)
    {
      NodeRowsResolve(meshes, i);
      var obj := meshes[t[i].body - 1];
      RowsShape(NodeIds(meshes), |meshes|);
      NodeStep(nodes, meshes, i, obj.nodes.m[t[i].oldId]);
      nodes := nodes.Put(t[i].newId, obj.nodes.m[t[i].oldId]);
      i := i + 1;
    }
  }

  /** The E2T loop: every element typed 15. */
  method QuadTypes(e2n: Dict<seq<int>>) returns (e2t: Dict<int>)
    requires e2n.Valid()
    ensures e2t.Valid() && e2t.keys == e2n.keys
    ensures forall e :: e in e2t.m ==> e2t.m[e] == QuadType
  {
    e2t := Empty();
    var i := 0;
    while i < |e2n.keys|
      invariant 0 <= i <= |e2n.keys|
      invariant e2t.Valid() && e2t.keys == e2n.keys[..i]
      invariant forall e :: e in e2t.m ==> e2t.m[e] == QuadType
    {
      assert e2n.keys[..i + 1] == e2n.keys[..i] + [e2n.keys[i]];
      assert e2n.keys[i] !in e2n.keys[..i];
      e2t := e2t.Put(e2n.keys[i], QuadType);
      i := i + 1;
    }
    assert e2n.keys[..i] == e2n.keys;
  }

  /** The E2N loop over the bodies: a KeyError at the first face that
      names a node of no body table, otherwise every face written. */
  method WriteAllFaces(meshes: seq<Mesh>, nidTransform: seq<Row>, eidTransform: seq<Row>)
    returns (r: Option<Dict<seq<int>>>)
    requires AllWellFormed(meshes)
    requires nidTransform == NodeRows(meshes) && eidTransform == FaceRows(meshes)
    ensures r.None? <==> Dangling(meshes)
    ensures r.Some? ==> FacesWritten(r.value, meshes, |FaceRows(meshes)|)
  {
    var e2n: Dict<seq<int>> := Empty();
    var b := 0;
    while b < |meshes|
      invariant 0 <= b <= |meshes|
      invariant FacesWritten(e2n, meshes, Off(FaceIds(meshes), b))
    {
      var eRel := RowsOfBody(eidTransform, b + 1);
      var nRel := RowsOfBody(nidTransform, b + 1);
      OfBodyRows(FaceIds(meshes), |meshes|, b);
      OfBodyRows(NodeIds(meshes), |meshes|, b);
      var rel := NodeTable(nRel);
      var next := WriteBodyFaces(e2n, meshes, b, eRel, rel);
      if next.None? {
        ghost var j :| 0 <= j < |eRel| && !Resolves(meshes, eRel[j]);
        DanglingAt(meshes, b, j);
        return None;
      }
      e2n := next.value;
      b := b + 1;
    }
    AllResolve(e2n, meshes);
    return Some(e2n);
  }

  /** A face of body b that does not resolve is a dangling row of the table. */
  lemma DanglingAt(meshes: seq<Mesh>, b: nat, j: nat)
    requires b < |meshes| && j < |meshes[b].faces.keys|
    requires !Resolves(meshes, BodyRows(FaceIds(meshes), b)[j])
    ensures Dangling(meshes)
  {
    RowsAt(FaceIds(meshes), |meshes|, b, j);
    assert !Resolves(meshes, FaceRows(meshes)[Off(FaceIds(meshes), b) + j]);
  }

  /** Once every body is written, every row resolved. */
  lemma AllResolve(e2n: Dict<seq<int>>, meshes: seq<Mesh>)
    requires FacesWritten(e2n, meshes, Off(FaceIds(meshes), |meshes|))
    ensures !Dangling(meshes) && FacesWritten(e2n, meshes, |FaceRows(meshes)|)
  {
    RowsShape(FaceIds(meshes), |meshes|);
    forall k | 0 <= k < |FaceRows(meshes)| ensures Resolves(meshes, FaceRows(meshes)[k]) {
      assert WrittenAt(e2n, meshes, FaceRows(meshes)[k], k + 1);
    }
  }

  /** Node i of body b is stored under its new ID NewId(b, i) with its own
      coordinates. */
  lemma NodeOfBody(nodes: Dict<Point>, meshes: seq<Mesh>, b: nat, i: nat)
    requires NodesWritten(nodes, meshes, |NodeRows(meshes)|)
    requires b < |meshes| && i < |meshes[b].nodes.keys|
    ensures NewId(NodeIds(meshes), b, i) in nodes.m
    ensures meshes[b].nodes.keys[i] in meshes[b].nodes.m
    ensures nodes.m[NewId(NodeIds(meshes), b, i)] == meshes[b].nodes.m[meshes[b].nodes.keys[i]]
  {
    RowsAt(NodeIds(meshes), |meshes|, b, i);
    assert NodeRows(meshes)[Off(NodeIds(meshes), b) + i] == Row(b + 1, meshes[b].nodes.keys[i], NewId(NodeIds(meshes), b, i));
  }

  /** Renumbering keeps the geometry: face j of body b is stored under
      NewId(b, j), with as many nodes as before, and its q-th new node ID
      carries the coordinates of its q-th old node in body b. */
  lemma RenumberingKeepsGeometry(e2n: Dict<seq<int>>, nodes: Dict<Point>, meshes: seq<Mesh>, b: nat, j: nat, q: nat)
    requires FacesWritten(e2n, meshes, |FaceRows(meshes)|) && NodesWritten(nodes, meshes, |NodeRows(meshes)|)
    requires b < |meshes| && j < |meshes[b].faces.keys|
    requires meshes[b].faces.keys[j] in meshes[b].faces.m && q < |meshes[b].faces.m[meshes[b].faces.keys[j]]|
    ensures var face := meshes[b].faces.m[meshes[b].faces.keys[j]];
      var id := NewId(FaceIds(meshes), b, j);
      id in e2n.m && |e2n.m[id]| == |face| && face[q] in meshes[b].nodes.m &&
      e2n.m[id][q] in nodes.m && nodes.m[e2n.m[id][q]] == meshes[b].nodes.m[face[q]]
  {
    var face := meshes[b].faces.m[meshes[b].faces.keys[j]];
    var id := NewId(FaceIds(meshes), b, j);
    RowsAt(FaceIds(meshes), |meshes|, b, j);
    assert WrittenAt(e2n, meshes, FaceRows(meshes)[Off(FaceIds(meshes), b) + j], id);
    assert AllIn(face, meshes[b].nodes.m);
    var n := face[q];
    assert WellFormed(meshes[b]);
    assert n in meshes[b].nodes.keys;
    var i :| 0 <= i < |meshes[b].nodes.keys| && meshes[b].nodes.keys[i] == n;
    BodyNodeMapAt(meshes, b);
    NodeOfBody(nodes, meshes, b, i);
  }

  datatype Combined = Combined(e2n: Dict<seq<int>>, e2t: Dict<int>, nodes: Dict<Point>)

  /** `get_E2N_nodes_and_E2T`: the type screen raises first; then a face
      naming a node its body lacks raises a KeyError; then the call raises
      unless some body had quadrilaterals.  Otherwise nodes and faces are
      numbered 1, 2, ... in body order, each face renumbered through its
      own body's table, every element typed 15. */
  method GetE2NNodesAndE2T(meshes: seq<Mesh>) returns (r: Result<Combined, RenumberError>)
    requires AllWellFormed(meshes)
    ensures r == Err(UnsupportedElements) <==> exists b :: 0 <= b < |meshes| && ScreenOf(meshes[b]) == Raises
    ensures r == Err(KeyError) <==>
              (forall b :: 0 <= b < |meshes| ==> ScreenOf(meshes[b]) != Raises) && Dangling(meshes)
    ensures r == Err(UnknownElements) <==>
              (forall b :: 0 <= b < |meshes| ==> ScreenOf(meshes[b]) == Nothing) && !Dangling(meshes)
    ensures r.Ok? ==>
              FacesWritten(r.value.e2n, meshes, |FaceRows(meshes)|) &&
              NodesWritten(r.value.nodes, meshes, |NodeRows(meshes)|) &&
              r.value.e2t.keys == r.value.e2n.keys && forall e :: e in r.value.e2t.m ==> r.value.e2t.m[e] == QuadType
  {
    var raised, expected := ScreenAll(meshes);
    if raised {
      return Err(UnsupportedElements);
    }
    var nidTransform := TransformTable(NodeIds(meshes));
    var eidTransform := TransformTable(FaceIds(meshes));
    var written := WriteAllFaces(meshes, nidTransform, eidTransform);
    if written.None? {
      return Err(KeyError);
    }
    var e2n := written.value;
    RowsShape(FaceIds(meshes), |meshes|);
    RowsShape(NodeIds(meshes), |meshes|);
    var nodes := GatherNodes(meshes, nidTransform);
    var seen := set t | t in expected;
    if expected != [] {
      assert expected[0] in seen;
      assert seen == {QuadType};
    }
    if !(|seen| == 1 && QuadType in seen) {
      return Err(UnknownElements);
    }
    var e2t := QuadTypes(e2n);
    return Ok(Combined(e2n, e2t, nodes));
  }
}
