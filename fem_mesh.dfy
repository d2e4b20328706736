/** A FreeCAD FemMesh as the macros read it: its nodes (`Nodes`, ID to
    coordinates, in the mesh's order), its faces and volumes (`Faces` and
    `Volumes` give the IDs in order, `getElementNodes` the node IDs of
    one), and the per-kind element counts (`EdgeCount`, `TriangleCount`,
    ...), which the macros test separately from the lists. */
module FemMesh {
  import opened Common
  import opened PyDict

  datatype Mesh = Mesh(
    nodes: Dict<Point>,
    faces: Dict<seq<int>>,
    volumes: Dict<seq<int>>,
    edgeCount: nat,
    triangleCount: nat,
    quadrangleCount: nat,
    hexaCount: nat,
    tetraCount: nat,
    volumeCount: nat,
    pyramidCount: nat,
    prismCount: nat)

  /** The three ID lists are those of Python dictionaries. */
  ghost predicate WellFormed(mesh: Mesh)
  {
    mesh.nodes.Valid() && mesh.faces.Valid() && mesh.volumes.Valid()
  }

  ghost predicate AllWellFormed(meshes: seq<Mesh>)
  {
    forall b {:trigger WellFormed(meshes[b])} :: 0 <= b < |meshes| ==> WellFormed(meshes[b])
  }

  /** The dictionaries the export and flip macros build from meshes
      (`get_data_from_mesh_objects`): nodes (ID to coordinates), E2N
      (element to node IDs), E2T (element to type number), E2P (element to
      property ID) and P2M (property to material ID). */
  datatype MeshData = MeshData(nodes: Dict<Point>, e2n: Dict<seq<int>>, e2t: Dict<int>, e2p: Dict<int>, p2m: Dict<int>)
}
