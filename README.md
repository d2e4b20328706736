# FCMesher mesh bookkeeping, modelled in Dafny

FCMesher is a FreeCAD add-on that builds and edits finite-element meshes
and writes them out as Nastran/MYSTRAN bulk data. Its geometry work is
done by FreeCAD, numpy and scipy. What is left is bookkeeping: integer node
and element IDs kept in Python dictionaries and lists, plus the text of
the solver cards. That bookkeeping is what this project models and proves.

The project has these modules. Each source file is modelled in the form it
takes: loops that fill lists and dictionaries become methods with loop
invariants, proved against specification functions. Straight-line checks
become functions.

- `Common`, `PyDict`, `Text`, `FemMesh`: the shared vocabulary.
  - `PyDict` models a Python dictionary as its insertion-ordered key list
    plus a map, because the scripts depend on that order ("the key at
    position k", values in order, `max + 1` numbering).
  - `Text` models `str(int)`, `" " * n`, `find`, `in` and `split` with a
    one-character separator, proved against `Join`.
  - `FemMesh` is a FreeCAD FemMesh as the macros read it: nodes, faces,
    volumes, element node lists and per-kind counts.
- `RuledMesh`, `ShellLoft`, `WarpCheck`: the ruled quadrilateral mesh between
  two curves.
  - `RuledMesh` covers both the list-building and the dict-building copies of
    `make_elements_of_ruled_mesh` and `make_nodes_of_ruled_mesh`.
  - `ShellLoft` orients the second curve and builds the CQUAD4 mesh.
  - `WarpCheck` covers the per-element warp list and the reversed-curve
    comparison.
- `NodeToElement`: `get_N2E`, the inverse of the element-to-node map.
- `Thicken`, `SolidThicken`: thickening a quadrilateral shell into
  hexahedra, in one layer (mesh_utilities.py) and in `N_layers` layers
  (macros/solid_mesh_thicken.py). Also the CHEXA card text.
- `Renumber`: `get_E2N_nodes_and_E2T`. Several bodies become one quad mesh
  numbered 1, 2, 3, ... body by body.
- `FragmentMerge`: the fragment merge of macros/export_mesh_as_bdf.py, with
  fresh `max + 1` IDs for colliding elements and nodes.
- `Equivalence`: the node equivalencer. It covers close pairs, the
  replace-or-stop pass per pair and orphan-node cleanup.
- `SmallField`, `BulkData`: eight-character fields and the MYSTRAN
  `create_bulkdata_list` (PSHELL, PSOLID, MAT1, CQUAD4, CHEXA, CTETRA,
  GRID).
- `RealSyntax`, `MaterialLabel`, `Nodeset`: the label checks.
  - `RealSyntax` holds the Nastran real patterns.
  - `MaterialLabel` is `is_valid_MAT1_card`.
  - `Nodeset` covers the SPC1 and FORCE labels and the include lines.
- `Rbe3`: the free-field RBE3 card of `write_rbe3`.
- `FlipNormals`: reading one shell mesh into dictionaries, the shell-type
  check and the reversal of every element's node list.

Coordinates are Dafny `real`. Everything the scripts compute with square
roots, cross products or floating-point formatting enters as a parameter,
and its properties are stated where the scripts rely on them. This covers
nodal normals, the warping coefficient of one element, the
close-pair query and the eight-character float encoder. An exception
the scripts raise is an `Err` value. A `print` followed by `return` is a
distinct result.

## Model

| member | source | states |
|---|---|---|
| RuledMesh.MakeElementsList | mesh_routines.py:131-148 | N_elms_X·N_elms_Y rows; row k is `[k+1, N1, N1+Nx, N1+Nx+1, N1+1]` for the cell in row k / N_elms_X and column k % N_elms_X, so no element starts in the last column or row (the copies at shell_mesh_loft_between_two_curves.py:61-79 and macros/proto_shell_mesh_with_FC_gui.py:216-234 are identical; the hard-coded 2×2 call at shell_mesh_loft_between_two_curves.py:26-51 gives 4 faces) |
| RuledMesh.ElementRowList | mesh_routines.py:137-147 | one pass of the inner loop appends the N_elms_X elements of row j, and the last row of nodes appends none |
| RuledMesh.MakeElementsDict | mesh_utilities.py:425-444 | keys 1..N_elms_X·N_elms_Y in order; element e is the cell in row (e-1) / N_elms_X and column (e-1) % N_elms_X, with corners N1, N1+Nx, N1+Nx+1, N1+1 |
| RuledMesh.MakeNodesList | mesh_routines.py:153-170 | (N_elms_Y+1)·len(Nodes_1) nodes; node k is `[point, k+1]` at row k / len(Nodes_1), column k % len(Nodes_1), linearly interpolated at i/N_elms_Y; it fails (IndexError or ZeroDivisionError) exactly when curve 2 is short or N_elms_Y is 0 with a non-empty curve 1 (the copies at shell_mesh_loft_between_two_curves.py:85-107 and macros/proto_shell_mesh_with_FC_gui.py:240-258 are identical; 9 nodes for the hard-coded 2×2 call) |
| RuledMesh.NodeRowList | mesh_routines.py:159-169 | one pass of the outer loop appends row i; only the first row can fail |
| RuledMesh.MakeNodesDict | mesh_utilities.py:447-469 | keys 1..(N_elms_Y+1)·len(Nodes_1) in order; node n sits at row (n-1) / len(Nodes_1), column (n-1) % len(Nodes_1); the same failures as the list version |
| RuledMesh.NodeRowDict | mesh_utilities.py:454-468 | one pass of the outer loop of the dict version adds row i |
| RuledMesh.RuledNodeListIsRuledNodes | mesh_routines.py:153-170 | a node list of the right length that follows the ruling is the unique list the ruling determines |
| RuledMesh.GridNodeAt | mesh_routines.py:158-169 | the node of row r and column c has ID r·len(Nodes_1)+c+1 and the ruled point of (r, c) |
| RuledMesh.EndRowsAreTheCurves | mesh_routines.py:162-168 | row 0 is curve 1 and row N_elms_Y is curve 2, point by point |
| RuledMesh.ElementCornersOnGrid | mesh_routines.py:143-146 | an element's four corners are the grid nodes (r, c), (r+1, c), (r+1, c+1), (r, c+1) |
| RuledMesh.CornerInjective | mesh_routines.py:138-143 | distinct cells have distinct first corners |
| RuledMesh.ElementsDistinct | mesh_routines.py:136-147 | no two elements of the mesh are the same cell |
| RuledMesh.CornersDistinct | mesh_routines.py:143-146 | the four corners of an element are four different nodes |
| ShellLoft.OrientSecondCurve | mesh_routines.py:91-107 | curve 2 is reversed, and `flipped` is True, exactly when the edges have 4 vertexes and fourpoint_warp differs from force_flip; otherwise curve 2 is kept, even when force_flip is set |
| ShellLoft.MakeMeshFromEdges | mesh_routines.py:79-128 | `flipped` as above, the nodes ruled from curve 1 and the oriented curve 2, and the element list of MakeElementsList |
| ShellLoft.AllQuad4 | mesh_utilities.py:417-421 | E2T has exactly E2N's keys, in order, each typed 15 |
| ShellLoft.ShellMeshLoft | mesh_utilities.py:407-422 | `[nodes, E2N, E2T]`: the ruled node dict, the element dict and E2T typing every element 15; it fails exactly when the node builder does |
| ShellLoft.CornersWithinNodeCount | mesh_utilities.py:435-443 | every corner of an element lies in 1..(N_elms_Y+1)·(N_elms_X+1) |
| ShellLoft.LoftedMeshClosed | mesh_utilities.py:407-422 | every node ID an element names is a node of the lofted mesh |
| WarpCheck.LastWithIdIsLast | macros/proto_shell_mesh_with_FC_gui.py:177-186 | the node a corner gets is the last one in the node list carrying its ID, and there is none exactly when no node carries it |
| WarpCheck.ScanFindsLast | macros/proto_shell_mesh_with_FC_gui.py:177-186 | with distinct corner IDs, the scan of the node list gives each corner the last node carrying its ID, or the value left over from the previous element |
| WarpCheck.GetE2Warp | macros/proto_shell_mesh_with_FC_gui.py:154-213 | the warp list is the element-by-element specification `Warps`, including the UnboundLocalError when a corner was never found |
| WarpCheck.WarpsShape | macros/proto_shell_mesh_with_FC_gui.py:168-213 | a warp list has exactly one `[EID, WC]` per E2N entry, in E2N order and with that entry's EID |
| WarpCheck.WarpsOfPresentCorners | macros/proto_shell_mesh_with_FC_gui.py:170-212 | when every corner is present, the computation succeeds and each coefficient is computed from the element's own four corners |
| WarpCheck.SumWarp | macros/proto_shell_mesh_with_FC_gui.py:138-144 | the total of a warp list |
| WarpCheck.CorrectCurveOrderForWarp | macros/proto_shell_mesh_with_FC_gui.py:122-152 | rules the nodes again from curve 1 reversed, with curve 2 and E2N kept; returns them only when the original total warp strictly exceeds the reversed one, so a tie keeps the original |
| WarpCheck.ReversedCandidateSameIds | macros/proto_shell_mesh_with_FC_gui.py:130-133 | both candidate node lists have the same length and carry IDs 1, 2, 3, ... in the same order |
| NodeToElement.GetN2E | macros/solid_mesh_thicken.py:237-247 | N2E has a key exactly for the nodes some element names; under node n it lists the elements naming n, in E2N order, each once per occurrence of n (the copies at macros/export_mesh_as_bdf.py:6-18, which creates the empty list on first sight instead of using a defaultdict, and macros/export_mystran_analysis.py:8-20 compute the same) |
| NodeToElement.AddElement | macros/solid_mesh_thicken.py:243-245 | the inner loop over one element's nodes turns the inverse of the first i elements into that of the first i + 1 |
| NodeToElement.ListedCount | macros/solid_mesh_thicken.py:241-245 | element E is listed under node n exactly as often as n occurs in E's node list, and no element outside E2N is listed |
| NodeToElement.ListedElements | macros/solid_mesh_thicken.py:241-245 | only element IDs of E2N are listed |
| NodeToElement.ListedNonEmpty | macros/solid_mesh_thicken.py:241-245 | a node has an entry exactly when some element names it |
| SmallField.PaddedFieldLayout | mesh_utilities.py:172-178 | text of at most 7 characters becomes a blank, the text and trailing blanks; text of 8 or more is returned as it is; the field is 8 wide exactly when the text has at most 8 characters |
| SmallField.PaddedFieldRoundTrip | mesh_utilities.py:172-178 | the text is read back from its field at position 1 (or 0 for 8 characters), and every other character is a blank |
| SmallField.FieldsAt | mesh_utilities.py:119-131 | fields of eight written one after the other are read back at positions 0, 8, 16, ... |
| Thicken.CreateThickenedNodes | mesh_utilities.py:312-330 | `max` of an empty dict fails with ValueError and a node without a normal with KeyError; otherwise every original entry is kept and each node N gains, in order, a copy under N + max(keys) at its coordinate plus thickness times its normal |
| Thicken.CopyIsFresh | mesh_utilities.py:317-328 | with positive IDs a copy's ID lies above every original node and no earlier copy has it, so nothing is overwritten |
| Thicken.ShiftKeys | mesh_utilities.py:298-299 | each key moved up by the offset, in order |
| Thicken.CreateThickenedE2N | mesh_utilities.py:291-310 | as written: ValueError on no elements, IndexError on an empty node dict or an element of fewer than four nodes; otherwise element E becomes E + max(EIDs) with `[N1..N4, N1+k..N4+k]`, where k is the key at position len(nodes)/2 - 1 |
| Thicken.KeyAtHalfIsLastShellNode | mesh_utilities.py:295 | on the already-doubled node dict, the key at half the length is the shell's last node in insertion order |
| Thicken.KeyAtHalfIsHighestWhenLast | mesh_utilities.py:295 | that key is the highest shell node exactly when the last inserted shell node is the highest |
| Thicken.ThickenedOffsetCounterexample | mesh_utilities.py:295 | for shell nodes inserted as 4, 1, 2, 3, the offset is 3, not the highest ID 4, so the top of element [1, 2, 3, 4] starts at node 4 instead of 5 |
| Thicken.CorrectedThickenedE2N | mesh_utilities.py:291-310 | the same E2N with the offset the node copies were given, the highest node ID |
| Thicken.ThickenedElements | mesh_utilities.py:298-308 | the element loop: each element, in order, becomes the hexahedron over its first four nodes under its moved ID; an element with fewer than four nodes fails |
| Thicken.ElementTypes | mesh_utilities.py:55-64 | E2T has E2N's keys in order, 7 for 8 nodes and 14 for 6; any other count returns False |
| Thicken.SolidMeshByThickenedShellMesh | mesh_utilities.py:5-68 | the routine as intended, with the nodal normals given and the corrected offset: an argument list whose length is not 4 returns False; with four arguments the mesh is written exactly when there are nodes, every node has a normal, there are elements and each has at least four nodes; otherwise ValueError (no nodes), KeyError (a node without a normal), ValueError (no elements) or IndexError (a short element), in that order. A written mesh, for a shell of positive IDs whose elements name its nodes, has every element a hexahedron typed 7 whose top corners are the copies of its bottom corners, all nodes of the thickened mesh |
| Thicken.HexesAreHexes | mesh_utilities.py:55-64 | every thickened element has eight nodes, so the E2T step never returns False |
| Thicken.PresentCount | mesh_utilities.py:372-381 | the number of an element's IDs that are nodes; it is the element's length exactly when every ID is a node |
| Thicken.E2NormVecFails | mesh_utilities.py:366-387 | `get_E2NormVec` raises IndexError exactly when some element has fewer than four IDs that are nodes |
| Thicken.GetN2EAsWritten | mesh_utilities.py:332-343 | `get_N2E` as written raises NameError exactly when some element names a node, and otherwise returns None |
| Thicken.SomeElementFails | mesh_utilities.py:332-387 | every element fails `get_E2NormVec` or makes `get_N2E` raise |
| Thicken.SolidMeshAsWritten | mesh_utilities.py:5-67 | as written, an argument list of length other than 4 returns False, and every four-argument call raises: IndexError for a short element, else NameError when there are elements, else TypeError (`N2E[NID]` on None) when there are nodes, else ValueError |
| Thicken.HexOverElement | mesh_utilities.py:52-58 | the hexahedron over element j has eight nodes, and its top corner q is the copy of its bottom corner q |
| Thicken.HexKeyIndex | mesh_utilities.py:298-299 | every hexahedron's ID is a shell element's ID moved above the highest element ID |
| Thicken.TypedHexahedron | mesh_utilities.py:56-58 | once typed, an eight-node element has type 7 |
| Thicken.ThickenedHexesClosed | mesh_utilities.py:43-64 | the thickened mesh is closed and each hexahedron joins its corners to their copies |
| Thicken.HexCardLayout | mesh_utilities.py:117-132 | with IDs of at most 8 characters, a CHEXA card is 98 characters: "CHEXA   ", EID, PID and N1..N6 in fields at 8, 16, ..., 64, a newline, 8 blanks, N7 and N8 at 81 and 89, a newline |
| Thicken.FieldCardLayout | mesh_utilities.py:119-132 | a name, eight fields, a newline, 8 blanks, two fields and a newline put each field at its fixed position |
| Thicken.PaddedIdsWidth | mesh_utilities.py:120-131 | each ID of at most 8 characters fills one field of 8 |
| Thicken.WriteHexAndPentData | mesh_utilities.py:109-169 | the text written and how the writer ends, as `HexAndPentText`: an ID missing from E2T raises, a type-7 element without 8 nodes or a type-14 element without 6 stops, the CPENTA card is never written, other types are skipped |
| Thicken.AllHexesWritten | mesh_utilities.py:113-133 | when every element is an eight-node hexahedron typed 7, the writer finishes and writes one CHEXA card per element, in E2N order |
| SolidThicken.GetNewNodes | macros/solid_mesh_thicken.py:249-267 | ZeroDivisionError for 0 layers and KeyError for a node without a normal; for nodes numbered 1..n, node nid of layer l, for l in 0..N_layers, is nid + l·n at the node pushed l·thickness/N_layers along its normal, giving (N_layers+1)·n entries |
| SolidThicken.NodeLayer | macros/solid_mesh_thicken.py:259-264 | one layer of the node loop; the first node without a normal fails |
| SolidThicken.LayerZeroIsShell | macros/solid_mesh_thicken.py:256-264 | layer 0 reproduces the shell's nodes exactly |
| SolidThicken.EveryNewNodeIsACopy | macros/solid_mesh_thicken.py:256-265 | every new node is the layer-l copy of some shell node, at that layer's distance |
| SolidThicken.Hex | macros/solid_mesh_thicken.py:279-289 | eight nodes: the four corners moved by offset1, then the same corners moved by offset2 |
| SolidThicken.GetNewE2N | macros/solid_mesh_thicken.py:269-292 | N_layers·len(E2N) elements; for elements numbered 1..m, the layer-l copy of eid is eid + l·m, joining its corners + l·nnodes to its corners + (l+1)·nnodes; an element of fewer than four nodes raises IndexError; no layers gives an empty dict |
| SolidThicken.ElementLayer | macros/solid_mesh_thicken.py:278-289 | one layer of the element loop |
| SolidThicken.LayerOf | macros/solid_mesh_thicken.py:275-290 | every ID in 1..count·m is the layer-l copy of exactly one position i |
| SolidThicken.CornerCopyInRange | macros/solid_mesh_thicken.py:276-287 | a corner 1..n moved to layer l or l+1 stays among the (N_layers+1)·n node IDs |
| SolidThicken.ThickenedMeshClosed | macros/solid_mesh_thicken.py:249-292 | with compact IDs and every corner a node, every node a new element names is a new node |
| Renumber.GetE2NNodesAndE2T | macros/solid_mesh_thicken.py:58-162 | the type screen raises first; then a face naming a node its body lacks raises KeyError; then it raises unless some body had quadrilaterals. Otherwise nodes and faces are numbered 1, 2, 3, ... body by body, each face mapped through its own body's old-to-new table, coordinates carried over, and E2T has E2N's keys, each 15 (the copies at macros/make_rbe3_within_sphere.py:10-114, which tests the literal 15, and macros/proto_mesh_equivalencer.py:223-327 compute the same) |
| Renumber.ScreenAll | macros/solid_mesh_thicken.py:63-91 | it raises exactly when some body has a non-zero edge or triangle count, or no quadrilaterals and a non-zero count further down the chain; otherwise it lists one 15 per quadrilateral body |
| Renumber.QuadBodyPassesWithVolumes | macros/solid_mesh_thicken.py:67-74 | a body with quadrilaterals and no edges or triangles passes whatever its volume, pyramid or prism counts, because the elif chain stops at the first non-zero count |
| Renumber.TransformTable | macros/solid_mesh_thicken.py:93-110 | the rows `[body, old, new]` of every body in order |
| Renumber.RowsShape | macros/solid_mesh_thicken.py:93-110 | new IDs run 1, 2, 3, ... down the table and body IDs are 1..n |
| Renumber.RowsAt | macros/solid_mesh_thicken.py:97-100 | item j of body b sits at position Off(b) + j of the table, with new ID Off(b) + j + 1 |
| Renumber.RowsOfBody | macros/solid_mesh_thicken.py:118-127 | the rows of the table whose body ID matches, in order |
| Renumber.OfBodyRows | macros/solid_mesh_thicken.py:118-127 | filtering the whole table by body ID b + 1 gives exactly body b's rows |
| Renumber.NodeTable | macros/solid_mesh_thicken.py:129-131 | `n_rel`, the map from each row's old ID to its new ID |
| Renumber.AsMapRows | macros/solid_mesh_thicken.py:129-131 | with distinct old IDs, the map sends each row's old ID to its new ID and has no other keys |
| Renumber.BodyNodeMapAt | macros/solid_mesh_thicken.py:124-131 | a body's node table has exactly that body's nodes as keys, and node j of body b maps to its new ID |
| Renumber.MapNodes | macros/solid_mesh_thicken.py:138-141 | each node replaced by its entry, or a KeyError exactly when some node has none |
| Renumber.Mapped | macros/solid_mesh_thicken.py:138-141 | position q of the renumbered list is the entry of node q |
| Renumber.FaceRowResolves | macros/solid_mesh_thicken.py:133-142 | face j of body b resolves exactly when its body's node table has an entry for each of its nodes |
| Renumber.WriteBodyFaces | macros/solid_mesh_thicken.py:133-142 | one body's faces are written, in order, renumbered under their new IDs; it fails exactly when one of them names a node the body lacks |
| Renumber.WriteAllFaces | macros/solid_mesh_thicken.py:112-142 | E2N is every face, renumbered, under IDs 1..total; a KeyError exactly when some face dangles |
| Renumber.GatherNodes | macros/solid_mesh_thicken.py:143-150 | nodes numbered 1..total, entry k holding the coordinates of the k-th node of the table in its own body |
| Renumber.QuadTypes | macros/solid_mesh_thicken.py:153-157 | E2T has E2N's keys in order, each 15 |
| Renumber.NodeOfBody | macros/solid_mesh_thicken.py:143-150 | node i of body b is stored under its new ID with its own coordinates |
| Renumber.RenumberingKeepsGeometry | macros/solid_mesh_thicken.py:93-150 | corner q of a renumbered face carries the coordinates of corner q of the original face, so renumbering moves no element |
| FragmentMerge.FreshIdIsFree | macros/export_mesh_as_bdf.py:158-166 | the ID an incoming element or node gets is never already taken, and it keeps its own ID exactly when that is free |
| FragmentMerge.NewIdsAt | macros/export_mesh_as_bdf.py:156-169 | the j-th new ID is the fresh ID for the j-th old ID against the stored IDs plus the j new IDs handed out before it |
| FragmentMerge.NewIdsDistinct | macros/export_mesh_as_bdf.py:156-169 | the stored IDs followed by the new IDs are pairwise distinct: no incoming entry overwrites another |
| FragmentMerge.TransferredKeys | macros/export_mesh_as_bdf.py:162-169 | after copying the incoming entries, the dictionary's keys are the stored keys followed by the new IDs, in insertion order |
| FragmentMerge.TransferredEntries | macros/export_mesh_as_bdf.py:162-169 | stored entries are unchanged and the new ID of each incoming entry holds that entry's value |
| FragmentMerge.PairedMeaning | macros/export_mesh_as_bdf.py:155-166 | the lookup table has the old IDs as keys, in order, each mapped to its new ID |
| FragmentMerge.MergeElements | macros/export_mesh_as_bdf.py:155-169 | the element loop yields E2N, E2T and E2P extended by the fragment's elements under their new IDs, and the old-to-new lookup table |
| FragmentMerge.ElementKeys | macros/export_mesh_as_bdf.py:155-169 | after the element loop E2N, E2T and E2P still share their keys, E2N's keys are the stored ones followed by the new IDs, nodes and P2M are untouched, and the lookup table is keyed by the fragment's element IDs |
| FragmentMerge.ElementEntries | macros/export_mesh_as_bdf.py:155-169 | every stored element keeps its nodes, type and property, and each incoming element appears under its new ID with its own nodes, type and property |
| FragmentMerge.RepointElements | macros/export_mesh_as_bdf.py:181-189 | each listed element has the old node ID replaced by the new one |
| FragmentMerge.RepointAllMeaning | macros/export_mesh_as_bdf.py:181-189 | an element of the N2E list has every occurrence of the old node ID replaced, any other element is unchanged |
| FragmentMerge.RepointedAsWritten | macros/export_mesh_as_bdf.py:173-189 | the as-written repointing keeps E2N's keys |
| FragmentMerge.RepointedRaised | macros/export_mesh_as_bdf.py:181 | once a colliding node that no element names raises KeyError, the rest of the node loop does not run and the error stands |
| FragmentMerge.PlaceNode | macros/export_mesh_as_bdf.py:174-191 | a fragment node is stored under a fresh ID exactly when its own ID is already in use, and never overwrites a stored node |
| FragmentMerge.RepointStepAsWritten | macros/export_mesh_as_bdf.py:175-189 | one colliding node repoints the elements N2E lists for it (taken from E2N before the node loop), or raises KeyError when N2E has no entry |
| FragmentMerge.MergeNodesAsWritten | macros/export_mesh_as_bdf.py:171-191 | the node loop as written: nodes extended by the fragment's nodes under their new IDs, and E2N repointed collision by collision through the N2E snapshot |
| FragmentMerge.RenameStepAsWritten | macros/export_mesh_as_bdf.py:181-189 | one collision as written replaces the old ID in exactly the elements listed under it, whether stored or incoming |
| FragmentMerge.RenameNodes | macros/export_mesh_as_bdf.py:182-189 | an element's node list with each node the table renames replaced, in place and in order |
| FragmentMerge.RenamedAllMeaning | macros/export_mesh_as_bdf.py:180-189 | the corrected repointing renames the nodes of the fragment's own elements only and leaves every other element alone |
| FragmentMerge.MergeNodes | macros/export_mesh_as_bdf.py:171-191 | the corrected node loop: nodes as written, and each incoming element renamed once through the fragment's full old-to-new node table |
| FragmentMerge.ReassignedMeaning | macros/export_mesh_as_bdf.py:207-210 | E2P keeps its keys; each incoming element gets the new property ID, every other keeps its own |
| FragmentMerge.ValuesBelowMax | macros/export_mesh_as_bdf.py:205-206 | every stored property (material) ID is at most the maximum the new ID is built from |
| FragmentMerge.MergeProperties | macros/export_mesh_as_bdf.py:193-211 | ValueError when the fragment uses several properties or several materials, an error when max() sees no values, else E2P and P2M with the new PID and MID |
| FragmentMerge.PropsPhase | macros/export_mesh_as_bdf.py:193-211 | the new PID is above every stored property ID, exactly the incoming elements carry it, the new MID is above every stored material ID and P2M maps the new PID to it, P2M unchanged when the fragment has no elements |
| FragmentMerge.IncomingIds | macros/export_mesh_as_bdf.py:155-166 | the new IDs of the fragment's elements, read off the lookup table in the fragment's order |
| FragmentMerge.TargetsOfPaired | macros/export_mesh_as_bdf.py:155-166 | reading the lookup table in the fragment's order gives back exactly the new element IDs |
| FragmentMerge.ElementFacts | macros/export_mesh_as_bdf.py:155-169 | after the element loop the data is aligned and every element the lookup table names has a property, as the property step needs |
| FragmentMerge.MergeFragmentAsWritten | macros/export_mesh_as_bdf.py:154-211 | one later fragment merged as written: elements, then nodes with the N2E snapshot, then properties, stopping at the first error |
| FragmentMerge.MergeFragment | macros/export_mesh_as_bdf.py:154-211 | one later fragment merged with the corrected node step |
| FragmentMerge.MergeKeepsAligned | macros/export_mesh_as_bdf.py:154-211 | a successful merge leaves E2N, E2T and E2P keyed alike and every dictionary well formed |
| FragmentMerge.NodesGeometry | macros/export_mesh_as_bdf.py:174-191 | stored nodes keep their coordinates, and the new ID of each fragment node holds that node's coordinates |
| FragmentMerge.RenamedKeepShape | macros/export_mesh_as_bdf.py:180-189 | an element renamed through such a table has the same number of nodes and each at the coordinates it had in its fragment |
| FragmentMerge.MergedElements | macros/export_mesh_as_bdf.py:154-191 | the corrected merge keeps every stored element's nodes and gives each incoming element its own nodes renamed through the fragment's node table |
| FragmentMerge.MergeKeepsGeometry | macros/export_mesh_as_bdf.py:154-211 | after the corrected merge every stored element and node is unchanged and every incoming element has its fragment's shape at its fragment's coordinates |
| FragmentMerge.MergeFragments | macros/export_mesh_as_bdf.py:138-211 | no fragment gives empty dictionaries, the first is copied, each later one is merged in order, the first error ends the loop; a success is aligned |
| FragmentMerge.NodeLoopCounterexample | macros/export_mesh_as_bdf.py:173-189 | on two small meshes the as-written loop moves the stored element 1 onto the fragment's node and gives the incoming element [4, 4]; the corrected step leaves element 1 alone and gives [3, 4] |
| Equivalence.SortedIdsFacts | macros/proto_mesh_equivalencer.py:197 | the node IDs in sorted order: ascending, one per node, and exactly the IDs of the dictionary |
| Equivalence.TranslatedMeaning | macros/proto_mesh_equivalencer.py:197-220 | the replacement array lists, once each, exactly the pairs of node IDs lower < upper whose nodes lie within the tolerance |
| Equivalence.ReplacementArray | macros/proto_mesh_equivalencer.py:184-220 | the pairs the tree reports, as indices into the sorted coordinates, translated back to node IDs; the result is the replacement array described above |
| Equivalence.IndexTable | macros/proto_mesh_equivalencer.py:193-201 | index i of the table is the i-th smallest node ID, and the coordinate list holds that node's coordinates at i |
| Equivalence.TranslatePairs | macros/proto_mesh_equivalencer.py:215-219 | each reported index pair becomes the pair of node IDs at those indices, in the order reported |
| Equivalence.HitsCount | macros/proto_mesh_equivalencer.py:396-401 | the occurrence count of an element is the number of its nodes equal to the old ID plus the number equal to the new ID |
| Equivalence.CountHits | macros/proto_mesh_equivalencer.py:396-401 | the loop counts the occurrences of the old and the new node ID in one element |
| Equivalence.VisitElement | macros/proto_mesh_equivalencer.py:393-412 | one element: the pass stops on it exactly when it holds the two IDs twice in all; with one occurrence the old ID is replaced by the new, otherwise it is kept |
| Equivalence.PairPassValues | macros/proto_mesh_equivalencer.py:392-412 | a pass that does not stop rewrites the elements visited so far and leaves the others alone |
| Equivalence.PairPassOk | macros/proto_mesh_equivalencer.py:402-404 | a pass goes through exactly when no element visited holds two occurrences |
| Equivalence.PairPassErr | macros/proto_mesh_equivalencer.py:402-404 | a pass that stops names the first element, in E2N's order, with two occurrences |
| Equivalence.ApplyPair | macros/proto_mesh_equivalencer.py:389-412 | the pass of one pair over E2N in key order, returning the element it would collapse |
| Equivalence.ApplyAllPairs | macros/proto_mesh_equivalencer.py:388-414 | the passes of all pairs in the array's order, each on the E2N the one before left, ending at the first collapse |
| Equivalence.FlattenUnique | macros/proto_mesh_equivalencer.py:329-336 | the set of IDs occurring in any of the lists |
| Equivalence.KeptDistinct | macros/proto_mesh_equivalencer.py:421-425 | the nodes kept, in their original order, are still distinct |
| Equivalence.KeepUsed | macros/proto_mesh_equivalencer.py:421-425 | exactly the nodes some element still names are kept, in their original order and with their coordinates |
| Equivalence.Cleanup | macros/proto_mesh_equivalencer.py:416-425 | the node dictionary restricted to the nodes the rewritten E2N uses |
| Equivalence.RestrictedUnique | macros/proto_mesh_equivalencer.py:421-425 | any dictionary with those keys in that order and those coordinates is the restricted one |
| Equivalence.Equivalence | macros/proto_mesh_equivalencer.py:372-425 | no pairs within the tolerance ends early, a collapse ends with the element it names, otherwise the rewritten E2N and the nodes it uses |
| Equivalence.NoPairsMeaning | macros/proto_mesh_equivalencer.py:372-376 | the routine ends early exactly when no two distinct nodes lie within the tolerance |
| Equivalence.UpdatedDistinct | macros/proto_mesh_equivalencer.py:405-412 | rewriting an element with distinct nodes and one occurrence keeps them distinct and removes the old ID |
| Equivalence.UpdatedMembers | macros/proto_mesh_equivalencer.py:405-412 | a rewritten element names only its own nodes and the new ID |
| Equivalence.PairPassEffect | macros/proto_mesh_equivalencer.py:392-412 | a full pass removes the old ID from every element, keeps elements with distinct nodes distinct, and keeps every named node in the node dictionary |
| Equivalence.AllPairsEffect | macros/proto_mesh_equivalencer.py:388-414 | all passes keep E2N's keys, elements with distinct nodes, and nodes that exist |
| Equivalence.CollapseMeaning | macros/proto_mesh_equivalencer.py:402-404 | a collapse reports an element that, after the earlier passes, holds both IDs of the current pair |
| Equivalence.EquivalencedMeaning | macros/proto_mesh_equivalencer.py:386-425 | a successful run keeps E2N's keys, every node an element names exists, every kept node is used and has its original coordinates, and elements stay free of repeated nodes |
| BulkData.IdFieldLayout | macros/export_mystran_analysis.py:153-156 | an ID of at most 8 characters fills an 8-character field: its digits, left-justified, then blanks, and reading the digits back gives the ID |
| BulkData.FitsBelow | macros/export_mystran_analysis.py:153-156 | every ID from 0 up to 99999999 fits an 8-character field |
| BulkData.ElementTypes | macros/export_mystran_analysis.py:129-135 | the element types carried by the elements with this property: a type is listed exactly when some such element has it |
| BulkData.Dimension | macros/export_mystran_analysis.py:135-149 | the dimension of the property's one element type, or the error for several or no types, a type with no dimension, or dimension 0 or 1 |
| BulkData.DimensionTable | macros/export_mystran_analysis.py:121-122 | in the type-to-dimension table, exactly types 15, 16, 18, 20 and 21 have dimension 2, exactly 7, 14 and 19 have dimension 3, and no dimension is outside 0..3 |
| BulkData.OneTypeMeaning | macros/export_mystran_analysis.py:129-137 | the list of types has exactly one entry exactly when all elements with the property share one type and there is at least one |
| BulkData.PropertyDimensionMeaning | macros/export_mystran_analysis.py:129-149 | a property gets a dimension exactly when its elements share one shell or solid type; 2 for a shell type, 3 for a solid type |
| BulkData.PropertyCardOf | macros/export_mystran_analysis.py:125-168 | the PSHELL or PSOLID card of one property, or the ValueError for a non-default property type or bad element types, or the KeyError of `P2M[PID]` for a property without a material |
| BulkData.PropertyCardMeaning | macros/export_mystran_analysis.py:125-168 | a property card is written exactly when its type is the default, its elements share one shell or solid type and P2M has the property; when only the P2M entry is missing, the result is the KeyError (`MissingMaterial`). The card is one line, starting PSHELL exactly for shells and PSOLID exactly for solids |
| BulkData.PropertyCardLayout | macros/export_mystran_analysis.py:150-165 | with fitting IDs the property line is 24 characters, field 1 the PID and field 2 its material ID |
| BulkData.PropertiesUsing | macros/export_mystran_analysis.py:176-179 | the properties that use the material: a PID is listed exactly when it maps to the MID |
| BulkData.UsersOfOne | macros/export_mystran_analysis.py:176-181 | when at most one property uses the material, the list is that property or empty |
| BulkData.MaterialCardOf | macros/export_mystran_analysis.py:173-221 | the MAT1 card of one material, or the ValueError for a non-default material type, a material used by zero or several properties, or bad element types |
| BulkData.MaterialCardMeaning | macros/export_mystran_analysis.py:173-221 | a MAT1 card is written exactly when the material type is the default and one property, whose elements get a dimension, uses it; with a fitting ID it is `MAT1` and the MID in 16 characters |
| BulkData.ElementCardMeaning | macros/export_mystran_analysis.py:226-283 | an element card is written exactly for a CHEXA with 8 nodes, a CQUAD4 with at least 4 nodes or a CTETRA with 10 nodes; a CQUAD4 is one line, the solids a line and a continuation line that starts with 8 blanks |
| BulkData.NodeLine | macros/export_mystran_analysis.py:232-240 | a card's first line has the EID in field 1, the PID in field 2 and its nodes in the fields after that |
| BulkData.ContinuationLine | macros/export_mystran_analysis.py:242-244 | a continuation line holds the remaining nodes from field 1 on |
| BulkData.QuadLayout | macros/export_mystran_analysis.py:249-259 | a CQUAD4 line is 56 characters with the EID, the PID and the first four nodes in fields 1 to 6 |
| BulkData.SolidLayout | macros/export_mystran_analysis.py:230-277 | a CHEXA or CTETRA has six nodes on its 72-character first line and the rest, in order, on the continuation line |
| BulkData.GridCardMeaning | macros/export_mystran_analysis.py:288-307 | a GRID line is written exactly when all three encoded coordinates are 8 characters; it is 48 characters with the NID in field 1, field 2 blank and x, y, z in fields 3 to 5 |
| BulkData.PropertySection | macros/export_mystran_analysis.py:124-169 | the property cards in P2T's order, or the first error, a missing P2M entry included |
| BulkData.MaterialSection | macros/export_mystran_analysis.py:172-222 | the material cards in M2T's order, or the first error |
| BulkData.ElementSection | macros/export_mystran_analysis.py:225-284 | the element cards in E2N's order, or the first error |
| BulkData.GridSection | macros/export_mystran_analysis.py:287-308 | the GRID lines in the node dictionary's order, or the first error |
| BulkData.CollectMeaning | macros/export_mystran_analysis.py:113-310 | a section is written exactly when every card in it is, as their lines in order; otherwise the error is that of the first failing card |
| BulkData.CreateBulkdataList | macros/export_mystran_analysis.py:113-310 | `BEGIN BULK`, a blank line, then properties, materials, elements and GRIDs, a blank line between sections, or the first ValueError, IndexError or KeyError |
| BulkData.BulkdataOk | macros/export_mystran_analysis.py:113-310 | the list is produced exactly when every card of every section is (so never when a listed property lacks a P2M entry), and it is then the header and the four sections with their blank separators |
| BulkData.Framed | macros/export_mystran_analysis.py:117-307 | such a list has 5 lines besides the cards, with the header, the separators and the section starts where the section lengths put them |
| BulkData.BulkdataShape | macros/export_mystran_analysis.py:113-310 | a produced list has one line per property, per material and per node, one or two per element, plus 5 |
| RealSyntax.StripSpaces | macros/export_nodeset.py:136 | deleting whitespace leaves no whitespace and leaves a text without whitespace as it is |
| RealSyntax.StripAppend | macros/export_nodeset.py:136 | deleting whitespace from a concatenation deletes it from each part |
| RealSyntax.StripHas | macros/export_nodeset.py:136 | deleting whitespace keeps every other character |
| RealSyntax.NastranRealForms | macros/export_nodeset.py:132-145 | a text is a valid Nastran real exactly when, with its whitespace deleted, it is an optional sign (`+`, `\|` or `-`), at least one digit, a point, digits, an optional E, an optional sign and digits; or the same with no digit before the point and at least one after it |
| RealSyntax.FormChars | macros/export_nodeset.py:137-138 | a text of either form consists of signs, digits, points and E only |
| RealSyntax.NastranRealChars | macros/export_nodeset.py:132-145 | every non-blank character of an accepted text is a sign, a digit, a point or E |
| RealSyntax.ExponentPrefixAgrees | macros/export_mystran_analysis.py:431-435 | the exponent pattern matches at the start of a field exactly when the field begins with an optional sign, digits, a point, digits, E, an optional sign and at least one digit |
| RealSyntax.DecimalPrefixAgrees | macros/export_mystran_analysis.py:432-437 | the decimal pattern matches at the start of a field exactly when the field begins with at least one digit, a point and at least one digit |
| MaterialLabel.LabelFields | macros/export_mystran_analysis.py:412-427 | a label that passes the first three tests splits at '_' into at least two fields, the first replaced by MAT1 |
| MaterialLabel.FirstFieldInLabel | macros/export_mystran_analysis.py:413-424 | a first field that contains MAT1 means the label contains MAT1 and an underscore, so the earlier ValueErrors do not apply |
| MaterialLabel.LabelFieldsJoin | macros/export_mystran_analysis.py:420-427 | the fields of a label joined with '_' come back, the first as MAT1 |
| MaterialLabel.Mat1CardAccepts | macros/export_mystran_analysis.py:409-468 | the corrected label test accepts a label exactly when its first field contains MAT1 and the next four are a real, a real or nothing, a real and a real |
| MaterialLabel.Mat1CardAsWrittenAccepts | macros/export_mystran_analysis.py:409-468 | the label test as written accepts a label exactly when the Young's modulus field starts in the exponent form or the SHEAR field starts in the decimal form, and the other fields are as above |
| MaterialLabel.Mat1LabelAccepted | macros/export_mystran_analysis.py:409-468 | a name containing MAT1 followed by four well-formed values, joined by '_', is accepted |
| MaterialLabel.ShortDecimal | macros/export_mystran_analysis.py:431-432 | a value like 2.0 matches the decimal pattern and not the exponent pattern |
| MaterialLabel.NotAReal | macros/export_mystran_analysis.py:431-432 | a field starting with anything but a digit, a sign or a point matches neither pattern |
| MaterialLabel.AsWrittenSkipsYoungs | macros/export_mystran_analysis.py:435-438 | as written, a decimal shear modulus lets any Young's modulus through |
| MaterialLabel.AsWrittenNeedsExponent | macros/export_mystran_analysis.py:435-440 | as written, an empty shear modulus rejects any Young's modulus not in the exponent form |
| MaterialLabel.CorrectedReadsYoungs | macros/export_mystran_analysis.py:434-440 | corrected, with the other values well formed, the label is accepted exactly when Young's modulus is a real |
| MaterialLabel.Mat1IgnoresYoungs | macros/export_mystran_analysis.py:437 | `MAT1_x_1.0_0.3_1.0` is accepted as written and rejected for its Young's modulus when corrected |
| MaterialLabel.Mat1RejectsDecimalYoungs | macros/export_mystran_analysis.py:437 | `MAT1_2.0__0.3_7.8` is rejected for its Young's modulus as written and accepted when corrected |
| Nodeset.CharSetDistinct | macros/export_nodeset.py:180 | the set of a text's characters is no larger than the text, and as large exactly when no character repeats |
| Nodeset.FileName | macros/export_nodeset.py:193-196 | the label up to its first ':', or `constraint_file.bdf` when it has none; never containing ':' |
| Nodeset.WriteLines | macros/export_nodeset.py:188-190 | one include line per node of the set, in order, each the card's line for that node |
| Nodeset.ExportNodeset | macros/export_nodeset.py:166-242 | the ValueError of the label when it is malformed, otherwise the file name and one card line per node |
| Nodeset.KeywordOrder | macros/export_nodeset.py:166-242 | a label containing SPC1 is read as an SPC1 card whatever else it contains, otherwise one containing FORCE as a FORCE card; a label with neither raises |
| Nodeset.Spc1Label | macros/export_nodeset.py:170-186 | `SPC1_SID_C` is accepted exactly when SID is an integer and C consists of distinct components 1 to 6, and then yields SID and C |
| Nodeset.ForceLabel | macros/export_nodeset.py:205-227 | `FORCE_SID_scale_x_y_z` is accepted exactly when SID is an integer and the other four are valid Nastran reals, and then yields them |
| Nodeset.ComponentsBound | macros/export_nodeset.py:179-183 | an accepted SPC1 names at most 7 component characters, at most 6 unless the field ends in a newline that the `$` of the pattern admits |
| Nodeset.Spc1LineFields | macros/export_nodeset.py:189 | an SPC1 line splits at commas into SPC1, SID, the components and the node ID, which reads back as the node |
| Nodeset.ForceLineFields | macros/export_nodeset.py:230 | a FORCE line splits at commas into FORCE, SID, the node ID, an empty field, the scale and x, y, z; the node ID reads back as the node |
| Nodeset.LineFields | macros/export_nodeset.py:188-231 | every line written for an accepted label splits into its card's fields with the node's ID in the node field |
| Rbe3.FirstLineJoin | macros/make_rbe3_within_sphere.py:188-195 | the first line is RBE3, the EID, an empty field, the reference node, 123456, 1.0, 123 and the first two nodes, joined by commas |
| Rbe3.FirstLineSplit | macros/make_rbe3_within_sphere.py:188-195 | the first line splits at commas back into exactly those fields |
| Rbe3.FirstFieldsRead | macros/make_rbe3_within_sphere.py:188-195 | the EID, the reference node and the first two nodes read back from their fields |
| Rbe3.IntStringsSlice | macros/make_rbe3_within_sphere.py:204-206 | the texts of a slice of the nodes are that slice of the nodes' texts |
| Rbe3.EntriesFields | macros/make_rbe3_within_sphere.py:204-206 | a run of `,NID` entries splits into an empty field and one field per node, each reading back as that node |
| Rbe3.GroupsCount | macros/make_rbe3_within_sphere.py:185 | a list cut into groups of eight has ceil(n/8) groups |
| Rbe3.GroupsFlatten | macros/make_rbe3_within_sphere.py:204-213 | the groups of eight, put back together, are the list |
| Rbe3.ChunkedCount | macros/make_rbe3_within_sphere.py:185 | the continuation lines number ceil(n/8) for n remaining nodes |
| Rbe3.ChunkedAt | macros/make_rbe3_within_sphere.py:204-213 | continuation line k holds nodes 8k up to 8k+8 (or the last), as `,NID` entries |
| Rbe3.ContinuationLineFields | macros/make_rbe3_within_sphere.py:204-213 | each continuation line splits into an empty field and one to eight node fields reading back as consecutive nodes |
| Rbe3.ChunkedConcat | macros/make_rbe3_within_sphere.py:204-213 | the continuation lines concatenated are all remaining nodes as `,NID` entries: no node lost or repeated |
| Rbe3.ContinuationLines | macros/make_rbe3_within_sphere.py:200-213 | the loop builds exactly the continuation lines of eight nodes each, the last holding the rest |
| Rbe3.WriteRbe3 | macros/make_rbe3_within_sphere.py:180-214 | below three nodes the first line alone is printed and nothing returned; otherwise the first line followed by the continuation lines |
| Rbe3.Rbe3LineCount | macros/make_rbe3_within_sphere.py:182-185 | with three or more nodes the card has the 1 + ceil((n-2)/8) lines the routine computes up front |
| FlipNormals.FemMeshCountPositive | macros/flip_shell_mesh_normals.py:9-15 | some mesh is counted exactly when some selected object is a FemMeshObject or FemMeshObjectPython |
| FlipNormals.CheckSelection | macros/flip_shell_mesh_normals.py:5-17 | the number of selected FemMesh objects, or the ValueError when there are none |
| FlipNormals.HexOrderIsPermutation | macros/flip_shell_mesh_normals.py:89-91 | the hexahedron reordering keeps the element's nodes, only in another order |
| FlipNormals.TetOrderIsPermutation | macros/flip_shell_mesh_normals.py:108-110 | the tetrahedron reordering keeps the element's nodes, only in another order |
| FlipNormals.ConnectivityIsPermutation | macros/flip_shell_mesh_normals.py:53-113 | every stored connectivity is a reordering of the element's nodes, and triangles and quadrangles are stored in their own order |
| FlipNormals.PickedAll | macros/flip_shell_mesh_normals.py:84-97 | when no element of a pass has the wrong size, the pass stores one reordered connectivity per element, in order |
| FlipNormals.PickedFromList | macros/flip_shell_mesh_normals.py:53-78 | a pass stores no more rows than elements, each a reordering of an element of the right size |
| FlipNormals.StoreElement | macros/flip_shell_mesh_normals.py:56-59 | E2N gains the element under its ID with the pass's connectivity |
| FlipNormals.Store | macros/flip_shell_mesh_normals.py:56-62 | storing one element appends its connectivity to E2N under the next ID, with the pass's type and property, and maps the property to the material |
| FlipNormals.Visit | macros/flip_shell_mesh_normals.py:84-97 | an element of the pass's size is stored; a volume of another size raises the pass's ValueError, a face of another size is skipped |
| FlipNormals.StartIds | macros/flip_shell_mesh_normals.py:50-52 | a pass numbers its elements on from the current count, its property one above the element count and its material one above the largest property ID |
| FlipNormals.AddSection | macros/flip_shell_mesh_normals.py:49-117 | a pass raises exactly when it is a volume pass meeting an element of another size; otherwise it appends its rows with its type |
| FlipNormals.CopyDict | macros/flip_shell_mesh_normals.py:126-130 | the copy equals the original |
| FlipNormals.RunPass | macros/flip_shell_mesh_normals.py:49-117 | a pass runs only when its count is non-zero, raises exactly when it fails, and otherwise adds its rows |
| FlipNormals.ShellPasses | macros/flip_shell_mesh_normals.py:49-79 | after the face passes E2N is the triangles then the quadrangles, typed 20 and 15 |
| FlipNormals.VolumePasses | macros/flip_shell_mesh_normals.py:80-117 | the volume passes raise exactly when one of them fails, the hexahedron error first; otherwise they append the hexahedra and tetrahedra, typed 7 and 19 |
| FlipNormals.GetData | macros/flip_shell_mesh_normals.py:20-131 | the mesh's data, or the first ValueError in the routine's order; E2N is the four passes' rows in order with their types, the nodes are the mesh's nodes |
| FlipNormals.CheckShellTypes | macros/flip_shell_mesh_normals.py:166-171 | true exactly when every element type is 15, 16, 20 or 21 |
| FlipNormals.ShellTypesOfPasses | macros/flip_shell_mesh_normals.py:163-171 | the type check passes exactly when there are no hexahedra and no tetrahedra |
| FlipNormals.ReversedNodes | macros/flip_shell_mesh_normals.py:176-179 | the element's nodes in reverse order |
| FlipNormals.FlipE2N | macros/flip_shell_mesh_normals.py:173-180 | the flipped E2N has E2N's keys in order, each with its node list reversed |
| FlipNormals.ReverseKeepsNodes | macros/flip_shell_mesh_normals.py:176-180 | reversing keeps the element's nodes |
| FlipNormals.FlipTwiceRestores | macros/flip_shell_mesh_normals.py:173-180 | flipping a flipped E2N gives back the original |
| FlipNormals.FlippedValues | macros/flip_shell_mesh_normals.py:173-180 | the flipped node lists, in order, are the original lists reversed; numbering from 1 is kept |
| FlipNormals.Rebuild | macros/flip_shell_mesh_normals.py:163-194 | a ValueError exactly when some type is not a shell type; otherwise a mesh labelled `<label>_flipped` with the same nodes and each face reversed |
| FlipNormals.FlipShellMeshNormals | macros/flip_shell_mesh_normals.py:134-200 | no selection, several selections and the data errors raise in that order; a single mesh with no volumes gives the flipped copy of its triangles and quadrangles, and one with volumes raises |
| Common.ReplaceNode | macros/export_mesh_as_bdf.py:182-189 | the element's node list with every occurrence of the old ID replaced by the new one and every other node kept in place; the same loop is macros/proto_mesh_equivalencer.py:406-411 |
| Common.ReplaceTwice | macros/proto_mesh_equivalencer.py:405-412 | replacing an ID a second time changes nothing more |
| Text.IntToStringRoundTrip | macros/export_mystran_analysis.py:153-156 | the decimal text `str(int(n))` of an ID reads back as the ID |
| Text.SplitFields | macros/export_nodeset.py:172 | no field of `split("_")` contains the separator |
| Text.JoinSplit | macros/export_nodeset.py:172 | joining the fields of a split with the separator gives back the text |
| Text.SplitJoin | macros/export_nodeset.py:172 | splitting fields that hold no separator, once joined, gives back the fields |

## Left out

- The eight-character float encoder `get_optimal_short_form_float` (macros/export_mystran_analysis.py:23-111, macros/export_nodeset.py:41-130) and the GRID writer `write_gridpoint_data_to_file` (mesh_utilities.py:181-288): floating-point `log10`, rounding and format specifiers. The encoder is a parameter; only its length-8 check (macros/export_mystran_analysis.py:104-108) is modelled, as the `BadFloat` error.
- Element and nodal normals (mesh_utilities.py:345-405, macros/solid_mesh_thicken.py:164-235): numpy cross products and square roots. Normals are inputs, as a map from node ID to vector; a missing normal is the `KeyError` of the lookup. In mesh_utilities.py the normals never get computed, because `get_N2E` raises first (see Findings). `Thicken.SolidMeshAsWritten` models that failure, including the point where `get_E2NormVec` raises, but not the normal values.
- Floating-point rounding: Python floats are modelled as exact Dafny `real`s. Thickened coordinates (`Thicken`, `SolidThicken`), the `>` comparison of the two warp totals in `WarpCheck` and the equivalencer's distance test can round differently in the source.
- The warping coefficient of one element, `fourpoint_warp`, and the quadratic fit through `np.linalg.det` (mesh_utilities.py:471-556): floating-point numerics. The per-element warp is a parameter, so `WarpCheck` proves the shape of the warp list and the comparison, not the values.
- scipy's `KDTree` (macros/proto_mesh_equivalencer.py:206-209): its `query_pairs` result is a parameter constrained by what the query promises (every pair of indices i < j within the tolerance, once each). Euclidean distance is compared squared, so no square root is needed.
- FreeCAD and Qt glue: the ruled-mesh panel (task_ruled.py), commands, dialogs and `Form` classes, selection gathering in every `main`, building `Fem.FemMesh` objects, `Part` calls, and adding objects to the document. `FlipNormals` models only the label and the contents of the new mesh.
- File output: `write_out_thickened_bdf`, `write_include_file_out` and mystran_f06_reader.py. The include lines and the card lists are modelled; writing them to disk is not.
- `print` output. A `print` followed by `return` (the equivalencer's early exits, `write_rbe3` with fewer than three nodes) is a distinct result, and its text is not modelled.
- Dead code: `create_bulkdata_strings` (macros/export_mesh_as_bdf.py:31) names an undefined `ENDDATA`; `get_combined_E2N_and_nodes` (macros/proto_mesh_equivalencer.py:134) is never called; the CPENTA line of `write_hex_and_pent_data` (mesh_utilities.py:147-155) is built but never written.
- The driver scripts call_shell_mesh_loft.py and call_solid_mesh_thicken.py, and the hard-coded 2-by-2 example in shell_mesh_loft_between_two_curves.py:26-51. These are fixed inputs to the modelled routines, whose counts cover them (9 nodes and 4 faces for 2 by 2).
- `main` of macros/make_rbe3_within_sphere.py and its ball query: only `write_rbe3` and `get_E2N_nodes_and_E2T` are modelled.
- Python's `\s` is modelled as the characters `str.isspace()` accepts. `re` with a `str` pattern uses Unicode whitespace; the list of code points is written out in `RealSyntax.IsSpace`.
- Machine integers do not arise: Python integers are unbounded, as Dafny's `int` is. The one width limit, the eight-character field, is stated as the `Fits` precondition of the layout lemmas.
- SolidThicken.GetNewNodes: states the node contents only for shells numbered 1..n in insertion order, which is what `get_E2N_nodes_and_E2T` produces. For other numberings it states only the error cases and that the result is a well-formed dictionary.
- SolidThicken.GetNewE2N: states the element contents only for meshes numbered 1..n in insertion order, for the same reason.
- Thicken.CreateThickenedNodes: states the contents only when every shell node ID is positive. A non-positive ID can make `N + max` land on an existing key, which the loop would then read back overwritten.
- Thicken.SolidMeshByThickenedShellMesh: models the routine as intended. It takes the nodal normals as an input, where the source calls its broken `get_N2E`, and it uses the corrected node offset of `create_thickened_E2N` (see Findings). The as-written routine is `Thicken.SolidMeshAsWritten`, and the as-written offset is `Thicken.CreateThickenedE2N`.
- FragmentMerge.MergeFragments: merges with the corrected node step (see Findings). The as-written step is `FragmentMerge.MergeFragmentAsWritten`.

## Findings

| source | as written | input that shows it | evidently intended | confidence | as-written member | corrected member |
|---|---|---|---|---|---|---|
| mesh_utilities.py:332-350 | `get_N2E` fills an `N2E` that it never creates and has no `return`, so `get_N2NormVec` cannot get the node-to-element map and `solid_mesh_by_thickened_shell_mesh` raises on every four-argument call | `[1.0, {1: [0, 0, 0], 2: [1, 0, 0], 3: [1, 1, 0], 4: [0, 1, 0]}, {1: [1, 2, 3, 4]}, {1: 15}]` raises NameError at line 339 | `get_N2E` builds and returns the inverse of E2N, as its copy in macros/solid_mesh_thicken.py:237-247 does (`NodeToElement.GetN2E`), and the thickened mesh is written | not executed | Thicken.SolidMeshAsWritten | Thicken.SolidMeshByThickenedShellMesh |
| mesh_utilities.py:295 | once `get_N2E` is repaired, the node offset of the hexahedra's top face is the key at position len/2 - 1 of the thickened node dictionary, which is the LAST shell node inserted | shell nodes inserted in the order 4, 1, 2, 3: the offset is 3, not 4, so the top of the hexahedron over [1, 2, 3, 4] starts at shell node 4 instead of its copy 5 | the offset is the highest shell node ID, the shift `create_thickened_nodes` gave the copies | not executed | Thicken.ThickenedOffsetCounterexample | Thicken.CorrectedThickenedE2N |
| macros/export_mesh_as_bdf.py:173-189 | N2E is taken once from the whole combined E2N; each colliding node repoints every element listed under its old ID, the stored ones included, and a later collision renames a new ID handed out earlier | stored mesh with nodes 1, 2 and element 1 = [1]; fragment with nodes 1, 3 and element 1 = [1, 3]: as written element 1 becomes [3] and the incoming element 2 becomes [4, 4] | only the fragment's own elements are renamed, each node once through the fragment's old-to-new table: element 1 stays [1], element 2 is [3, 4] | not executed | FragmentMerge.NodeLoopCounterexample | FragmentMerge.MergeNodes |
| macros/export_mystran_analysis.py:437 | when Young's modulus is not in the exponent form, the decimal form is looked for in field 2, the shear modulus | `MAT1_x_1.0_0.3_1.0` is accepted; `MAT1_2.0__0.3_7.8` is rejected | the decimal form is looked for in field 1, Young's modulus | not executed | MaterialLabel.Mat1IgnoresYoungs | MaterialLabel.CorrectedReadsYoungs |
