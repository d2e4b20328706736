// The node equivalencer (macros/proto_mesh_equivalencer.py). Nodes of the
// combined quad mesh that lie within a tolerance of one another are merged:
// for each close pair the lower node ID gives way to the higher one in
// every element that holds exactly one of the two, the routine stops when
// some element holds the pair twice (merging would collapse it), and nodes
// no element uses any more are dropped.
module Equivalence {
  import opened Common
  import opened PyDict

  /** Squared Euclidean distance. */
  function SqDist(p: Point, q: Point): real
  {
    (p.x - q.x) * (p.x - q.x) + (p.y - q.y) * (p.y - q.y) + (p.z - q.z) * (p.z - q.z)
  }

  /** The two points are at most `tol` apart (no pair is within a negative
      tolerance). */
  predicate Near(p: Point, q: Point, tol: real)
  {
    0.0 <= tol && SqDist(p, q) <= tol * tol
  }

  /** What `KDTree(coords).query_pairs(tol)` promises, once listed: every
      index pair i < j whose points are within `tol`, each exactly once,
      and nothing else. */
  ghost predicate QueryPairs(coords: seq<Point>, tol: real, pairs: seq<(int, int)>)
  {
    Distinct(pairs) &&
    (forall k :: 0 <= k < |pairs| ==>
       0 <= pairs[k].0 < pairs[k].1 < |coords| && Near(coords[pairs[k].0], coords[pairs[k].1], tol)) &&
    (forall i, j :: 0 <= i < j < |coords| && Near(coords[i], coords[j], tol) ==> (i, j) in pairs)
  }

  /** The node IDs in increasing order, as `sorted(nodes_dict.items())`
      visits them. */
  function SortedIds(nodes: Dict<Point>): seq<int>
  {
    SortedList(nodes.keys)
  }

  lemma SortedIdsFacts(nodes: Dict<Point>)
    requires nodes.Valid()
    ensures Ascending(SortedIds(nodes)) && |SortedIds(nodes)| == |nodes.keys|
    ensures forall x :: x in SortedIds(nodes) <==> x in nodes.m
  {
    SortedDistinct(nodes.keys);
  }

  /** `node_coords_list`: the coordinates in increasing ID order; index i
      of the tree is the i-th smallest node ID. */
  function Coords(nodes: Dict<Point>): (cs: seq<Point>)
    requires nodes.Valid()
    ensures |cs| == |nodes.keys| == |SortedIds(nodes)|
    ensures forall i :: 0 <= i < |cs| ==> SortedIds(nodes)[i] in nodes.m && cs[i] == nodes.m[SortedIds(nodes)[i]]
  {
    SortedIdsFacts(nodes);
    var ids := SortedIds(nodes);
    assert forall i :: 0 <= i < |ids| ==> ids[i] in nodes.m by {
      forall i | 0 <= i < |ids| ensures ids[i] in nodes.m {
        assert ids[i] in ids;
      }
    }
    seq(|ids|, i requires 0 <= i < |ids| => nodes.m[ids[i]])
  }

  /** One entry of `node_replacement_array`: the lower and the higher ID. */
  datatype Pair = Pair(lower: int, upper: int)

  /** The tree's index pairs turned back into node IDs. */
  function Translated(ids: seq<int>, pairs: seq<(int, int)>): (r: seq<Pair>)
    requires forall k :: 0 <= k < |pairs| ==> 0 <= pairs[k].0 < |ids| && 0 <= pairs[k].1 < |ids|
    ensures |r| == |pairs|
    ensures forall k :: 0 <= k < |pairs| ==> r[k] == Pair(ids[pairs[k].0], ids[pairs[k].1])
  {
    seq(|pairs|, k requires 0 <= k < |pairs| => Pair(ids[pairs[k].0], ids[pairs[k].1]))
  }

  /** Every entry is a pair of distinct existing nodes, lower ID first,
      within the tolerance; every such pair is listed, and only once. */
  ghost predicate ReplacementsOf(nodes: Dict<Point>, tol: real, reps: seq<Pair>)
  {
    Distinct(reps) &&
    (forall k :: 0 <= k < |reps| ==>
       reps[k].lower < reps[k].upper && reps[k].lower in nodes.m && reps[k].upper in nodes.m &&
       Near(nodes.m[reps[k].lower], nodes.m[reps[k].upper], tol)) &&
    (forall a, b :: a in nodes.m && b in nodes.m && a < b && Near(nodes.m[a], nodes.m[b], tol) ==> Pair(a, b) in reps)
  }

  lemma AscendingIndex(ids: seq<int>, i: int, j: int)
    requires Ascending(ids) && 0 <= i < |ids| && 0 <= j < |ids|
    ensures ids[i] < ids[j] <==> i < j
  {
  }

  lemma TranslatedSound(nodes: Dict<Point>, tol: real, pairs: seq<(int, int)>, k: int)
    requires nodes.Valid() && QueryPairs(Coords(nodes), tol, pairs) && 0 <= k < |pairs|
    ensures var r := Translated(SortedIds(nodes), pairs)[k];
            r.lower < r.upper && r.lower in nodes.m && r.upper in nodes.m && Near(nodes.m[r.lower], nodes.m[r.upper], tol)
  {
    SortedIdsFacts(nodes);
    var ids := SortedIds(nodes);
    AscendingIndex(ids, pairs[k].0, pairs[k].1);
  }

  lemma TranslatedComplete(nodes: Dict<Point>, tol: real, pairs: seq<(int, int)>, a: int, b: int)
    requires nodes.Valid() && QueryPairs(Coords(nodes), tol, pairs)
    requires a in nodes.m && b in nodes.m && a < b && Near(nodes.m[a], nodes.m[b], tol)
    ensures Pair(a, b) in Translated(SortedIds(nodes), pairs)
  {
    SortedIdsFacts(nodes);
    var ids := SortedIds(nodes);
    var cs := Coords(nodes);
    assert a in ids && b in ids;
    var i :| 0 <= i < |ids| && ids[i] == a;
    var j :| 0 <= j < |ids| && ids[j] == b;
    AscendingIndex(ids, i, j);
    assert Near(cs[i], cs[j], tol);
    assert (i, j) in pairs;
    var k :| 0 <= k < |pairs| && pairs[k] == (i, j);
    assert Translated(ids, pairs)[k] == Pair(a, b);
  }

  lemma TranslatedDistinct(nodes: Dict<Point>, tol: real, pairs: seq<(int, int)>)
    requires nodes.Valid() && QueryPairs(Coords(nodes), tol, pairs)
    ensures Distinct(Translated(SortedIds(nodes), pairs))
  {
    SortedIdsFacts(nodes);
    var ids := SortedIds(nodes);
    var r := Translated(ids, pairs);
    forall k1, k2 | 0 <= k1 < k2 < |r| ensures r[k1] != r[k2] {
      AscendingIndex(ids, pairs[k1].0, pairs[k2].0);
      AscendingIndex(ids, pairs[k2].0, pairs[k1].0);
      AscendingIndex(ids, pairs[k1].1, pairs[k2].1);
      AscendingIndex(ids, pairs[k2].1, pairs[k1].1);
    }
  }

  /** Translating the tree's pairs gives exactly the close node pairs,
      lower ID first, each once. */
  lemma TranslatedMeaning(nodes: Dict<Point>, tol: real, pairs: seq<(int, int)>)
    requires nodes.Valid() && QueryPairs(Coords(nodes), tol, pairs)
    ensures ReplacementsOf(nodes, tol, Translated(SortedIds(nodes), pairs))
  {
    TranslatedDistinct(nodes, tol, pairs);
    forall k | 0 <= k < |pairs|
      ensures var r := Translated(SortedIds(nodes), pairs)[k];
              r.lower < r.upper && r.lower in nodes.m && r.upper in nodes.m && Near(nodes.m[r.lower], nodes.m[r.upper], tol)
    {
      TranslatedSound(nodes, tol, pairs, k);
    }
    forall a, b | a in nodes.m && b in nodes.m && a < b && Near(nodes.m[a], nodes.m[b], tol)
      ensures Pair(a, b) in Translated(SortedIds(nodes), pairs)
    {
      TranslatedComplete(nodes, tol, pairs, a, b);
    }
  }

  /** `get_node_equivalence_replacement_array`: the nodes are listed by
      increasing ID, the tree over their coordinates is asked for the
      index pairs within `tol` (here given as `pairs`), and each index
      pair is mapped back to its two node IDs. */
  method ReplacementArray(nodes: Dict<Point>, tol: real, pairs: seq<(int, int)>) returns (reps: seq<Pair>)
    requires nodes.Valid() && QueryPairs(Coords(nodes), tol, pairs)
    ensures reps == Translated(SortedIds(nodes), pairs)
    ensures ReplacementsOf(nodes, tol, reps)
  {
    var ids := SortedList(nodes.keys);
    var index2NID, coords := IndexTable(nodes);
    // the tree is built over `coords`; `pairs` is what it reports
    reps := TranslatePairs(ids, index2NID, pairs);
    TranslatedMeaning(nodes, tol, pairs);
  }

  /** The loop over `sorted(nodes_dict.items())`: the map from tree
      index to node ID and the coordinates the tree is built over. */
  method IndexTable(nodes: Dict<Point>) returns (index2NID: map<int, int>, coords: seq<Point>)
    requires nodes.Valid()
    ensures forall i :: 0 <= i < |SortedIds(nodes)| ==> i in index2NID && index2NID[i] == SortedIds(nodes)[i]
    ensures coords == Coords(nodes)
  {
    var ids := SortedList(nodes.keys);
    SortedIdsFacts(nodes);
    index2NID := map[];
    coords := [];
    var counter := 0;
    while counter < |ids|
      invariant counter <= |ids|
      invariant forall i :: 0 <= i < counter ==> i in index2NID && index2NID[i] == ids[i]
      invariant coords == Coords(nodes)[..counter]
    {
      assert ids[counter] in ids;
      index2NID := index2NID[counter := ids[counter]];
      coords := coords + [nodes.m[ids[counter]]];
      counter := counter + 1;
    }
  }

  /** The loop that builds `node_replacement_array` from the tree's
      pairs. */
  method TranslatePairs(ids: seq<int>, index2NID: map<int, int>, pairs: seq<(int, int)>) returns (reps: seq<Pair>)
    requires forall i :: 0 <= i < |ids| ==> i in index2NID && index2NID[i] == ids[i]
    requires forall k :: 0 <= k < |pairs| ==> 0 <= pairs[k].0 < |ids| && 0 <= pairs[k].1 < |ids|
    ensures reps == Translated(ids, pairs)
  {
    reps := [];
    for k := 0 to |pairs|
      invariant reps == Translated(ids, pairs[..k])
    {
      assert pairs[..k + 1][..k] == pairs[..k];
      reps := reps + [Pair(index2NID[pairs[k].0], index2NID[pairs[k].1])];
    }
    assert pairs[..|pairs|] == pairs;
  }

  /** `N_occurances`: how many entries of `ns` are `a` or `b`. */
  function Hits(ns: seq<int>, a: int, b: int): (h: nat)
    ensures h <= |ns|
    decreases |ns|
  {
    if ns == [] then 0
    else Hits(ns[..|ns| - 1], a, b) + (if ns[|ns| - 1] == a || ns[|ns| - 1] == b then 1 else 0)
  }

  lemma {:induction false} HitsCount(ns: seq<int>, a: int, b: int)
    requires a != b
    ensures Hits(ns, a, b) == Count(ns, a) + Count(ns, b)
    decreases |ns|
  {
    if ns != [] {
      var init := ns[..|ns| - 1];
      var last := ns[|ns| - 1];
      HitsCount(init, a, b);
      assert ns == init + [last];
      CountAppend(init, [last], a);
      CountAppend(init, [last], b);
    }
  }

  /** The counting loop of lines 397-401. */
  method CountHits(ns: seq<int>, a: int, b: int) returns (h: nat)
    ensures h == Hits(ns, a, b)
  {
    h := 0;
    for i := 0 to |ns|
      invariant h == Hits(ns[..i], a, b)
    {
      assert ns[..i + 1][..i] == ns[..i];
      if ns[i] == a {
        h := h + 1;
      } else if ns[i] == b {
        h := h + 1;
      }
    }
    assert ns[..|ns|] == ns;
  }

  /** The nodes of the j-th element in key order. */
  function ElementAt(e2n: Dict<seq<int>>, j: nat): seq<int>
    requires e2n.Valid() && j < |e2n.keys|
  {
    var k := e2n.keys[j];
    assert k in e2n.keys;
    e2n.m[k]
  }

  /** What the pass for pair (a, b) leaves of an element it does not stop
      on: with one hit, `a` becomes `b`; otherwise the element is kept. */
  function Updated(ns: seq<int>, a: int, b: int): seq<int>
  {
    if Hits(ns, a, b) == 1 then Replace(ns, a, b) else ns
  }

  /** The body of the element loop for element `e`: stop on two hits,
      rewrite on one, keep the element otherwise. */
  function ElementStep(d: Dict<seq<int>>, e: int, a: int, b: int): (r: Result<Dict<seq<int>>, int>)
    requires d.Valid() && e in d.m
    ensures r.Ok? <==> Hits(d.m[e], a, b) != 2
    ensures r.Err? ==> r.error == e
    ensures r.Ok? ==> r.value.Valid() && r.value.keys == d.keys && r.value.m == d.m[e := Updated(d.m[e], a, b)]
  {
    var ns := d.m[e];
    if Hits(ns, a, b) == 2 then Err(e)
    else if Hits(ns, a, b) == 1 then Ok(d.Put(e, Replace(ns, a, b)))
    else
      assert d.m[e := ns] == d.m;
      Ok(d)
  }

  /** The pass of one pair over the first `i` elements, in key order: the
      first element holding the pair twice stops it with that element's ID,
      an element with one hit is rewritten, the rest are left alone. */
  function PairPass(e2n: Dict<seq<int>>, a: int, b: int, i: nat): (r: Result<Dict<seq<int>>, int>)
    requires e2n.Valid() && i <= |e2n.keys|
    ensures r.Ok? ==> r.value.keys == e2n.keys && r.value.m.Keys == e2n.m.Keys && r.value.Valid()
    decreases i
  {
    if i == 0 then Ok(e2n)
    else
      var before := PairPass(e2n, a, b, i - 1);
      if before.Err? then before
      else
        var e := e2n.keys[i - 1];
        assert e in e2n.keys;
        ElementStep(before.value, e, a, b)
  }

  /** After the pass has visited `i` elements without stopping, each
      visited element is `Updated` and the others are untouched. */
  lemma {:induction false} PairPassValues(e2n: Dict<seq<int>>, a: int, b: int, i: nat)
    requires e2n.Valid() && i <= |e2n.keys| && PairPass(e2n, a, b, i).Ok?
    ensures forall e :: e in e2n.m ==>
              PairPass(e2n, a, b, i).value.m[e] == if e in e2n.keys[..i] then Updated(e2n.m[e], a, b) else e2n.m[e]
    decreases i
  {
    if i > 0 {
      PairPassValues(e2n, a, b, i - 1);
      var before := PairPass(e2n, a, b, i - 1).value;
      var last := e2n.keys[i - 1];
      assert e2n.keys[..i] == e2n.keys[..i - 1] + [last];
      assert last !in e2n.keys[..i - 1] by {
        forall j | 0 <= j < i - 1 ensures e2n.keys[j] != last {
        }
      }
      assert before.m[last] == e2n.m[last];
      forall e | e in e2n.m
        ensures PairPass(e2n, a, b, i).value.m[e] == if e in e2n.keys[..i] then Updated(e2n.m[e], a, b) else e2n.m[e]
      {
        if e != last {
          assert e in e2n.keys[..i] <==> e in e2n.keys[..i - 1];
        }
      }
    }
  }

  /** None of the first `i` elements holds the pair twice. */
  predicate NoCollapse(e2n: Dict<seq<int>>, a: int, b: int, i: nat)
    requires e2n.Valid() && i <= |e2n.keys|
  {
    forall j :: 0 <= j < i ==> Hits(ElementAt(e2n, j), a, b) != 2
  }

  /** The pass gets through the first `i` elements exactly when none of
      them holds the pair twice. */
  lemma {:induction false} PairPassOk(e2n: Dict<seq<int>>, a: int, b: int, i: nat)
    requires e2n.Valid() && i <= |e2n.keys|
    ensures PairPass(e2n, a, b, i).Ok? <==> NoCollapse(e2n, a, b, i)
    decreases i
  {
    if i > 0 {
      PairPassOk(e2n, a, b, i - 1);
      var before := PairPass(e2n, a, b, i - 1);
      assert NoCollapse(e2n, a, b, i) <==> NoCollapse(e2n, a, b, i - 1) && Hits(ElementAt(e2n, i - 1), a, b) != 2;
      if before.Ok? {
        PairPassOkStep(e2n, a, b, i - 1);
      }
    }
  }

  lemma PairPassOkStep(e2n: Dict<seq<int>>, a: int, b: int, i: nat)
    requires e2n.Valid() && i < |e2n.keys| && PairPass(e2n, a, b, i).Ok?
    ensures PairPass(e2n, a, b, i + 1).Ok? <==> Hits(ElementAt(e2n, i), a, b) != 2
  {
    PairPassValues(e2n, a, b, i);
    var last := e2n.keys[i];
    assert last !in e2n.keys[..i] by {
      forall j | 0 <= j < i ensures e2n.keys[j] != last {
      }
    }
    assert PairPass(e2n, a, b, i).value.m[last] == ElementAt(e2n, i);
  }

  /** A pass that stops names the first element that holds the pair
      twice. */
  lemma {:induction false} PairPassErr(e2n: Dict<seq<int>>, a: int, b: int, i: nat)
    requires e2n.Valid() && i <= |e2n.keys| && PairPass(e2n, a, b, i).Err?
    ensures exists j :: 0 <= j < i && e2n.keys[j] == PairPass(e2n, a, b, i).error &&
                        Hits(ElementAt(e2n, j), a, b) == 2 && PairPass(e2n, a, b, j).Ok?
    decreases i
  {
    if PairPass(e2n, a, b, i - 1).Err? {
      PairPassErr(e2n, a, b, i - 1);
    } else {
      PairPassOkStep(e2n, a, b, i - 1);
    }
  }

  /** Lines 392-412 for one pair. */
  method ApplyPair(e2n: Dict<seq<int>>, a: int, b: int) returns (r: Result<Dict<seq<int>>, int>)
    requires e2n.Valid()
    ensures r == PairPass(e2n, a, b, |e2n.keys|)
  {
    var d := e2n;
    for i := 0 to |e2n.keys|
      invariant PairPass(e2n, a, b, i) == Ok(d)
    {
      var e := e2n.keys[i];
      assert e in e2n.keys;
      var step := VisitElement(d, e, a, b);
      if step.Err? {
        PairPassStops(e2n, a, b, i + 1, |e2n.keys|);
        return step;
      }
      d := step.value;
    }
    return Ok(d);
  }

  /** Lines 393-412 for one element: count the hits, stop on two,
      rewrite on one. */
  method VisitElement(d: Dict<seq<int>>, e: int, a: int, b: int) returns (r: Result<Dict<seq<int>>, int>)
    requires d.Valid() && e in d.m
    ensures r == ElementStep(d, e, a, b)
  {
    var ns := d.m[e];
    var h := CountHits(ns, a, b);
    if h == 2 {
      return Err(e);
    } else if h == 1 {
      var rewritten := ReplaceNode(ns, a, b);
      return Ok(d.Put(e, rewritten));
    }
    return Ok(d);
  }

  lemma {:induction false} PairPassStops(e2n: Dict<seq<int>>, a: int, b: int, i: nat, j: nat)
    requires e2n.Valid() && i <= j <= |e2n.keys| && PairPass(e2n, a, b, i).Err?
    ensures PairPass(e2n, a, b, j) == PairPass(e2n, a, b, i)
    decreases j
  {
    if j > i {
      PairPassStops(e2n, a, b, i, j - 1);
    }
  }

  /** The loop over the replacement array: each pair's pass starts from
      the elements the previous passes left. */
  function AllPairs(e2n: Dict<seq<int>>, reps: seq<Pair>, k: nat): (r: Result<Dict<seq<int>>, int>)
    requires e2n.Valid() && k <= |reps|
    ensures r.Ok? ==> r.value.Valid() && r.value.keys == e2n.keys && r.value.m.Keys == e2n.m.Keys
    decreases k
  {
    if k == 0 then Ok(e2n)
    else
      var before := AllPairs(e2n, reps, k - 1);
      if before.Err? then before
      else PairPass(before.value, reps[k - 1].lower, reps[k - 1].upper, |before.value.keys|)
  }

  lemma {:induction false} AllPairsStops(e2n: Dict<seq<int>>, reps: seq<Pair>, i: nat, j: nat)
    requires e2n.Valid() && i <= j <= |reps| && AllPairs(e2n, reps, i).Err?
    ensures AllPairs(e2n, reps, j) == AllPairs(e2n, reps, i)
    decreases j
  {
    if j > i {
      AllPairsStops(e2n, reps, i, j - 1);
    }
  }

  /** Lines 388-412. */
  method ApplyAllPairs(e2n: Dict<seq<int>>, reps: seq<Pair>) returns (r: Result<Dict<seq<int>>, int>)
    requires e2n.Valid()
    ensures r == AllPairs(e2n, reps, |reps|)
  {
    var d := e2n;
    for k := 0 to |reps|
      invariant AllPairs(e2n, reps, k) == Ok(d)
    {
      var step := ApplyPair(d, reps[k].lower, reps[k].upper);
      if step.Err? {
        AllPairsStops(e2n, reps, k + 1, |reps|);
        return step;
      }
      d := step.value;
    }
    return Ok(d);
  }

  /** `flatten_unique`: every ID that occurs in one of the lists. The
      source turns a Python set into a list, so the order is unspecified;
      only membership is ever asked of it. */
  method FlattenUnique(ids: seq<seq<int>>) returns (r: set<int>)
    ensures forall x :: x in r <==> exists i :: 0 <= i < |ids| && x in ids[i]
  {
    var flat: seq<int> := [];
    for i := 0 to |ids|
      invariant forall x :: x in flat <==> exists j :: 0 <= j < i && x in ids[j]
    {
      flat := flat + ids[i];
    }
    r := set x | x in flat;
  }

  /** The IDs the elements of `e2n` use. */
  ghost function Used(e2n: Dict<seq<int>>): set<int>
  {
    set e, n | e in e2n.m && n in e2n.m[e] :: n
  }

  /** The node keys of `keys` that are in `used`, in their order. */
  function Kept(keys: seq<int>, used: set<int>): (r: seq<int>)
    ensures forall x :: x in r <==> x in keys && x in used
    decreases |keys|
  {
    if keys == [] then []
    else Kept(keys[..|keys| - 1], used) + (if keys[|keys| - 1] in used then [keys[|keys| - 1]] else [])
  }

  /** The node map restricted to `used`, coordinates unchanged. */
  function Restricted(nodes: Dict<Point>, used: set<int>): (r: Dict<Point>)
    requires nodes.Valid()
    ensures r.Valid() && r.keys == Kept(nodes.keys, used)
    ensures forall n :: n in r.m <==> n in nodes.m && n in used
    ensures forall n :: n in r.m ==> r.m[n] == nodes.m[n]
  {
    KeptDistinct(nodes.keys, used);
    Dict(Kept(nodes.keys, used), map n | n in nodes.m && n in used :: nodes.m[n])
  }

  lemma {:induction false} KeptDistinct(keys: seq<int>, used: set<int>)
    requires Distinct(keys)
    ensures Distinct(Kept(keys, used))
    decreases |keys|
  {
    if keys != [] {
      var init := keys[..|keys| - 1];
      assert Distinct(init);
      KeptDistinct(init, used);
      assert keys[|keys| - 1] !in init;
    }
  }

  /** Lines 416-423: the nodes kept are the ones some element uses, in the
      order of the node map. */
  method Cleanup(nodes: Dict<Point>, e2n: Dict<seq<int>>) returns (r: Dict<Point>)
    requires nodes.Valid() && e2n.Valid()
    ensures r == Restricted(nodes, Used(e2n))
  {
    var used := FlattenUnique(Values(e2n));
    UsedValues(e2n, used);
    r := KeepUsed(nodes, used);
  }

  /** The loop of lines 420-423: `new_nodes` gets, in node-map order,
      every node whose ID is in `used`. */
  method KeepUsed(nodes: Dict<Point>, used: set<int>) returns (r: Dict<Point>)
    requires nodes.Valid()
    ensures r == Restricted(nodes, used)
  {
    r := Empty();
    for i := 0 to |nodes.keys|
      invariant r.Valid() && r.keys == Kept(nodes.keys[..i], used)
      invariant forall n :: n in r.m <==> n in nodes.keys[..i] && n in used
      invariant forall n :: n in r.m ==> n in nodes.m && r.m[n] == nodes.m[n]
    {
      var nid := nodes.keys[i];
      assert nodes.keys[..i + 1] == nodes.keys[..i] + [nid];
      assert nodes.keys[..i + 1][..i] == nodes.keys[..i];
      assert nid in nodes.m;
      if nid in used {
        assert nid !in nodes.keys[..i];
        r := r.Put(nid, nodes.m[nid]);
      }
    }
    assert nodes.keys[..|nodes.keys|] == nodes.keys;
    RestrictedUnique(nodes, used, r);
  }

  /** A dictionary with the kept keys, the kept entries and the same
      coordinates is the restriction. */
  lemma RestrictedUnique(nodes: Dict<Point>, used: set<int>, r: Dict<Point>)
    requires nodes.Valid() && r.keys == Kept(nodes.keys, used)
    requires forall n :: n in r.m <==> n in nodes.m && n in used
    requires forall n :: n in r.m ==> r.m[n] == nodes.m[n]
    ensures r == Restricted(nodes, used)
  {
    var want := Restricted(nodes, used);
    assert forall n :: n in r.m <==> n in want.m;
    assert forall n :: n in r.m ==> r.m[n] == want.m[n];
    assert r.m == want.m;
  }

  lemma UsedValues(e2n: Dict<seq<int>>, used: set<int>)
    requires e2n.Valid()
    requires forall x :: x in used <==> exists i :: 0 <= i < |Values(e2n)| && x in Values(e2n)[i]
    ensures used == Used(e2n)
  {
    forall x | x in used ensures x in Used(e2n) {
      var i :| 0 <= i < |Values(e2n)| && x in Values(e2n)[i];
      ValuesAt(e2n, i);
      var e := e2n.keys[i];
      assert e in e2n.m && x in e2n.m[e];
    }
    forall x | x in Used(e2n) ensures x in used {
      var e, n :| e in e2n.m && n in e2n.m[e] && x == n;
      assert e in e2n.keys;
      var i :| 0 <= i < |e2n.keys| && e2n.keys[i] == e;
      ValuesAt(e2n, i);
    }
  }

  /** How the replacement block of the routine ends. */
  datatype Outcome =
    | NoPairs                                              // nothing within the tolerance
    | Collapses(eid: int)                                  // merging would collapse element eid
    | Equivalenced(e2n: Dict<seq<int>>, nodes: Dict<Point>)

  /** The outcome for the combined mesh and the replacement array. */
  ghost function EquivalenceOf(e2n: Dict<seq<int>>, nodes: Dict<Point>, reps: seq<Pair>): Outcome
    requires e2n.Valid() && nodes.Valid()
  {
    if reps == [] then NoPairs
    else
      match AllPairs(e2n, reps, |reps|)
      case Err(e) => Collapses(e)
      case Ok(d) => Equivalenced(d, Restricted(nodes, Used(d)))
  }

  /** Lines 372-423, after the combined mesh is built: the replacement
      array, the early return when it is empty, the pair passes, and the
      node cleanup. */
  method Equivalence(e2n: Dict<seq<int>>, nodes: Dict<Point>, tol: real, pairs: seq<(int, int)>) returns (r: Outcome)
    requires e2n.Valid() && nodes.Valid() && QueryPairs(Coords(nodes), tol, pairs)
    ensures r == EquivalenceOf(e2n, nodes, Translated(SortedIds(nodes), pairs))
    ensures ReplacementsOf(nodes, tol, Translated(SortedIds(nodes), pairs))
  {
    var reps := ReplacementArray(nodes, tol, pairs);
    if |reps| == 0 {
      return NoPairs;
    }
    var merged := ApplyAllPairs(e2n, reps);
    if merged.Err? {
      return Collapses(merged.error);
    }
    var kept := Cleanup(nodes, merged.value);
    return Equivalenced(merged.value, kept);
  }

  /** With no pair within the tolerance the routine returns before
      touching anything; it goes on exactly when two distinct nodes are
      within the tolerance. */
  lemma NoPairsMeaning(nodes: Dict<Point>, tol: real, reps: seq<Pair>)
    requires ReplacementsOf(nodes, tol, reps)
    ensures reps == [] <==>
              forall a, b :: a in nodes.m && b in nodes.m && a < b ==> !Near(nodes.m[a], nodes.m[b], tol)
  {
    if reps != [] {
      assert reps[0].lower < reps[0].upper;
    }
  }

  /** Number of occurrences of an ID in a list of distinct IDs. */
  lemma {:induction false} DistinctCount(s: seq<int>, x: int)
    requires Distinct(s)
    ensures Count(s, x) <= 1
    decreases |s|
  {
    if s != [] {
      assert Distinct(s[1..]);
      DistinctCount(s[1..], x);
      if s[0] == x {
        assert x !in s[1..];
      }
    }
  }

  /** The guard does its job: an element of distinct nodes that the pass
      for (a, b) does not stop on stays an element of distinct nodes, and
      it no longer uses `a`. */
  lemma UpdatedDistinct(ns: seq<int>, a: int, b: int)
    requires a != b && Distinct(ns) && Hits(ns, a, b) != 2
    ensures Distinct(Updated(ns, a, b)) && a !in Updated(ns, a, b)
  {
    HitsCount(ns, a, b);
    DistinctCount(ns, a);
    DistinctCount(ns, b);
    if Hits(ns, a, b) == 1 && a in ns {
      assert b !in ns;
      var r := Replace(ns, a, b);
      forall i, j | 0 <= i < j < |r| ensures r[i] != r[j] {
        assert ns[i] != ns[j];
      }
    }
  }

  /** Every node of an updated element was in the element or is `b`. */
  lemma UpdatedMembers(ns: seq<int>, a: int, b: int, x: int)
    requires x in Updated(ns, a, b)
    ensures x in ns || x == b
  {
    var r := Updated(ns, a, b);
    var i :| 0 <= i < |r| && r[i] == x;
    assert ns[i] == x || x == b;
  }

  /** Every node an element uses is in the node map. */
  ghost predicate Closed(e2n: Dict<seq<int>>, nodes: Dict<Point>)
  {
    forall e, n :: e in e2n.m && n in e2n.m[e] ==> n in nodes.m
  }

  /** No element lists a node twice. */
  ghost predicate DistinctElements(e2n: Dict<seq<int>>)
  {
    forall e :: e in e2n.m ==> Distinct(e2n.m[e])
  }

  /** A pass that gets through every element leaves elements of distinct
      nodes distinct, removes `a` from all of them, and introduces no node
      but `b`. */
  lemma PairPassEffect(e2n: Dict<seq<int>>, nodes: Dict<Point>, a: int, b: int)
    requires e2n.Valid() && a != b && b in nodes.m && PairPass(e2n, a, b, |e2n.keys|).Ok?
    ensures var d := PairPass(e2n, a, b, |e2n.keys|).value;
            (DistinctElements(e2n) ==> DistinctElements(d) && forall e :: e in d.m ==> a !in d.m[e]) &&
            (Closed(e2n, nodes) ==> Closed(d, nodes))
  {
    var d := PairPass(e2n, a, b, |e2n.keys|).value;
    PairPassValues(e2n, a, b, |e2n.keys|);
    PairPassOk(e2n, a, b, |e2n.keys|);
    assert e2n.keys[..|e2n.keys|] == e2n.keys;
    forall e | e in d.m ensures d.m[e] == Updated(e2n.m[e], a, b) && Hits(e2n.m[e], a, b) != 2 {
      assert e in e2n.keys;
      var j :| 0 <= j < |e2n.keys| && e2n.keys[j] == e;
      assert ElementAt(e2n, j) == e2n.m[e];
    }
    if DistinctElements(e2n) {
      forall e | e in d.m ensures Distinct(d.m[e]) && a !in d.m[e] {
        UpdatedDistinct(e2n.m[e], a, b);
      }
    }
    if Closed(e2n, nodes) {
      forall e, n | e in d.m && n in d.m[e] ensures n in nodes.m {
        UpdatedMembers(e2n.m[e], a, b, n);
      }
    }
  }

  /** Every pair's higher ID is a node. */
  ghost predicate UppersAreNodes(reps: seq<Pair>, nodes: Dict<Point>)
  {
    forall k :: 0 <= k < |reps| ==> reps[k].upper in nodes.m
  }

  /** Passes that all go through keep elements closed over the node map
      and keep distinct elements distinct; the element IDs never change. */
  lemma {:induction false} AllPairsEffect(e2n: Dict<seq<int>>, nodes: Dict<Point>, reps: seq<Pair>, k: nat)
    requires e2n.Valid() && k <= |reps| && UppersAreNodes(reps, nodes) && AllPairs(e2n, reps, k).Ok?
    requires forall q :: 0 <= q < |reps| ==> reps[q].lower < reps[q].upper
    ensures var d := AllPairs(e2n, reps, k).value;
            d.keys == e2n.keys &&
            (DistinctElements(e2n) ==> DistinctElements(d)) &&
            (Closed(e2n, nodes) ==> Closed(d, nodes))
    decreases k
  {
    if k > 0 {
      AllPairsEffect(e2n, nodes, reps, k - 1);
      var before := AllPairs(e2n, reps, k - 1).value;
      PairPassEffect(before, nodes, reps[k - 1].lower, reps[k - 1].upper);
    }
  }

  /** A stop names an element that, after the earlier pairs went through,
      held the lower and the higher ID of some pair twice between them. */
  lemma {:induction false} CollapseMeaning(e2n: Dict<seq<int>>, reps: seq<Pair>, k: nat)
    requires e2n.Valid() && k <= |reps| && AllPairs(e2n, reps, k).Err?
    ensures exists q :: 0 <= q < k && AllPairs(e2n, reps, q).Ok? &&
              var d := AllPairs(e2n, reps, q).value;
              AllPairs(e2n, reps, k).error in d.m &&
              Hits(d.m[AllPairs(e2n, reps, k).error], reps[q].lower, reps[q].upper) == 2
    decreases k
  {
    if AllPairs(e2n, reps, k - 1).Err? {
      CollapseMeaning(e2n, reps, k - 1);
    } else {
      var d := AllPairs(e2n, reps, k - 1).value;
      PairPassErr(d, reps[k - 1].lower, reps[k - 1].upper, |d.keys|);
    }
  }

  /** When the routine gets through, the element IDs are those of the
      combined mesh, every node an element uses is kept with its
      coordinates, every kept node is used, and elements of distinct nodes
      stay so. */
  lemma EquivalencedMeaning(e2n: Dict<seq<int>>, nodes: Dict<Point>, tol: real, reps: seq<Pair>)
    requires e2n.Valid() && nodes.Valid() && ReplacementsOf(nodes, tol, reps) && Closed(e2n, nodes)
    requires EquivalenceOf(e2n, nodes, reps).Equivalenced?
    ensures var r := EquivalenceOf(e2n, nodes, reps);
            r.e2n.keys == e2n.keys &&
            Closed(r.e2n, r.nodes) &&
            (forall n :: n in r.nodes.m ==> n in Used(r.e2n) && n in nodes.m && r.nodes.m[n] == nodes.m[n]) &&
            (DistinctElements(e2n) ==> DistinctElements(r.e2n))
  {
    AllPairsEffect(e2n, nodes, reps, |reps|);
    var r := EquivalenceOf(e2n, nodes, reps);
    forall e, n | e in r.e2n.m && n in r.e2n.m[e] ensures n in r.nodes.m {
      assert n in Used(r.e2n);
    }
  }
}
