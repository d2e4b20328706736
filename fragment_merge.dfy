/** The merge in `main` of macros/export_mesh_as_bdf.py: the data of
    several FemMesh fragments (nodes, E2N, E2T, E2P, P2M each) is folded
    into one set of dictionaries.  The first fragment is copied; every
    later one has its colliding element and node IDs moved to
    `max + 1`, its elements repointed to the renamed nodes, and its
    elements given one new property ID with one new material ID. */
module FragmentMerge {
  import opened Common
  import opened PyDict
  import opened FemMesh
  import opened NodeToElement

  datatype MergeError =
    | KeyError            // `N2E[NID_old]` for a colliding node no element names
    | SeveralProperties   // the fragment's E2P holds more than one property ID
    | SeveralMaterials    // the fragment's P2M holds more than one material ID
    | EmptyMax            // `max()` of the values of an empty E2P or P2M

  /* ---------------------------------------------------------------------
     Fresh IDs
     --------------------------------------------------------------------- */

  /** The ID an incoming key is stored under when `taken` are the keys
      already there: its own when it is free, `max(taken) + 1` otherwise. */
  function FreshId(taken: seq<int>, x: int): int
  {
    if x in taken then Max(taken) + 1 else x
  }

  /** The IDs a run of incoming keys is stored under, one after the other,
      each new ID joining the taken ones. */
  function NewIds(taken: seq<int>, olds: seq<int>): (r: seq<int>)
    ensures |r| == |olds|
    decreases |olds|
  {
    if olds == [] then []
    else
      var p := NewIds(taken, olds[..|olds| - 1]);
      p + [FreshId(taken + p, olds[|olds| - 1])]
  }

  /** A fresh ID is never one of the taken keys, and it is the incoming
      key itself exactly when that key is free. */
  lemma FreshIdIsFree(taken: seq<int>, x: int)
    ensures FreshId(taken, x) !in taken
    ensures FreshId(taken, x) == x <==> x !in taken
  {
    if x in taken {
      var m := Max(taken);
      forall i | 0 <= i < |taken| ensures taken[i] != m + 1 {
      }
    }
  }

  lemma {:induction false} NewIdsPrefix(taken: seq<int>, olds: seq<int>, j: nat)
    requires j <= |olds|
    ensures NewIds(taken, olds[..j]) == NewIds(taken, olds)[..j]
    decreases |olds|
  {
    if j < |olds| {
      var front := olds[..|olds| - 1];
      NewIdsPrefix(taken, front, j);
      assert front[..j] == olds[..j];
    }
    else {
      assert olds[..j] == olds;
    }
  }

  /** The j-th incoming key gets the fresh ID for the keys taken by then. */
  lemma NewIdsAt(taken: seq<int>, olds: seq<int>, j: nat)
    requires j < |olds|
    ensures NewIds(taken, olds)[j] == FreshId(taken + NewIds(taken, olds)[..j], olds[j])
  {
    NewIdsPrefix(taken, olds, j + 1);
    NewIdsPrefix(taken, olds, j);
    assert olds[..j + 1][..j] == olds[..j];
  }

  /** However the incoming keys collide, no new ID lands on a key that is
      already taken, so nothing stored is overwritten. */
  lemma {:induction false} NewIdsDistinct(taken: seq<int>, olds: seq<int>)
    requires Distinct(taken)
    ensures Distinct(taken + NewIds(taken, olds))
    decreases |olds|
  {
    if olds != [] {
      var front := olds[..|olds| - 1];
      var p := NewIds(taken, front);
      NewIdsDistinct(taken, front);
      var x := FreshId(taken + p, olds[|olds| - 1]);
      FreshIdIsFree(taken + p, olds[|olds| - 1]);
      assert taken + NewIds(taken, olds) == (taken + p) + [x];
    }
  }

  /* ---------------------------------------------------------------------
     Element IDs (lines 155-169)
     --------------------------------------------------------------------- */

  /** `d` after `d[news[i]] = src[olds[i]]` for each i in order (the
      callers only pass keys of `src`; any other is skipped). */
  function Transferred<V>(d: Dict<V>, src: map<int, V>, olds: seq<int>, news: seq<int>): Dict<V>
    requires |olds| == |news|
    decreases |olds|
  {
    if olds == [] then d
    else
      var n := |olds| - 1;
      var before := Transferred(d, src, olds[..n], news[..n]);
      if olds[n] in src then before.Put(news[n], src[olds[n]]) else before
  }

  /** `EID_lookup_table`: `olds[i]` maps to `news[i]`. */
  function Paired(olds: seq<int>, news: seq<int>): Dict<int>
    requires |olds| == |news|
    decreases |olds|
  {
    if olds == [] then Empty()
    else
      var n := |olds| - 1;
      Paired(olds[..n], news[..n]).Put(olds[n], news[n])
  }

  /** With fresh target keys, the transfer appends them in order. */
  lemma {:induction false} TransferredKeys<V>(d: Dict<V>, src: map<int, V>, olds: seq<int>, news: seq<int>)
    requires |olds| == |news| && forall i :: 0 <= i < |olds| ==> olds[i] in src
    requires d.Valid() && Distinct(d.keys + news)
    ensures Transferred(d, src, olds, news).Valid()
    ensures Transferred(d, src, olds, news).keys == d.keys + news
    decreases |olds|
  {
    if olds != [] {
      var n := |olds| - 1;
      assert d.keys + news[..n] == (d.keys + news)[..|d.keys| + n];
      TransferredKeys(d, src, olds[..n], news[..n]);
      var before := Transferred(d, src, olds[..n], news[..n]);
      assert news[n] == (d.keys + news)[|d.keys| + n];
      assert news[n] !in before.keys;
      assert before.keys + [news[n]] == d.keys + news;
    }
  }

  /** With fresh target keys, every stored entry is kept and each incoming
      value is stored under its new key. */
  lemma {:induction false} TransferredEntries<V>(d: Dict<V>, src: map<int, V>, olds: seq<int>, news: seq<int>)
    requires |olds| == |news| && forall i :: 0 <= i < |olds| ==> olds[i] in src
    requires d.Valid() && Distinct(d.keys + news)
    ensures forall k :: k in d.m ==> k in Transferred(d, src, olds, news).m && Transferred(d, src, olds, news).m[k] == d.m[k]
    ensures forall i :: 0 <= i < |olds| ==>
              news[i] in Transferred(d, src, olds, news).m && Transferred(d, src, olds, news).m[news[i]] == src[olds[i]]
    decreases |olds|
  {
    if olds != [] {
      var n := |olds| - 1;
      assert d.keys + news[..n] == (d.keys + news)[..|d.keys| + n];
      TransferredEntries(d, src, olds[..n], news[..n]);
      var before := Transferred(d, src, olds[..n], news[..n]);
      var r := Transferred(d, src, olds, news);
      assert r == before.Put(news[n], src[olds[n]]);
      forall k | k in d.m ensures k != news[n] {
        assert k in d.keys;
        var idx :| 0 <= idx < |d.keys| && d.keys[idx] == k;
        assert (d.keys + news)[idx] == k;
        assert news[n] == (d.keys + news)[|d.keys| + n];
      }
      forall i | 0 <= i < n ensures news[i] != news[n] {
        assert news[i] == (d.keys + news)[|d.keys| + i];
        assert news[n] == (d.keys + news)[|d.keys| + n];
      }
    }
  }

  /** Distinct old keys pair up one to one with their new IDs. */
  lemma {:induction false} PairedMeaning(olds: seq<int>, news: seq<int>)
    requires |olds| == |news| && Distinct(olds)
    ensures Paired(olds, news).Valid() && Paired(olds, news).keys == olds
    ensures forall i :: 0 <= i < |olds| ==> olds[i] in Paired(olds, news).m && Paired(olds, news).m[olds[i]] == news[i]
    decreases |olds|
  {
    if olds != [] {
      var n := |olds| - 1;
      PairedMeaning(olds[..n], news[..n]);
      assert olds[..n] + [olds[n]] == olds;
    }
  }

  /** A key list with the same keys as a distinct one stays distinct in
      front of the same fresh IDs. */
  lemma DistinctSameKeys(a: seq<int>, b: seq<int>, news: seq<int>)
    requires Distinct(a + news) && Distinct(b) && forall x :: x in b <==> x in a
    ensures Distinct(b + news)
  {
    forall i, j | 0 <= i < j < |b + news| ensures (b + news)[i] != (b + news)[j] {
      if j >= |b| {
        assert (b + news)[j] == (a + news)[|a| + j - |b|];
        if i >= |b| {
          assert (b + news)[i] == (a + news)[|a| + i - |b|];
        } else {
          assert b[i] in b;
          var k :| 0 <= k < |a| && a[k] == b[i];
          assert (a + news)[k] == b[i];
        }
      }
    }
  }

  /** The element dictionaries have the same keys; all five are valid. */
  ghost predicate Aligned(d: MeshData)
  {
    d.nodes.Valid() && d.e2n.Valid() && d.e2t.Valid() && d.e2p.Valid() && d.p2m.Valid() &&
    d.e2t.m.Keys == d.e2n.m.Keys && d.e2p.m.Keys == d.e2n.m.Keys
  }

  lemma AlignedLookups(d: MeshData)
    requires Aligned(d)
    ensures forall i :: 0 <= i < |d.e2n.keys| ==> d.e2n.keys[i] in d.e2n.m && d.e2n.keys[i] in d.e2t.m && d.e2n.keys[i] in d.e2p.m
  {
    assert d.e2n.Valid();
    forall i | 0 <= i < |d.e2n.keys|
      ensures d.e2n.keys[i] in d.e2n.m && d.e2n.keys[i] in d.e2t.m && d.e2n.keys[i] in d.e2p.m
    {
      var k := d.e2n.keys[i];
      assert k in d.e2n.keys;
      assert k in d.e2n.m.Keys;
    }
  }

  lemma TransferredSnoc<V>(d: Dict<V>, src: map<int, V>, olds: seq<int>, news: seq<int>, j: nat)
    requires |olds| == |news| && j < |olds| && olds[j] in src
    ensures Transferred(d, src, olds[..j + 1], news[..j + 1]) == Transferred(d, src, olds[..j], news[..j]).Put(news[j], src[olds[j]])
  {
    assert olds[..j + 1][..j] == olds[..j];
    assert news[..j + 1][..j] == news[..j];
  }

  lemma PairedSnoc(olds: seq<int>, news: seq<int>, j: nat)
    requires |olds| == |news| && j < |olds|
    ensures Paired(olds[..j + 1], news[..j + 1]) == Paired(olds[..j], news[..j]).Put(olds[j], news[j])
  {
    assert olds[..j + 1][..j] == olds[..j];
    assert news[..j + 1][..j] == news[..j];
  }

  /** `max(d.keys()) + 1` when x is a key of d, x otherwise. */
  method FreshKey<V>(d: Dict<V>, x: int) returns (y: int)
    requires d.Valid()
    ensures y == FreshId(d.keys, x)
  {
    if x in d.m {
      y := d.MaxKey() + 1;
    } else {
      y := x;
    }
  }

  /** The accumulator after the loop over the fragment's elements, with
      `EID_lookup_table`. */
  function ElementsMerged(acc: MeshData, frag: MeshData): (MeshData, Dict<int>)
    requires Aligned(frag)
  {
    var olds := frag.e2n.keys;
    var news := NewIds(acc.e2n.keys, olds);
    (MeshData(acc.nodes, Transferred(acc.e2n, frag.e2n.m, olds, news), Transferred(acc.e2t, frag.e2t.m, olds, news),
              Transferred(acc.e2p, frag.e2p.m, olds, news), acc.p2m),
     Paired(olds, news))
  }

  /** The element loop: an incoming EID already in E2N is stored under
      `max(E2N) + 1`, any other under itself, with its E2N, E2T and E2P
      entries; the lookup table records where each went. */
  method MergeElements(acc: MeshData, frag: MeshData) returns (r: MeshData, lookup: Dict<int>)
    requires Aligned(acc) && Aligned(frag)
    ensures (r, lookup) == ElementsMerged(acc, frag)
  {
    ghost var olds := frag.e2n.keys;
    ghost var news := NewIds(acc.e2n.keys, olds);
    AlignedLookups(frag);
    NewIdsDistinct(acc.e2n.keys, olds);
    var e2n, e2t, e2p := acc.e2n, acc.e2t, acc.e2p;
    lookup := Empty();
    for j := 0 to |frag.e2n.keys|
      invariant e2n == Transferred(acc.e2n, frag.e2n.m, olds[..j], news[..j])
      invariant e2t == Transferred(acc.e2t, frag.e2t.m, olds[..j], news[..j])
      invariant e2p == Transferred(acc.e2p, frag.e2p.m, olds[..j], news[..j])
      invariant lookup == Paired(olds[..j], news[..j])
    {
      var element := frag.e2n.keys[j];
      assert (acc.e2n.keys + news)[..|acc.e2n.keys| + j] == acc.e2n.keys + news[..j];
      TransferredKeys(acc.e2n, frag.e2n.m, olds[..j], news[..j]);
      var eidNew := FreshKey(e2n, element);
      NewIdsAt(acc.e2n.keys, olds, j);
      TransferredSnoc(acc.e2n, frag.e2n.m, olds, news, j);
      TransferredSnoc(acc.e2t, frag.e2t.m, olds, news, j);
      TransferredSnoc(acc.e2p, frag.e2p.m, olds, news, j);
      PairedSnoc(olds, news, j);
      lookup := lookup.Put(element, eidNew);
      e2n := e2n.Put(eidNew, frag.e2n.m[element]);
      e2t := e2t.Put(eidNew, frag.e2t.m[element]);
      e2p := e2p.Put(eidNew, frag.e2p.m[element]);
    }
    assert olds[..|olds|] == olds && news[..|news|] == news;
    r := MeshData(acc.nodes, e2n, e2t, e2p, acc.p2m);
  }

  /** Every accumulated element keeps its E2N, E2T and E2P entries. */
  ghost predicate ElementsKept(acc: MeshData, r: MeshData)
    requires Aligned(acc)
  {
    forall k :: k in acc.e2n.m ==>
      k in r.e2n.m && k in r.e2t.m && k in r.e2p.m &&
      r.e2n.m[k] == acc.e2n.m[k] && r.e2t.m[k] == acc.e2t.m[k] && r.e2p.m[k] == acc.e2p.m[k]
  }

  /** The i-th incoming element is found under `news[i]`, with its own
      entries, and the lookup table says so. */
  ghost predicate ElementsMoved(frag: MeshData, r: MeshData, lookup: Dict<int>, news: seq<int>)
    requires Aligned(frag) && |news| == |frag.e2n.keys|
  {
    forall i :: 0 <= i < |news| ==>
      var oldId := frag.e2n.keys[i];
      oldId in frag.e2n.m && oldId in frag.e2t.m && oldId in frag.e2p.m && oldId in lookup.m && lookup.m[oldId] == news[i] &&
      news[i] in r.e2n.m && news[i] in r.e2t.m && news[i] in r.e2p.m &&
      r.e2n.m[news[i]] == frag.e2n.m[oldId] && r.e2t.m[news[i]] == frag.e2t.m[oldId] && r.e2p.m[news[i]] == frag.e2p.m[oldId]
  }

  /** Two valid dictionaries with the same keys stay so once both get
      the same fresh keys appended. */
  lemma SameKeysAppended<V, W>(a: Dict<V>, b: Dict<W>, a2: Dict<V>, b2: Dict<W>, news: seq<int>)
    requires a.Valid() && b.Valid() && a2.Valid() && b2.Valid() && a.m.Keys == b.m.Keys
    requires a2.keys == a.keys + news && b2.keys == b.keys + news
    ensures a2.m.Keys == b2.m.Keys
  {
    forall k ensures k in a2.m <==> k in b2.m {
      assert k in a2.keys <==> k in a.keys || k in news;
      assert k in b2.keys <==> k in b.keys || k in news;
    }
  }

  lemma ElementKeys(acc: MeshData, frag: MeshData)
    requires Aligned(acc) && Aligned(frag)
    ensures var news := NewIds(acc.e2n.keys, frag.e2n.keys);
            var r := ElementsMerged(acc, frag).0;
            var lookup := ElementsMerged(acc, frag).1;
            Aligned(r) && r.nodes == acc.nodes && r.p2m == acc.p2m && r.e2n.keys == acc.e2n.keys + news &&
            lookup.Valid() && lookup.keys == frag.e2n.keys
  {
    var olds := frag.e2n.keys;
    var news := NewIds(acc.e2n.keys, olds);
    var r := ElementsMerged(acc, frag).0;
    AlignedLookups(frag);
    NewIdsDistinct(acc.e2n.keys, olds);
    DistinctSameKeys(acc.e2n.keys, acc.e2t.keys, news);
    DistinctSameKeys(acc.e2n.keys, acc.e2p.keys, news);
    TransferredKeys(acc.e2n, frag.e2n.m, olds, news);
    TransferredKeys(acc.e2t, frag.e2t.m, olds, news);
    TransferredKeys(acc.e2p, frag.e2p.m, olds, news);
    SameKeysAppended(acc.e2t, acc.e2n, r.e2t, r.e2n, news);
    SameKeysAppended(acc.e2p, acc.e2n, r.e2p, r.e2n, news);
    PairedMeaning(olds, news);
  }

  lemma ElementEntries(acc: MeshData, frag: MeshData)
    requires Aligned(acc) && Aligned(frag)
    ensures var news := NewIds(acc.e2n.keys, frag.e2n.keys);
            var r := ElementsMerged(acc, frag).0;
            ElementsKept(acc, r) && ElementsMoved(frag, r, ElementsMerged(acc, frag).1, news)
  {
    var olds := frag.e2n.keys;
    var news := NewIds(acc.e2n.keys, olds);
    AlignedLookups(frag);
    NewIdsDistinct(acc.e2n.keys, olds);
    DistinctSameKeys(acc.e2n.keys, acc.e2t.keys, news);
    DistinctSameKeys(acc.e2n.keys, acc.e2p.keys, news);
    TransferredEntries(acc.e2n, frag.e2n.m, olds, news);
    TransferredEntries(acc.e2t, frag.e2t.m, olds, news);
    TransferredEntries(acc.e2p, frag.e2p.m, olds, news);
    PairedMeaning(olds, news);
  }

  /* ---------------------------------------------------------------------
     Node IDs and repointing as written (lines 171-191)
     --------------------------------------------------------------------- */

  /** E2N after `E2N[EID] = <E2N[EID] with o replaced by n>` for each EID
      of `eids` in order. */
  function RepointAll(e2n: Dict<seq<int>>, eids: seq<int>, o: int, n: int): (r: Dict<seq<int>>)
    requires forall i :: 0 <= i < |eids| ==> eids[i] in e2n.m
    ensures r.keys == e2n.keys && r.m.Keys == e2n.m.Keys
    decreases |eids|
  {
    if eids == [] then e2n
    else
      var k := |eids| - 1;
      var before := RepointAll(e2n, eids[..k], o, n);
      before.Put(eids[k], Replace(before.m[eids[k]], o, n))
  }

  /** The `for EID in N2E[NID_old]` loop. */
  method RepointElements(e2n: Dict<seq<int>>, eids: seq<int>, o: int, n: int) returns (r: Dict<seq<int>>)
    requires forall i :: 0 <= i < |eids| ==> eids[i] in e2n.m
    ensures r == RepointAll(e2n, eids, o, n)
  {
    r := e2n;
    for k := 0 to |eids|
      invariant r == RepointAll(e2n, eids[..k], o, n)
    {
      assert eids[..k + 1][..k] == eids[..k];
      var newNodes := ReplaceNode(r.m[eids[k]], o, n);
      r := r.Put(eids[k], newNodes);
    }
    assert eids[..|eids|] == eids;
  }

  /** Every listed element has each `o` replaced by `n`; every other
      element is as it was. */
  lemma {:induction false} RepointAllMeaning(e2n: Dict<seq<int>>, eids: seq<int>, o: int, n: int)
    requires forall i :: 0 <= i < |eids| ==> eids[i] in e2n.m
    requires o != n
    ensures forall k :: k in e2n.m ==>
              RepointAll(e2n, eids, o, n).m[k] == if k in eids then Replace(e2n.m[k], o, n) else e2n.m[k]
    decreases |eids|
  {
    if eids != [] {
      var last := |eids| - 1;
      RepointAllMeaning(e2n, eids[..last], o, n);
      assert eids == eids[..last] + [eids[last]];
      var e := eids[last];
      if e in eids[..last] {
        ReplaceTwice(e2n.m[e], o, n);
      }
    }
  }

  /** The repointing of lines 180-189 as written, over the first j
      incoming nodes: the element lists come from `s`, the N2E snapshot
      of the whole combined E2N taken at line 173, and a renamed node
      without a snapshot entry raises KeyError. */
  function RepointedAsWritten(s: Dict<seq<int>>, olds: seq<int>, news: seq<int>, j: nat): (r: Result<Dict<seq<int>>, MergeError>)
    requires s.Valid() && |olds| == |news| && j <= |olds|
    ensures r.Ok? ==> r.value.keys == s.keys && r.value.m.Keys == s.m.Keys
  {
    if j == 0 then Ok(s)
    else
      var before := RepointedAsWritten(s, olds, news, j - 1);
      if before.Err? || news[j - 1] == olds[j - 1] then before
      else
        var eids := Listed(s, |s.keys|, olds[j - 1]);
        if eids == [] then Err(KeyError)
        else
          ListedInDict(s, olds[j - 1]);
          Ok(RepointAll(before.value, eids, olds[j - 1], news[j - 1]))
  }

  /** The snapshot lists only elements of the snapshot. */
  lemma ListedInDict(s: Dict<seq<int>>, n: int)
    requires s.Valid()
    ensures forall i :: 0 <= i < |Listed(s, |s.keys|, n)| ==> Listed(s, |s.keys|, n)[i] in s.m
  {
    ListedElements(s, |s.keys|, n);
    assert s.keys[..|s.keys|] == s.keys;
    forall i | 0 <= i < |Listed(s, |s.keys|, n)| ensures Listed(s, |s.keys|, n)[i] in s.m {
      var e := Listed(s, |s.keys|, n)[i];
      assert e in Listed(s, |s.keys|, n);
      assert e in s.keys;
      assert e in s.m.Keys;
    }
  }

  /** Once the repointing has raised, it stays raised. */
  lemma {:induction false} RepointedRaised(s: Dict<seq<int>>, olds: seq<int>, news: seq<int>, j: nat, n: nat)
    requires s.Valid() && |olds| == |news| && j <= n <= |olds|
    requires RepointedAsWritten(s, olds, news, j).Err?
    ensures RepointedAsWritten(s, olds, news, n) == RepointedAsWritten(s, olds, news, j)
    decreases n
  {
    if n > j {
      RepointedRaised(s, olds, news, j, n - 1);
    }
  }

  /** Nodes and E2N after the node loop as written. */
  function NodesMergedAsWritten(nodes: Dict<Point>, e2n: Dict<seq<int>>, fragNodes: Dict<Point>)
    : Result<(Dict<Point>, Dict<seq<int>>), MergeError>
    requires e2n.Valid() && fragNodes.Valid()
  {
    var olds := fragNodes.keys;
    var news := NewIds(nodes.keys, olds);
    var repointed := RepointedAsWritten(e2n, olds, news, |olds|);
    FragmentNodesIn(fragNodes);
    if repointed.Err? then Err(repointed.error)
    else Ok((Transferred(nodes, fragNodes.m, olds, news), repointed.value))
  }

  lemma FragmentNodesIn(fragNodes: Dict<Point>)
    requires fragNodes.Valid()
    ensures forall i :: 0 <= i < |fragNodes.keys| ==> fragNodes.keys[i] in fragNodes.m
  {
    forall i | 0 <= i < |fragNodes.keys| ensures fragNodes.keys[i] in fragNodes.m {
      var k := fragNodes.keys[i];
      assert k in fragNodes.keys;
      assert k in fragNodes.m.Keys;
    }
  }

  /** `nodes[ID] = coordinates` for the j-th incoming node: under
      `max(nodes) + 1` when its ID is taken, under its own otherwise. */
  method PlaceNode(nodes: Dict<Point>, fragNodes: Dict<Point>, j: nat, merged: Dict<Point>)
    returns (merged2: Dict<Point>, nid: int)
    requires nodes.Valid() && fragNodes.Valid() && j < |fragNodes.keys|
    requires merged == Transferred(nodes, fragNodes.m, fragNodes.keys[..j], NewIds(nodes.keys, fragNodes.keys)[..j])
    ensures nid == NewIds(nodes.keys, fragNodes.keys)[j]
    ensures nid != fragNodes.keys[j] <==> fragNodes.keys[j] in merged.m
    ensures merged2 == Transferred(nodes, fragNodes.m, fragNodes.keys[..j + 1], NewIds(nodes.keys, fragNodes.keys)[..j + 1])
  {
    ghost var olds := fragNodes.keys;
    ghost var news := NewIds(nodes.keys, olds);
    FragmentNodesIn(fragNodes);
    NewIdsDistinct(nodes.keys, olds);
    var node := fragNodes.keys[j];
    assert (nodes.keys + news)[..|nodes.keys| + j] == nodes.keys + news[..j];
    TransferredKeys(nodes, fragNodes.m, olds[..j], news[..j]);
    NewIdsAt(nodes.keys, olds, j);
    FreshIdIsFree(merged.keys, node);
    TransferredSnoc(nodes, fragNodes.m, olds, news, j);
    nid := FreshKey(merged, node);
    merged2 := merged.Put(nid, fragNodes.m[node]);
  }

  /** The repointing for a renamed j-th incoming node: the elements N2E
      lists under its old ID, or KeyError when it lists none. */
  method RepointStepAsWritten(e2n: Dict<seq<int>>, n2e: Dict<seq<int>>, ghost olds: seq<int>, ghost news: seq<int>,
                              j: nat, node: int, nid: int, repointed: Dict<seq<int>>)
    returns (r: Result<Dict<seq<int>>, MergeError>)
    requires e2n.Valid() && |olds| == |news| && j < |olds| && node == olds[j] && nid == news[j] && nid != node
    requires node in n2e.m <==> |Listed(e2n, |e2n.keys|, node)| > 0
    requires node in n2e.m ==> n2e.m[node] == Listed(e2n, |e2n.keys|, node)
    requires RepointedAsWritten(e2n, olds, news, j) == Ok(repointed)
    ensures r == RepointedAsWritten(e2n, olds, news, j + 1)
  {
    if node !in n2e.m {
      return Err(KeyError);
    }
    ListedInDict(e2n, node);
    var r2 := RepointElements(repointed, n2e.m[node], node, nid);
    return Ok(r2);
  }

  /** The node loop as written: a colliding node ID gets `max(nodes) + 1`
      with the incoming coordinates, and every element the line-173 N2E
      lists under the old ID has that ID replaced by the new one; any
      other incoming node is stored under its own ID. */
  method MergeNodesAsWritten(nodes: Dict<Point>, e2n: Dict<seq<int>>, fragNodes: Dict<Point>)
    returns (r: Result<(Dict<Point>, Dict<seq<int>>), MergeError>)
    requires nodes.Valid() && e2n.Valid() && fragNodes.Valid()
    ensures r == NodesMergedAsWritten(nodes, e2n, fragNodes)
  {
    ghost var olds := fragNodes.keys;
    ghost var news := NewIds(nodes.keys, olds);
    var n2e := GetN2E(e2n);
    var merged, repointed := nodes, e2n;
    for j := 0 to |fragNodes.keys|
      invariant merged == Transferred(nodes, fragNodes.m, olds[..j], news[..j])
      invariant RepointedAsWritten(e2n, olds, news, j) == Ok(repointed)
    {
      var node := fragNodes.keys[j];
      var collides := node in merged.m;
      var nid;
      merged, nid := PlaceNode(nodes, fragNodes, j, merged);
      if collides {
        var step := RepointStepAsWritten(e2n, n2e, olds, news, j, node, nid, repointed);
        if step.Err? {
          RepointedRaised(e2n, olds, news, j + 1, |olds|);
          return Err(step.error);
        }
        repointed := step.value;
      }
    }
    assert olds[..|olds|] == olds && news[..|news|] == news;
    return Ok((merged, repointed));
  }

  /** After the rename of the j-th incoming node, every element the
      line-173 snapshot lists under its old ID has each occurrence of that
      ID replaced by the new one, and every other element is unchanged;
      accumulated elements included. */
  lemma RenameStepAsWritten(s: Dict<seq<int>>, olds: seq<int>, news: seq<int>, j: nat)
    requires s.Valid() && |olds| == |news| && j < |olds| && news[j] != olds[j]
    requires RepointedAsWritten(s, olds, news, j + 1).Ok?
    ensures RepointedAsWritten(s, olds, news, j).Ok?
    ensures var before := RepointedAsWritten(s, olds, news, j).value;
            var after := RepointedAsWritten(s, olds, news, j + 1).value;
            var listed := Listed(s, |s.keys|, olds[j]);
            forall k :: k in s.m ==> k in before.m && after.m[k] == if k in listed then Replace(before.m[k], olds[j], news[j]) else before.m[k]
  {
    var before := RepointedAsWritten(s, olds, news, j).value;
    ListedInDict(s, olds[j]);
    RepointAllMeaning(before, Listed(s, |s.keys|, olds[j]), olds[j], news[j]);
  }

  /* ---------------------------------------------------------------------
     Node IDs and repointing as evidently intended
     --------------------------------------------------------------------- */

  /** A node list mapped through the node table. */
  function Renamed(ns: seq<int>, table: Dict<int>): (r: seq<int>)
    ensures |r| == |ns|
    ensures forall i :: 0 <= i < |ns| ==> r[i] == if ns[i] in table.m then table.m[ns[i]] else ns[i]
  {
    seq(|ns|, i requires 0 <= i < |ns| => if ns[i] in table.m then table.m[ns[i]] else ns[i])
  }

  method RenameNodes(ns: seq<int>, table: Dict<int>) returns (r: seq<int>)
    ensures r == Renamed(ns, table)
  {
    r := [];
    for p := 0 to |ns|
      invariant |r| == p
      invariant forall i :: 0 <= i < p ==> r[i] == if ns[i] in table.m then table.m[ns[i]] else ns[i]
    {
      if ns[p] in table.m {
        r := r + [table.m[ns[p]]];
      } else {
        r := r + [ns[p]];
      }
    }
  }

  /** E2N with each element of `eids` mapped through the node table. */
  function RenamedAll(e2n: Dict<seq<int>>, eids: seq<int>, table: Dict<int>): (r: Dict<seq<int>>)
    ensures r.keys == e2n.keys && r.m.Keys == e2n.m.Keys
    decreases |eids|
  {
    if eids == [] then e2n
    else
      var k := |eids| - 1;
      var before := RenamedAll(e2n, eids[..k], table);
      if eids[k] in before.m then before.Put(eids[k], Renamed(before.m[eids[k]], table)) else before
  }

  /** Each listed element, listed once, is mapped through the table from
      its own node list; the others are unchanged. */
  lemma {:induction false} RenamedAllMeaning(e2n: Dict<seq<int>>, eids: seq<int>, table: Dict<int>)
    requires Distinct(eids)
    ensures forall k :: k in e2n.m ==>
              RenamedAll(e2n, eids, table).m[k] == if k in eids then Renamed(e2n.m[k], table) else e2n.m[k]
    decreases |eids|
  {
    if eids != [] {
      var last := |eids| - 1;
      RenamedAllMeaning(e2n, eids[..last], table);
      assert eids == eids[..last] + [eids[last]];
    }
  }

  /** Nodes and E2N after the node loop as evidently intended: the nodes
      as in the loop as written, and only the incoming elements
      `incoming` mapped through the fragment's old-to-new node table. */
  function NodesMerged(nodes: Dict<Point>, e2n: Dict<seq<int>>, fragNodes: Dict<Point>, incoming: seq<int>)
    : (Dict<Point>, Dict<seq<int>>)
  {
    var olds := fragNodes.keys;
    var news := NewIds(nodes.keys, olds);
    (Transferred(nodes, fragNodes.m, olds, news), RenamedAll(e2n, incoming, Paired(olds, news)))
  }

  /** The node loop as evidently intended: the IDs are chosen as in the
      loop as written and kept in a node lookup table; the incoming
      elements are then mapped through it in one pass. */
  method MergeNodes(nodes: Dict<Point>, e2n: Dict<seq<int>>, fragNodes: Dict<Point>, incoming: seq<int>)
    returns (nodes2: Dict<Point>, e2n2: Dict<seq<int>>)
    requires nodes.Valid() && fragNodes.Valid()
    ensures (nodes2, e2n2) == NodesMerged(nodes, e2n, fragNodes, incoming)
  {
    ghost var olds := fragNodes.keys;
    ghost var news := NewIds(nodes.keys, olds);
    var table := Empty();
    nodes2 := nodes;
    for j := 0 to |fragNodes.keys|
      invariant nodes2 == Transferred(nodes, fragNodes.m, olds[..j], news[..j])
      invariant table == Paired(olds[..j], news[..j])
    {
      var nid;
      PairedSnoc(olds, news, j);
      table := table.Put(fragNodes.keys[j], NewIds(nodes.keys, fragNodes.keys)[j]);
      nodes2, nid := PlaceNode(nodes, fragNodes, j, nodes2);
    }
    assert olds[..|olds|] == olds && news[..|news|] == news;
    e2n2 := e2n;
    for k := 0 to |incoming|
      invariant e2n2 == RenamedAll(e2n, incoming[..k], table)
    {
      assert incoming[..k + 1][..k] == incoming[..k];
      var eid := incoming[k];
      if eid in e2n2.m {
        var renamed := RenameNodes(e2n2.m[eid], table);
        e2n2 := e2n2.Put(eid, renamed);
      }
    }
    assert incoming[..|incoming|] == incoming;
  }

  /* ---------------------------------------------------------------------
     Property and material IDs (lines 193-211)
     --------------------------------------------------------------------- */

  /** The new IDs the lookup table gives the keys `olds`. */
  function Targets(olds: seq<int>, lookup: Dict<int>): seq<int>
    decreases |olds|
  {
    if olds == [] then []
    else
      var k := |olds| - 1;
      Targets(olds[..k], lookup) + (if olds[k] in lookup.m then [lookup.m[olds[k]]] else [])
  }

  /** E2P after `E2P[EID_lookup_table[old]] = pid` for each key of `olds`. */
  function Reassigned(e2p: Dict<int>, olds: seq<int>, lookup: Dict<int>, pid: int): (r: Dict<int>)
    decreases |olds|
  {
    if olds == [] then e2p
    else
      var k := |olds| - 1;
      var before := Reassigned(e2p, olds[..k], lookup, pid);
      if olds[k] in lookup.m then before.Put(lookup.m[olds[k]], pid) else before
  }

  lemma ReassignedSnoc(e2p: Dict<int>, olds: seq<int>, lookup: Dict<int>, pid: int, j: nat)
    requires j < |olds| && olds[j] in lookup.m
    ensures Reassigned(e2p, olds[..j + 1], lookup, pid) == Reassigned(e2p, olds[..j], lookup, pid).Put(lookup.m[olds[j]], pid)
  {
    assert olds[..j + 1][..j] == olds[..j];
  }

  /** Every target element gets `pid`; the others keep their property. */
  lemma {:induction false} ReassignedMeaning(e2p: Dict<int>, olds: seq<int>, lookup: Dict<int>, pid: int)
    requires forall x :: x in Targets(olds, lookup) ==> x in e2p.m
    ensures Reassigned(e2p, olds, lookup, pid).keys == e2p.keys
    ensures Reassigned(e2p, olds, lookup, pid).m.Keys == e2p.m.Keys
    ensures forall k :: k in e2p.m ==>
              k in Reassigned(e2p, olds, lookup, pid).m &&
              Reassigned(e2p, olds, lookup, pid).m[k] == if k in Targets(olds, lookup) then pid else e2p.m[k]
    decreases |olds|
  {
    if olds != [] {
      var last := |olds| - 1;
      var front := Targets(olds[..last], lookup);
      assert forall x :: x in front ==> x in Targets(olds, lookup);
      ReassignedMeaning(e2p, olds[..last], lookup, pid);
    }
  }

  /** Every value of a non-empty dictionary is at most the largest one. */
  lemma ValuesBelowMax(d: Dict<int>)
    requires d.Valid() && |d.keys| > 0
    ensures forall k :: k in d.m ==> d.m[k] <= Max(Values(d))
  {
    forall k | k in d.m ensures d.m[k] <= Max(Values(d)) {
      assert k in d.keys;
      var i :| 0 <= i < |d.keys| && d.keys[i] == k;
      ValuesAt(d, i);
    }
  }

  /** E2P and P2M after the property step: a fragment with more than one
      property or material raises; so does `max()` of an empty E2P or
      P2M; otherwise every incoming element gets property
      `max(E2P values) + 1`, which gets material `max(P2M values) + 1`. */
  function PropsMerged(e2p: Dict<int>, p2m: Dict<int>, frag: MeshData, lookup: Dict<int>)
    : Result<(Dict<int>, Dict<int>), MergeError>
    requires e2p.Valid() && p2m.Valid()
  {
    if |frag.e2p.m.Values| > 1 then Err(SeveralProperties)
    else if |frag.p2m.m.Values| > 1 then Err(SeveralMaterials)
    else if e2p.keys == [] || p2m.keys == [] then Err(EmptyMax)
    else
      var pid := Max(Values(e2p)) + 1;
      var mid := Max(Values(p2m)) + 1;
      Ok((Reassigned(e2p, frag.e2p.keys, lookup, pid), if frag.e2p.keys == [] then p2m else p2m.Put(pid, mid)))
  }

  /** Lines 193-211. */
  method MergeProperties(e2p: Dict<int>, p2m: Dict<int>, frag: MeshData, lookup: Dict<int>)
    returns (r: Result<(Dict<int>, Dict<int>), MergeError>)
    requires e2p.Valid() && p2m.Valid()
    requires forall i :: 0 <= i < |frag.e2p.keys| ==> frag.e2p.keys[i] in lookup.m
    ensures r == PropsMerged(e2p, p2m, frag, lookup)
  {
    if |frag.e2p.m.Values| > 1 {
      return Err(SeveralProperties);
    }
    if |frag.p2m.m.Values| > 1 {
      return Err(SeveralMaterials);
    }
    if |e2p.keys| == 0 || |p2m.keys| == 0 {
      return Err(EmptyMax);
    }
    var pid := Max(Values(e2p)) + 1;
    var mid := Max(Values(p2m)) + 1;
    var e2p2, p2m2 := e2p, p2m;
    for j := 0 to |frag.e2p.keys|
      invariant e2p2 == Reassigned(e2p, frag.e2p.keys[..j], lookup, pid)
      invariant p2m2 == if j == 0 then p2m else p2m.Put(pid, mid)
    {
      ReassignedSnoc(e2p, frag.e2p.keys, lookup, pid, j);
      var eid := lookup.m[frag.e2p.keys[j]];
      e2p2 := e2p2.Put(eid, pid);
      p2m2 := p2m.Put(pid, mid);
    }
    assert frag.e2p.keys[..|frag.e2p.keys|] == frag.e2p.keys;
    return Ok((e2p2, p2m2));
  }

  /** The property step gives the incoming elements one property ID above
      every property in use, and that property one material ID above every
      material in use; the accumulated elements keep theirs. */
  lemma PropsPhase(e2p: Dict<int>, p2m: Dict<int>, frag: MeshData, lookup: Dict<int>)
    requires e2p.Valid() && p2m.Valid()
    requires forall x :: x in Targets(frag.e2p.keys, lookup) ==> x in e2p.m
    requires PropsMerged(e2p, p2m, frag, lookup).Ok?
    ensures var pid := Max(Values(e2p)) + 1;
            var e2p2 := PropsMerged(e2p, p2m, frag, lookup).value.0;
            e2p2.keys == e2p.keys &&
            (forall k :: k in e2p.m ==>
               e2p.m[k] < pid && k in e2p2.m && e2p2.m[k] == if k in Targets(frag.e2p.keys, lookup) then pid else e2p.m[k])
    ensures var pid := Max(Values(e2p)) + 1;
            var mid := Max(Values(p2m)) + 1;
            var p2m2 := PropsMerged(e2p, p2m, frag, lookup).value.1;
            (forall q :: q in p2m.m ==> p2m.m[q] < mid) &&
            (frag.e2p.keys != [] ==> pid in p2m2.m && p2m2.m[pid] == mid) &&
            (frag.e2p.keys == [] ==> p2m2 == p2m)
  {
    var pid := Max(Values(e2p)) + 1;
    ReassignedMeaning(e2p, frag.e2p.keys, lookup, pid);
    ValuesBelowMax(e2p);
    ValuesBelowMax(p2m);
  }

  /* ---------------------------------------------------------------------
     One fragment, all fragments
     --------------------------------------------------------------------- */

  /** The lookup table sends every key to a stored element. */
  lemma {:induction false} TargetsIn(olds: seq<int>, lookup: Dict<int>, d: map<int, int>)
    requires forall o :: o in lookup.m ==> lookup.m[o] in d
    ensures forall x :: x in Targets(olds, lookup) ==> x in d
    decreases |olds|
  {
    if olds != [] {
      TargetsIn(olds[..|olds| - 1], lookup, d);
    }
  }

  /** A table that sends each old key to its new ID gives back the new IDs. */
  lemma {:induction false} TargetsOfTable(olds: seq<int>, news: seq<int>, lookup: Dict<int>)
    requires |olds| == |news|
    requires forall i :: 0 <= i < |olds| ==> olds[i] in lookup.m && lookup.m[olds[i]] == news[i]
    ensures Targets(olds, lookup) == news
    decreases |olds|
  {
    if olds != [] {
      var k := |olds| - 1;
      TargetsOfTable(olds[..k], news[..k], lookup);
      assert news[..k] + [news[k]] == news;
    }
  }

  /** The collected new IDs are the IDs the element loop chose. */
  lemma TargetsOfPaired(olds: seq<int>, news: seq<int>)
    requires |olds| == |news| && Distinct(olds)
    ensures Targets(olds, Paired(olds, news)) == news
  {
    PairedMeaning(olds, news);
    TargetsOfTable(olds, news, Paired(olds, news));
  }

  /** `EID_lookup_table[old]` for each key, in order. */
  method IncomingIds(olds: seq<int>, lookup: Dict<int>) returns (ids: seq<int>)
    ensures ids == Targets(olds, lookup)
  {
    ids := [];
    for j := 0 to |olds|
      invariant ids == Targets(olds[..j], lookup)
    {
      assert olds[..j + 1][..j] == olds[..j];
      if olds[j] in lookup.m {
        ids := ids + [lookup.m[olds[j]]];
      }
    }
    assert olds[..|olds|] == olds;
  }

  /** The element loop's facts the later steps rely on. */
  lemma ElementFacts(acc: MeshData, frag: MeshData)
    requires Aligned(acc) && Aligned(frag)
    ensures var d1 := ElementsMerged(acc, frag).0;
            var lookup := ElementsMerged(acc, frag).1;
            Aligned(d1) && lookup.Valid() &&
            (forall o :: o in lookup.m ==> lookup.m[o] in d1.e2p.m) &&
            (forall i :: 0 <= i < |frag.e2p.keys| ==> frag.e2p.keys[i] in lookup.m) &&
            lookup == Paired(frag.e2n.keys, NewIds(acc.e2n.keys, frag.e2n.keys))
  {
    var news := NewIds(acc.e2n.keys, frag.e2n.keys);
    var d1 := ElementsMerged(acc, frag).0;
    var lookup := ElementsMerged(acc, frag).1;
    ElementKeys(acc, frag);
    ElementEntries(acc, frag);
    forall o | o in lookup.m ensures lookup.m[o] in d1.e2p.m {
      assert o in lookup.keys;
      var i :| 0 <= i < |frag.e2n.keys| && frag.e2n.keys[i] == o;
    }
    forall i | 0 <= i < |frag.e2p.keys| ensures frag.e2p.keys[i] in lookup.m {
      var o := frag.e2p.keys[i];
      assert o in frag.e2p.keys;
      assert o in frag.e2p.m.Keys;
      assert o in frag.e2n.m.Keys;
      assert o in lookup.keys;
    }
  }

  /** The merge of one later fragment as written: the element loop, the
      node loop with the line-173 snapshot, the property step. */
  function MergedAsWritten(acc: MeshData, frag: MeshData): Result<MeshData, MergeError>
    requires Aligned(acc) && Aligned(frag)
  {
    ElementKeys(acc, frag);
    var d1 := ElementsMerged(acc, frag).0;
    var lookup := ElementsMerged(acc, frag).1;
    var nodes := NodesMergedAsWritten(d1.nodes, d1.e2n, frag.nodes);
    if nodes.Err? then Err(nodes.error)
    else
      var props := PropsMerged(d1.e2p, d1.p2m, frag, lookup);
      if props.Err? then Err(props.error)
      else Ok(MeshData(nodes.value.0, nodes.value.1, d1.e2t, props.value.0, props.value.1))
  }

  /** The merge of one later fragment as evidently intended: as written,
      except that only the fragment's own elements are repointed, each
      through the fragment's node table. */
  function Merged(acc: MeshData, frag: MeshData): Result<MeshData, MergeError>
    requires Aligned(acc) && Aligned(frag)
  {
    ElementKeys(acc, frag);
    var d1 := ElementsMerged(acc, frag).0;
    var lookup := ElementsMerged(acc, frag).1;
    var nodes := NodesMerged(d1.nodes, d1.e2n, frag.nodes, Targets(frag.e2n.keys, lookup));
    var props := PropsMerged(d1.e2p, d1.p2m, frag, lookup);
    if props.Err? then Err(props.error)
    else Ok(MeshData(nodes.0, nodes.1, d1.e2t, props.value.0, props.value.1))
  }

  /** The property step keeps E2P's keys and both dictionaries valid. */
  lemma PropsKeepValid(e2p: Dict<int>, p2m: Dict<int>, frag: MeshData, lookup: Dict<int>)
    requires e2p.Valid() && p2m.Valid()
    requires forall x :: x in Targets(frag.e2p.keys, lookup) ==> x in e2p.m
    requires PropsMerged(e2p, p2m, frag, lookup).Ok?
    ensures PropsMerged(e2p, p2m, frag, lookup).value.0.Valid()
    ensures PropsMerged(e2p, p2m, frag, lookup).value.0.m.Keys == e2p.m.Keys
    ensures PropsMerged(e2p, p2m, frag, lookup).value.1.Valid()
  {
    ReassignedMeaning(e2p, frag.e2p.keys, lookup, Max(Values(e2p)) + 1);
  }

  /** The node step keeps the node table valid. */
  lemma NodesKeepValid(nodes: Dict<Point>, fragNodes: Dict<Point>)
    requires nodes.Valid() && fragNodes.Valid()
    ensures Transferred(nodes, fragNodes.m, fragNodes.keys, NewIds(nodes.keys, fragNodes.keys)).Valid()
  {
    NewIdsDistinct(nodes.keys, fragNodes.keys);
    FragmentNodesIn(fragNodes);
    TransferredKeys(nodes, fragNodes.m, fragNodes.keys, NewIds(nodes.keys, fragNodes.keys));
  }

  /** The merged dictionaries are valid and E2N, E2T and E2P stay aligned. */
  lemma MergeKeepsAligned(acc: MeshData, frag: MeshData)
    requires Aligned(acc) && Aligned(frag) && Merged(acc, frag).Ok?
    ensures Aligned(Merged(acc, frag).value)
  {
    var d1 := ElementsMerged(acc, frag).0;
    var lookup := ElementsMerged(acc, frag).1;
    ElementFacts(acc, frag);
    NodesKeepValid(d1.nodes, frag.nodes);
    TargetsIn(frag.e2p.keys, lookup, d1.e2p.m);
    PropsKeepValid(d1.e2p, d1.p2m, frag, lookup);
    var r := Merged(acc, frag).value;
    assert r.nodes == Transferred(d1.nodes, frag.nodes.m, frag.nodes.keys, NewIds(d1.nodes.keys, frag.nodes.keys));
    assert r.e2n == RenamedAll(d1.e2n, Targets(frag.e2n.keys, lookup), Paired(frag.nodes.keys, NewIds(d1.nodes.keys, frag.nodes.keys)));
    assert r.e2t == d1.e2t;
    assert r.e2p == PropsMerged(d1.e2p, d1.p2m, frag, lookup).value.0;
    assert r.p2m == PropsMerged(d1.e2p, d1.p2m, frag, lookup).value.1;
  }

  /** `MergeFragment` as written, for one later fragment. */
  method MergeFragmentAsWritten(acc: MeshData, frag: MeshData) returns (r: Result<MeshData, MergeError>)
    requires Aligned(acc) && Aligned(frag)
    ensures r == MergedAsWritten(acc, frag)
  {
    var d1, lookup := MergeElements(acc, frag);
    ElementFacts(acc, frag);
    var nodes := MergeNodesAsWritten(d1.nodes, d1.e2n, frag.nodes);
    if nodes.Err? {
      return Err(nodes.error);
    }
    var props := MergeProperties(d1.e2p, d1.p2m, frag, lookup);
    if props.Err? {
      return Err(props.error);
    }
    return Ok(MeshData(nodes.value.0, nodes.value.1, d1.e2t, props.value.0, props.value.1));
  }

  /** One later fragment, merged as evidently intended. */
  method MergeFragment(acc: MeshData, frag: MeshData) returns (r: Result<MeshData, MergeError>)
    requires Aligned(acc) && Aligned(frag)
    ensures r == Merged(acc, frag)
  {
    var d1, lookup := MergeElements(acc, frag);
    ElementFacts(acc, frag);
    var incoming := IncomingIds(frag.e2n.keys, lookup);
    var nodes, e2n := MergeNodes(d1.nodes, d1.e2n, frag.nodes, incoming);
    var props := MergeProperties(d1.e2p, d1.p2m, frag, lookup);
    if props.Err? {
      return Err(props.error);
    }
    return Ok(MeshData(nodes, e2n, d1.e2t, props.value.0, props.value.1));
  }

  /** The tail of a distinct list is distinct and shares nothing with its head. */
  lemma DistinctSplit(a: seq<int>, b: seq<int>)
    requires Distinct(a + b)
    ensures Distinct(b) && forall x :: x in a ==> x !in b
  {
    forall i, j | 0 <= i < j < |b| ensures b[i] != b[j] {
      assert (a + b)[|a| + i] == b[i] && (a + b)[|a| + j] == b[j];
    }
    forall i, j | 0 <= i < |a| && 0 <= j < |b| ensures a[i] != b[j] {
      assert (a + b)[i] == a[i] && (a + b)[|a| + j] == b[j];
    }
  }

  /** Every stored element keeps its node list and every stored node its
      coordinates. */
  ghost predicate GeometryKept(acc: MeshData, r: MeshData)
  {
    (forall k :: k in acc.e2n.m ==> k in r.e2n.m && r.e2n.m[k] == acc.e2n.m[k]) &&
    (forall n :: n in acc.nodes.m ==> n in r.nodes.m && r.nodes.m[n] == acc.nodes.m[n])
  }

  /** The i-th incoming element, stored under `news[i]`, has as many nodes
      as in its fragment, and each node of the fragment's own sits at the
      same coordinates as in the fragment. */
  ghost predicate GeometryMoved(frag: MeshData, r: MeshData, news: seq<int>)
    requires |news| == |frag.e2n.keys|
  {
    forall i :: 0 <= i < |news| && frag.e2n.keys[i] in frag.e2n.m ==>
      news[i] in r.e2n.m && |r.e2n.m[news[i]]| == |frag.e2n.m[frag.e2n.keys[i]]| &&
      forall p :: 0 <= p < |r.e2n.m[news[i]]| && frag.e2n.m[frag.e2n.keys[i]][p] in frag.nodes.m ==>
        r.e2n.m[news[i]][p] in r.nodes.m && r.nodes.m[r.e2n.m[news[i]][p]] == frag.nodes.m[frag.e2n.m[frag.e2n.keys[i]][p]]
  }

  /** The node step keeps the stored nodes, and the table sends each
      incoming node to an ID that holds its coordinates. */
  lemma NodesGeometry(nodes: Dict<Point>, fragNodes: Dict<Point>)
    requires nodes.Valid() && fragNodes.Valid()
    ensures var news := NewIds(nodes.keys, fragNodes.keys);
            var t := Transferred(nodes, fragNodes.m, fragNodes.keys, news);
            var table := Paired(fragNodes.keys, news);
            (forall n :: n in nodes.m ==> n in t.m && t.m[n] == nodes.m[n]) &&
            forall x :: x in fragNodes.m ==> x in table.m && table.m[x] in t.m && t.m[table.m[x]] == fragNodes.m[x]
  {
    var olds := fragNodes.keys;
    var news := NewIds(nodes.keys, olds);
    NewIdsDistinct(nodes.keys, olds);
    FragmentNodesIn(fragNodes);
    TransferredEntries(nodes, fragNodes.m, olds, news);
    PairedMeaning(olds, news);
    forall x | x in fragNodes.m
      ensures x in Paired(olds, news).m && Paired(olds, news).m[x] == news[IndexOf(olds, x)]
    {
      assert x in fragNodes.m.Keys;
      assert x in olds;
    }
  }

  /** Position of an element of a list. */
  function IndexOf(s: seq<int>, x: int): (i: nat)
    requires x in s
    ensures i < |s| && s[i] == x
  {
    if s[0] == x then 0 else 1 + IndexOf(s[1..], x)
  }

  /** Elements mapped through a table that sends each fragment node to
      an ID holding its coordinates keep their shape. */
  lemma RenamedKeepShape(frag: MeshData, r: MeshData, news: seq<int>, table: Dict<int>)
    requires |news| == |frag.e2n.keys|
    requires forall i :: 0 <= i < |news| && frag.e2n.keys[i] in frag.e2n.m ==>
               news[i] in r.e2n.m && r.e2n.m[news[i]] == Renamed(frag.e2n.m[frag.e2n.keys[i]], table)
    requires forall x :: x in frag.nodes.m ==> x in table.m && table.m[x] in r.nodes.m && r.nodes.m[table.m[x]] == frag.nodes.m[x]
    ensures GeometryMoved(frag, r, news)
  {
    forall i | 0 <= i < |news| && frag.e2n.keys[i] in frag.e2n.m
      ensures news[i] in r.e2n.m && |r.e2n.m[news[i]]| == |frag.e2n.m[frag.e2n.keys[i]]|
      ensures forall p :: 0 <= p < |r.e2n.m[news[i]]| && frag.e2n.m[frag.e2n.keys[i]][p] in frag.nodes.m ==>
                r.e2n.m[news[i]][p] in r.nodes.m && r.nodes.m[r.e2n.m[news[i]][p]] == frag.nodes.m[frag.e2n.m[frag.e2n.keys[i]][p]]
    {
      var ns := frag.e2n.m[frag.e2n.keys[i]];
      var renamed := r.e2n.m[news[i]];
      assert renamed == Renamed(ns, table);
      forall p | 0 <= p < |renamed| && ns[p] in frag.nodes.m
        ensures renamed[p] in r.nodes.m && r.nodes.m[renamed[p]] == frag.nodes.m[ns[p]]
      {
        var x := ns[p];
        assert x in table.m && table.m[x] in r.nodes.m && r.nodes.m[table.m[x]] == frag.nodes.m[x];
        assert renamed[p] == table.m[x];
      }
    }
  }

  /** The corrected merge maps each incoming element through the
      fragment's node table and leaves the stored ones alone. */
  lemma MergedElements(acc: MeshData, frag: MeshData)
    requires Aligned(acc) && Aligned(frag) && Merged(acc, frag).Ok?
    ensures var news := NewIds(acc.e2n.keys, frag.e2n.keys);
            var r := Merged(acc, frag).value;
            var table := Paired(frag.nodes.keys, NewIds(acc.nodes.keys, frag.nodes.keys));
            (forall k :: k in acc.e2n.m ==> k in r.e2n.m && r.e2n.m[k] == acc.e2n.m[k]) &&
            forall i :: 0 <= i < |news| && frag.e2n.keys[i] in frag.e2n.m ==>
              news[i] in r.e2n.m && r.e2n.m[news[i]] == Renamed(frag.e2n.m[frag.e2n.keys[i]], table)
  {
    var news := NewIds(acc.e2n.keys, frag.e2n.keys);
    var d1 := ElementsMerged(acc, frag).0;
    ElementFacts(acc, frag);
    ElementEntries(acc, frag);
    TargetsOfPaired(frag.e2n.keys, news);
    NewIdsDistinct(acc.e2n.keys, frag.e2n.keys);
    DistinctSplit(acc.e2n.keys, news);
    var table := Paired(frag.nodes.keys, NewIds(d1.nodes.keys, frag.nodes.keys));
    RenamedAllMeaning(d1.e2n, news, table);
    var r := Merged(acc, frag).value;
    assert r.e2n == RenamedAll(d1.e2n, news, table);
    forall k | k in acc.e2n.m ensures k in r.e2n.m && r.e2n.m[k] == acc.e2n.m[k] {
      assert k in acc.e2n.keys;
    }
    forall i | 0 <= i < |news| && frag.e2n.keys[i] in frag.e2n.m
      ensures news[i] in r.e2n.m && r.e2n.m[news[i]] == Renamed(frag.e2n.m[frag.e2n.keys[i]], table)
    {
      assert news[i] in news;
    }
  }

  /** The corrected merge keeps every stored element and node, and each
      incoming element keeps its shape. */
  lemma MergeKeepsGeometry(acc: MeshData, frag: MeshData)
    requires Aligned(acc) && Aligned(frag) && Merged(acc, frag).Ok?
    ensures GeometryKept(acc, Merged(acc, frag).value)
    ensures GeometryMoved(frag, Merged(acc, frag).value, NewIds(acc.e2n.keys, frag.e2n.keys))
  {
    var d1 := ElementsMerged(acc, frag).0;
    ElementKeys(acc, frag);
    MergedElements(acc, frag);
    NodesGeometry(d1.nodes, frag.nodes);
    var r := Merged(acc, frag).value;
    assert r.nodes == Transferred(d1.nodes, frag.nodes.m, frag.nodes.keys, NewIds(d1.nodes.keys, frag.nodes.keys));
    RenamedKeepShape(frag, r, NewIds(acc.e2n.keys, frag.e2n.keys), Paired(frag.nodes.keys, NewIds(acc.nodes.keys, frag.nodes.keys)));
  }

  /** `acc` with the fragments from index i on merged into it in order
      (corrected node step); the first merge that raises ends it. */
  function MergedFrom(acc: MeshData, data: seq<MeshData>, i: nat): (r: Result<MeshData, MergeError>)
    requires Aligned(acc) && i <= |data| && forall k :: 0 <= k < |data| ==> Aligned(data[k])
    ensures r.Ok? ==> Aligned(r.value)
    decreases |data| - i
  {
    if i == |data| then Ok(acc)
    else
      var next := Merged(acc, data[i]);
      if next.Err? then next
      else
        MergeKeepsAligned(acc, data[i]);
        MergedFrom(next.value, data, i + 1)
  }

  /** The combined mesh data of all selected meshes: none gives empty
      dictionaries, the first is taken as it is, each later one is merged
      into what came before. */
  function MergedAll(data: seq<MeshData>): (r: Result<MeshData, MergeError>)
    requires forall k :: 0 <= k < |data| ==> Aligned(data[k])
    ensures r.Ok? ==> Aligned(r.value)
  {
    if data == [] then Ok(MeshData(Empty(), Empty(), Empty(), Empty(), Empty()))
    else MergedFrom(data[0], data, 1)
  }

  /** Lines 139-211: the loop over all selected meshes. */
  method MergeFragments(data: seq<MeshData>) returns (r: Result<MeshData, MergeError>)
    requires forall i :: 0 <= i < |data| ==> Aligned(data[i])
    ensures r == MergedAll(data)
  {
    if |data| == 0 {
      return Ok(MeshData(Empty(), Empty(), Empty(), Empty(), Empty()));
    }
    var acc := data[0];
    for i := 1 to |data|
      invariant Aligned(acc) && MergedFrom(acc, data, i) == MergedAll(data)
    {
      var next := MergeFragment(acc, data[i]);
      if next.Err? {
        return next;
      }
      MergeKeepsAligned(acc, data[i]);
      acc := next.value;
    }
    return Ok(acc);
  }

  /* ---------------------------------------------------------------------
     The node loop as written, on two small meshes
     --------------------------------------------------------------------- */

  /** E2N after the element loop: a stored one-node element 1 and the
      incoming element, renumbered 2, joining the fragment's nodes 1 and 3. */
  const SampleE2N := Dict([1, 2], map[1 := [1], 2 := [1, 3]])
  const SampleNodes := Dict([1, 2], map[1 := Point(0.0, 0.0, 0.0), 2 := Point(1.0, 0.0, 0.0)])
  const SampleFragNodes := Dict([1, 3], map[1 := Point(0.0, 1.0, 0.0), 3 := Point(1.0, 1.0, 0.0)])

  /** The largest of a list whose last element is above all the others. */
  lemma MaxIsLast(s: seq<int>)
    requires |s| > 0 && forall i :: 0 <= i < |s| - 1 ==> s[i] < s[|s| - 1]
    ensures Max(s) == s[|s| - 1]
  {
    var m := Max(s);
    assert s[|s| - 1] <= m;
  }

  lemma SampleNewIds()
    ensures NewIds(SampleNodes.keys, SampleFragNodes.keys) == [3, 4]
  {
    MaxIsLast([1, 2]);
    MaxIsLast([1, 2, 3]);
    assert [1, 3][..1] == [1] && [1][..0] == [];
    var p := NewIds([1, 2], [1]);
    assert p == [] + [FreshId([1, 2] + [], 1)];
    assert FreshId([1, 2], 1) == 3;
    assert NewIds([1, 2], [1, 3]) == p + [FreshId([1, 2] + p, 3)];
    assert [1, 2] + p == [1, 2, 3];
    assert FreshId([1, 2, 3], 3) == 4;
  }

  /** Fragment nodes 1 and 3, stored as 3 and 4. */
  ghost predicate SampleIds(olds: seq<int>, news: seq<int>)
  {
    |olds| == 2 && |news| == 2 && olds[0] == 1 && olds[1] == 3 && news[0] == 3 && news[1] == 4
  }

  /** E2N shaped like the sample. */
  ghost predicate LikeSampleE2N(e: Dict<seq<int>>)
  {
    e.Valid() && e.keys == [1, 2] && 1 in e.m && 2 in e.m && e.m[1] == [1] && e.m[2] == [1, 3]
  }

  lemma SampleE2NShape()
    ensures LikeSampleE2N(SampleE2N)
  {
  }

  lemma SampleListed(e: Dict<seq<int>>)
    requires LikeSampleE2N(e)
    ensures Listed(e, 2, 1) == [1, 2] && Listed(e, 2, 3) == [2]
  {
    assert [1][1..] == [] && [1, 3][1..] == [3] && [3][1..] == [];
    assert Count([1], 1) == 1 && Count([1, 3], 1) == 1 && Count([1], 3) == 0 && Count([1, 3], 3) == 1;
    assert Listed(e, 0, 1) == [] && Listed(e, 0, 3) == [];
    assert Listed(e, 1, 1) == [] + Repeat(1, 1);
    assert Listed(e, 1, 3) == [] + Repeat(1, 0);
    assert Listed(e, 2, 1) == Listed(e, 1, 1) + Repeat(2, 1);
    assert Listed(e, 2, 3) == Listed(e, 1, 3) + Repeat(2, 1);
  }

  /** One element after one step of the loop as written. */
  lemma RenameStepAt(s: Dict<seq<int>>, olds: seq<int>, news: seq<int>, j: nat, k: int)
    requires s.Valid() && |olds| == |news| && j < |olds| && news[j] != olds[j] && k in s.m
    requires RepointedAsWritten(s, olds, news, j + 1).Ok?
    ensures RepointedAsWritten(s, olds, news, j).Ok?
    ensures var before := RepointedAsWritten(s, olds, news, j).value;
            var after := RepointedAsWritten(s, olds, news, j + 1).value;
            k in before.m && k in after.m &&
            after.m[k] == if k in Listed(s, |s.keys|, olds[j]) then Replace(before.m[k], olds[j], news[j]) else before.m[k]
  {
    RenameStepAsWritten(s, olds, news, j);
  }

  lemma SampleReplaced()
    ensures Replace([1], 1, 3) == [3] && Replace([1, 3], 1, 3) == [3, 3] && Replace([3, 3], 3, 4) == [4, 4]
  {
    assert [1, 3][1..] == [3] && [1][1..] == [] && [3, 3][1..] == [3] && [3][1..] == [];
  }

  /** The first collision on the sample: node 1 becomes 3 in both
      elements listed under it. */
  lemma SampleRepointedOnce(e: Dict<seq<int>>, olds: seq<int>, news: seq<int>)
    requires LikeSampleE2N(e) && SampleIds(olds, news)
    ensures var r := RepointedAsWritten(e, olds, news, 1);
            r.Ok? && 1 in r.value.m && 2 in r.value.m && r.value.m[1] == [3] && r.value.m[2] == [3, 3]
  {
    SampleListed(e);
    SampleReplaced();
    assert RepointedAsWritten(e, olds, news, 1).Ok?;
    RenameStepAt(e, olds, news, 0, 1);
    RenameStepAt(e, olds, news, 0, 2);
  }

  /** Neither collision raises on the sample. */
  lemma SampleRepointedOk(e: Dict<seq<int>>, olds: seq<int>, news: seq<int>)
    requires LikeSampleE2N(e) && SampleIds(olds, news)
    ensures RepointedAsWritten(e, olds, news, 1).Ok? && RepointedAsWritten(e, olds, news, 2).Ok?
  {
    SampleListed(e);
    SampleRepointedOnce(e, olds, news);
    assert Listed(e, |e.keys|, olds[1]) == [2];
  }

  /** The second collision on the sample leaves the stored element 1 as
      the first made it. */
  lemma SampleStoredRepointed(e: Dict<seq<int>>, olds: seq<int>, news: seq<int>)
    requires LikeSampleE2N(e) && SampleIds(olds, news)
    ensures var r := RepointedAsWritten(e, olds, news, 2);
            r.Ok? && 1 in r.value.m && r.value.m[1] == [3]
  {
    SampleListed(e);
    SampleRepointedOk(e, olds, news);
    SampleRepointedOnce(e, olds, news);
    RenameStepAt(e, olds, news, 1, 1);
    assert 1 !in Listed(e, |e.keys|, olds[1]);
  }

  /** The second collision on the sample renames the node the first one
      put into element 2. */
  lemma SampleIncomingRepointed(e: Dict<seq<int>>, olds: seq<int>, news: seq<int>)
    requires LikeSampleE2N(e) && SampleIds(olds, news)
    ensures var r := RepointedAsWritten(e, olds, news, 2);
            r.Ok? && 2 in r.value.m && r.value.m[2] == [4, 4]
  {
    SampleListed(e);
    SampleReplaced();
    SampleRepointedOk(e, olds, news);
    SampleRepointedOnce(e, olds, news);
    RenameStepAt(e, olds, news, 1, 2);
  }

  /** The corrected step on the sample: only element 2 is renamed. */
  lemma SampleRenamed()
    ensures var r := RenamedAll(SampleE2N, [2], Paired([1, 3], [3, 4]));
            1 in r.m && 2 in r.m && r.m[1] == [1] && r.m[2] == [3, 4]
  {
    var table := Paired([1, 3], [3, 4]);
    assert [1, 3][..1] == [1] && [3, 4][..1] == [3];
    assert table.m == map[1 := 3][3 := 4];
    assert Renamed([1, 3], table) == [3, 4];
    assert [2][..0] == [];
    assert RenamedAll(SampleE2N, [2], table) == SampleE2N.Put(2, Renamed([1, 3], table));
  }

  /** Fragment node 1 collides and becomes 3; fragment node 3 then
      collides with that new node and becomes 4. As written, the stored
      element 1 is repointed to node 3 (the fragment's coordinates) and
      the incoming element ends up as [4, 4]; the corrected step leaves
      element 1 alone and gives [3, 4]. */
  lemma NodeLoopCounterexample()
    ensures NodesMergedAsWritten(SampleNodes, SampleE2N, SampleFragNodes).Ok?
    ensures var r := NodesMergedAsWritten(SampleNodes, SampleE2N, SampleFragNodes).value.1;
            1 in r.m && 2 in r.m && r.m[1] == [3] && r.m[2] == [4, 4]
    ensures var r := NodesMerged(SampleNodes, SampleE2N, SampleFragNodes, [2]).1;
            1 in r.m && 2 in r.m && r.m[1] == [1] && r.m[2] == [3, 4]
  {
    SampleNewIds();
    SampleE2NShape();
    SampleStoredRepointed(SampleE2N, [1, 3], [3, 4]);
    SampleIncomingRepointed(SampleE2N, [1, 3], [3, 4]);
    SampleRenamed();
  }
}
