/** `get_N2E`, the inverse of an element-to-node map (E2N): for every node
    ID, the IDs of the elements that use it.  The same function appears in
    macros/solid_mesh_thicken.py (with a defaultdict), in
    macros/export_mesh_as_bdf.py and in macros/export_mystran_analysis.py;
    all three append the element ID once per occurrence of the node, going
    through E2N in insertion order. */
module NodeToElement {
  import opened Common
  import opened PyDict

  /** The list N2E holds for node n once the first i elements of E2N are
      done: each of their IDs, in order, repeated as often as the element
      names n. */
  function Listed(e2n: Dict<seq<int>>, i: nat, n: int): seq<int>
    requires e2n.Valid() && i <= |e2n.keys|
  {
    if i == 0 then []
    else
      var eid := e2n.keys[i - 1];
      assert eid in e2n.keys;
      Listed(e2n, i - 1, n) + Repeat(eid, Count(e2n.m[eid], n))
  }

  /** Element E is listed under node n once per occurrence of n in E's
      nodes, and no element outside the first i is listed at all. */
  lemma {:induction false} ListedCount(e2n: Dict<seq<int>>, i: nat, n: int, e: int)
    requires e2n.Valid() && i <= |e2n.keys|
    ensures e in e2n.keys[..i] ==> Count(Listed(e2n, i, n), e) == Count(e2n.m[e], n)
    ensures e !in e2n.keys[..i] ==> Count(Listed(e2n, i, n), e) == 0
  {
    if i > 0 {
      var eid := e2n.keys[i - 1];
      assert eid in e2n.keys;
      ListedCount(e2n, i - 1, n, e);
      CountAppend(Listed(e2n, i - 1, n), Repeat(eid, Count(e2n.m[eid], n)), e);
      RepeatCount(eid, Count(e2n.m[eid], n), e);
      assert e2n.keys[..i] == e2n.keys[..i - 1] + [eid];
    }
  }

  /** Only IDs of the first i elements are listed. */
  lemma {:induction false} ListedElements(e2n: Dict<seq<int>>, i: nat, n: int)
    requires e2n.Valid() && i <= |e2n.keys|
    ensures forall e :: e in Listed(e2n, i, n) ==> e in e2n.keys[..i]
  {
    if i > 0 {
      var eid := e2n.keys[i - 1];
      assert eid in e2n.keys;
      ListedElements(e2n, i - 1, n);
      assert e2n.keys[..i] == e2n.keys[..i - 1] + [eid];
    }
  }

  /** Node n has an entry exactly when one of the first i elements names it. */
  lemma {:induction false} ListedNonEmpty(e2n: Dict<seq<int>>, i: nat, n: int)
    requires e2n.Valid() && i <= |e2n.keys|
    ensures |Listed(e2n, i, n)| > 0 <==>
              exists j :: 0 <= j < i && e2n.keys[j] in e2n.m && n in e2n.m[e2n.keys[j]]
  {
    if i > 0 {
      var eid := e2n.keys[i - 1];
      assert eid in e2n.keys;
      ListedNonEmpty(e2n, i - 1, n);
      if n in e2n.m[eid] {
        assert |Repeat(eid, Count(e2n.m[eid], n))| > 0;
      }
    }
  }

  /** N2E once the first i elements of E2N are done. */
  ghost predicate Inverts(n2e: Dict<seq<int>>, e2n: Dict<seq<int>>, i: nat)
    requires e2n.Valid() && i <= |e2n.keys|
  {
    n2e.Valid() &&
    (forall n {:trigger n in n2e.m} :: n in n2e.m <==> |Listed(e2n, i, n)| > 0) &&
    (forall n {:trigger n in n2e.m} :: n in n2e.m ==> n2e.m[n] == Listed(e2n, i, n))
  }

  /** The list under n while element `eid` (the i-th) is half done: its
      first p nodes have been visited. */
  function Partial(e2n: Dict<seq<int>>, i: nat, n: int, eid: int, p: nat): seq<int>
    requires e2n.Valid() && i < |e2n.keys| && eid == e2n.keys[i] && eid in e2n.m && p <= |e2n.m[eid]|
  {
    Listed(e2n, i, n) + Repeat(eid, Count(e2n.m[eid][..p], n))
  }

  /** Every node's entry is its partial list, and only nodes with a
      non-empty partial list have one. */
  ghost predicate Indexed(d: Dict<seq<int>>, e2n: Dict<seq<int>>, i: nat, eid: int, p: nat)
    requires e2n.Valid() && i < |e2n.keys| && eid == e2n.keys[i] && eid in e2n.m && p <= |e2n.m[eid]|
  {
    forall n {:trigger n in d.m} :: (n in d.m <==> |Partial(e2n, i, n, eid, p)| > 0) &&
                (n in d.m ==> d.m[n] == Partial(e2n, i, n, eid, p))
  }

  /** Before any node of element i is visited, the partial lists are the
      lists after i elements. */
  lemma ElementStart(d: Dict<seq<int>>, e2n: Dict<seq<int>>, i: nat, eid: int)
    requires e2n.Valid() && i < |e2n.keys| && eid == e2n.keys[i] && eid in e2n.m
    requires Inverts(d, e2n, i)
    ensures Indexed(d, e2n, i, eid, 0)
  {
    forall n ensures Partial(e2n, i, n, eid, 0) == Listed(e2n, i, n) {
      assert e2n.m[eid][..0] == [];
    }
  }

  /** Visiting node p of the element appends the element's ID to that
      node's list (creating the list when the node is new) and to no
      other. */
  lemma VisitStep(d: Dict<seq<int>>, d2: Dict<seq<int>>, e2n: Dict<seq<int>>, i: nat, eid: int, p: nat)
    requires e2n.Valid() && i < |e2n.keys| && eid == e2n.keys[i] && eid in e2n.m && p < |e2n.m[eid]|
    requires Indexed(d, e2n, i, eid, p)
    requires var nid := e2n.m[eid][p];
      d2.m == d.m[nid := (if nid in d.m then d.m[nid] else []) + [eid]]
    ensures Indexed(d2, e2n, i, eid, p + 1)
  {
    forall n ensures Partial(e2n, i, n, eid, p + 1) ==
                     if n == e2n.m[eid][p] then Partial(e2n, i, n, eid, p) + [eid] else Partial(e2n, i, n, eid, p) {
      PartialStep(e2n, i, eid, p, n);
    }
  }

  lemma PartialStep(e2n: Dict<seq<int>>, i: nat, eid: int, p: nat, n: int)
    requires e2n.Valid() && i < |e2n.keys| && eid == e2n.keys[i] && eid in e2n.m && p < |e2n.m[eid]|
    ensures Partial(e2n, i, n, eid, p + 1) ==
            if n == e2n.m[eid][p] then Partial(e2n, i, n, eid, p) + [eid] else Partial(e2n, i, n, eid, p)
  {
    var el := e2n.m[eid];
    assert el[..p + 1] == el[..p] + [el[p]];
    CountAppend(el[..p], [el[p]], n);
  }

  /** Once every node of element i is visited, the partial lists are the
      lists after i + 1 elements. */
  lemma ElementDone(d: Dict<seq<int>>, e2n: Dict<seq<int>>, i: nat, eid: int)
    requires e2n.Valid() && i < |e2n.keys| && eid == e2n.keys[i] && eid in e2n.m
    requires d.Valid() && Indexed(d, e2n, i, eid, |e2n.m[eid]|)
    ensures Inverts(d, e2n, i + 1)
  {
    assert e2n.m[eid][..|e2n.m[eid]|] == e2n.m[eid];
    forall n ensures Partial(e2n, i, n, eid, |e2n.m[eid]|) == Listed(e2n, i + 1, n) {
    }
  }

  /** The inner loop of `get_N2E`: the ID of element i is appended to the
      list of every node it names, once per occurrence. */
  method AddElement(n2e: Dict<seq<int>>, e2n: Dict<seq<int>>, i: nat) returns (r: Dict<seq<int>>)
    requires e2n.Valid() && i < |e2n.keys| && Inverts(n2e, e2n, i)
    ensures Inverts(r, e2n, i + 1)
  {
    var eid := e2n.keys[i];
    assert eid in e2n.keys;
    var element := e2n.m[eid];
    ElementStart(n2e, e2n, i, eid);
    r := n2e;
    var p := 0;
    while p < |element|
      invariant 0 <= p <= |element|
      invariant r.Valid()
      invariant Indexed(r, e2n, i, eid, p)
    {
      var nid := element[p];
      ghost var before := r;
      if nid !in r.m {
        r := r.Put(nid, []);
      }
      r := r.Put(nid, r.m[nid] + [eid]);
      VisitStep(before, r, e2n, i, eid, p);
      p := p + 1;
    }
    ElementDone(r, e2n, i, eid);
  }

  /** `get_N2E`: N2E has an entry for exactly the nodes some element names,
      and node n's entry is `Listed(e2n, |E2N|, n)`: the element IDs in E2N
      order, each once per occurrence of n (see ListedCount). */
  method GetN2E(e2n: Dict<seq<int>>) returns (n2e: Dict<seq<int>>)
    requires e2n.Valid()
    ensures n2e.Valid()
    ensures forall n :: n in n2e.m <==> |Listed(e2n, |e2n.keys|, n)| > 0
    ensures forall n :: n in n2e.m ==> n2e.m[n] == Listed(e2n, |e2n.keys|, n)
  {
    n2e := Empty();
    var i := 0;
    while i < |e2n.keys|
      invariant 0 <= i <= |e2n.keys|
      invariant Inverts(n2e, e2n, i)
    {
      n2e := AddElement(n2e, e2n, i);
      i := i + 1;
    }
  }
}
