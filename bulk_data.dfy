/** The small-field bulk-data writer of the MYSTRAN exporter
    (macros/export_mystran_analysis.py, `create_bulkdata_list`): property,
    material, element and GRID cards built from a mesh's dictionaries. */
module BulkData {
  import opened Common
  import opened Text
  import opened PyDict
  import opened FemMesh
  import opened SmallField

  /** Why the writer raises. */
  datatype BulkError =
    | NonDefaultProperty(pid: int)       // P2T[PID] != 0
    | NotOneType(pid: int)               // the property's elements are not all of one type, or there are none
    | NoDimension(typ: int)              // the type is not a key of `element_type_to_dimension`
    | UnsupportedDimension(dim: int)     // elements of dimension 0 or 1
    | NonDefaultMaterial(mid: int)       // M2T[MID] != 0
    | NotOneProperty(mid: int)           // the material is used by no property or by several
    | BadHexa(eid: int)                  // a CHEXA without 8 nodes
    | ShortQuad(eid: int)                // a CQUAD4 with fewer than 4 nodes (an IndexError)
    | BadTetra(eid: int)                 // a CTETRA without 10 nodes
    | UnsupportedType(eid: int)          // an element type other than 7, 15 and 19
    | BadFloat(nid: int)                 // the float encoder's text is not 8 characters long
    | MissingMaterial(pid: int)          // P2M has no entry for the property (a KeyError)

  /** `element_type_to_dimension`. */
  const TypeToDimension: map<int, int> :=
    map[1 := 1, 2 := 1, 3 := 1, 4 := 1, 5 := 1, 6 := 1, 7 := 3, 8 := 0, 9 := 0, 10 := 0, 11 := 0,
        12 := 0, 13 := 1, 14 := 3, 15 := 2, 16 := 2, 17 := 1, 18 := 2, 19 := 3, 20 := 2, 21 := 2]

  /** `str(int(n)) + " " * (8 - len(str(int(n))))`: the ID left-justified
      in a field of eight. */
  function IdField(n: int): string
  {
    IntToString(n) + Spaces(8 - |IntToString(n)|)
  }

  /** The decimal text of the ID fits in a small field. */
  predicate Fits(n: int)
  {
    |IntToString(n)| <= 8
  }

  /** A field of eight holds the ID text, then blanks; reading the text
      back gives the ID. */
  lemma IdFieldLayout(n: int)
    requires Fits(n)
    ensures |IdField(n)| == 8
    ensures IdField(n)[..|IntToString(n)|] == IntToString(n)
    ensures forall i :: |IntToString(n)| <= i < 8 ==> IdField(n)[i] == ' '
    ensures ParseInt(IdField(n)[..|IntToString(n)|]) == Some(n)
  {
    IntToStringRoundTrip(n);
    var s := IntToString(n);
    assert IdField(n)[..|s|] == s;
    forall i | |s| <= i < 8 ensures IdField(n)[i] == ' ' {
      assert IdField(n)[i] == Spaces(8 - |s|)[i - |s|];
    }
  }

  /** An ID that fits fills one field. */
  lemma IdFieldWidth(n: int)
    requires Fits(n)
    ensures |IdField(n)| == 8
  {
  }

  /** Every ID from 0 to 99999999 fits. */
  lemma FitsBelow(n: int)
    requires 0 <= n < Pow10(8)
    ensures Fits(n)
  {
    NatToStringLength(n, 8);
  }

  /** The ID fields of a list of IDs, one after the other. */
  function IdFields(ns: seq<int>): (fs: seq<string>)
    ensures |fs| == |ns| && forall k :: 0 <= k < |ns| ==> fs[k] == IdField(ns[k])
  {
    seq(|ns|, k requires 0 <= k < |ns| => IdField(ns[k]))
  }

  /** `element_types` for property `pid`: the type of every element that
      carries it, in the order of E2P. */
  function TypesOf(keys: seq<int>, e2p: map<int, int>, e2t: map<int, int>, pid: int): (ts: seq<int>)
    requires forall e :: e in keys ==> e in e2p && e in e2t
    ensures forall t :: t in ts <==> exists e :: e in keys && e2p[e] == pid && e2t[e] == t
    decreases |keys|
  {
    if keys == [] then []
    else
      var last := keys[|keys| - 1];
      TypesOf(keys[..|keys| - 1], e2p, e2t, pid) + (if e2p[last] == pid then [e2t[last]] else [])
  }

  /** `len(set(element_types)) == 1`: there is at least one element and
      they all have the first one's type. */
  predicate OneType(ts: seq<int>)
  {
    |ts| > 0 && forall i :: 0 <= i < |ts| ==> ts[i] == ts[0]
  }

  /** Lines 127-152 (and 190-213): the dimension of the one element type
      of property `pid`, or why there is none that the writer supports. */
  function PropertyDimension(data: MeshData, pid: int): (r: Result<int, BulkError>)
    requires data.e2p.Valid() && forall e :: e in data.e2p.m ==> e in data.e2t.m
    ensures r.Ok? ==> r.value == 2 || r.value == 3
  {
    var ts := TypesOf(data.e2p.keys, data.e2p.m, data.e2t.m, pid);
    if !OneType(ts) then Err(NotOneType(pid))
    else if ts[0] !in TypeToDimension then Err(NoDimension(ts[0]))
    else if TypeToDimension[ts[0]] == 0 || TypeToDimension[ts[0]] == 1 then Err(UnsupportedDimension(TypeToDimension[ts[0]]))
    else Ok(TypeToDimension[ts[0]])
  }

  /** The property card of `pid`: PSHELL for shell elements, PSOLID for
      solids, each followed by the PID and MID fields; the MID is looked
      up in P2M only once the dimension is known. */
  function PropertyCard(data: MeshData, p2t: Dict<int>, pid: int): Result<seq<string>, BulkError>
    requires data.e2p.Valid() && forall e :: e in data.e2p.m ==> e in data.e2t.m
    requires pid in p2t.m
  {
    if p2t.m[pid] != 0 then Err(NonDefaultProperty(pid))
    else
      match PropertyDimension(data, pid)
      case Err(e) => Err(e)
      case Ok(d) =>
        if pid !in data.p2m.m then Err(MissingMaterial(pid))
        else Ok([Fields([if d == 2 then "PSHELL  " else "PSOLID  ", IdField(pid), IdField(data.p2m.m[pid])])])
  }

  /** The properties whose material is `mid`, in the order of P2M. */
  function Users(keys: seq<int>, p2m: map<int, int>, mid: int): (r: seq<int>)
    requires forall p :: p in keys ==> p in p2m
    ensures forall p :: p in r <==> p in keys && p2m[p] == mid
    decreases |keys|
  {
    if keys == [] then []
    else
      var last := keys[|keys| - 1];
      Users(keys[..|keys| - 1], p2m, mid) + (if p2m[last] == mid then [last] else [])
  }

  /** The material card of `mid`: MAT1 and the MID field, when exactly one
      property uses the material and that property's elements are ones the
      writer supports. */
  function MaterialCard(data: MeshData, m2t: Dict<int>, mid: int): Result<seq<string>, BulkError>
    requires data.p2m.Valid() && data.e2p.Valid() && forall e :: e in data.e2p.m ==> e in data.e2t.m
    requires mid in m2t.m
  {
    if m2t.m[mid] != 0 then Err(NonDefaultMaterial(mid))
    else
      var users := Users(data.p2m.keys, data.p2m.m, mid);
      if |users| != 1 then Err(NotOneProperty(mid))
      else
        match PropertyDimension(data, users[0])
        case Err(e) => Err(e)
        case Ok(_) => Ok([Fields(["MAT1    ", IdField(mid)])])
  }

  /** The element card of `e`: CHEXA (8 nodes) and CTETRA (10 nodes) on
      two lines, the second behind eight blanks; CQUAD4 on one line with
      the first four nodes. */
  function ElementCard(eid: int, typ: int, pid: int, ns: seq<int>): Result<seq<string>, BulkError>
  {
    if typ == 7 then
      if |ns| == 8 then
        Ok([Fields(["CHEXA   ", IdField(eid), IdField(pid)] + IdFields(ns[..6])),
            Fields([Spaces(8)] + IdFields(ns[6..]))])
      else Err(BadHexa(eid))
    else if typ == 15 then
      if |ns| >= 4 then Ok([Fields(["CQUAD4  ", IdField(eid), IdField(pid)] + IdFields(ns[..4]))])
      else Err(ShortQuad(eid))
    else if typ == 19 then
      if |ns| == 10 then
        Ok([Fields(["CTETRA  ", IdField(eid), IdField(pid)] + IdFields(ns[..6])),
            Fields([Spaces(8)] + IdFields(ns[6..]))])
      else Err(BadTetra(eid))
    else Err(UnsupportedType(eid))
  }

  /** The GRID card of node `nid`: the ID field, a blank field, and the
      three coordinates as the encoder writes them; the encoder raises
      unless its text is eight characters long. */
  function GridCard(nid: int, p: Point, enc: real -> string): Result<seq<string>, BulkError>
  {
    if |enc(p.x)| != 8 || |enc(p.y)| != 8 || |enc(p.z)| != 8 then Err(BadFloat(nid))
    else Ok([Fields(["GRID    ", IdField(nid), Spaces(8), enc(p.x), enc(p.y), enc(p.z)])])
  }

  /** The lines of a section: the cards in key order, or the first
      error. */
  function Collect(cards: seq<Result<seq<string>, BulkError>>): Result<seq<string>, BulkError>
    decreases |cards|
  {
    if cards == [] then Ok([])
    else
      match Collect(cards[..|cards| - 1])
      case Err(e) => Err(e)
      case Ok(lines) =>
        match cards[|cards| - 1]
        case Err(e) => Err(e)
        case Ok(more) => Ok(lines + more)
  }

  /** The lines of every card, one card after the other. */
  function Flatten(cards: seq<Result<seq<string>, BulkError>>): seq<string>
    requires forall i :: 0 <= i < |cards| ==> cards[i].Ok?
    decreases |cards|
  {
    if cards == [] then [] else Flatten(cards[..|cards| - 1]) + cards[|cards| - 1].value
  }

  /** A section is written exactly when no card fails; it then holds every
      card's lines in order, and otherwise its error is the first card's
      error. */
  lemma {:induction false} CollectMeaning(cards: seq<Result<seq<string>, BulkError>>)
    ensures Collect(cards).Ok? <==> forall i :: 0 <= i < |cards| ==> cards[i].Ok?
    ensures Collect(cards).Ok? ==> Collect(cards).value == Flatten(cards)
    ensures Collect(cards).Err? ==>
              exists i :: 0 <= i < |cards| && cards[i] == Err(Collect(cards).error) &&
                          forall j :: 0 <= j < i ==> cards[j].Ok?
    decreases |cards|
  {
    if cards != [] {
      var init := cards[..|cards| - 1];
      CollectMeaning(init);
      assert forall i :: 0 <= i < |init| ==> init[i] == cards[i];
    }
  }

  lemma {:induction false} CollectStops(cards: seq<Result<seq<string>, BulkError>>, i: nat)
    requires i <= |cards| && Collect(cards[..i]).Err?
    ensures Collect(cards) == Collect(cards[..i])
    decreases |cards| - i
  {
    if i < |cards| {
      assert cards[..i + 1][..i] == cards[..i];
      CollectStops(cards, i + 1);
    } else {
      assert cards[..i] == cards;
    }
  }

  /** What `create_bulkdata_list` is given: the element dictionaries agree
      on their keys, as the exporter's `get_data_from_mesh_objects` builds
      E2N, E2T and E2P in one loop over the elements. */
  ghost predicate Linked(data: MeshData, p2t: Dict<int>, m2t: Dict<int>)
  {
    data.nodes.Valid() && data.e2n.Valid() && data.e2p.Valid() && data.p2m.Valid() && p2t.Valid() && m2t.Valid() &&
    (forall e :: e in data.e2n.m ==> e in data.e2t.m && e in data.e2p.m) &&
    (forall e :: e in data.e2p.m ==> e in data.e2t.m)
  }

  ghost function PropertyCards(data: MeshData, p2t: Dict<int>, m2t: Dict<int>): (cs: seq<Result<seq<string>, BulkError>>)
    requires Linked(data, p2t, m2t)
    ensures |cs| == |p2t.keys|
    ensures forall i :: 0 <= i < |cs| ==> p2t.keys[i] in p2t.m && cs[i] == PropertyCard(data, p2t, p2t.keys[i])
  {
    KeysIn(p2t);
    seq(|p2t.keys|, i requires 0 <= i < |p2t.keys| => PropertyCard(data, p2t, p2t.keys[i]))
  }

  ghost function MaterialCards(data: MeshData, p2t: Dict<int>, m2t: Dict<int>): (cs: seq<Result<seq<string>, BulkError>>)
    requires Linked(data, p2t, m2t)
    ensures |cs| == |m2t.keys|
    ensures forall i :: 0 <= i < |cs| ==> m2t.keys[i] in m2t.m && cs[i] == MaterialCard(data, m2t, m2t.keys[i])
  {
    KeysIn(m2t);
    seq(|m2t.keys|, i requires 0 <= i < |m2t.keys| => MaterialCard(data, m2t, m2t.keys[i]))
  }

  ghost function ElementCards(data: MeshData, p2t: Dict<int>, m2t: Dict<int>): (cs: seq<Result<seq<string>, BulkError>>)
    requires Linked(data, p2t, m2t)
    ensures |cs| == |data.e2n.keys|
    ensures forall i :: 0 <= i < |cs| ==>
              var e := data.e2n.keys[i];
              e in data.e2n.m && e in data.e2t.m && e in data.e2p.m &&
              cs[i] == ElementCard(e, data.e2t.m[e], data.e2p.m[e], data.e2n.m[e])
  {
    var ks := data.e2n.keys;
    KeysIn(data.e2n);
    seq(|ks|, i requires 0 <= i < |ks| => ElementCard(ks[i], data.e2t.m[ks[i]], data.e2p.m[ks[i]], data.e2n.m[ks[i]]))
  }

  ghost function GridCards(data: MeshData, p2t: Dict<int>, m2t: Dict<int>, enc: real -> string): (cs: seq<Result<seq<string>, BulkError>>)
    requires Linked(data, p2t, m2t)
    ensures |cs| == |data.nodes.keys|
    ensures forall i :: 0 <= i < |cs| ==>
              data.nodes.keys[i] in data.nodes.m && cs[i] == GridCard(data.nodes.keys[i], data.nodes.m[data.nodes.keys[i]], enc)
  {
    var ks := data.nodes.keys;
    KeysIn(data.nodes);
    seq(|ks|, i requires 0 <= i < |ks| => GridCard(ks[i], data.nodes.m[ks[i]], enc))
  }

  /** `create_bulkdata_list`: "BEGIN BULK" and a blank line, then the
      property, material, element and GRID sections, the first three each
      closed by a blank line; no ENDDATA. */
  ghost function BulkdataList(data: MeshData, p2t: Dict<int>, m2t: Dict<int>, enc: real -> string): Result<seq<string>, BulkError>
    requires Linked(data, p2t, m2t)
  {
    match Collect(PropertyCards(data, p2t, m2t))
    case Err(e) => Err(e)
    case Ok(props) =>
      match Collect(MaterialCards(data, p2t, m2t))
      case Err(e) => Err(e)
      case Ok(mats) =>
        match Collect(ElementCards(data, p2t, m2t))
        case Err(e) => Err(e)
        case Ok(elems) =>
          match Collect(GridCards(data, p2t, m2t, enc))
          case Err(e) => Err(e)
          case Ok(grids) => Ok(["BEGIN BULK", ""] + props + [""] + mats + [""] + elems + [""] + grids)
  }

  /** The loop of lines 131-135 (and 194-198) that lists the types of the
      elements carrying property `pid`. */
  method ElementTypes(data: MeshData, pid: int) returns (ts: seq<int>)
    requires data.e2p.Valid() && forall e :: e in data.e2p.m ==> e in data.e2t.m
    ensures ts == TypesOf(data.e2p.keys, data.e2p.m, data.e2t.m, pid)
  {
    var keys := data.e2p.keys;
    KeysIn(data.e2p);
    ts := [];
    for i := 0 to |keys|
      invariant ts == TypesOf(keys[..i], data.e2p.m, data.e2t.m, pid)
    {
      assert keys[..i + 1][..i] == keys[..i];
      assert keys[i] in keys;
      assert keys[i] in data.e2p.m;
      assert forall e :: e in data.e2p.m ==> e in data.e2t.m;
      if data.e2p.m[keys[i]] == pid {
        ts := ts + [data.e2t.m[keys[i]]];
      }
    }
    assert keys[..|keys|] == keys;
  }

  method Dimension(data: MeshData, pid: int) returns (r: Result<int, BulkError>)
    requires data.e2p.Valid() && forall e :: e in data.e2p.m ==> e in data.e2t.m
    ensures r == PropertyDimension(data, pid)
  {
    var ts := ElementTypes(data, pid);
    if !OneType(ts) {
      return Err(NotOneType(pid));
    }
    if ts[0] !in TypeToDimension {
      return Err(NoDimension(ts[0]));
    }
    var dimension := TypeToDimension[ts[0]];
    if dimension == 0 || dimension == 1 {
      return Err(UnsupportedDimension(dimension));
    }
    return Ok(dimension);
  }

  /** Lines 123-168 for one property. */
  method PropertyCardOf(data: MeshData, p2t: Dict<int>, pid: int) returns (r: Result<seq<string>, BulkError>)
    requires data.e2p.Valid() && forall e :: e in data.e2p.m ==> e in data.e2t.m
    requires pid in p2t.m
    ensures r == PropertyCard(data, p2t, pid)
  {
    if p2t.m[pid] != 0 {
      return Err(NonDefaultProperty(pid));
    }
    var dimension := Dimension(data, pid);
    if dimension.Err? {
      return Err(dimension.error);
    }
    if pid !in data.p2m.m {
      return Err(MissingMaterial(pid));
    }
    var name := if dimension.value == 2 then "PSHELL  " else "PSOLID  ";
    return Ok([Fields([name, IdField(pid), IdField(data.p2m.m[pid])])]);
  }

  /** The loop of lines 178-181. */
  method PropertiesUsing(p2m: Dict<int>, mid: int) returns (ps: seq<int>)
    requires p2m.Valid()
    ensures ps == Users(p2m.keys, p2m.m, mid)
  {
    var keys := p2m.keys;
    KeysIn(p2m);
    ps := [];
    for i := 0 to |keys|
      invariant ps == Users(keys[..i], p2m.m, mid)
    {
      assert keys[..i + 1][..i] == keys[..i];
      assert keys[i] in keys;
      if p2m.m[keys[i]] == mid {
        ps := ps + [keys[i]];
      }
    }
    assert keys[..|keys|] == keys;
  }

  /** Lines 174-221 for one material. */
  method MaterialCardOf(data: MeshData, m2t: Dict<int>, mid: int) returns (r: Result<seq<string>, BulkError>)
    requires data.p2m.Valid() && data.e2p.Valid() && forall e :: e in data.e2p.m ==> e in data.e2t.m
    requires mid in m2t.m
    ensures r == MaterialCard(data, m2t, mid)
  {
    if m2t.m[mid] != 0 {
      return Err(NonDefaultMaterial(mid));
    }
    var users := PropertiesUsing(data.p2m, mid);
    if |users| != 1 {
      return Err(NotOneProperty(mid));
    }
    var dimension := Dimension(data, users[0]);
    if dimension.Err? {
      return Err(dimension.error);
    }
    return Ok([Fields(["MAT1    ", IdField(mid)])]);
  }

  method PropertySection(data: MeshData, p2t: Dict<int>, m2t: Dict<int>) returns (r: Result<seq<string>, BulkError>)
    requires Linked(data, p2t, m2t)
    ensures r == Collect(PropertyCards(data, p2t, m2t))
  {
    ghost var cards := PropertyCards(data, p2t, m2t);
    var lines: seq<string> := [];
    for i := 0 to |p2t.keys|
      invariant Collect(cards[..i]) == Ok(lines)
    {
      var card := PropertyCardOf(data, p2t, p2t.keys[i]);
      assert cards[..i + 1][..i] == cards[..i] && cards[..i + 1][i] == card;
      if card.Err? {
        CollectStops(cards, i + 1);
        return card;
      }
      lines := lines + card.value;
    }
    assert cards[..|cards|] == cards;
    return Ok(lines);
  }

  method MaterialSection(data: MeshData, p2t: Dict<int>, m2t: Dict<int>) returns (r: Result<seq<string>, BulkError>)
    requires Linked(data, p2t, m2t)
    ensures r == Collect(MaterialCards(data, p2t, m2t))
  {
    ghost var cards := MaterialCards(data, p2t, m2t);
    var lines: seq<string> := [];
    for i := 0 to |m2t.keys|
      invariant Collect(cards[..i]) == Ok(lines)
    {
      var card := MaterialCardOf(data, m2t, m2t.keys[i]);
      assert cards[..i + 1][..i] == cards[..i] && cards[..i + 1][i] == card;
      if card.Err? {
        CollectStops(cards, i + 1);
        return card;
      }
      lines := lines + card.value;
    }
    assert cards[..|cards|] == cards;
    return Ok(lines);
  }

  /** Lines 226-284. */
  method ElementSection(data: MeshData, p2t: Dict<int>, m2t: Dict<int>) returns (r: Result<seq<string>, BulkError>)
    requires Linked(data, p2t, m2t)
    ensures r == Collect(ElementCards(data, p2t, m2t))
  {
    ghost var cards := ElementCards(data, p2t, m2t);
    var keys := data.e2n.keys;
    var lines: seq<string> := [];
    for i := 0 to |keys|
      invariant Collect(cards[..i]) == Ok(lines)
    {
      var e := keys[i];
      var card := ElementCard(e, data.e2t.m[e], data.e2p.m[e], data.e2n.m[e]);
      assert cards[..i + 1][..i] == cards[..i] && cards[..i + 1][i] == card;
      if card.Err? {
        CollectStops(cards, i + 1);
        return card;
      }
      lines := lines + card.value;
    }
    assert cards[..|cards|] == cards;
    return Ok(lines);
  }

  /** Lines 288-307. */
  method GridSection(data: MeshData, p2t: Dict<int>, m2t: Dict<int>, enc: real -> string) returns (r: Result<seq<string>, BulkError>)
    requires Linked(data, p2t, m2t)
    ensures r == Collect(GridCards(data, p2t, m2t, enc))
  {
    ghost var cards := GridCards(data, p2t, m2t, enc);
    var keys := data.nodes.keys;
    var lines: seq<string> := [];
    for i := 0 to |keys|
      invariant Collect(cards[..i]) == Ok(lines)
    {
      var n := keys[i];
      var card := GridCard(n, data.nodes.m[n], enc);
      assert cards[..i + 1][..i] == cards[..i] && cards[..i + 1][i] == card;
      if card.Err? {
        CollectStops(cards, i + 1);
        return card;
      }
      lines := lines + card.value;
    }
    assert cards[..|cards|] == cards;
    return Ok(lines);
  }

  /** `create_bulkdata_list`. */
  method CreateBulkdataList(data: MeshData, p2t: Dict<int>, m2t: Dict<int>, enc: real -> string)
    returns (r: Result<seq<string>, BulkError>)
    requires Linked(data, p2t, m2t)
    ensures r == BulkdataList(data, p2t, m2t, enc)
  {
    var bulkdata := ["BEGIN BULK", ""];
    var props := PropertySection(data, p2t, m2t);
    if props.Err? {
      return Err(props.error);
    }
    bulkdata := bulkdata + props.value + [""];
    var mats := MaterialSection(data, p2t, m2t);
    if mats.Err? {
      return Err(mats.error);
    }
    bulkdata := bulkdata + mats.value + [""];
    var elems := ElementSection(data, p2t, m2t);
    if elems.Err? {
      return Err(elems.error);
    }
    bulkdata := bulkdata + elems.value + [""];
    var grids := GridSection(data, p2t, m2t, enc);
    if grids.Err? {
      return Err(grids.error);
    }
    return Ok(bulkdata + grids.value);
  }

  /** The element types whose properties get a PSHELL card, and those whose
      properties get a PSOLID card. */
  const ShellTypes: set<int> := {15, 16, 18, 20, 21}
  const SolidTypes: set<int> := {7, 14, 19}

  /** A type's dimension is 2 for shells, 3 for solids, and 0 or 1 for
      every other type the table knows. */
  lemma DimensionTable(t: int)
    ensures t in ShellTypes <==> t in TypeToDimension && TypeToDimension[t] == 2
    ensures t in SolidTypes <==> t in TypeToDimension && TypeToDimension[t] == 3
    ensures t in TypeToDimension ==> 0 <= TypeToDimension[t] <= 3
  {
  }

  /** Property `pid` is carried by at least one element, and every element
      that carries it has type `t`. */
  ghost predicate OfOneType(data: MeshData, pid: int, t: int)
    requires forall e :: e in data.e2p.m ==> e in data.e2t.m
  {
    (exists e :: e in data.e2p.m && data.e2p.m[e] == pid) &&
    forall e :: e in data.e2p.m && data.e2p.m[e] == pid ==> data.e2t.m[e] == t
  }

  /** The list test `len(set(element_types)) == 1` says that the property's
      elements share one type, and that type heads the list. */
  lemma OneTypeMeaning(data: MeshData, pid: int)
    requires data.e2p.Valid() && forall e :: e in data.e2p.m ==> e in data.e2t.m
    ensures var ts := TypesOf(data.e2p.keys, data.e2p.m, data.e2t.m, pid);
      (OneType(ts) <==> exists t :: OfOneType(data, pid, t)) &&
      forall t :: OfOneType(data, pid, t) ==> |ts| > 0 && ts[0] == t
  {
    var ts := TypesOf(data.e2p.keys, data.e2p.m, data.e2t.m, pid);
    if OneType(ts) {
      var t := ts[0];
      assert t in ts;
      forall e | e in data.e2p.m && data.e2p.m[e] == pid ensures data.e2t.m[e] == t {
        assert e in data.e2p.keys;
        assert data.e2t.m[e] in ts;
        var i :| 0 <= i < |ts| && ts[i] == data.e2t.m[e];
      }
      assert OfOneType(data, pid, t);
    }
    forall t | OfOneType(data, pid, t) ensures |ts| > 0 && ts[0] == t && OneType(ts) {
      var e :| e in data.e2p.m && data.e2p.m[e] == pid;
      assert e in data.e2p.keys;
      assert data.e2t.m[e] in ts;
      forall i | 0 <= i < |ts| ensures ts[i] == t {
        assert ts[i] in ts;
      }
    }
  }

  /** A property has a dimension exactly when its elements share a shell or
      solid type; the dimension is 2 for shells and 3 for solids. */
  lemma PropertyDimensionMeaning(data: MeshData, pid: int)
    requires data.e2p.Valid() && forall e :: e in data.e2p.m ==> e in data.e2t.m
    ensures PropertyDimension(data, pid).Ok? <==> exists t :: OfOneType(data, pid, t) && (t in ShellTypes || t in SolidTypes)
    ensures forall t :: OfOneType(data, pid, t) && t in ShellTypes ==> PropertyDimension(data, pid) == Ok(2)
    ensures forall t :: OfOneType(data, pid, t) && t in SolidTypes ==> PropertyDimension(data, pid) == Ok(3)
  {
    OneTypeMeaning(data, pid);
    var ts := TypesOf(data.e2p.keys, data.e2p.m, data.e2t.m, pid);
    if OneType(ts) {
      DimensionTable(ts[0]);
    }
  }

  /** A card's line starts with its first field. */
  lemma {:induction false} FieldsStart(fs: seq<string>)
    requires |fs| > 0
    ensures |fs[0]| <= |Fields(fs)| && Fields(fs)[..|fs[0]|] == fs[0]
    decreases |fs|
  {
    if |fs| > 1 {
      var init := fs[..|fs| - 1];
      FieldsStart(init);
      assert init[0] == fs[0];
      assert Fields(fs) == Fields(init) + fs[|fs| - 1];
    } else {
      assert Fields(fs) == Fields([]) + fs[0];
    }
  }

  /** Lines 123-168: a property gets a card exactly when P2T gives it the
      default type 0, its elements share a shell or solid type and P2M
      gives it a material; without a material the lookup raises KeyError.
      The card is PSHELL for shells and PSOLID for solids. */
  lemma PropertyCardMeaning(data: MeshData, p2t: Dict<int>, pid: int)
    requires data.e2p.Valid() && forall e :: e in data.e2p.m ==> e in data.e2t.m
    requires pid in p2t.m
    ensures PropertyCard(data, p2t, pid).Ok? <==>
              p2t.m[pid] == 0 && (exists t :: OfOneType(data, pid, t) && (t in ShellTypes || t in SolidTypes)) &&
              pid in data.p2m.m
    ensures PropertyCard(data, p2t, pid) == Err(MissingMaterial(pid)) <==>
              p2t.m[pid] == 0 && (exists t :: OfOneType(data, pid, t) && (t in ShellTypes || t in SolidTypes)) &&
              pid !in data.p2m.m
    ensures PropertyCard(data, p2t, pid).Ok? ==>
              var ls := PropertyCard(data, p2t, pid).value;
              |ls| == 1 && 8 <= |ls[0]| &&
              (ls[0][..8] == "PSHELL  " <==> exists t :: OfOneType(data, pid, t) && t in ShellTypes) &&
              (ls[0][..8] == "PSOLID  " <==> exists t :: OfOneType(data, pid, t) && t in SolidTypes)
  {
    PropertyDimensionMeaning(data, pid);
    var r := PropertyCard(data, p2t, pid);
    if r.Ok? {
      var d := PropertyDimension(data, pid).value;
      var name := if d == 2 then "PSHELL  " else "PSOLID  ";
      var fs := [name, IdField(pid), IdField(data.p2m.m[pid])];
      assert r.value == [Fields(fs)];
      FieldsStart(fs);
      assert "PSHELL  "[2] != "PSOLID  "[2];
    }
  }

  /** With IDs that fit, a property card is three fields of eight: the
      name, the PID and the MID. */
  lemma PropertyCardLayout(data: MeshData, p2t: Dict<int>, pid: int)
    requires data.e2p.Valid() && forall e :: e in data.e2p.m ==> e in data.e2t.m
    requires pid in p2t.m && pid in data.p2m.m
    requires PropertyCard(data, p2t, pid).Ok? && Fits(pid) && Fits(data.p2m.m[pid])
    ensures var l := PropertyCard(data, p2t, pid).value[0];
      |l| == 24 && FieldAt(l, 1) == IdField(pid) && FieldAt(l, 2) == IdField(data.p2m.m[pid])
  {
    var d := PropertyDimension(data, pid).value;
    var fs := [if d == 2 then "PSHELL  " else "PSOLID  ", IdField(pid), IdField(data.p2m.m[pid])];
    IdFieldWidth(pid);
    IdFieldWidth(data.p2m.m[pid]);
    FieldsAt(fs);
    assert FieldAt(Fields(fs), 1) == fs[1];
    assert FieldAt(Fields(fs), 2) == fs[2];
  }

  /** Property `p` is the one property that uses material `mid`. */
  ghost predicate OnlyUser(p2m: Dict<int>, mid: int, p: int)
  {
    p in p2m.m && p2m.m[p] == mid && forall q :: q in p2m.m && p2m.m[q] == mid ==> q == p
  }

  /** When at most `p` among the keys uses material `mid`, the users are
      `p` alone or nobody. */
  lemma {:induction false} UsersOfOne(keys: seq<int>, p2m: map<int, int>, mid: int, p: int)
    requires forall q :: q in keys ==> q in p2m
    requires Distinct(keys)
    requires forall q :: q in keys && p2m[q] == mid ==> q == p
    ensures Users(keys, p2m, mid) == if p in keys && p2m[p] == mid then [p] else []
    decreases |keys|
  {
    if keys != [] {
      var init := keys[..|keys| - 1];
      var last := keys[|keys| - 1];
      assert Distinct(init) by {
        forall i, j | 0 <= i < j < |init| ensures init[i] != init[j] {
          assert init[i] == keys[i] && init[j] == keys[j];
        }
      }
      assert last !in init by {
        forall i | 0 <= i < |init| ensures init[i] != last {
          assert init[i] == keys[i];
        }
      }
      UsersOfOne(init, p2m, mid, p);
      assert p in keys <==> p in init || p == last;
    }
  }

  /** Lines 174-221: a material gets a card exactly when M2T gives it the
      default type 0 and exactly one property uses it, a property whose
      elements have a dimension; the card is MAT1 and the MID, and with an
      MID that fits it is sixteen characters long. */
  lemma MaterialCardMeaning(data: MeshData, m2t: Dict<int>, mid: int)
    requires data.p2m.Valid() && data.e2p.Valid() && forall e :: e in data.e2p.m ==> e in data.e2t.m
    requires mid in m2t.m
    ensures MaterialCard(data, m2t, mid).Ok? <==>
              m2t.m[mid] == 0 && exists p :: OnlyUser(data.p2m, mid, p) && PropertyDimension(data, p).Ok?
    ensures MaterialCard(data, m2t, mid).Ok? ==>
              var ls := MaterialCard(data, m2t, mid).value;
              |ls| == 1 && 8 <= |ls[0]| && ls[0][..8] == "MAT1    " &&
              (Fits(mid) ==> |ls[0]| == 16 && FieldAt(ls[0], 1) == IdField(mid))
  {
    var users := Users(data.p2m.keys, data.p2m.m, mid);
    if |users| == 1 {
      assert users[0] in users;
      forall q | q in data.p2m.m && data.p2m.m[q] == mid ensures q == users[0] {
        assert q in users;
      }
      assert OnlyUser(data.p2m, mid, users[0]);
    }
    forall p | OnlyUser(data.p2m, mid, p) ensures |users| == 1 && users[0] == p {
      assert p in data.p2m.keys;
      assert p in users;
      UsersOfOne(data.p2m.keys, data.p2m.m, mid, p);
    }
    var r := MaterialCard(data, m2t, mid);
    if r.Ok? {
      var fs := ["MAT1    ", IdField(mid)];
      FieldsStart(fs);
      if Fits(mid) {
        IdFieldLayout(mid);
        FieldsAt(fs);
        assert FieldAt(Fields(fs), 1) == fs[1];
      }
    }
  }

  /** Every ID in the list fits in a small field. */
  predicate AllFit(ns: seq<int>)
  {
    forall k :: 0 <= k < |ns| ==> Fits(ns[k])
  }

  lemma IdFieldsWide(ns: seq<int>)
    requires AllFit(ns)
    ensures forall k :: 0 <= k < |IdFields(ns)| ==> |IdFields(ns)[k]| == 8
  {
    forall k | 0 <= k < |ns| ensures |IdFields(ns)[k]| == 8 {
      IdFieldWidth(ns[k]);
    }
  }

  /** Lines 230-284: an element gets a card exactly when it is a CHEXA with
      8 nodes, a CQUAD4 with at least 4 or a CTETRA with 10; the card is one
      line for a quad and two for a solid, and every line starts with the
      card name or, on a continuation, with eight blanks. */
  lemma ElementCardMeaning(eid: int, typ: int, pid: int, ns: seq<int>)
    ensures ElementCard(eid, typ, pid, ns).Ok? <==>
              (typ == 7 && |ns| == 8) || (typ == 15 && |ns| >= 4) || (typ == 19 && |ns| == 10)
    ensures ElementCard(eid, typ, pid, ns).Ok? ==>
              var ls := ElementCard(eid, typ, pid, ns).value;
              |ls| == (if typ == 15 then 1 else 2) && 8 <= |ls[0]| &&
              ls[0][..8] == (if typ == 7 then "CHEXA   " else if typ == 15 then "CQUAD4  " else "CTETRA  ") &&
              (typ != 15 ==> 8 <= |ls[1]| && ls[1][..8] == Spaces(8))
  {
    var r := ElementCard(eid, typ, pid, ns);
    if r.Ok? {
      var name := if typ == 7 then "CHEXA   " else if typ == 15 then "CQUAD4  " else "CTETRA  ";
      if typ == 15 {
        FieldsStart([name, IdField(eid), IdField(pid)] + IdFields(ns[..4]));
      } else {
        FieldsStart([name, IdField(eid), IdField(pid)] + IdFields(ns[..6]));
        FieldsStart([Spaces(8)] + IdFields(ns[6..]));
      }
    }
  }

  /** An element line: a name, an EID field, a PID field and node
      fields, each eight wide. */
  lemma NodeLine(name: string, e: string, p: string, nodes: seq<string>)
    requires |name| == 8 && |e| == 8 && |p| == 8
    requires forall k :: 0 <= k < |nodes| ==> |nodes[k]| == 8
    ensures var l := Fields([name, e, p] + nodes);
      |l| == 8 * (3 + |nodes|) && FieldAt(l, 1) == e && FieldAt(l, 2) == p &&
      forall k :: 0 <= k < |nodes| ==> FieldAt(l, 3 + k) == nodes[k]
  {
    var fs := [name, e, p] + nodes;
    FieldsAt(fs);
    assert fs[1] == e && fs[2] == p;
    forall k | 0 <= k < |nodes| ensures FieldAt(Fields(fs), 3 + k) == nodes[k] {
      assert fs[3 + k] == nodes[k];
    }
  }

  /** A continuation line: eight blanks, then node fields eight wide. */
  lemma ContinuationLine(nodes: seq<string>)
    requires forall k :: 0 <= k < |nodes| ==> |nodes[k]| == 8
    ensures var l := Fields([Spaces(8)] + nodes);
      |l| == 8 * (1 + |nodes|) && forall k :: 0 <= k < |nodes| ==> FieldAt(l, 1 + k) == nodes[k]
  {
    var fs := [Spaces(8)] + nodes;
    FieldsAt(fs);
    forall k | 0 <= k < |nodes| ensures FieldAt(Fields(fs), 1 + k) == nodes[k] {
      assert fs[1 + k] == nodes[k];
    }
  }

  /** With IDs that fit, a CQUAD4 line is seven fields of eight: the name,
      the EID, the PID and the first four nodes. */
  lemma QuadLayout(eid: int, pid: int, ns: seq<int>)
    requires |ns| >= 4 && Fits(eid) && Fits(pid) && AllFit(ns)
    ensures ElementCard(eid, 15, pid, ns).Ok?
    ensures var ls := ElementCard(eid, 15, pid, ns).value;
      |ls| == 1 && |ls[0]| == 56 && FieldAt(ls[0], 1) == IdField(eid) && FieldAt(ls[0], 2) == IdField(pid) &&
      forall k :: 0 <= k < 4 ==> FieldAt(ls[0], 3 + k) == IdField(ns[k])
  {
    IdFieldWidth(eid);
    IdFieldWidth(pid);
    var nodes := IdFields(ns[..4]);
    IdFieldsWide(ns[..4]);
    NodeLine("CQUAD4  ", IdField(eid), IdField(pid), nodes);
    assert ElementCard(eid, 15, pid, ns) == Ok([Fields(["CQUAD4  ", IdField(eid), IdField(pid)] + nodes)]);
    assert forall k :: 0 <= k < 4 ==> nodes[k] == IdField(ns[k]);
  }

  /** With IDs that fit, a CHEXA or CTETRA card is a line of nine fields
      (name, EID, PID, nodes 1 to 6) and a continuation line of eight
      blanks and the remaining nodes. */
  lemma SolidLayout(eid: int, typ: int, pid: int, ns: seq<int>)
    requires (typ == 7 && |ns| == 8) || (typ == 19 && |ns| == 10)
    requires Fits(eid) && Fits(pid) && AllFit(ns)
    ensures ElementCard(eid, typ, pid, ns).Ok?
    ensures var ls := ElementCard(eid, typ, pid, ns).value;
      |ls| == 2 && |ls[0]| == 72 && FieldAt(ls[0], 1) == IdField(eid) && FieldAt(ls[0], 2) == IdField(pid) &&
      (forall k :: 0 <= k < 6 ==> FieldAt(ls[0], 3 + k) == IdField(ns[k])) &&
      |ls[1]| == 8 * (|ns| - 5) &&
      forall k :: 6 <= k < |ns| ==> FieldAt(ls[1], k - 5) == IdField(ns[k])
  {
    IdFieldWidth(eid);
    IdFieldWidth(pid);
    var first := IdFields(ns[..6]);
    var rest := IdFields(ns[6..]);
    IdFieldsWide(ns[..6]);
    IdFieldsWide(ns[6..]);
    NodeLine(if typ == 7 then "CHEXA   " else "CTETRA  ", IdField(eid), IdField(pid), first);
    ContinuationLine(rest);
    assert forall k :: 0 <= k < 6 ==> first[k] == IdField(ns[k]);
    forall k | 6 <= k < |ns| ensures FieldAt(Fields([Spaces(8)] + rest), 1 + (k - 6)) == IdField(ns[k]) {
      assert rest[k - 6] == IdField(ns[k]);
    }
  }

  /** Lines 288-307: a node gets a GRID card exactly when the encoder
      writes each coordinate in eight characters; with an ID that fits, the
      line is GRID, the ID, a blank field and x, y, z. */
  lemma GridCardMeaning(nid: int, p: Point, enc: real -> string)
    ensures GridCard(nid, p, enc).Ok? <==> |enc(p.x)| == 8 && |enc(p.y)| == 8 && |enc(p.z)| == 8
    ensures GridCard(nid, p, enc).Ok? ==>
              var ls := GridCard(nid, p, enc).value;
              |ls| == 1 && 8 <= |ls[0]| && ls[0][..8] == "GRID    "
    ensures GridCard(nid, p, enc).Ok? && Fits(nid) ==>
              var l := GridCard(nid, p, enc).value[0];
              |l| == 48 && FieldAt(l, 1) == IdField(nid) && FieldAt(l, 2) == Spaces(8) &&
              FieldAt(l, 3) == enc(p.x) && FieldAt(l, 4) == enc(p.y) && FieldAt(l, 5) == enc(p.z)
  {
    if GridCard(nid, p, enc).Ok? {
      var fs := ["GRID    ", IdField(nid), Spaces(8), enc(p.x), enc(p.y), enc(p.z)];
      FieldsStart(fs);
      if Fits(nid) {
        IdFieldLayout(nid);
        FieldsAt(fs);
        assert FieldAt(Fields(fs), 1) == fs[1] && FieldAt(Fields(fs), 2) == fs[2];
        assert FieldAt(Fields(fs), 3) == fs[3] && FieldAt(Fields(fs), 4) == fs[4] && FieldAt(Fields(fs), 5) == fs[5];
      }
    }
  }

  /** Every card of a section is written. */
  ghost predicate AllOk(cards: seq<Result<seq<string>, BulkError>>)
  {
    forall i :: 0 <= i < |cards| ==> cards[i].Ok?
  }

  /** A written card is one to `most` lines, each at least one field
      long. */
  ghost predicate Lines(card: Result<seq<string>, BulkError>, most: nat)
  {
    card.Ok? ==>
      1 <= |card.value| <= most && forall j :: 0 <= j < |card.value| ==> |card.value[j]| >= 8
  }

  /** Every card is written as one to `most` lines. */
  ghost predicate CardLines(cards: seq<Result<seq<string>, BulkError>>, most: nat)
  {
    AllOk(cards) && forall i :: 0 <= i < |cards| ==> Lines(cards[i], most)
  }

  lemma {:induction false} FlattenLines(cards: seq<Result<seq<string>, BulkError>>, most: nat)
    requires CardLines(cards, most)
    ensures |cards| <= |Flatten(cards)| <= most * |cards|
    ensures forall j :: 0 <= j < |Flatten(cards)| ==> |Flatten(cards)[j]| >= 8
    decreases |cards|
  {
    if cards != [] {
      var init := cards[..|cards| - 1];
      var last := cards[|cards| - 1].value;
      assert forall i :: 0 <= i < |init| ==> init[i] == cards[i];
      FlattenLines(init, most);
      var f := Flatten(init);
      assert Flatten(cards) == f + last;
      assert most * |cards| == most * |init| + most;
      forall j | 0 <= j < |f + last| ensures |(f + last)[j]| >= 8 {
        if j >= |f| {
          assert (f + last)[j] == last[j - |f|];
        }
      }
    }
  }

  lemma PropertyLines(data: MeshData, p2t: Dict<int>, m2t: Dict<int>)
    requires Linked(data, p2t, m2t)
    requires AllOk(PropertyCards(data, p2t, m2t))
    ensures |Flatten(PropertyCards(data, p2t, m2t))| == |p2t.keys|
    ensures forall j :: 0 <= j < |Flatten(PropertyCards(data, p2t, m2t))| ==> |Flatten(PropertyCards(data, p2t, m2t))[j]| >= 8
  {
    var ps := PropertyCards(data, p2t, m2t);
    forall i | 0 <= i < |ps| ensures Lines(ps[i], 1) {
      var pid := p2t.keys[i];
      if ps[i].Ok? {
        var d := PropertyDimension(data, pid).value;
        FieldsStart([if d == 2 then "PSHELL  " else "PSOLID  ", IdField(pid), IdField(data.p2m.m[pid])]);
      }
    }
    FlattenLines(ps, 1);
  }

  lemma MaterialLines(data: MeshData, p2t: Dict<int>, m2t: Dict<int>)
    requires Linked(data, p2t, m2t)
    requires AllOk(MaterialCards(data, p2t, m2t))
    ensures |Flatten(MaterialCards(data, p2t, m2t))| == |m2t.keys|
    ensures forall j :: 0 <= j < |Flatten(MaterialCards(data, p2t, m2t))| ==> |Flatten(MaterialCards(data, p2t, m2t))[j]| >= 8
  {
    var ms := MaterialCards(data, p2t, m2t);
    forall i | 0 <= i < |ms| ensures Lines(ms[i], 1) {
      FieldsStart(["MAT1    ", IdField(m2t.keys[i])]);
    }
    FlattenLines(ms, 1);
  }

  lemma ElementLines(data: MeshData, p2t: Dict<int>, m2t: Dict<int>)
    requires Linked(data, p2t, m2t)
    requires AllOk(ElementCards(data, p2t, m2t))
    ensures |data.e2n.keys| <= |Flatten(ElementCards(data, p2t, m2t))| <= 2 * |data.e2n.keys|
    ensures forall j :: 0 <= j < |Flatten(ElementCards(data, p2t, m2t))| ==> |Flatten(ElementCards(data, p2t, m2t))[j]| >= 8
  {
    var es := ElementCards(data, p2t, m2t);
    forall i | 0 <= i < |es| ensures Lines(es[i], 2) {
      var e := data.e2n.keys[i];
      ElementCardMeaning(e, data.e2t.m[e], data.e2p.m[e], data.e2n.m[e]);
    }
    FlattenLines(es, 2);
  }

  lemma GridLines(data: MeshData, p2t: Dict<int>, m2t: Dict<int>, enc: real -> string)
    requires Linked(data, p2t, m2t)
    requires AllOk(GridCards(data, p2t, m2t, enc))
    ensures |Flatten(GridCards(data, p2t, m2t, enc))| == |data.nodes.keys|
    ensures forall j :: 0 <= j < |Flatten(GridCards(data, p2t, m2t, enc))| ==> |Flatten(GridCards(data, p2t, m2t, enc))[j]| >= 8
  {
    var gs := GridCards(data, p2t, m2t, enc);
    forall i | 0 <= i < |gs| ensures Lines(gs[i], 1) {
      var n := data.nodes.keys[i];
      GridCardMeaning(n, data.nodes.m[n], enc);
    }
    FlattenLines(gs, 1);
  }

  /** `create_bulkdata_list` succeeds exactly when every property,
      material, element and node gets its card, and then lists the four
      sections' lines in that order. */
  lemma BulkdataOk(data: MeshData, p2t: Dict<int>, m2t: Dict<int>, enc: real -> string)
    requires Linked(data, p2t, m2t)
    ensures var ps, ms, es, gs := PropertyCards(data, p2t, m2t), MaterialCards(data, p2t, m2t),
                                  ElementCards(data, p2t, m2t), GridCards(data, p2t, m2t, enc);
      (BulkdataList(data, p2t, m2t, enc).Ok? <==> AllOk(ps) && AllOk(ms) && AllOk(es) && AllOk(gs)) &&
      (BulkdataList(data, p2t, m2t, enc).Ok? ==>
         AllOk(ps) && AllOk(ms) && AllOk(es) && AllOk(gs) &&
         BulkdataList(data, p2t, m2t, enc).value ==
           ["BEGIN BULK", ""] + Flatten(ps) + [""] + Flatten(ms) + [""] + Flatten(es) + [""] + Flatten(gs))
  {
    CollectMeaning(PropertyCards(data, p2t, m2t));
    CollectMeaning(MaterialCards(data, p2t, m2t));
    CollectMeaning(ElementCards(data, p2t, m2t));
    CollectMeaning(GridCards(data, p2t, m2t, enc));
  }

  /** The frame of a bulk-data list with `np` property lines, `nm`
      material lines and `nn` GRID lines: "BEGIN BULK" and a blank line,
      a blank line after the properties, after the materials and before
      the GRID lines, and no ENDDATA line. */
  ghost predicate Framing(ls: seq<string>, np: nat, nm: nat, nn: nat)
  {
    5 + np + nm + nn <= |ls| &&
    ls[0] == "BEGIN BULK" && ls[1] == "" && ls[2 + np] == "" && ls[3 + np + nm] == "" &&
    ls[|ls| - nn - 1] == "" && "ENDDATA" !in ls
  }

  /** Lines of at least one field each, between the header and the blank
      separators. */
  lemma Framed(props: seq<string>, mats: seq<string>, elems: seq<string>, grids: seq<string>, ls: seq<string>)
    requires forall j :: 0 <= j < |props| ==> |props[j]| >= 8
    requires forall j :: 0 <= j < |mats| ==> |mats[j]| >= 8
    requires forall j :: 0 <= j < |elems| ==> |elems[j]| >= 8
    requires forall j :: 0 <= j < |grids| ==> |grids[j]| >= 8
    requires ls == ["BEGIN BULK", ""] + props + [""] + mats + [""] + elems + [""] + grids
    ensures |ls| == 5 + |props| + |mats| + |elems| + |grids|
    ensures Framing(ls, |props|, |mats|, |grids|)
  {
    assert "ENDDATA" !in props && "ENDDATA" !in mats && "ENDDATA" !in elems && "ENDDATA" !in grids;
  }

  /** A written list is framed as `Framing` says, with a line per property,
      material and node and one or two per element; ENDDATA is left to the
      caller. */
  lemma BulkdataShape(data: MeshData, p2t: Dict<int>, m2t: Dict<int>, enc: real -> string, ls: seq<string>)
    requires Linked(data, p2t, m2t)
    requires BulkdataList(data, p2t, m2t, enc) == Ok(ls)
    ensures Framing(ls, |p2t.keys|, |m2t.keys|, |data.nodes.keys|)
    ensures 5 + |p2t.keys| + |m2t.keys| + |data.e2n.keys| + |data.nodes.keys| <= |ls|
    ensures |ls| <= 5 + |p2t.keys| + |m2t.keys| + 2 * |data.e2n.keys| + |data.nodes.keys|
  {
    var ps := PropertyCards(data, p2t, m2t);
    var ms := MaterialCards(data, p2t, m2t);
    var es := ElementCards(data, p2t, m2t);
    var gs := GridCards(data, p2t, m2t, enc);
    BulkdataOk(data, p2t, m2t, enc);
    PropertyLines(data, p2t, m2t);
    MaterialLines(data, p2t, m2t);
    ElementLines(data, p2t, m2t);
    GridLines(data, p2t, m2t, enc);
    Framed(Flatten(ps), Flatten(ms), Flatten(es), Flatten(gs), ls);
  }
}
