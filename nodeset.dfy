/** Exporting a node set as a Nastran include (macros/export_nodeset.py).

    The node set's label chooses the card.  From the first "SPC1" the label
    must read `SPC1_SID_C` (a single-point constraint set SID on the
    components C, each of 1 to 6 at most once); otherwise from the first
    "FORCE" it must read `FORCE_SID_scale_vx_vy_vz` with four Nastran reals.
    Each node of the set then gets one free-field line, and the include is
    offered under the label's text before its first ':'. */
module Nodeset {
  import opened Common
  import opened Text
  import opened RealSyntax

  /** The card a label asks for; fields are kept as the label's text. */
  datatype Card =
    | Spc1(sid: string, components: string)
    | Force(sid: string, scale: string, x: string, y: string, z: string)

  /** The `ValueError`s of the two branches and of an unsupported label. */
  datatype LabelError =
    | Spc1FieldCount
    | Spc1SidNotInteger
    | RepeatedComponents
    | ComponentsOutOfRange
    | ForceFieldCount
    | ForceSidNotInteger
    | BadScale
    | BadX
    | BadY
    | BadZ
    | Unsupported

  /** At least one decimal digit and nothing else. */
  predicate DigitRun(s: string)
  {
    |s| >= 1 && AllDigits(s)
  }

  /** `re.match(r'[0-9]+$', s)`: '$' also matches before a final
      newline, so one trailing "\n" is let through. */
  predicate SidText(s: string)
  {
    DigitRun(s) || (|s| >= 2 && s[|s| - 1] == '\n' && DigitRun(s[..|s| - 1]))
  }

  predicate IsComponent(c: char)
  {
    '1' <= c <= '6'
  }

  predicate AllComponents(s: string)
  {
    forall i :: 0 <= i < |s| ==> IsComponent(s[i])
  }

  /** `re.match(r'[1-6]*$', s)`, which also accepts the empty text and one
      trailing "\n". */
  predicate ComponentText(s: string)
  {
    AllComponents(s) || (|s| >= 1 && s[|s| - 1] == '\n' && AllComponents(s[..|s| - 1]))
  }

  /** Python's `set(s)` for a string. */
  function CharSet(s: string): (r: set<char>)
    ensures forall c :: c in r <==> c in s
  {
    set i | 0 <= i < |s| :: s[i]
  }

  lemma CharSetSnoc(front: string, last: char)
    ensures CharSet(front + [last]) == CharSet(front) + {last}
  {
  }

  lemma DistinctSnoc(front: string, last: char)
    ensures Distinct(front + [last]) <==> Distinct(front) && last !in front
  {
    var s := front + [last];
    if Distinct(s) {
      forall i, j | 0 <= i < j < |front| ensures front[i] != front[j] {
        assert front[i] == s[i] && front[j] == s[j];
      }
      forall k | 0 <= k < |front| ensures front[k] != last {
        assert front[k] == s[k] && last == s[|front|];
      }
    }
  }

  /** `len(s) != len(set(s))` says exactly that some character repeats. */
  lemma {:induction false} CharSetDistinct(s: string)
    ensures |CharSet(s)| <= |s|
    ensures |CharSet(s)| == |s| <==> Distinct(s)
  {
    if s != [] {
      var front := s[..|s| - 1];
      var last := s[|s| - 1];
      assert s == front + [last];
      CharSetDistinct(front);
      CharSetSnoc(front, last);
      DistinctSnoc(front, last);
    }
  }

  /** The SPC1 branch on the text from the first "SPC1". */
  function ParseSpc1(trimmed: string): Result<Card, LabelError>
  {
    var f := Split(trimmed, '_');
    if |f| != 3 then Err(Spc1FieldCount)
    else if !SidText(f[1]) then Err(Spc1SidNotInteger)
    else if |f[2]| != |CharSet(f[2])| then Err(RepeatedComponents)
    else if !ComponentText(f[2]) then Err(ComponentsOutOfRange)
    else Ok(Spc1(f[1], f[2]))
  }

  /** The FORCE branch on the text from the first "FORCE". */
  function ParseForce(trimmed: string): Result<Card, LabelError>
  {
    var f := Split(trimmed, '_');
    if |f| != 6 then Err(ForceFieldCount)
    else if !SidText(f[1]) then Err(ForceSidNotInteger)
    else if !IsValidNastranReal(f[2]) then Err(BadScale)
    else if !IsValidNastranReal(f[3]) then Err(BadX)
    else if !IsValidNastranReal(f[4]) then Err(BadY)
    else if !IsValidNastranReal(f[5]) then Err(BadZ)
    else Ok(Force(f[1], f[2], f[3], f[4], f[5]))
  }

  /** The label check: SPC1 is looked for first, then FORCE. */
  function ParseLabel(name: string): Result<Card, LabelError>
  {
    if Contains(name, "SPC1") then ParseSpc1(name[Find(name, "SPC1")..])
    else if Contains(name, "FORCE") then ParseForce(name[Find(name, "FORCE")..])
    else Err(Unsupported)
  }

  /** `"SPC1," + SID + "," + components + "," + str(node)`. */
  function Spc1Line(sid: string, components: string, node: int): string
  {
    "SPC1," + sid + "," + components + "," + IntToString(node)
  }

  /** `"FORCE," + SID + "," + str(node) + ",," + scale + "," + vx + "," + vy + "," + vz`. */
  function ForceLine(sid: string, scale: string, x: string, y: string, z: string, node: int): string
  {
    "FORCE," + sid + "," + IntToString(node) + ",," + scale + "," + x + "," + y + "," + z
  }

  function CardLine(card: Card, node: int): string
  {
    match card
    case Spc1(sid, c) => Spc1Line(sid, c, node)
    case Force(sid, scale, x, y, z) => ForceLine(sid, scale, x, y, z, node)
  }

  /** The fields a card's line is meant to hold. */
  function CardFields(card: Card, node: int): seq<string>
  {
    match card
    case Spc1(sid, c) => ["SPC1", sid, c, IntToString(node)]
    case Force(sid, scale, x, y, z) => ["FORCE", sid, IntToString(node), "", scale, x, y, z]
  }

  /** The include's file name: the label before its first ':', or
      "constraint_file.bdf". */
  function FileName(name: string): (r: string)
    ensures ':' !in r
    ensures ':' in name ==> |r| < |name| && name[..|r|] == r && name[|r|] == ':'
    ensures ':' !in name ==> r == "constraint_file.bdf"
  {
    if ':' in name then name[..FindChar(name, ':')] else "constraint_file.bdf"
  }

  datatype Include = Include(fileName: string, lines: seq<string>)

  /** The loop of either branch: one line per node, in node-set order. */
  method WriteLines(card: Card, nodes: seq<int>) returns (lines: seq<string>)
    ensures |lines| == |nodes|
    ensures forall i :: 0 <= i < |nodes| ==> lines[i] == CardLine(card, nodes[i])
  {
    lines := [];
    var i := 0;
    while i < |nodes|
      invariant 0 <= i <= |nodes| && |lines| == i
      invariant forall k :: 0 <= k < i ==> lines[k] == CardLine(card, nodes[k])
    {
      lines := lines + [CardLine(card, nodes[i])];
      i := i + 1;
    }
  }

  /** The export of one node set: the label check, the lines and the file
      name. */
  method ExportNodeset(name: string, nodes: seq<int>) returns (r: Result<Include, LabelError>)
    ensures r.Err? <==> ParseLabel(name).Err?
    ensures r.Err? ==> r.error == ParseLabel(name).error
    ensures r.Ok? ==> r.value.fileName == FileName(name) && |r.value.lines| == |nodes|
    ensures r.Ok? ==> forall i :: 0 <= i < |nodes| ==> r.value.lines[i] == CardLine(ParseLabel(name).value, nodes[i])
  {
    var card := ParseLabel(name);
    if card.Err? {
      return Err(card.error);
    }
    var lines := WriteLines(card.value, nodes);
    r := Ok(Include(FileName(name), lines));
  }

  // ---------------------------------------------------------------
  // Properties

  /** SPC1 wins over FORCE, and a label with neither keyword is refused. */
  lemma KeywordOrder(name: string)
    ensures Contains(name, "SPC1") ==> ParseLabel(name).Err? || ParseLabel(name).value.Spc1?
    ensures !Contains(name, "SPC1") ==> ParseLabel(name).Err? || ParseLabel(name).value.Force?
    ensures ParseLabel(name) == Err(Unsupported) <==> !Contains(name, "SPC1") && !Contains(name, "FORCE")
  {
  }

  /** An SPC1 label written from its fields: it is accepted exactly when the
      SID is an integer and the components are distinct digits 1 to 6, and
      then it gives back those fields. */
  lemma Spc1Label(prefix: string, sid: string, components: string)
    requires '_' !in sid && '_' !in components
    requires Find(prefix + Join(["SPC1", sid, components], '_'), "SPC1") == |prefix|
    ensures var r := ParseLabel(prefix + Join(["SPC1", sid, components], '_'));
            r.Ok? <==> SidText(sid) && Distinct(components) && ComponentText(components)
    ensures var r := ParseLabel(prefix + Join(["SPC1", sid, components], '_'));
            r.Ok? ==> r.value == Spc1(sid, components)
  {
    var text := Join(["SPC1", sid, components], '_');
    var name := prefix + text;
    ContainsAt(name, "SPC1", |prefix|);
    assert name[|prefix|..] == text;
    SplitJoin(["SPC1", sid, components], '_');
    CharSetDistinct(components);
  }

  /** A FORCE label written from its fields, with no "SPC1" in it: it is
      accepted exactly when the SID is an integer and the other four fields
      are Nastran reals, and then it gives back those fields. */
  lemma ForceLabel(prefix: string, sid: string, scale: string, x: string, y: string, z: string)
    requires '_' !in sid && '_' !in scale && '_' !in x && '_' !in y && '_' !in z
    requires !Contains(prefix + Join(["FORCE", sid, scale, x, y, z], '_'), "SPC1")
    requires Find(prefix + Join(["FORCE", sid, scale, x, y, z], '_'), "FORCE") == |prefix|
    ensures var r := ParseLabel(prefix + Join(["FORCE", sid, scale, x, y, z], '_'));
            r.Ok? <==> SidText(sid) && IsValidNastranReal(scale) && IsValidNastranReal(x) &&
                       IsValidNastranReal(y) && IsValidNastranReal(z)
    ensures var r := ParseLabel(prefix + Join(["FORCE", sid, scale, x, y, z], '_'));
            r.Ok? ==> r.value == Force(sid, scale, x, y, z)
  {
    var text := Join(["FORCE", sid, scale, x, y, z], '_');
    var name := prefix + text;
    ContainsAt(name, "FORCE", |prefix|);
    assert name[|prefix|..] == text;
    SplitJoin(["FORCE", sid, scale, x, y, z], '_');
  }

  /** An accepted SPC1 label names each component at most once: at most
      six, and one more only for a trailing newline. */
  lemma ComponentsBound(name: string)
    requires ParseLabel(name).Ok? && ParseLabel(name).value.Spc1?
    ensures |ParseLabel(name).value.components| <= 7
    ensures '\n' !in ParseLabel(name).value.components ==> |ParseLabel(name).value.components| <= 6
  {
    var c := ParseLabel(name).value.components;
    CharSetDistinct(c);
    var allowed := {'1', '2', '3', '4', '5', '6', '\n'};
    assert CharSet(c) <= allowed;
    SubsetSize(CharSet(c), allowed);
    if '\n' !in c {
      assert CharSet(c) <= allowed - {'\n'};
      SubsetSize(CharSet(c), allowed - {'\n'});
    }
  }

  lemma {:induction false} SubsetSize(a: set<char>, b: set<char>)
    requires a <= b
    ensures |a| <= |b|
    decreases |b|
  {
    if a != {} {
      var x :| x in a;
      SubsetSize(a - {x}, b - {x});
    }
  }

  /** What the label check guarantees of the card it returns. */
  ghost predicate CardText(card: Card)
  {
    match card
    case Spc1(sid, c) => SidText(sid) && Distinct(c) && ComponentText(c)
    case Force(sid, scale, x, y, z) =>
      SidText(sid) && IsValidNastranReal(scale) && IsValidNastranReal(x) &&
      IsValidNastranReal(y) && IsValidNastranReal(z)
  }

  lemma ParseLabelText(name: string)
    requires ParseLabel(name).Ok?
    ensures CardText(ParseLabel(name).value)
  {
    if Contains(name, "SPC1") {
      CharSetDistinct(Split(name[Find(name, "SPC1")..], '_')[2]);
    }
  }

  lemma SidNoComma(s: string)
    requires SidText(s)
    ensures ',' !in s
  {
    if !DigitRun(s) {
      assert s == s[..|s| - 1] + ['\n'];
    }
  }

  lemma ComponentsNoComma(s: string)
    requires ComponentText(s)
    ensures ',' !in s
  {
    if !AllComponents(s) {
      assert s == s[..|s| - 1] + ['\n'];
    }
  }

  lemma RealNoComma(x: string)
    requires IsValidNastranReal(x)
    ensures ',' !in x
  {
    if ',' in x {
      NastranRealChars(x, ',');
    }
  }

  lemma Spc1LineJoin(sid: string, c: string, n: string)
    ensures "SPC1," + sid + "," + c + "," + n == Join(["SPC1", sid, c, n], ',')
  {
    JoinSnoc(["SPC1"], sid, ',');
    assert ["SPC1"] + [sid] == ["SPC1", sid];
    JoinSnoc(["SPC1", sid], c, ',');
    assert ["SPC1", sid] + [c] == ["SPC1", sid, c];
    JoinSnoc(["SPC1", sid, c], n, ',');
    assert ["SPC1", sid, c] + [n] == ["SPC1", sid, c, n];
  }

  /** The line up to the node, as a join. */
  lemma ForceHeadJoin(sid: string, n: string)
    ensures "FORCE," + sid + "," + n + ",," == Join(["FORCE", sid, n, ""], ',') + ","
  {
    JoinSnoc(["FORCE"], sid, ',');
    assert ["FORCE"] + [sid] == ["FORCE", sid];
    JoinSnoc(["FORCE", sid], n, ',');
    assert ["FORCE", sid] + [n] == ["FORCE", sid, n];
    JoinSnoc(["FORCE", sid, n], "", ',');
    assert ["FORCE", sid, n] + [""] == ["FORCE", sid, n, ""];
  }

  lemma ForceLineJoin(sid: string, n: string, scale: string, x: string, y: string, z: string)
    ensures "FORCE," + sid + "," + n + ",," + scale + "," + x + "," + y + "," + z ==
            Join(["FORCE", sid, n, "", scale, x, y, z], ',')
  {
    ForceHeadJoin(sid, n);
    JoinSnoc(["FORCE", sid, n, ""], scale, ',');
    assert ["FORCE", sid, n, ""] + [scale] == ["FORCE", sid, n, "", scale];
    JoinSnoc(["FORCE", sid, n, "", scale], x, ',');
    assert ["FORCE", sid, n, "", scale] + [x] == ["FORCE", sid, n, "", scale, x];
    JoinSnoc(["FORCE", sid, n, "", scale, x], y, ',');
    assert ["FORCE", sid, n, "", scale, x] + [y] == ["FORCE", sid, n, "", scale, x, y];
    JoinSnoc(["FORCE", sid, n, "", scale, x, y], z, ',');
    assert ["FORCE", sid, n, "", scale, x, y] + [z] == ["FORCE", sid, n, "", scale, x, y, z];
  }

  lemma ForceFieldsNoComma(sid: string, n: string, scale: string, x: string, y: string, z: string)
    requires ',' !in sid && ',' !in n && ',' !in scale && ',' !in x && ',' !in y && ',' !in z
    ensures forall k :: 0 <= k < 8 ==> ',' !in ["FORCE", sid, n, "", scale, x, y, z][k]
  {
  }

  /** An SPC1 line splits at ',' into exactly its four fields. */
  lemma Spc1LineFields(sid: string, c: string, node: int)
    requires SidText(sid) && ComponentText(c)
    ensures Split(Spc1Line(sid, c, node), ',') == ["SPC1", sid, c, IntToString(node)]
    ensures ParseInt(Split(Spc1Line(sid, c, node), ',')[3]) == Some(node)
  {
    IntToStringRoundTrip(node);
    var n := IntToString(node);
    IntToStringHasNo(node, ',');
    SidNoComma(sid);
    ComponentsNoComma(c);
    Spc1LineJoin(sid, c, n);
    SplitJoin(["SPC1", sid, c, n], ',');
  }

  /** A FORCE line splits at ',' into exactly its eight fields, the fourth
      empty. */
  lemma ForceLineFields(sid: string, scale: string, x: string, y: string, z: string, node: int)
    requires SidText(sid)
    requires IsValidNastranReal(scale) && IsValidNastranReal(x) && IsValidNastranReal(y) && IsValidNastranReal(z)
    ensures Split(ForceLine(sid, scale, x, y, z, node), ',') == ["FORCE", sid, IntToString(node), "", scale, x, y, z]
    ensures ParseInt(Split(ForceLine(sid, scale, x, y, z, node), ',')[2]) == Some(node)
  {
    IntToStringRoundTrip(node);
    var n := IntToString(node);
    IntToStringHasNo(node, ',');
    SidNoComma(sid);
    RealNoComma(scale);
    RealNoComma(x);
    RealNoComma(y);
    RealNoComma(z);
    ForceLineJoin(sid, n, scale, x, y, z);
    ForceFieldsNoComma(sid, n, scale, x, y, z);
    SplitJoin(["FORCE", sid, n, "", scale, x, y, z], ',');
  }

  /** Where a card's line holds the node. */
  function NodeField(card: Card): nat
  {
    if card.Spc1? then 3 else 2
  }

  /** A written line splits at ',' into exactly the card's fields, and its
      node field reads back as the node. */
  lemma LineFields(card: Card, node: int)
    requires CardText(card)
    ensures Split(CardLine(card, node), ',') == CardFields(card, node)
    ensures |CardFields(card, node)| > NodeField(card)
    ensures ParseInt(Split(CardLine(card, node), ',')[NodeField(card)]) == Some(node)
  {
    match card
    case Spc1(sid, c) =>
      Spc1LineFields(sid, c, node);
    case Force(sid, scale, x, y, z) =>
      ForceLineFields(sid, scale, x, y, z, node);
  }
}
