/** The free-field RBE3 card of `write_rbe3`
    (macros/make_rbe3_within_sphere.py).

    The first line names the element, its reference node, the fixed
    components and weight `123456,1.0,123` and the first two nodes of the
    spider; the remaining nodes follow on continuation lines of at most
    eight entries, each entry a ',' and the node ID. */
module Rbe3 {
  import opened Common
  import opened Text

  /** Fewer than three nodes: the single line is printed and nothing is
      returned; otherwise the lines are returned. */
  datatype Rbe3Card = Printed(line: string) | Lines(lines: seq<string>)

  /** The first line. */
  function FirstLine(eid: int, nid: int, nodes: seq<int>): string
  {
    "RBE3," + IntToString(eid) + ",," + IntToString(nid) + "," + "123456,1.0,123," +
    (if |nodes| >= 1 then IntToString(nodes[0]) + "," else "") +
    (if |nodes| >= 2 then IntToString(nodes[1]) else "")
  }

  /** The fields of the first line: the name, the element, an empty
      field, the reference node, the components `123456`, the weight `1.0`,
      the components `123`, then the first two nodes.  With a single node
      the line ends in ',' and the last field is empty. */
  function FirstFields(eid: int, nid: int, nodes: seq<int>): seq<string>
  {
    Head(IntToString(eid), IntToString(nid)) +
    (if |nodes| >= 2 then [IntToString(nodes[0]), IntToString(nodes[1])]
     else if |nodes| == 1 then [IntToString(nodes[0]), ""]
     else [""])
  }

  function Head(e: string, n: string): seq<string>
  {
    ["RBE3", e, "", n, "123456", "1.0", "123"]
  }

  /** `str(NID)` for each node. */
  function IntStrings(t: seq<int>): (r: seq<string>)
    ensures |r| == |t|
  {
    if t == [] then [] else IntStrings(t[..|t| - 1]) + [IntToString(t[|t| - 1])]
  }

  /** `"," + text` for each text, in order. */
  function Fields(texts: seq<string>): string
  {
    if texts == [] then "" else Fields(texts[..|texts| - 1]) + "," + texts[|texts| - 1]
  }

  /** `"," + str(NID)` for each node, in order. */
  function Entries(t: seq<int>): string
  {
    Fields(IntStrings(t))
  }

  /** Eight entries on each line, the last line holding what is left. */
  function Groups<T>(t: seq<T>): seq<seq<T>>
    decreases |t|
  {
    if t == [] then []
    else if |t| <= 8 then [t]
    else [t[..8]] + Groups(t[8..])
  }

  /** The text of lines of entries. */
  function LinesOf(groups: seq<seq<string>>): (r: seq<string>)
    ensures |r| == |groups|
  {
    if groups == [] then []
    else LinesOf(groups[..|groups| - 1]) + [Fields(groups[|groups| - 1])]
  }

  /** The continuation lines. */
  function Chunked(t: seq<int>): seq<string>
  {
    LinesOf(Groups(IntStrings(t)))
  }

  /** The card `write_rbe3` produces. */
  function Rbe3(eid: int, nid: int, nodes: seq<int>): Rbe3Card
  {
    if |nodes| < 3 then Printed(FirstLine(eid, nid, nodes))
    else Lines([FirstLine(eid, nid, nodes)] + Chunked(nodes[2..]))
  }

  /** `n_rbe3_card_lines`: 1 below three nodes, else 1 + ceil((n - 2) / 8). */
  function LineCount(n: nat): nat
  {
    if n < 3 then 1 else 1 + (n - 2 + 7) / 8
  }

  // ---------------------------------------------------------------
  // The first line

  lemma NameJoin(e: string, n: string)
    ensures "RBE3," + e + ",," + n == Join(["RBE3", e, "", n], ',')
  {
    JoinSnoc(["RBE3"], e, ',');
    assert ["RBE3"] + [e] == ["RBE3", e];
    JoinSnoc(["RBE3", e], "", ',');
    assert ["RBE3", e] + [""] == ["RBE3", e, ""];
    JoinSnoc(["RBE3", e, ""], n, ',');
    assert ["RBE3", e, ""] + [n] == ["RBE3", e, "", n];
  }

  lemma HeadJoin(e: string, n: string)
    ensures "RBE3," + e + ",," + n + "," + "123456,1.0,123," == Join(Head(e, n), ',') + ","
  {
    var name := ["RBE3", e, "", n];
    NameJoin(e, n);
    JoinSnoc(name, "123456", ',');
    JoinSnoc(name + ["123456"], "1.0", ',');
    JoinSnoc(name + ["123456"] + ["1.0"], "123", ',');
    assert name + ["123456"] + ["1.0"] + ["123"] == Head(e, n);
    assert "123456,1.0,123," == "123456" + "," + "1.0" + "," + "123" + ",";
  }

  lemma TailJoin(head: seq<string>, x: string, y: string)
    requires |head| >= 1
    ensures Join(head + [x, y], ',') == Join(head, ',') + "," + x + "," + y
    ensures Join(head + [x], ',') == Join(head, ',') + "," + x
  {
    JoinSnoc(head, x, ',');
    JoinSnoc(head + [x], y, ',');
    assert head + [x] + [y] == head + [x, y];
  }

  /** The first line is its fields joined with ','. */
  lemma FirstLineJoin(eid: int, nid: int, nodes: seq<int>)
    ensures FirstLine(eid, nid, nodes) == Join(FirstFields(eid, nid, nodes), ',')
  {
    var e, n := IntToString(eid), IntToString(nid);
    var h := Head(e, n);
    HeadJoin(e, n);
    if |nodes| >= 2 {
      TailJoin(h, IntToString(nodes[0]), IntToString(nodes[1]));
    } else if |nodes| == 1 {
      TailJoin(h, IntToString(nodes[0]), "");
    } else {
      TailJoin(h, "", "");
    }
  }

  lemma FirstFieldsNoComma(eid: int, nid: int, nodes: seq<int>)
    ensures forall k :: 0 <= k < |FirstFields(eid, nid, nodes)| ==> ',' !in FirstFields(eid, nid, nodes)[k]
  {
    IntToStringHasNo(eid, ',');
    IntToStringHasNo(nid, ',');
    if |nodes| >= 1 {
      IntToStringHasNo(nodes[0], ',');
    }
    if |nodes| >= 2 {
      IntToStringHasNo(nodes[1], ',');
    }
  }

  /** The first line splits at ',' into its fields. */
  lemma FirstLineSplit(eid: int, nid: int, nodes: seq<int>)
    ensures Split(FirstLine(eid, nid, nodes), ',') == FirstFields(eid, nid, nodes)
  {
    FirstLineJoin(eid, nid, nodes);
    FirstFieldsNoComma(eid, nid, nodes);
    SplitJoin(FirstFields(eid, nid, nodes), ',');
  }

  /** The element, the reference node and the first two nodes read back
      from their fields of the first line. */
  lemma FirstFieldsRead(eid: int, nid: int, nodes: seq<int>)
    ensures ParseInt(FirstFields(eid, nid, nodes)[1]) == Some(eid)
    ensures ParseInt(FirstFields(eid, nid, nodes)[3]) == Some(nid)
    ensures |nodes| >= 1 ==> ParseInt(FirstFields(eid, nid, nodes)[7]) == Some(nodes[0])
    ensures |nodes| >= 2 ==> ParseInt(FirstFields(eid, nid, nodes)[8]) == Some(nodes[1])
  {
    IntToStringRoundTrip(eid);
    IntToStringRoundTrip(nid);
    if |nodes| >= 1 {
      IntToStringRoundTrip(nodes[0]);
    }
    if |nodes| >= 2 {
      IntToStringRoundTrip(nodes[1]);
    }
  }

  // ---------------------------------------------------------------
  // Node texts

  lemma {:induction false} IntStringsAt(t: seq<int>, i: int)
    requires 0 <= i < |t|
    ensures IntStrings(t)[i] == IntToString(t[i])
    decreases |t|
  {
    if i < |t| - 1 {
      IntStringsAt(t[..|t| - 1], i);
    }
  }

  lemma {:induction false} IntStringsAppend(a: seq<int>, b: seq<int>)
    ensures IntStrings(a + b) == IntStrings(a) + IntStrings(b)
    decreases |b|
  {
    if b == [] {
      assert a + b == a;
      AppendEmpty(IntStrings(a));
    } else {
      var front := b[..|b| - 1];
      var x := b[|b| - 1];
      assert (a + b)[..|a + b| - 1] == a + front;
      IntStringsAppend(a, front);
      SnocAssoc(IntStrings(a), IntStrings(front), IntToString(x));
    }
  }

  lemma IntStringsTake(t: seq<int>, j: int)
    requires 0 <= j <= |t|
    ensures IntStrings(t)[..j] == IntStrings(t[..j])
  {
    assert t == t[..j] + t[j..];
    IntStringsAppend(t[..j], t[j..]);
  }

  lemma IntStringsDrop(t: seq<int>, i: int)
    requires 0 <= i <= |t|
    ensures IntStrings(t)[i..] == IntStrings(t[i..])
  {
    assert t == t[..i] + t[i..];
    IntStringsAppend(t[..i], t[i..]);
  }

  /** The texts of a run of nodes are that run of the texts. */
  lemma IntStringsSlice(t: seq<int>, i: int, j: int)
    requires 0 <= i <= j <= |t|
    ensures IntStrings(t)[i..j] == IntStrings(t[i..j])
  {
    IntStringsTake(t, j);
    IntStringsDrop(t[..j], i);
    assert t[..j][i..] == t[i..j];
    assert IntStrings(t)[..j][i..] == IntStrings(t)[i..j];
  }

  lemma FieldsSnoc(texts: seq<string>, x: string)
    ensures Fields(texts + [x]) == Fields(texts) + "," + x
  {
    assert (texts + [x])[..|texts|] == texts;
  }

  lemma {:induction false} FieldsAppend(a: seq<string>, b: seq<string>)
    ensures Fields(a + b) == Fields(a) + Fields(b)
    decreases |b|
  {
    if b == [] {
      assert a + b == a;
      AppendEmpty(Fields(a));
    } else {
      var front := b[..|b| - 1];
      var x := b[|b| - 1];
      assert a + b == (a + front) + [x];
      FieldsAppend(a, front);
      FieldsSnoc(a + front, x);
      FieldsSnoc(front, x);
    }
  }

  /** The entries are the node texts, each after a ','. */
  lemma {:induction false} FieldsJoin(texts: seq<string>)
    ensures Fields(texts) == Join([""] + texts, ',')
    decreases |texts|
  {
    if texts != [] {
      var front := texts[..|texts| - 1];
      FieldsJoin(front);
      JoinSnoc([""] + front, texts[|texts| - 1], ',');
      assert [""] + texts == [""] + front + [texts[|texts| - 1]];
    }
  }

  /** The entries split at ',' into an empty field and then the node IDs,
      each reading back as its node. */
  lemma EntriesFields(t: seq<int>)
    ensures |Split(Entries(t), ',')| == |t| + 1 && Split(Entries(t), ',')[0] == ""
    ensures forall i :: 0 <= i < |t| ==> ParseInt(Split(Entries(t), ',')[i + 1]) == Some(t[i])
  {
    var parts := [""] + IntStrings(t);
    forall k | 0 <= k < |parts| ensures ',' !in parts[k] {
      if k > 0 {
        IntStringsAt(t, k - 1);
        IntToStringHasNo(t[k - 1], ',');
      }
    }
    FieldsJoin(IntStrings(t));
    SplitJoin(parts, ',');
    forall i | 0 <= i < |t| ensures ParseInt(Split(Entries(t), ',')[i + 1]) == Some(t[i]) {
      IntStringsAt(t, i);
      IntToStringRoundTrip(t[i]);
    }
  }

  // ---------------------------------------------------------------
  // Cutting into lines

  lemma LinesOfSnoc(groups: seq<seq<string>>, g: seq<string>)
    ensures LinesOf(groups + [g]) == LinesOf(groups) + [Fields(g)]
  {
    assert (groups + [g])[..|groups|] == groups;
  }

  lemma {:induction false} LinesOfAt(groups: seq<seq<string>>, k: int)
    requires 0 <= k < |groups|
    ensures LinesOf(groups)[k] == Fields(groups[k])
    decreases |groups|
  {
    if k < |groups| - 1 {
      LinesOfAt(groups[..|groups| - 1], k);
    }
  }

  /** A first group of eight, then the rest (none when exactly eight). */
  lemma GroupsFront<T>(t: seq<T>)
    requires |t| >= 8
    ensures Groups(t) == [t[..8]] + Groups(t[8..])
  {
    if |t| == 8 {
      assert t[..8] == t;
      assert t[8..] == [];
    }
  }

  /** Whole groups of eight stay as they are when more entries follow. */
  lemma {:induction false} GroupsAppend<T>(a: seq<T>, b: seq<T>, m: nat)
    requires |a| == 8 * m
    ensures Groups(a + b) == Groups(a) + Groups(b)
    decreases m
  {
    if m == 0 {
      assert a + b == b;
    } else {
      GroupsFront(a);
      GroupsFront(a + b);
      assert (a + b)[..8] == a[..8];
      assert (a + b)[8..] == a[8..] + b;
      GroupsAppend(a[8..], b, m - 1);
      ConcatAssoc([a[..8]], Groups(a[8..]), Groups(b));
    }
  }

  /** There are ceil(|t| / 8) groups. */
  lemma {:induction false} GroupsCount<T>(t: seq<T>)
    ensures |Groups(t)| == (|t| + 7) / 8
    decreases |t|
  {
    if |t| > 8 {
      GroupsCount(t[8..]);
    }
  }

  /** Where line k of the continuation lines ends. */
  function LineEnd(n: int, k: int): int
  {
    if 8 * k + 8 <= n then 8 * k + 8 else n
  }

  lemma ShiftSlice<T>(t: seq<T>, i: int, j: int)
    requires 8 <= |t| && 0 <= i <= j <= |t| - 8
    ensures t[8..][i..j] == t[8 + i..8 + j]
  {
  }

  /** Group k holds entries 8k to 8k+7 (fewer in the last group). */
  lemma {:induction false} GroupsAt<T>(t: seq<T>, k: nat)
    requires k < |Groups(t)|
    ensures 8 * k < |t|
    ensures Groups(t)[k] == t[8 * k..LineEnd(|t|, k)]
    decreases |t|
  {
    if k == 0 {
      if |t| <= 8 {
        assert t[0..|t|] == t;
      } else {
        assert t[0..8] == t[..8];
      }
    } else {
      GroupsFront(t);
      GroupsAt(t[8..], k - 1);
      ShiftSlice(t, 8 * (k - 1), LineEnd(|t| - 8, k - 1));
    }
  }

  /** Line k of the continuation lines holds the entries of nodes 8k to
      8k+7 (fewer on the last line), so every line holds 1 to 8 entries. */
  lemma ChunkedAt(t: seq<int>, k: nat)
    requires k < |Chunked(t)|
    ensures 8 * k < |t|
    ensures Chunked(t)[k] == Entries(t[8 * k..LineEnd(|t|, k)])
  {
    GroupsAt(IntStrings(t), k);
    LinesOfAt(Groups(IntStrings(t)), k);
    IntStringsSlice(t, 8 * k, LineEnd(|t|, k));
  }

  /** The fields of a line of entries: an empty field, then the nodes. */
  lemma EntriesRead(u: seq<int>, f: seq<string>)
    requires f == Split(Entries(u), ',')
    ensures |f| == |u| + 1 && f[0] == ""
    ensures forall m :: 1 <= m < |f| ==> ParseInt(f[m]) == Some(u[m - 1])
  {
    EntriesFields(u);
    forall m | 1 <= m < |f| ensures ParseInt(f[m]) == Some(u[m - 1]) {
      assert f[m] == f[(m - 1) + 1];
    }
  }

  lemma LineRead(t: seq<int>, k: nat, u: seq<int>, f: seq<string>)
    requires 8 * k < |t| && u == t[8 * k..LineEnd(|t|, k)] && f == Split(Entries(u), ',')
    ensures 2 <= |f| <= 9 && f[0] == "" && 8 * k + |f| - 1 <= |t|
    ensures forall m :: 1 <= m < |f| ==> ParseInt(f[m]) == Some(t[8 * k + m - 1])
  {
    EntriesRead(u, f);
    forall m | 1 <= m < |f| ensures ParseInt(f[m]) == Some(t[8 * k + m - 1]) {
      assert u[m - 1] == t[8 * k + m - 1];
    }
  }

  /** Continuation line k splits at ',' into an empty field and then one to
      eight node IDs, reading back as nodes 8k, 8k+1, ... in order. */
  lemma ContinuationLineFields(t: seq<int>, k: nat, f: seq<string>)
    requires k < |Chunked(t)| && f == Split(Chunked(t)[k], ',')
    ensures 2 <= |f| <= 9 && f[0] == "" && 8 * k + |f| - 1 <= |t|
    ensures forall m :: 1 <= m < |f| ==> ParseInt(f[m]) == Some(t[8 * k + m - 1])
  {
    ChunkedAt(t, k);
    LineRead(t, k, t[8 * k..LineEnd(|t|, k)], f);
  }

  /** The number of continuation lines is ceil(|t| / 8). */
  lemma ChunkedCount(t: seq<int>)
    ensures |Chunked(t)| == (|t| + 7) / 8
  {
    GroupsCount(IntStrings(t));
  }

  function Flatten<T>(groups: seq<seq<T>>): seq<T>
  {
    if groups == [] then [] else Flatten(groups[..|groups| - 1]) + groups[|groups| - 1]
  }

  function Concat(lines: seq<string>): string
  {
    if lines == [] then "" else Concat(lines[..|lines| - 1]) + lines[|lines| - 1]
  }

  lemma {:induction false} FlattenAppend<T>(a: seq<seq<T>>, b: seq<seq<T>>)
    ensures Flatten(a + b) == Flatten(a) + Flatten(b)
    decreases |b|
  {
    if b == [] {
      assert a + b == a;
      AppendEmpty(Flatten(a));
    } else {
      var front := b[..|b| - 1];
      assert (a + b)[..|a + b| - 1] == a + front;
      FlattenAppend(a, front);
      ConcatAssoc(Flatten(a), Flatten(front), b[|b| - 1]);
    }
  }

  /** The groups are the entries cut into pieces, nothing lost or
      reordered. */
  lemma {:induction false} GroupsFlatten<T>(t: seq<T>)
    ensures Flatten(Groups(t)) == t
    decreases |t|
  {
    if |t| > 8 {
      GroupsFront(t);
      GroupsFlatten(t[8..]);
      FlattenAppend([t[..8]], Groups(t[8..]));
      assert Flatten([t[..8]]) == t[..8] by {
        assert [t[..8]][..0] == [];
      }
      assert t == t[..8] + t[8..];
    } else if t != [] {
      assert [t][..0] == [];
    }
  }

  lemma {:induction false} LinesOfConcat(groups: seq<seq<string>>)
    ensures Concat(LinesOf(groups)) == Fields(Flatten(groups))
    decreases |groups|
  {
    if groups != [] {
      var front := groups[..|groups| - 1];
      LinesOfConcat(front);
      FieldsAppend(Flatten(front), groups[|groups| - 1]);
    }
  }

  /** Read together, the continuation lines hold the entries of all the
      nodes after the first two, in order. */
  lemma ChunkedConcat(t: seq<int>)
    ensures Concat(Chunked(t)) == Entries(t)
  {
    LinesOfConcat(Groups(IntStrings(t)));
    GroupsFlatten(IntStrings(t));
  }

  // ---------------------------------------------------------------
  // The writer

  /** One more entry on the line under construction. */
  lemma FieldsStep(texts: seq<string>, start: int, i: int)
    requires 0 <= start <= i < |texts|
    ensures Fields(texts[start..i + 1]) == Fields(texts[start..i]) + "," + texts[i]
    ensures Fields(texts[i + 1..i + 1]) == ""
  {
    assert texts[start..i + 1] == texts[start..i] + [texts[i]];
    FieldsSnoc(texts[start..i], texts[i]);
    assert texts[i + 1..i + 1] == [];
  }

  /** Entries up to 8k exist only while there are more than k groups; the
      group that reaches the last entry is the last group. */
  lemma {:induction false} GroupsBound<T>(t: seq<T>, k: nat)
    requires 8 * k < |t|
    ensures k < |Groups(t)|
    ensures |t| <= 8 * k + 8 ==> |Groups(t)| == k + 1
    decreases k
  {
    if |t| > 8 {
      GroupsFront(t);
      if k > 0 {
        GroupsBound(t[8..], k - 1);
      }
    }
  }

  /** Appending the next line of entries: line k follows the k lines
      before it, and the line that ends at the last node is the last. */
  lemma NextLine(texts: seq<string>, k: nat, lines: seq<string>, line: string)
    requires 8 * k < |texts|
    requires k <= |LinesOf(Groups(texts))| && lines == LinesOf(Groups(texts))[..k]
    requires line == Fields(texts[8 * k..LineEnd(|texts|, k)])
    ensures k < |LinesOf(Groups(texts))|
    ensures lines + [line] == LinesOf(Groups(texts))[..k + 1]
    ensures LineEnd(|texts|, k) == |texts| ==> lines + [line] == LinesOf(Groups(texts))
  {
    var all := LinesOf(Groups(texts));
    GroupsBound(texts, k);
    GroupsAt(texts, k);
    LinesOfAt(Groups(texts), k);
    assert all[..k + 1] == all[..k] + [all[k]];
    if LineEnd(|texts|, k) == |texts| {
      assert all[..k + 1] == all;
    }
  }

  /** `str(NID)` for node i. */
  method NodeText(t: seq<int>, i: int) returns (s: string)
    requires 0 <= i < |t|
    ensures s == IntStrings(t)[i]
  {
    IntStringsAt(t, i);
    s := IntToString(t[i]);
  }

  /** The loop of `write_rbe3` over the nodes after the first two: a
      counter of entries on the current line, the line under construction,
      and the lines appended so far. */
  method ContinuationLines(t: seq<int>) returns (lines: seq<string>)
    requires |t| >= 1
    ensures lines == Chunked(t)
  {
    lines := [];
    var count := 0;
    var construction := "";
    var i := 0;
    ghost var texts := IntStrings(t);
    ghost var all := Chunked(t);
    ghost var start := 0;
    ghost var full: nat := 0;
    while i < |t|
      invariant 0 <= start <= i <= |t| && start == 8 * full && i == start + count && count < 8
      invariant construction == Fields(texts[start..i])
      invariant full <= |all| && (i < |t| ==> lines == all[..full])
      invariant i == |t| ==> lines == all
    {
      var text := NodeText(t, i);
      FieldsStep(texts, start, i);
      construction := construction + "," + text;
      count := count + 1;
      if count == 8 {
        NextLine(texts, full, lines, construction);
        lines := lines + [construction];
        count := 0;
        construction := "";
        start := i + 1;
        full := full + 1;
      } else if i + 1 == |t| {
        NextLine(texts, full, lines, construction);
        lines := lines + [construction];
      }
      i := i + 1;
    }
  }

  /** `write_rbe3`: the first line alone below three nodes, otherwise the
      first line followed by the continuation lines. */
  method WriteRbe3(eid: int, nid: int, nodes: seq<int>) returns (r: Rbe3Card)
    ensures r == Rbe3(eid, nid, nodes)
  {
    var first := FirstLine(eid, nid, nodes);
    if |nodes| < 3 {
      return Printed(first);
    }
    var rest := ContinuationLines(nodes[2..]);
    r := Lines([first] + rest);
  }

  /** The number of lines is `n_rbe3_card_lines`. */
  lemma Rbe3LineCount(eid: int, nid: int, nodes: seq<int>)
    requires |nodes| >= 3
    ensures |Rbe3(eid, nid, nodes).lines| == LineCount(|nodes|)
  {
    ChunkedCount(nodes[2..]);
  }
}
