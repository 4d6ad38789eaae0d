/** The draw.io export: `xmlEncode`, and the mxGraph document `generateXML`
    builds from a PERT result (one vertex cell per task, one edge cell per
    dependency edge). */
module XmlGenerator {
  import opened JsStrings
  import opened TaskModel
  import opened PertGraph
  import opened PertCalculator

  // ---------------------------------------------------------------------
  // xmlEncode (xmlGenerator.js:89-100)
  // ---------------------------------------------------------------------

  /** The five characters the encoder replaces. */
  predicate IsSpecial(c: char)
  {
    c == '<' || c == '>' || c == '&' || c == '"' || c == '\''
  }

  /** The replacement of one character: the predefined entity of section 4.6
      of the XML 1.0 specification for the five special characters, the
      character itself otherwise. */
  function EncodeChar(c: char): string
  {
    match c
    case '<' => "&lt;"
    case '>' => "&gt;"
    case '&' => "&amp;"
    case '"' => "&quot;"
    case '\'' => "&apos;"
    case _ => [c]
  }

  /** `str.replace(/[<>&"']/g, ...)`: every character replaced, left to right. */
  function XmlEncode(s: string): string
  {
    if s == [] then [] else EncodeChar(s[0]) + XmlEncode(s[1..])
  }

  /** What `xmlEncode` can be handed: a string, or any other JavaScript value. */
  datatype JsValue = JsString(s: string) | NotAString

  /** `xmlEncode(str)`, including its `typeof str !== 'string'` guard: a
      string comes back free of raw `<`, `>`, `"` and `'`, and decoding it
      gives the string back; any other value comes back empty. */
  function XmlEncodeValue(v: JsValue): (r: string)
    ensures v.NotAString? ==> r == ""
    ensures v.JsString? ==> XmlDecode(r) == v.s && |r| >= |v.s|
    ensures forall k :: 0 <= k < |r| ==> r[k] !in "<>\"'"
  {
    match v
    case JsString(s) =>
      XmlDecodeEncode(s);
      XmlEncodeNoRawSpecials(s);
      XmlEncodeLength(s);
      XmlEncode(s)
    case NotAString => ""
  }

  /** True when `p` is a prefix of `s`. */
  predicate StartsWith(s: string, p: string)
  {
    |p| <= |s| && s[..|p|] == p
  }

  /** Replaces each of the five entities by its character: the partner of `XmlEncode`. */
  function XmlDecode(s: string): string
    decreases |s|
  {
    if s == [] then []
    else if StartsWith(s, "&lt;") then ['<'] + XmlDecode(s[4..])
    else if StartsWith(s, "&gt;") then ['>'] + XmlDecode(s[4..])
    else if StartsWith(s, "&amp;") then ['&'] + XmlDecode(s[5..])
    else if StartsWith(s, "&quot;") then ['"'] + XmlDecode(s[6..])
    else if StartsWith(s, "&apos;") then ['\''] + XmlDecode(s[6..])
    else [s[0]] + XmlDecode(s[1..])
  }

  lemma DecodeLt(rest: string)
    ensures XmlDecode("&lt;" + rest) == ['<'] + XmlDecode(rest)
  {
    var s := "&lt;" + rest;
    assert s[..4] == "&lt;" && s[4..] == rest;
  }

  lemma DecodeGt(rest: string)
    ensures XmlDecode("&gt;" + rest) == ['>'] + XmlDecode(rest)
  {
    var s := "&gt;" + rest;
    assert s[..4] == "&gt;" && s[4..] == rest;
    assert s[1] == 'g';
  }

  lemma DecodeAmp(rest: string)
    ensures XmlDecode("&amp;" + rest) == ['&'] + XmlDecode(rest)
  {
    var s := "&amp;" + rest;
    assert s[..5] == "&amp;" && s[5..] == rest;
    assert s[1] == 'a';
  }

  lemma DecodeQuot(rest: string)
    ensures XmlDecode("&quot;" + rest) == ['"'] + XmlDecode(rest)
  {
    var s := "&quot;" + rest;
    assert s[..6] == "&quot;" && s[6..] == rest;
    assert s[1] == 'q';
  }

  lemma DecodeApos(rest: string)
    ensures XmlDecode("&apos;" + rest) == ['\''] + XmlDecode(rest)
  {
    var s := "&apos;" + rest;
    assert s[..6] == "&apos;" && s[6..] == rest;
    assert s[1] == 'a' && s[2] == 'p';
  }

  lemma DecodePlain(c: char, rest: string)
    requires c != '&'
    ensures XmlDecode([c] + rest) == [c] + XmlDecode(rest)
  {
    var s := [c] + rest;
    assert s[0] == c && s[1..] == rest;
    forall p | p != [] && p[0] == '&'
      ensures !StartsWith(s, p)
    {
      if |p| <= |s| {
        assert s[..|p|][0] == c;
      }
    }
  }

  /** Decoding undoes the encoding of one character in front of any text. */
  lemma DecodeEncodedChar(c: char, rest: string)
    ensures XmlDecode(EncodeChar(c) + rest) == [c] + XmlDecode(rest)
  {
    match c
    case '<' => DecodeLt(rest);
    case '>' => DecodeGt(rest);
    case '&' => DecodeAmp(rest);
    case '"' => DecodeQuot(rest);
    case '\'' => DecodeApos(rest);
    case _ => DecodePlain(c, rest);
  }

  /** Decoding the encoding gives back the input, so the encoding loses nothing. */
  lemma {:induction false} XmlDecodeEncode(s: string)
    ensures XmlDecode(XmlEncode(s)) == s
  {
    if s != [] {
      DecodeEncodedChar(s[0], XmlEncode(s[1..]));
      XmlDecodeEncode(s[1..]);
    }
  }

  /** Different strings encode differently. */
  lemma XmlEncodeInjective(a: string, b: string)
    requires XmlEncode(a) == XmlEncode(b)
    ensures a == b
  {
    XmlDecodeEncode(a);
    XmlDecodeEncode(b);
  }

  /** The encoding of a concatenation is the concatenation of the encodings. */
  lemma {:induction false} XmlEncodeAppend(a: string, b: string)
    ensures XmlEncode(a + b) == XmlEncode(a) + XmlEncode(b)
  {
    if a == [] {
      assert a + b == b;
    } else {
      assert (a + b)[0] == a[0] && (a + b)[1..] == a[1..] + b;
      XmlEncodeAppend(a[1..], b);
    }
  }

  /** The encoding holds no raw `<`, `>`, `"` or `'`. */
  lemma {:induction false} XmlEncodeNoRawSpecials(s: string)
    ensures forall k :: 0 <= k < |XmlEncode(s)| ==> XmlEncode(s)[k] !in "<>\"'"
  {
    if s != [] {
      XmlEncodeNoRawSpecials(s[1..]);
      var head := EncodeChar(s[0]);
      var tail := XmlEncode(s[1..]);
      assert forall k :: 0 <= k < |head| ==> head[k] !in "<>\"'";
      assert forall k :: |head| <= k < |head + tail| ==> (head + tail)[k] == tail[k - |head|];
    }
  }

  /** The encoding is at least as long as the input, and exactly as long
      when the input has none of the five special characters, in which case
      it is the input unchanged. */
  lemma {:induction false} XmlEncodeLength(s: string)
    ensures |XmlEncode(s)| >= |s|
    ensures |XmlEncode(s)| == |s| <==> forall k :: 0 <= k < |s| ==> !IsSpecial(s[k])
    ensures (forall k :: 0 <= k < |s| ==> !IsSpecial(s[k])) ==> XmlEncode(s) == s
  {
    if s != [] {
      XmlEncodeLength(s[1..]);
      assert forall k :: 1 <= k < |s| ==> s[1..][k - 1] == s[k];
      if forall k :: 0 <= k < |s| ==> !IsSpecial(s[k]) {
        assert !IsSpecial(s[0]);
        assert forall k :: 0 <= k < |s[1..]| ==> !IsSpecial(s[1..][k]);
        assert [s[0]] + s[1..] == s;
      }
    }
  }

  // ---------------------------------------------------------------------
  // Styles (xmlGenerator.js:13-16, 25-32, 68)
  // ---------------------------------------------------------------------

  const DefaultStyle := "shape=rectangle;whiteSpace=wrap;html=1;rounded=1;strokeColor=#333333;fontSize=10;fontFamily=Inter;align=left;verticalAlign=top;spacingLeft=4;spacingRight=4;spacingTop=4;spacingBottom=4;"
  const NormalFill := "fillColor=#EBF8FF;"
  const CriticalFill := "fillColor=#FED7D7;"
  const BottleneckFill := "fillColor=#FEFCBF;"
  const EdgeStyle := "edgeStyle=orthogonalEdgeStyle;rounded=0;orthogonalLoop=1;jettySize=auto;html=1;endArrow=classic;strokeWidth=1;strokeColor=#6B7280;"

  /** The fill of a task's vertex. */
  function FillStyle(isCritical: bool, isBottleneck: bool): string
  {
    if isCritical then CriticalFill
    else if isBottleneck then BottleneckFill
    else NormalFill
  }

  /** The fill tells the flags apart: critical wins over bottleneck, and the
      normal fill means neither flag is set. */
  lemma FillStyleMeaning(isCritical: bool, isBottleneck: bool)
    ensures FillStyle(isCritical, isBottleneck) == CriticalFill <==> isCritical
    ensures FillStyle(isCritical, isBottleneck) == BottleneckFill <==> !isCritical && isBottleneck
    ensures FillStyle(isCritical, isBottleneck) == NormalFill <==> !isCritical && !isBottleneck
  {
    assert CriticalFill[13] != BottleneckFill[13];
    assert CriticalFill[11] != NormalFill[11] && BottleneckFill[11] != NormalFill[11];
  }

  /** For a task `calculatePERT` has classified, the fill follows its slack:
      red for zero slack, yellow for slack in (0, 1], blue otherwise. */
  lemma FillFollowsSlack(n: TaskNode)
    requires Classified(n)
    ensures FillStyle(n.isCritical, n.isBottleneck) == CriticalFill <==> n.slack == 0.0
    ensures FillStyle(n.isCritical, n.isBottleneck) == BottleneckFill <==> 0.0 < n.slack <= BottleneckThreshold
    ensures FillStyle(n.isCritical, n.isBottleneck) == NormalFill <==> !(0.0 <= n.slack <= BottleneckThreshold)
  {
    FillStyleMeaning(n.isCritical, n.isBottleneck);
  }

  // ---------------------------------------------------------------------
  // Layout (xmlGenerator.js:48-51)
  // ---------------------------------------------------------------------

  datatype Geometry = Geometry(x: nat, y: nat, width: nat, height: nat)

  const Columns := 5
  const ColumnPitch := 200
  const RowPitch := 150
  const Margin := 50
  const CellWidth := 180
  const CellHeight := 100

  /** The box of the vertex at position `index` of the task list. */
  function VertexGeometry(index: nat): Geometry
  {
    Geometry((index % Columns) * ColumnPitch + Margin, (index / Columns) * RowPitch + Margin, CellWidth, CellHeight)
  }

  /** Vertices sit on a grid five columns wide, and the position in the task
      list can be read back from the box. */
  lemma VertexGrid(index: nat)
    ensures var g := VertexGeometry(index);
      && g.x in {50, 250, 450, 650, 850}
      && g.y >= 50 && (g.y - 50) % 150 == 0
      && g.width == 180 && g.height == 100
      && index == 5 * ((g.y - 50) / 150) + (g.x - 50) / 200
  {
  }

  /** Boxes of different vertices do not overlap. */
  lemma VerticesDisjoint(i: nat, j: nat)
    requires i != j
    ensures var a, b := VertexGeometry(i), VertexGeometry(j);
      a.x + a.width <= b.x || b.x + b.width <= a.x || a.y + a.height <= b.y || b.y + b.height <= a.y
  {
    VertexGrid(i);
    VertexGrid(j);
  }

  // ---------------------------------------------------------------------
  // Labels (xmlGenerator.js:36-42)
  // ---------------------------------------------------------------------

  /** `task.description || 'N/A'`: an empty description shows as N/A. */
  function ShownDescription(d: string): (r: string)
    ensures r != ""
    ensures d != "" ==> r == d
  {
    if d == "" then "N/A" else d
  }

  /** `x.toFixed(2)` for a value that may be the Infinity sentinel. */
  function Fixed2(toFixed2: real -> string, x: ExtReal): string
  {
    match x
    case Finite(v) => toFixed2(v)
    case Infinity => "Infinity"
  }

  const CriticalMark := "<br><b>CRITICAL</b>"
  const BottleneckMark := "<br><i>BOTTLENECK</i>"

  /** The HTML label of a task's vertex, before encoding. */
  function Label(n: TaskNode, toFixed2: real -> string): string
  {
    "<b>" + n.task.id + ": " + ShownDescription(n.task.description) + "</b><br>"
    + "TE: " + toFixed2(n.expectedTime) + " | Var: " + toFixed2(n.variance) + "<br>"
    + "ES: " + toFixed2(n.earlyStart) + " | EF: " + toFixed2(n.earlyFinish) + "<br>"
    + "LS: " + Fixed2(toFixed2, n.lateStart) + " | LF: " + Fixed2(toFixed2, n.lateFinish) + "<br>"
    + "Slack: " + toFixed2(n.slack)
    + (if n.isCritical then CriticalMark else "")
    + (if n.isBottleneck then BottleneckMark else "")
  }

  // ---------------------------------------------------------------------
  // Cells (xmlGenerator.js:18-21, 53-55, 59-78)
  // ---------------------------------------------------------------------

  /** The `mxCell` elements of the document. */
  datatype Cell =
    | RootCell
    | LayerCell
    | VertexCell(id: string, value: string, style: string, geometry: Geometry)
    | EdgeCell(id: string, style: string, source: string, target: string)

  function CellId(c: Cell): string
  {
    match c
    case RootCell => "0"
    case LayerCell => "1"
    case VertexCell(id, _, _, _) => id
    case EdgeCell(id, _, _, _) => id
  }

  const EdgePrefix := "edge-"

  /** `edge-${sourceId}-${targetId}-${edgeCount}`. */
  function EdgeId(source: string, target: string, count: nat): string
  {
    EdgePrefix + source + "-" + target + "-" + NatToString(count)
  }

  /** The counter can be read back from an edge ID: the text after its last
      `-` is the counter's digits. */
  lemma EdgeIdCount(s1: string, t1: string, k1: nat, s2: string, t2: string, k2: nat)
    requires EdgeId(s1, t1, k1) == EdgeId(s2, t2, k2)
    ensures k1 == k2
  {
    var d1, d2 := NatToString(k1), NatToString(k2);
    var a1 := EdgePrefix + s1 + "-" + t1 + "-";
    var a2 := EdgePrefix + s2 + "-" + t2 + "-";
    var e := EdgeId(s1, t1, k1);
    assert e == a1 + d1 && e == a2 + d2;
    var L := |e|;
    assert e[|a1| - 1] == '-' && e[|a2| - 1] == '-';
    assert forall k :: |a1| <= k < L ==> e[k] == d1[k - |a1|];
    assert forall k :: |a2| <= k < L ==> e[k] == d2[k - |a2|];
    assert d1 == e[|a1|..] == d2;
    NatToStringInjective(k1, k2);
  }

  /** The vertex cell of the task at position `index`. */
  function TaskVertex(n: TaskNode, index: nat, toFixed2: real -> string): Cell
  {
    VertexCell(n.task.id, XmlEncode(Label(n, toFixed2)), DefaultStyle + FillStyle(n.isCritical, n.isBottleneck),
               VertexGeometry(index))
  }

  /** The edge cell of the `count`-th edge. */
  function DependencyEdge(e: Edge, count: nat): Cell
  {
    EdgeCell(EdgeId(e.0, e.1, count), EdgeStyle, e.0, e.1)
  }

  /** The vertex cells of `ts`, in task order. */
  function VertexCells(ts: seq<TaskNode>, toFixed2: real -> string): seq<Cell>
  {
    seq(|ts|, i requires 0 <= i < |ts| => TaskVertex(ts[i], i, toFixed2))
  }

  /** The edge cells of `es`, the counter running from 1. */
  function EdgeCells(es: seq<Edge>): seq<Cell>
  {
    seq(|es|, k requires 0 <= k < |es| => DependencyEdge(es[k], k + 1))
  }

  /** All cells of the document, in the order they are written. */
  function Cells(ts: seq<TaskNode>, es: seq<Edge>, toFixed2: real -> string): seq<Cell>
  {
    [RootCell, LayerCell] + VertexCells(ts, toFixed2) + EdgeCells(es)
  }

  /** The document's cells: the two default cells, then one vertex per task
      in task order, then one edge cell per edge in edge order. */
  lemma CellsOrder(ts: seq<TaskNode>, es: seq<Edge>, toFixed2: real -> string)
    ensures var cs := Cells(ts, es, toFixed2);
      && |cs| == 2 + |ts| + |es|
      && cs[0] == RootCell && cs[1] == LayerCell
      && (forall i :: 0 <= i < |ts| ==> cs[2 + i] == TaskVertex(ts[i], i, toFixed2))
      && (forall k :: 0 <= k < |es| ==> cs[2 + |ts| + k] == DependencyEdge(es[k], k + 1))
  {
  }

  /** Edge cells have pairwise distinct IDs. */
  lemma EdgeIdsDistinct(es: seq<Edge>)
    ensures forall k1, k2 :: 0 <= k1 < k2 < |EdgeCells(es)| ==> CellId(EdgeCells(es)[k1]) != CellId(EdgeCells(es)[k2])
  {
    forall k1, k2 | 0 <= k1 < k2 < |es|
      ensures CellId(EdgeCells(es)[k1]) != CellId(EdgeCells(es)[k2])
    {
      if EdgeId(es[k1].0, es[k1].1, k1 + 1) == EdgeId(es[k2].0, es[k2].1, k2 + 1) {
        EdgeIdCount(es[k1].0, es[k1].1, k1 + 1, es[k2].0, es[k2].1, k2 + 1);
      }
    }
  }

  /** A task ID that cannot clash with the default cells or an edge ID. */
  predicate FreeTaskId(id: string)
  {
    id != "0" && id != "1" && !StartsWith(id, EdgePrefix)
  }

  /** An edge ID starts with `edge-`, so it is neither `0` nor `1`. */
  lemma EdgeIdPrefixed(source: string, target: string, count: nat)
    ensures StartsWith(EdgeId(source, target, count), EdgePrefix)
    ensures EdgeId(source, target, count) != "0" && EdgeId(source, target, count) != "1"
  {
    var id := EdgeId(source, target, count);
    assert id == EdgePrefix + (source + "-" + target + "-" + NatToString(count));
    assert id[..|EdgePrefix|] == EdgePrefix;
  }

  /** The IDs of `cs` are laid out as in a document for `ts` and `es`: `0`,
      `1`, the task IDs, then the edge IDs. */
  ghost predicate IdsLaidOut(cs: seq<Cell>, ts: seq<TaskNode>, es: seq<Edge>)
  {
    && |cs| == 2 + |ts| + |es|
    && CellId(cs[0]) == "0" && CellId(cs[1]) == "1"
    && (forall i :: 0 <= i < |ts| ==> CellId(cs[2 + i]) == ts[i].task.id)
    && (forall k :: 0 <= k < |es| ==> CellId(cs[2 + |ts| + k]) == EdgeId(es[k].0, es[k].1, k + 1))
  }

  /** The document's cells have their IDs laid out so. */
  lemma CellsIdsLaidOut(ts: seq<TaskNode>, es: seq<Edge>, toFixed2: real -> string)
    ensures IdsLaidOut(Cells(ts, es, toFixed2), ts, es)
  {
    CellsOrder(ts, es, toFixed2);
  }

  /** Under that layout, the cells at positions `i < j` have different IDs. */
  lemma IdsDistinctAt(cs: seq<Cell>, ts: seq<TaskNode>, es: seq<Edge>, i: int, j: int)
    requires IdsLaidOut(cs, ts, es)
    requires forall i, j :: 0 <= i < j < |ts| ==> ts[i].task.id != ts[j].task.id
    requires forall i :: 0 <= i < |ts| ==> FreeTaskId(ts[i].task.id)
    requires 0 <= i < j < |cs|
    ensures CellId(cs[i]) != CellId(cs[j])
  {
    var v := 2 + |ts|;
    if j >= v {
      var k := j - v;
      assert CellId(cs[j]) == CellId(cs[2 + |ts| + k]) == EdgeId(es[k].0, es[k].1, k + 1);
      EdgeIdPrefixed(es[k].0, es[k].1, k + 1);
      if i >= v {
        var m := i - v;
        assert CellId(cs[i]) == CellId(cs[2 + |ts| + m]) == EdgeId(es[m].0, es[m].1, m + 1);
        if CellId(cs[i]) == CellId(cs[j]) {
          EdgeIdCount(es[m].0, es[m].1, m + 1, es[k].0, es[k].1, k + 1);
        }
      } else if i >= 2 {
        assert CellId(cs[i]) == CellId(cs[2 + (i - 2)]) == ts[i - 2].task.id;
        assert FreeTaskId(ts[i - 2].task.id);
      }
    } else if j >= 2 {
      assert CellId(cs[j]) == CellId(cs[2 + (j - 2)]) == ts[j - 2].task.id;
      assert FreeTaskId(ts[j - 2].task.id);
      if i >= 2 {
        assert CellId(cs[i]) == CellId(cs[2 + (i - 2)]) == ts[i - 2].task.id;
      }
    }
  }

  /** Every cell of the document has its own ID, provided the task IDs are
      distinct and none is `0`, `1` or starts with `edge-`; the document
      itself uses task IDs as vertex IDs unchanged. */
  lemma CellIdsDistinct(ts: seq<TaskNode>, es: seq<Edge>, toFixed2: real -> string)
    requires forall i, j :: 0 <= i < j < |ts| ==> ts[i].task.id != ts[j].task.id
    requires forall i :: 0 <= i < |ts| ==> FreeTaskId(ts[i].task.id)
    ensures var cs := Cells(ts, es, toFixed2);
      forall i, j :: 0 <= i < j < |cs| ==> CellId(cs[i]) != CellId(cs[j])
  {
    var cs := Cells(ts, es, toFixed2);
    CellsIdsLaidOut(ts, es, toFixed2);
    forall i, j | 0 <= i < j < |cs|
      ensures CellId(cs[i]) != CellId(cs[j])
    {
      IdsDistinctAt(cs, ts, es, i, j);
    }
  }

  /** A vertex's `value` attribute holds no raw double quote, so the label
      cannot end the attribute early, and decoding it gives the label back. */
  lemma VertexValueSafe(n: TaskNode, index: nat, toFixed2: real -> string)
    ensures '"' !in TaskVertex(n, index, toFixed2).value
    ensures XmlDecode(TaskVertex(n, index, toFixed2).value) == Label(n, toFixed2)
  {
    var v := XmlEncode(Label(n, toFixed2));
    XmlEncodeNoRawSpecials(Label(n, toFixed2));
    XmlDecodeEncode(Label(n, toFixed2));
  }

  // ---------------------------------------------------------------------
  // The document text
  // ---------------------------------------------------------------------

  const ModelOpen := "<mxGraphModel dx=\"1426\" dy=\"797\" grid=\"1\" gridSize=\"10\" guides=\"1\" tooltips=\"1\" connect=\"1\" arrows=\"1\" fold=\"1\" page=\"1\" pageScale=\"1\" pageWidth=\"827\" pageHeight=\"1169\" math=\"0\" shadow=\"0\">\n"
  const RootOpen := "  <root>\n"
  const RootClose := "  </root>\n"
  const ModelClose := "</mxGraphModel>\n"

  /** The lines of one cell. */
  function RenderCell(c: Cell): string
  {
    match c
    case RootCell => "    <mxCell id=\"0\"/>\n"
    case LayerCell => "    <mxCell id=\"1\" parent=\"0\"/>\n"
    case VertexCell(id, value, style, g) =>
      "    <mxCell id=\"" + id + "\" value=\"" + value + "\" style=\"" + style + "\" vertex=\"1\" parent=\"1\">\n"
      + "      <mxGeometry x=\"" + NatToString(g.x) + "\" y=\"" + NatToString(g.y)
      + "\" width=\"" + NatToString(g.width) + "\" height=\"" + NatToString(g.height) + "\" as=\"geometry\"/>\n"
      + "    </mxCell>\n"
    case EdgeCell(id, style, source, target) =>
      "    <mxCell id=\"" + id + "\" style=\"" + style + "\" edge=\"1\" parent=\"1\" source=\"" + source
      + "\" target=\"" + target + "\">\n"
      + "      <mxGeometry relative=\"1\" as=\"geometry\"/>\n"
      + "    </mxCell>\n"
  }

  /** The lines of `cs`, in order. */
  function RenderCells(cs: seq<Cell>): string
  {
    if cs == [] then "" else RenderCells(cs[..|cs| - 1]) + RenderCell(cs[|cs| - 1])
  }

  /** The text of the document: the model and root openers, the cells, the
      closers. */
  function Document(ts: seq<TaskNode>, es: seq<Edge>, toFixed2: real -> string): string
  {
    ModelOpen + RootOpen + RenderCells(Cells(ts, es, toFixed2)) + RootClose + ModelClose
  }

  /** Writing one more cell appends its lines. */
  lemma RenderCellsSnoc(cs: seq<Cell>, c: Cell)
    ensures RenderCells(cs + [c]) == RenderCells(cs) + RenderCell(c)
  {
    assert (cs + [c])[..|cs|] == cs;
  }

  /** The body of the `tasks.forEach` callback: the vertex for `task` at `index`. */
  method VertexFor(task: TaskNode, index: nat, toFixed2: real -> string) returns (cell: Cell)
    ensures cell == TaskVertex(task, index, toFixed2)
  {
    var fillStyle := NormalFill;
    if task.isCritical {
      fillStyle := CriticalFill;
    } else if task.isBottleneck {
      fillStyle := BottleneckFill;
    }
    var style := DefaultStyle + fillStyle;
    var labelText := Label(task, toFixed2);
    var row := index / 5;
    var x := (index % 5) * 200 + 50;
    var y := row * 150 + 50;
    var width := 180;
    var height := 100;
    cell := VertexCell(task.task.id, XmlEncode(labelText), style, Geometry(x, y, width, height));
  }

  /** Writing two runs of cells one after the other. */
  lemma {:induction false} RenderCellsAppend(a: seq<Cell>, b: seq<Cell>)
    ensures RenderCells(a + b) == RenderCells(a) + RenderCells(b)
    decreases |b|
  {
    if b == [] {
      assert a + b == a;
    } else {
      var init := b[..|b| - 1];
      var c := b[|b| - 1];
      assert a + b == (a + init) + [c];
      RenderCellsSnoc(a + init, c);
      RenderCellsAppend(a, init);
      RenderCellsSnoc(init, c);
      AppendAssoc(RenderCells(a), RenderCells(init), RenderCell(c));
    }
  }

  /** Appending is associative. */
  lemma AppendAssoc(a: string, b: string, c: string)
    ensures a + b + c == a + (b + c)
  {
  }

  /** Writing one more cell after the text so far. */
  lemma WriteCellStep(xml0: string, before: seq<Cell>, cell: Cell)
    ensures xml0 + RenderCells(before) + RenderCell(cell) == xml0 + RenderCells(before + [cell])
  {
    RenderCellsSnoc(before, cell);
    AppendAssoc(xml0, RenderCells(before), RenderCell(cell));
  }

  /** The vertices of one more task. */
  lemma VertexCellsStep(tasks: seq<TaskNode>, index: nat, toFixed2: real -> string)
    requires index < |tasks|
    ensures VertexCells(tasks[..index + 1], toFixed2)
      == VertexCells(tasks[..index], toFixed2) + [TaskVertex(tasks[index], index, toFixed2)]
  {
    assert forall i :: 0 <= i < index ==> tasks[..index + 1][i] == tasks[..index][i];
  }

  /** The `tasks.forEach` loop: appends the vertex lines of every task to `xml0`. */
  method WriteVertices(xml0: string, tasks: seq<TaskNode>, toFixed2: real -> string) returns (xml: string)
    ensures xml == xml0 + RenderCells(VertexCells(tasks, toFixed2))
  {
    xml := xml0;
    for index := 0 to |tasks|
      invariant xml == xml0 + RenderCells(VertexCells(tasks[..index], toFixed2))
    {
      var cell := VertexFor(tasks[index], index, toFixed2);
      xml := xml + RenderCell(cell);
      WriteCellStep(xml0, VertexCells(tasks[..index], toFixed2), cell);
      VertexCellsStep(tasks, index, toFixed2);
    }
    assert tasks[..|tasks|] == tasks;
  }

  /** The edges of one more dependency. */
  lemma EdgeCellsStep(edges: seq<Edge>, k: nat)
    requires k < |edges|
    ensures EdgeCells(edges[..k + 1]) == EdgeCells(edges[..k]) + [DependencyEdge(edges[k], k + 1)]
  {
    assert forall i :: 0 <= i < k ==> edges[..k + 1][i] == edges[..k][i];
  }

  /** The `graph.edges().forEach` loop: appends the edge lines of every
      dependency to `xml0`, numbering the edges from 1 in list order. */
  method WriteEdges(xml0: string, edges: seq<Edge>) returns (xml: string)
    ensures xml == xml0 + RenderCells(EdgeCells(edges))
  {
    xml := xml0;
    var edgeCount := 0;
    for k := 0 to |edges|
      invariant edgeCount == k
      invariant xml == xml0 + RenderCells(EdgeCells(edges[..k]))
    {
      var sourceId := edges[k].0;
      var targetId := edges[k].1;
      edgeCount := edgeCount + 1;
      var edgeId := EdgeId(sourceId, targetId, edgeCount);
      var cell := EdgeCell(edgeId, EdgeStyle, sourceId, targetId);
      assert cell == DependencyEdge(edges[k], k + 1);
      xml := xml + RenderCell(cell);
      WriteCellStep(xml0, EdgeCells(edges[..k]), cell);
      EdgeCellsStep(edges, k);
    }
    assert edges[..|edges|] == edges;
  }

  /** `generateXML(pertData)` for the tasks and edge list of a PERT result;
      `toFixed2` stands for `Number.prototype.toFixed(2)`. */
  method GenerateXml(pertData: PertResult, toFixed2: real -> string) returns (xml: string)
    ensures xml == Document(pertData.tasks, pertData.graph.edges, toFixed2)
  {
    var tasks := pertData.tasks;
    var edges := pertData.graph.edges;
    xml := ModelOpen + RootOpen;
    xml := xml + RenderCell(RootCell);
    xml := xml + RenderCell(LayerCell);
    xml := WriteVertices(xml, tasks, toFixed2);
    xml := WriteEdges(xml, edges);
    xml := xml + RootClose;
    xml := xml + ModelClose;
    DocumentText(tasks, edges, toFixed2);
  }

  /** The lines of the two default cells. */
  lemma DefaultCellsText()
    ensures RenderCells([RootCell, LayerCell]) == RenderCell(RootCell) + RenderCell(LayerCell)
  {
    assert [RootCell, LayerCell][..1] == [RootCell];
    assert [RootCell][..0] == [];
  }

  /** The cell lines of a document: the two default cells, then the vertices,
      then the edges. */
  lemma CellsText(ts: seq<TaskNode>, es: seq<Edge>, toFixed2: real -> string)
    ensures RenderCells(Cells(ts, es, toFixed2))
      == RenderCell(RootCell) + RenderCell(LayerCell) + RenderCells(VertexCells(ts, toFixed2)) + RenderCells(EdgeCells(es))
  {
    var vs := VertexCells(ts, toFixed2);
    var eds := EdgeCells(es);
    var defaults := [RootCell, LayerCell];
    RenderCellsAppend(defaults + vs, eds);
    RenderCellsAppend(defaults, vs);
    DefaultCellsText();
  }

  /** Regrouping the pieces of a text written in four steps after a prefix. */
  lemma AppendAssoc4(p: string, a: string, b: string, c: string, d: string)
    ensures p + (a + b + c + d) == p + a + b + c + d
  {
    AppendAssoc(p, a + b + c, d);
    AppendAssoc(p, a + b, c);
    AppendAssoc(p, a, b);
  }

  /** The document as the generator writes it, piece by piece. */
  lemma DocumentText(ts: seq<TaskNode>, es: seq<Edge>, toFixed2: real -> string)
    ensures Document(ts, es, toFixed2)
      == ModelOpen + RootOpen + RenderCell(RootCell) + RenderCell(LayerCell)
         + RenderCells(VertexCells(ts, toFixed2)) + RenderCells(EdgeCells(es)) + RootClose + ModelClose
  {
    CellsText(ts, es, toFixed2);
    AppendAssoc4(ModelOpen + RootOpen, RenderCell(RootCell), RenderCell(LayerCell),
                 RenderCells(VertexCells(ts, toFixed2)), RenderCells(EdgeCells(es)));
  }
}
