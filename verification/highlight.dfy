/**
 Building the line table of a code view. Highlighted code arrives as a
 `<pre>` element whose children are styled spans separated by text nodes;
 it becomes one table row per line, numbered from 1, whose code cell holds
 the spans of that line. Code that could not be highlighted becomes one row
 per line with each line wrapped in a single span.

 The HTML parser and renderer are abstracted away: the input is the parsed
 body's children, the output the sequence of rows (line number and code cell
 contents) that is rendered as the table.
 */
module Highlight {
  import opened Wrappers
  import opened Lines

  datatype Tag = Pre | Span | OtherTag(name: string)

  datatype Attr = Attr(key: string, val: string)

  /** A parsed HTML node: an element, a text node, or any other kind (comment, doctype, ...). */
  datatype Node =
    | Element(tag: Tag, attrs: seq<Attr>, children: seq<Node>)
    | Text(data: string)
    | OtherNode(data: string)

  /** A table row: the line number cell and the contents of the code cell. */
  datatype Row = Row(lineNo: nat, code: seq<Node>)

  /** Why the highlighted markup could not be turned into a table, with the offending node. */
  datatype TableError =
    | NoPre(found: Option<Node>)
    | NoSpan(found: Option<Node>)
    | Unexpected(node: Node)

  predicate IsPre(n: Node) { n.Element? && n.tag == Pre }

  predicate IsSpan(n: Node) { n.Element? && n.tag == Span }

  /** The only node kinds allowed among the children of the pre element. */
  predicate SpanOrText(n: Node) { IsSpan(n) || n.Text? }

  predicate AllSpanOrText(nodes: seq<Node>) {
    forall k :: 0 <= k < |nodes| ==> SpanOrText(nodes[k])
  }

  /** n is the first child that is neither a span nor a text node. */
  predicate FirstDisallowed(nodes: seq<Node>, n: Node) {
    exists j :: 0 <= j < |nodes| && nodes[j] == n && !SpanOrText(nodes[j]) && AllSpanOrText(nodes[..j])
  }

  /** Row k carries line number k + 1. */
  predicate Numbered(rows: seq<Row>) {
    forall k :: 0 <= k < |rows| ==> rows[k].lineNo == k + 1
  }

  /** The contents of all code cells, row after row. */
  function Flatten(rows: seq<Row>): seq<Node> {
    if |rows| == 0 then [] else rows[0].code + Flatten(rows[1..])
  }

  lemma {:induction false} FlattenConcat(a: seq<Row>, b: seq<Row>)
    ensures Flatten(a + b) == Flatten(a) + Flatten(b)
  {
    if |a| > 0 {
      FlattenConcat(a[1..], b);
      assert (a + b)[1..] == a[1..] + b;
    } else {
      assert a + b == b;
    }
  }

  /** The span elements among the nodes, in order. */
  function Spans(nodes: seq<Node>): (spans: seq<Node>)
    ensures forall k :: 0 <= k < |spans| ==> IsSpan(spans[k])
  {
    if |nodes| == 0 then []
    else (if IsSpan(nodes[0]) then [nodes[0]] else []) + Spans(nodes[1..])
  }

  /** Spans keeps exactly the span elements: a node is kept if and only if it is a span of the input. */
  lemma {:induction false} SpansFilter(nodes: seq<Node>)
    ensures forall n :: n in Spans(nodes) <==> n in nodes && IsSpan(n)
  {
    if |nodes| > 0 {
      SpansFilter(nodes[1..]);
      assert nodes == [nodes[0]] + nodes[1..];
    }
  }

  /** The newlines a node contributes: those of a text node, none otherwise. */
  function NodeNewlines(n: Node): nat {
    if n.Text? then CountNewlines(n.data) else 0
  }

  /** The total number of newlines in the text nodes. */
  function NewlinesIn(nodes: seq<Node>): nat {
    if |nodes| == 0 then 0 else NodeNewlines(nodes[0]) + NewlinesIn(nodes[1..])
  }

  /** The span element that wraps one plain line. */
  function LineSpan(line: string): Node {
    Element(Span, [], [Text(line)])
  }

  /** A code cell holding exactly one plain line span. */
  predicate IsLineCell(row: Row) {
    |row.code| == 1 && row.code[0].Element? && row.code[0].tag == Span
    && row.code[0].attrs == [] && |row.code[0].children| == 1 && row.code[0].children[0].Text?
  }

  /** The text of a plain line cell. */
  function CellText(row: Row): string
    requires IsLineCell(row)
  {
    row.code[0].children[0].data
  }

  /**
   The table for code that was not highlighted: one row per newline-separated
   line, numbered from 1, each code cell one span holding the line without
   its trailing carriage return.
   */
  function PlainTable(code: string): (rows: seq<Row>)
    ensures |rows| == CountNewlines(code) + 1
    ensures Numbered(rows)
    ensures forall k :: 0 <= k < |rows| ==> IsLineCell(rows[k])
    ensures forall k :: 0 <= k < |rows| ==>
              && '\n' !in CellText(rows[k])
              && (CellText(rows[k]) == Split(code)[k] || CellText(rows[k]) + "\r" == Split(code)[k])
              && (EndsWithCR(Split(code)[k]) <==> CellText(rows[k]) != Split(code)[k])
  {
    var pieces := Split(code);
    seq(|pieces|, k requires 0 <= k < |pieces| => Row(k + 1, [LineSpan(TrimCR(pieces[k]))]))
  }

  /** The line texts of a plain table. */
  function CellTexts(rows: seq<Row>): seq<string>
    requires forall k :: 0 <= k < |rows| ==> IsLineCell(rows[k])
  {
    seq(|rows|, k requires 0 <= k < |rows| => CellText(rows[k]))
  }

  /** For code without carriage returns the plain table loses nothing: its lines joined give the code back. */
  lemma PlainTableRoundTrip(code: string)
    requires '\r' !in code
    ensures Join(CellTexts(PlainTable(code))) == code
  {
    var pieces := Split(code);
    var rows := PlainTable(code);
    assert CellTexts(rows) == pieces;
    JoinSplit(code);
  }

  /** The current (last) row with one more span in its code cell. */
  function AppendToLast(rows: seq<Row>, n: Node): (rows': seq<Row>)
    requires |rows| > 0
    ensures |rows'| == |rows|
    ensures forall k :: 0 <= k < |rows| - 1 ==> rows'[k] == rows[k]
    ensures rows'[|rows| - 1].lineNo == rows[|rows| - 1].lineNo
    ensures rows'[|rows| - 1].code == rows[|rows| - 1].code + [n]
    ensures Flatten(rows') == Flatten(rows) + [n]
  {
    var front := rows[..|rows| - 1];
    var last := rows[|rows| - 1];
    var grown := Row(last.lineNo, last.code + [n]);
    assert rows == front + [last];
    FlattenConcat(front, [last]);
    FlattenConcat(front, [grown]);
    front + [grown]
  }

  /** c new rows with empty code cells, each numbered by the row count once it is added. */
  function AddRows(rows: seq<Row>, c: nat): (rows': seq<Row>)
    ensures |rows'| == |rows| + c
    ensures forall k :: 0 <= k < |rows| ==> rows'[k] == rows[k]
    ensures forall k :: |rows| <= k < |rows'| ==> rows'[k] == Row(k + 1, [])
    ensures Flatten(rows') == Flatten(rows)
    decreases c
  {
    if c == 0 then rows
    else
      var grown := rows + [Row(|rows| + 1, [])];
      FlattenConcat(rows, [Row(|rows| + 1, [])]);
      AddRows(grown, c - 1)
  }

  /**
   One step of the walk over an allowed node: a span joins the current row's
   code cell, a text node opens one new row per newline it contains.
   */
  function Step(rows: seq<Row>, n: Node): (rows': seq<Row>)
    requires |rows| > 0 && SpanOrText(n)
    ensures |rows'| == |rows| + NodeNewlines(n)
    ensures forall k :: 0 <= k < |rows| - 1 ==> rows'[k] == rows[k]
    ensures rows'[|rows| - 1].lineNo == rows[|rows| - 1].lineNo
    ensures rows'[|rows| - 1].code == rows[|rows| - 1].code + (if IsSpan(n) then [n] else [])
    ensures forall k :: |rows| <= k < |rows'| ==> rows'[k] == Row(k + 1, [])
    ensures Flatten(rows') == Flatten(rows) + (if IsSpan(n) then [n] else [])
  {
    if IsSpan(n) then AppendToLast(rows, n) else AddRows(rows, CountNewlines(n.data))
  }

  lemma {:induction false} NewlinesConcat(a: seq<Node>, b: seq<Node>)
    ensures NewlinesIn(a + b) == NewlinesIn(a) + NewlinesIn(b)
  {
    if |a| > 0 {
      NewlinesConcat(a[1..], b);
      assert (a + b)[1..] == a[1..] + b;
    } else {
      assert a + b == b;
    }
  }

  lemma {:induction false} SpansConcat(a: seq<Node>, b: seq<Node>)
    ensures Spans(a + b) == Spans(a) + Spans(b)
  {
    if |a| > 0 {
      SpansConcat(a[1..], b);
      assert (a + b)[1..] == a[1..] + b;
    } else {
      assert a + b == b;
    }
  }

  /** Extending a prefix of the nodes by one node adds that node's newlines and span. */
  lemma PrefixStep(nodes: seq<Node>, i: nat)
    requires i < |nodes|
    ensures NewlinesIn(nodes[..i + 1]) == NewlinesIn(nodes[..i]) + NodeNewlines(nodes[i])
    ensures Spans(nodes[..i + 1]) == Spans(nodes[..i]) + (if IsSpan(nodes[i]) then [nodes[i]] else [])
  {
    assert nodes[..i + 1] == nodes[..i] + [nodes[i]];
    NewlinesConcat(nodes[..i], [nodes[i]]);
    SpansConcat(nodes[..i], [nodes[i]]);
    assert [nodes[i]][1..] == [];
  }

  /** The body starts with a pre element whose first child is a span. */
  predicate StartsWithPreSpan(body: seq<Node>) {
    |body| > 0 && IsPre(body[0]) && |body[0].children| > 0 && IsSpan(body[0].children[0])
  }

  /**
   The spans of line k: the span elements preceded by exactly k newlines, in
   order. This is what the code cell of row k + 1 must hold.
   */
  function SpansOnLine(nodes: seq<Node>, k: nat): seq<Node>
  {
    if |nodes| == 0 then []
    else
      var front := nodes[..|nodes| - 1];
      var last := nodes[|nodes| - 1];
      SpansOnLine(front, k) + (if IsSpan(last) && NewlinesIn(front) == k then [last] else [])
  }

  /** No span is preceded by more newlines than there are. */
  lemma {:induction false} SpansOnLineBeyond(nodes: seq<Node>, k: nat)
    requires k > NewlinesIn(nodes)
    ensures SpansOnLine(nodes, k) == []
  {
    if |nodes| > 0 {
      var front := nodes[..|nodes| - 1];
      assert nodes == front + [nodes[|nodes| - 1]];
      NewlinesConcat(front, [nodes[|nodes| - 1]]);
      SpansOnLineBeyond(front, k);
    }
  }

  /** Each code cell holds exactly the spans of its line, among the first i nodes. */
  ghost predicate Grouped(pre: seq<Node>, i: nat, rows: seq<Row>)
    requires i <= |pre|
  {
    forall k :: 0 <= k < |rows| ==> rows[k].code == SpansOnLine(pre[..i], k)
  }

  /**
   Equal spans are kept apart by line: with the same span twice after a
   newline, line 0 holds it once and line 1 holds it twice.
   */
  lemma RepeatedSpansKeepTheirLines(span: Node)
    requires IsSpan(span)
    ensures SpansOnLine([span, Text("\n"), span, span], 0) == [span]
    ensures SpansOnLine([span, Text("\n"), span, span], 1) == [span, span]
  {
    var nodes := [span, Text("\n"), span, span];
    RepeatedSpansNewlines(span);
    assert nodes[..1][..0] == [] && nodes[..2][..1] == nodes[..1];
    assert nodes[..3][..2] == nodes[..2] && nodes[..4] == nodes;
    assert SpansOnLine(nodes[..1], 0) == [span] && SpansOnLine(nodes[..1], 1) == [];
    assert SpansOnLine(nodes[..2], 0) == [span] && SpansOnLine(nodes[..2], 1) == [];
    assert SpansOnLine(nodes[..3], 0) == [span] && SpansOnLine(nodes[..3], 1) == [span];
  }

  /** The newlines before each node of the example above. */
  lemma RepeatedSpansNewlines(span: Node)
    requires IsSpan(span)
    ensures var nodes := [span, Text("\n"), span, span];
      && NewlinesIn(nodes[..1]) == 0
      && NewlinesIn(nodes[..2]) == 1
      && NewlinesIn(nodes[..3]) == 1
  {
    var nodes := [span, Text("\n"), span, span];
    assert CountNewlines("\n") == 1 by {
      assert "\n"[1..] == [];
    }
    assert NewlinesIn(nodes[..1]) == 0 by {
      assert nodes[..1] == [span];
    }
    assert NewlinesIn(nodes[..2]) == 1 by {
      NewlinesConcat(nodes[..1], [Text("\n")]);
      assert nodes[..2] == nodes[..1] + [Text("\n")];
    }
    NewlinesConcat(nodes[..2], [span]);
    assert nodes[..3] == nodes[..2] + [span];
  }

  /** What the walk has built after the first i children of the pre. */
  ghost predicate WalkedUpTo(pre: seq<Node>, i: nat, rows: seq<Row>) {
    && i <= |pre|
    && AllSpanOrText(pre[..i])
    && |rows| == 1 + NewlinesIn(pre[..i])
    && Numbered(rows)
    && Flatten(rows) == Spans(pre[..i])
    && Grouped(pre, i, rows)
  }

  /**
   One step keeps every code cell equal to the spans of its line: a span is
   added to the current line only, and the rows a text node opens are empty.
   */
  lemma StepGroups(pre: seq<Node>, i: nat, rows: seq<Row>)
    requires i < |pre| && SpanOrText(pre[i])
    requires |rows| == 1 + NewlinesIn(pre[..i])
    requires Grouped(pre, i, rows)
    ensures Grouped(pre, i + 1, Step(rows, pre[i]))
  {
    var next := Step(rows, pre[i]);
    assert pre[..i + 1][..i] == pre[..i];
    forall k | 0 <= k < |next|
      ensures next[k].code == SpansOnLine(pre[..i + 1], k)
    {
      if k >= |rows| {
        SpansOnLineBeyond(pre[..i], k);
      }
    }
  }

  /** One step of the walk extends what has been built by one more child. */
  lemma StepWalks(pre: seq<Node>, i: nat, rows: seq<Row>)
    requires WalkedUpTo(pre, i, rows) && i < |pre| && SpanOrText(pre[i])
    ensures WalkedUpTo(pre, i + 1, Step(rows, pre[i]))
  {
    StepCounts(pre, i, rows);
    StepGroups(pre, i, rows);
  }

  /** One step keeps the children allowed, the row count, the numbering and the spans in order. */
  lemma StepCounts(pre: seq<Node>, i: nat, rows: seq<Row>)
    requires i < |pre| && SpanOrText(pre[i]) && |rows| > 0
    requires AllSpanOrText(pre[..i])
    requires |rows| == 1 + NewlinesIn(pre[..i])
    requires Numbered(rows)
    requires Flatten(rows) == Spans(pre[..i])
    ensures AllSpanOrText(pre[..i + 1])
    ensures |Step(rows, pre[i])| == 1 + NewlinesIn(pre[..i + 1])
    ensures Numbered(Step(rows, pre[i]))
    ensures Flatten(Step(rows, pre[i])) == Spans(pre[..i + 1])
  {
    PrefixStep(pre, i);
    assert pre[..i + 1] == pre[..i] + [pre[i]];
  }

  /**
   The walk over the children of the pre element, starting with one row: a
   span joins the current row's code cell, a text node opens one new row per
   newline it contains, and any other node stops the walk with an error. On
   success there is one row more than there are newlines, rows are numbered
   from 1, and the code cell of row k + 1 holds exactly the spans preceded by
   k newlines, in their original order.
   */
  method WalkSiblings(pre: seq<Node>) returns (r: Result<seq<Row>, TableError>)
    ensures r.Success? <==> AllSpanOrText(pre)
    ensures r.Failure? ==> r.error.Unexpected? && FirstDisallowed(pre, r.error.node)
    ensures r.Success? ==>
              && |r.value| == 1 + NewlinesIn(pre)
              && Numbered(r.value)
              && Flatten(r.value) == Spans(pre)
    ensures r.Success? ==> forall k :: 0 <= k < |r.value| ==> r.value[k].code == SpansOnLine(pre, k)
  {
    var rows := [Row(1, [])];
    var i := 0;
    assert pre[..0] == [];
    while i < |pre|
      invariant WalkedUpTo(pre, i, rows)
    {
      var n := pre[i];
      if !SpanOrText(n) {
        assert FirstDisallowed(pre, pre[i]);
        return Failure(Unexpected(n));
      }
      StepWalks(pre, i, rows);
      rows := Step(rows, n);
      i := i + 1;
    }
    assert pre[..i] == pre;
    return Success(rows);
  }

  /**
   The table for highlighted code: it fails unless the body's first child is
   a pre element whose first child is a span, and otherwise is the walk over
   the children of the pre.
   */
  method PreSpansToTable(body: seq<Node>) returns (r: Result<seq<Row>, TableError>)
    ensures r.Success? <==> StartsWithPreSpan(body) && AllSpanOrText(body[0].children)
    ensures |body| == 0 ==> r == Failure(NoPre(None))
    ensures |body| > 0 && !IsPre(body[0]) ==> r == Failure(NoPre(Some(body[0])))
    ensures |body| > 0 && IsPre(body[0]) && |body[0].children| == 0 ==> r == Failure(NoSpan(None))
    ensures |body| > 0 && IsPre(body[0]) && |body[0].children| > 0 && !IsSpan(body[0].children[0]) ==>
              r == Failure(NoSpan(Some(body[0].children[0])))
    ensures r.Failure? && StartsWithPreSpan(body) ==>
              r.error.Unexpected? && FirstDisallowed(body[0].children, r.error.node)
    ensures r.Success? ==>
              && |r.value| == 1 + NewlinesIn(body[0].children)
              && Numbered(r.value)
              && Flatten(r.value) == Spans(body[0].children)
    ensures r.Success? ==>
              forall k :: 0 <= k < |r.value| ==> r.value[k].code == SpansOnLine(body[0].children, k)
  {
    if |body| == 0 {
      return Failure(NoPre(None));
    }
    if !IsPre(body[0]) {
      return Failure(NoPre(Some(body[0])));
    }
    var pre := body[0].children;
    if |pre| == 0 {
      return Failure(NoSpan(None));
    }
    if !IsSpan(pre[0]) {
      return Failure(NoSpan(Some(pre[0])));
    }
    r := WalkSiblings(pre);
  }
}
