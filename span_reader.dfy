/** Rebuilding the text a node covers from its start and end points over
    the source split into lines (`read_value`). */
module SpanReader {
  import opened Common
  import opened Text
  import opened SyntaxTree

  const Newline: string := "\n"

  /** The fragments a span made of several lines is joined from: the start
      line from the start column, every line strictly between, and the end
      line up to the end column. */
  function SpanPieces(lines: seq<string>, n: Node): (r: seq<string>)
    requires n.start.row < |lines| && n.end.row < |lines|
    ensures |r| >= 2
  {
    var sr, er := n.start.row, n.end.row;
    [SliceFrom(lines[sr], n.start.column)]
      + (if sr < er then lines[sr + 1..er] else [])
      + [SliceTo(lines[er], n.end.column)]
  }

  /** The text node `n` covers.  A row outside `lines` fails with an index
      error; columns past a line's end are clamped, as slicing does. */
  function SpanText(n: Node, lines: seq<string>): (r: Result<string>)
    ensures r.Ok? <==> n.start.row < |lines| && n.end.row < |lines|
    ensures r.Err? ==> r.error == IndexError
    ensures (r.Ok? && n.start.row == n.end.row && n.start.column <= n.end.column <= |lines[n.start.row]|) ==>
              r.value == lines[n.start.row][n.start.column..n.end.column]
  {
    var sr, er := n.start.row, n.end.row;
    if sr >= |lines| then Err(IndexError)
    else if sr == er then Ok(Slice(lines[sr], n.start.column, n.end.column))
    else if er >= |lines| then Err(IndexError)
    else Ok(Join(SpanPieces(lines, n), Newline))
  }

  /** Lines as `splitlines` yields them hold no line break. */
  ghost predicate NoLineBreaks(lines: seq<string>) {
    forall i :: 0 <= i < |lines| ==> '\n' !in lines[i]
  }

  /** Splitting the text of a span over several lines at its line breaks
      gives back the tail of the start line, the full lines between, in
      order, and the head of the end line. */
  lemma SpanTextLines(n: Node, lines: seq<string>)
    requires n.start.row < n.end.row < |lines|
    requires NoLineBreaks(lines)
    ensures SpanText(n, lines).Ok?
    ensures Split(SpanText(n, lines).value, Newline)
              == [SliceFrom(lines[n.start.row], n.start.column)]
                 + lines[n.start.row + 1..n.end.row]
                 + [SliceTo(lines[n.end.row], n.end.column)]
  {
    var pieces := SpanPieces(lines, n);
    forall i | 0 <= i < |pieces| ensures !Contains(pieces[i], Newline) {
      ContainsChar(pieces[i], '\n');
      if 0 < i < |pieces| - 1 {
        assert pieces[i] == lines[n.start.row + i];
      }
    }
    SplitJoin(pieces, Newline);
  }

  /** The text of a span over several lines is as long as its fragments plus
      one line break per row crossed. */
  lemma SpanTextLength(n: Node, lines: seq<string>)
    requires n.start.row < n.end.row < |lines|
    ensures SpanText(n, lines).Ok?
    ensures |SpanText(n, lines).value|
              == |SliceFrom(lines[n.start.row], n.start.column)|
                 + SumLengths(lines[n.start.row + 1..n.end.row])
                 + |SliceTo(lines[n.end.row], n.end.column)|
                 + (n.end.row - n.start.row)
  {
    var sr, er := n.start.row, n.end.row;
    var head, middle, tail := [SliceFrom(lines[sr], n.start.column)], lines[sr + 1..er], [SliceTo(lines[er], n.end.column)];
    JoinLength(head + middle + tail, Newline);
    SumLengthsConcat(head + middle, tail);
    SumLengthsConcat(head, middle);
    assert SumLengths(head) == |head[0]|;
    assert SumLengths(tail) == |tail[0]|;
  }

  /** `read_value`: the same text, built as the source builds it, by
      appending lines to a list in a loop and joining them at the end. */
  method ReadValue(n: Node, lines: seq<string>) returns (r: Result<string>)
    ensures r == SpanText(n, lines)
  {
    var sr, er := n.start.row, n.end.row;
    if sr == er {
      if sr >= |lines| {
        return Err(IndexError);
      }
      return Ok(Slice(lines[sr], n.start.column, n.end.column));
    }
    if sr >= |lines| {
      return Err(IndexError);
    }
    var pieces := [SliceFrom(lines[sr], n.start.column)];
    var row := sr + 1;
    while row < er
      invariant sr + 1 <= row <= |lines|
      invariant sr < er ==> row <= er
      invariant er < sr ==> row == sr + 1
      invariant pieces == [SliceFrom(lines[sr], n.start.column)] + lines[sr + 1..row]
    {
      if row >= |lines| {
        return Err(IndexError);
      }
      pieces := pieces + [lines[row]];
      row := row + 1;
    }
    if er >= |lines| {
      return Err(IndexError);
    }
    pieces := pieces + [SliceTo(lines[er], n.end.column)];
    assert pieces == SpanPieces(lines, n);
    r := Ok(Join(pieces, Newline));
  }
}
