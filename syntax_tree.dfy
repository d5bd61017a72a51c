/** The parse tree the generator consumes.  The grammar and the parser that
    build it are outside the model: a tree is an input value. */
module SyntaxTree {

  /** A (row, column) position in the source split into lines. */
  datatype Point = Point(row: nat, column: nat)

  /** A node: its grammar kind, the span it covers and its children in
      document order. */
  datatype Node = Node(kind: string, start: Point, end: Point, children: seq<Node>)
}
