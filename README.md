# Zig binding generator — verified model

`generate_bindings.py` reads Zig source files and writes a Python module of
stubs for each one. A stub exists for every exported function:
`@zig_function(lib)` followed by `def name(a: int, b: str) -> int:` and
`pass`. This project models that pipeline in Dafny, minus the parser and the
file system:

- **Span reader** (`SpanReader`) rebuilds the text a syntax-tree node covers
  from its start and end (row, column) points over the source lines
  (`read_value`). It is written twice: as a function, and as the source's loop
  that appends lines and joins them.
- **Type mapper** (`TypeMapper`) maps the two native spellings `i32` and
  `[*:0]const u8` onto `int` and `str` (`map_types`).
- **Declaration parser** (`Declarations`) covers three steps:
  - the last-wins index of a declaration's children by kind;
  - the return type, preferring `builtin_type` over `pointer_type`;
  - each `parameter` child, split at `": "`.

  Together these produce a `Function` descriptor.
- **Scanner** (`Scanner`) picks the exported top-level function declarations
  in document order and parses each; the first failure aborts the file. No
  exported function means no module. The library name is the file name with
  every `.zig` removed.
- **Emitter** (`Emitter`) renders `Argument.__repr__` and `Function.__repr__`
  and writes the module as the source does: four header lines, four lines per
  stub and a closing blank line, each followed by a line break.

Two modules support the rest. `Common` holds `Option`, `Result` and the error
kinds, plus the two list-comprehension shapes the source uses: a filter, and a
map that stops at the first failure. `Text` holds Python's slicing,
`str.split`, `str.join` and `str.replace` over strings, with their round-trip
laws.

Two behaviours of the code are worth stating:

- Python slicing clamps a column past the end of its line, so such a column
  is not an error. Only a row outside the line array raises `IndexError`.
- A span whose end row lies before its start row is not rejected. It yields
  the tail of the start line, a line break, and the head of the end line.

## Model

| member | source | states |
|---|---|---|
| SpanReader.SpanText | generate_bindings.py:33-47 | succeeds exactly when both rows index the line array, and otherwise fails with IndexError; a single-line span within its line is exactly the substring between the columns |
| SpanReader.ReadValue | generate_bindings.py:33-47 | the loop that appends the start-line tail, every line in between and the end-line head, then joins them with line breaks, returns exactly `SpanText` on every input, including the error cases |
| SpanReader.SpanTextLines | generate_bindings.py:40-47 | for a span over several lines without embedded line breaks, splitting the text at line breaks gives back the start-line tail, the intermediate lines in order, and the end-line head |
| SpanReader.SpanTextLength | generate_bindings.py:40-47 | such a span's text is as long as its fragments plus one line break per row crossed |
| TypeMapper.MapType | generate_bindings.py:49-55 | maps a spelling to a host type exactly when the spelling is that type's native spelling; anything else fails and the failure carries the spelling |
| Declarations.ChildrenByKindCovers | generate_bindings.py:70 | every child's kind is a key of the kind index `ChildrenByKind` |
| Declarations.ChildrenByKindOnlyKinds | generate_bindings.py:70 | every key of the kind index is the kind of some child |
| Declarations.ChildrenByKindLastWins | generate_bindings.py:70 | the kind index `ChildrenByKind` maps a kind to the last child of that kind (the dict comprehension overwrites) |
| Declarations.ParseReturnType | generate_bindings.py:58-63 | the return type is `t` exactly when the `builtin_type` child reads as `t`'s spelling, or, with no such child, the `pointer_type` child does; with neither child the type is never bound |
| Declarations.ParseArgument | generate_bindings.py:65-67 | a parsed parameter's text is its name, `": "`, and its type's spelling, and the name holds no `": "`; a span error propagates; a text not splitting into exactly two pieces fails with the piece count |
| Declarations.ParseArgumentExact | generate_bindings.py:65-67 | both directions: a parameter parses to `Argument(name, t)` if and only if its text is `name: <spelling of t>` and `name` holds no `": "` |
| Declarations.ParseFunction | generate_bindings.py:69-80 | a declaration whose `identifier` text, return type and every `parameter` child all parse does parse; a parsed descriptor's name is the text of the last `identifier` child, its return type is that of the kind index, and its arguments are the `parameter` children of the last `parameters` child, parsed one for one in order; a missing `identifier` child, or a missing `parameters` child once name and return type are read, fails with that kind |
| Declarations.AddDeclaration | generate_bindings.py:69-80 | the declaration `export fn add(a: i32, b: i32) i32` parses to `add` returning `int` with parameters `a: int` then `b: int` |
| Common.MapResult | generate_bindings.py:74-78 | a comprehension whose element may raise succeeds exactly when every element does, yielding the results one for one; otherwise it yields the first element's failure |
| Common.FilterConcat | generate_bindings.py:90-93 | filtering distributes over concatenation, so kept elements keep their relative order |
| Scanner.ExportedDeclarationsConcat | generate_bindings.py:90-99 | `ExportedDeclarations`, the selection of exported function declarations, from a concatenation is the concatenation of the selections |
| Scanner.LibName | generate_bindings.py:104 | the library name equals the file name exactly when the file name holds no `.zig`, and it is never longer |
| Scanner.LibNameOfPieces | generate_bindings.py:104 | a file name made of `.zig`-free pieces separated by `.zig` (such as `a.zig.zig`) maps to the pieces concatenated: every `.zig` is removed |
| Scanner.LibNameOfSourceFile | generate_bindings.py:104 | a file named `<stem>.zig`, where the stem holds no `.zig`, binds the library `<stem>` |
| Scanner.ScanModule | generate_bindings.py:88-104 | no exported declaration if and only if no module; otherwise the module's functions are the exported declarations parsed one for one, in order, under the file's library name; a failure is the failure of the first declaration that does not parse |
| Text.JoinSplit | generate_bindings.py:66 | joining the pieces of a split with the separator gives back the text |
| Text.SplitJoin | generate_bindings.py:66 | splitting a join of pieces that hold no (border-free) separator gives back the pieces |
| Text.RemoveAllUnchanged | generate_bindings.py:104 | removing every occurrence of a pattern changes nothing exactly when the pattern does not occur |
| Emitter.ArgumentTextSplit | generate_bindings.py:17-18 | splitting a parameter's stub text (`ArgumentText`, the `__repr__`) at `": "` gives back its name and host type name when the name holds no `:` |
| Emitter.ArgumentListSplit | generate_bindings.py:30-31 | splitting the parameter list of `Signature` (the `__repr__`) at `", "` and each piece at `": "` gives back every parameter's name and type, in order, when no name holds `,` or `:` |
| Emitter.AddSignature | generate_bindings.py:30-31 | the `add` descriptor renders as `def add(a: int, b: int) -> int:` |
| Emitter.RenderedLines | generate_bindings.py:108-119 | the module has the four header lines (`HeaderLines`), then the four lines of each stub (`StubLines`) in order, then one blank line |
| Emitter.EmitBindings | generate_bindings.py:108-119 | the writes, in order and each followed by a line break, produce exactly the rendered lines |
| Emitter.EmittedTextLines | generate_bindings.py:108-119 | when no name holds a line break, splitting the written text at line breaks gives back the rendered lines and the empty remainder after the last break |
| Emitter.GenerateFromFile | generate_bindings.py:83-119 | fails exactly when scanning fails, with the same error; writes nothing exactly when the file exports no function; otherwise writes the rendered module of the scanned descriptors |

## Left out

- The Zig parser (`tree_sitter_zig`) is not modelled. Its output is the
  input: a `Node` tree with kinds, children and (row, column) points.
- File reads, `splitlines` and the directory walk are left out. The source
  lines are a parameter, assumed to hold no line break. The output file's
  path is not modelled; the source builds it from the module-level loop
  variable `file`.
- UTF-8 decoding is left out. Lines are sequences of characters and columns
  index characters, so a `DecodingError` cannot arise.
- `os.linesep` is fixed to `"\n"`.
- Exception identity is not modelled. Every failure is one `Error` value.
  `map_types` raises `ArgumentError`, a name the source never defines, so at
  run time a `NameError` would escape; the model reports `UnknownType` with
  the spelling. `UnboundReturnType` stands for Python's `UnboundLocalError`.
  `MissingChild` stands for `KeyError`. `MalformedParameter` stands for the
  `ValueError` of unpacking.
- `Argument` and `Function` are value types. The source's mutable objects are
  never changed after construction.
- The type mapper's host types are the two classes `int` and `str`, named by
  their `__name__`.
