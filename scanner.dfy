/** Selecting the exported functions of one parsed source file and deciding
    whether it yields a binding module (the body of `generate_from_file`
    without its file reads and writes). */
module Scanner {
  import opened Common
  import opened Text
  import opened SyntaxTree
  import opened Declarations

  /** The descriptors of one source file and the library they bind to. */
  datatype ModuleResult = ModuleResult(lib: string, functions: seq<Function>)

  /** The source-file suffix removed to form the library name. */
  const SourceSuffix: string := ".zig"

  function IsFunctionDeclaration(n: Node): bool {
    n.kind == "function_declaration"
  }

  /** `'export' in [r.type for r in x.children]` */
  function IsExported(n: Node): bool {
    exists i | 0 <= i < |n.children| :: n.children[i].kind == "export"
  }

  function IsExportedDeclaration(n: Node): bool {
    IsFunctionDeclaration(n) && IsExported(n)
  }

  /** The top-level function declarations, then those among them that carry
      an `export` child. */
  function ExportedDeclarations(top: seq<Node>): seq<Node> {
    Filter(Filter(top, IsFunctionDeclaration), IsExported)
  }

  /** The selection is made child by child: a single child is kept exactly
      when it is an exported function declaration, and the selection of a
      concatenation is the concatenation of the selections.  Together these
      fix both which declarations are kept and their document order. */
  lemma ExportedDeclarationsSingle(n: Node)
    ensures ExportedDeclarations([n]) == if IsExportedDeclaration(n) then [n] else []
  {
    assert [n][1..] == [];
  }

  lemma ExportedDeclarationsConcat(a: seq<Node>, b: seq<Node>)
    ensures ExportedDeclarations(a + b) == ExportedDeclarations(a) + ExportedDeclarations(b)
  {
    FilterConcat(a, b, IsFunctionDeclaration);
    FilterConcat(Filter(a, IsFunctionDeclaration), Filter(b, IsFunctionDeclaration), IsExported);
  }

  /** `file_name.replace('.zig', '')` */
  function LibName(fileName: string): (r: string)
    ensures r == fileName <==> !Contains(fileName, SourceSuffix)
    ensures |r| <= |fileName|
  {
    RemoveAllUnchanged(fileName, SourceSuffix);
    RemoveAll(fileName, SourceSuffix)
  }

  /** A source file named `<stem>.zig` binds the library `<stem>`. */
  lemma LibNameOfSourceFile(stem: string)
    requires !Contains(stem, SourceSuffix)
    ensures LibName(stem + SourceSuffix) == stem
  {
    SourceSuffixUnbordered();
    RemoveAllSuffix(stem, SourceSuffix);
  }

  /** A file name made of `.zig`-free pieces separated by `.zig` loses
      every separator: all occurrences are removed, not only a final one. */
  lemma LibNameOfPieces(pieces: seq<string>)
    requires |pieces| >= 1
    requires forall i :: 0 <= i < |pieces| ==> !Contains(pieces[i], SourceSuffix)
    ensures LibName(Join(pieces, SourceSuffix)) == Join(pieces, "")
  {
    SourceSuffixUnbordered();
    var name := Join(pieces, SourceSuffix);
    SplitJoin(pieces, SourceSuffix);
    assert LibName(name) == Join(Split(name, SourceSuffix), "");
  }

  lemma SourceSuffixUnbordered()
    ensures Unbordered(SourceSuffix)
  {
  }

  /** One source file: parse every exported function declaration in document
      order (the first failure aborts the file); no exported function means
      no module, otherwise the module binds the library named after the
      file. */
  function ScanModule(fileName: string, root: Node, lines: seq<string>): (r: Result<Option<ModuleResult>>)
    ensures ExportedDeclarations(root.children) == [] ==> r == Ok(None)
    ensures r == Ok(None) ==> ExportedDeclarations(root.children) == []
    ensures r.Ok? && r.value.Some? ==>
              var decls, m := ExportedDeclarations(root.children), r.value.value;
              && m.lib == LibName(fileName)
              && |m.functions| == |decls|
              && forall i :: 0 <= i < |decls| ==> ParseFunction(decls[i], lines) == Ok(m.functions[i])
    ensures r.Err? ==>
              var decls := ExportedDeclarations(root.children);
              exists i :: 0 <= i < |decls| && ParseFunction(decls[i], lines) == Err(r.error)
                          && forall j :: 0 <= j < i ==> ParseFunction(decls[j], lines).Ok?
  {
    var functions :- MapResult(ExportedDeclarations(root.children), d => ParseFunction(d, lines));
    if |functions| == 0 then Ok(None)
    else Ok(Some(ModuleResult(LibName(fileName), functions)))
  }
}
