/** Rendering the binding module: the stub text of each descriptor
    (`Argument.__repr__`, `Function.__repr__`) and the lines written for a
    module, one write per line with a line break after each. */
module Emitter {
  import opened Common
  import opened Text
  import opened SyntaxTree
  import opened TypeMapper
  import opened Declarations
  import opened Scanner

  /** The line break written after every line. */
  const LineBreak: string := "\n"

  /** What separates the parameters in a signature. */
  const ArgSeparator: string := ", "

  /** `name: int` */
  function ArgumentText(a: Argument): string {
    a.name + ParamSeparator + HostName(a.typ)
  }

  function ArgumentTexts(args: seq<Argument>): (r: seq<string>)
    ensures |r| == |args|
    ensures forall i :: 0 <= i < |args| ==> r[i] == ArgumentText(args[i])
  {
    seq(|args|, i requires 0 <= i < |args| => ArgumentText(args[i]))
  }

  /** Splitting a parameter's text at the separator gives back its name and
      the host type's name, when the name holds no `:`. */
  lemma ArgumentTextSplit(a: Argument)
    requires ':' !in a.name
    ensures Split(ArgumentText(a), ParamSeparator) == [a.name, HostName(a.typ)]
  {
    assert Unbordered(ParamSeparator);
    LeadAbsent(a.name, ParamSeparator);
    LeadAbsent(HostName(a.typ), ParamSeparator);
    SplitConcat(a.name, ParamSeparator, HostName(a.typ));
    SplitAbsent(HostName(a.typ), ParamSeparator);
  }

  /** The parameter list between the parentheses of a signature. */
  function ArgumentList(f: Function): string {
    Join(ArgumentTexts(f.args), ArgSeparator)
  }

  /** Splitting the parameter list at `, ` and each piece at `: ` gives back
      every parameter's name and host type name, in order, when no name
      holds `,` or `:`. */
  lemma ArgumentListSplit(f: Function)
    requires |f.args| >= 1
    requires forall j :: 0 <= j < |f.args| ==> ',' !in f.args[j].name && ':' !in f.args[j].name
    ensures |Split(ArgumentList(f), ArgSeparator)| == |f.args|
    ensures forall j :: 0 <= j < |f.args| ==>
              Split(Split(ArgumentList(f), ArgSeparator)[j], ParamSeparator)
                == [f.args[j].name, HostName(f.args[j].typ)]
  {
    var texts := ArgumentTexts(f.args);
    forall j | 0 <= j < |texts| ensures !Contains(texts[j], ArgSeparator) {
      assert texts[j] == f.args[j].name + ParamSeparator + HostName(f.args[j].typ);
      LeadAbsent(texts[j], ArgSeparator);
    }
    assert Unbordered(ArgSeparator);
    SplitJoin(texts, ArgSeparator);
    forall j | 0 <= j < |f.args|
      ensures Split(texts[j], ParamSeparator) == [f.args[j].name, HostName(f.args[j].typ)]
    {
      ArgumentTextSplit(f.args[j]);
    }
  }

  /** `def name(a: int, b: str) -> int:` */
  function Signature(f: Function): string {
    "def " + f.name + "(" + ArgumentList(f) + ") -> " + HostName(f.ret) + ":"
  }

  /** The parameter texts of the `add` declaration. */
  lemma AddArgumentList()
    ensures ArgumentList(Function("add", Int, [Argument("a", Int), Argument("b", Int)])) == "a: int, b: int"
  {
    var args := [Argument("a", Int), Argument("b", Int)];
    assert ArgumentText(args[0]) == "a: int";
    assert ArgumentText(args[1]) == "b: int";
    assert ArgumentTexts(args) == ["a: int", "b: int"];
    JoinCons("a: int", ["b: int"], ArgSeparator);
  }

  /** The stub signature of the `add` declaration. */
  lemma AddSignature()
    ensures Signature(Function("add", Int, [Argument("a", Int), Argument("b", Int)]))
            == "def add(a: int, b: int) -> int:"
  {
    AddArgumentList();
    AddSignatureText();
  }

  lemma AddSignatureText()
    ensures "def " + "add" + "(" + "a: int, b: int" + ") -> " + "int" + ":" == "def add(a: int, b: int) -> int:"
  {
    assert "def " + "add" + "(" == "def add(";
    assert "def add(" + "a: int, b: int" == "def add(a: int, b: int";
    assert "def add(a: int, b: int" + ") -> " == "def add(a: int, b: int) -> ";
    assert "def add(a: int, b: int) -> " + "int" + ":" == "def add(a: int, b: int) -> int:";
  }

  const GeneratedComment: string := "# Generated from generate_bindings.py"
  const ImportLine: string := "from aber.ziglib import ZigLib, zig_function"

  /** The four header lines: provenance comment, import, blank line, the
      library handle. */
  function HeaderLines(lib: string): seq<string> {
    [ GeneratedComment,
      ImportLine,
      "",
      "lib = ZigLib('" + lib + "')" ]
  }

  /** The four lines of one stub: blank line, decorator, signature, body. */
  function StubLines(f: Function): seq<string> {
    ["", "@zig_function(lib)", Signature(f), "    pass"]
  }

  /** The stubs of `fns`, in order, four lines each. */
  function AllStubLines(fns: seq<Function>): (r: seq<string>)
    ensures |r| == 4 * |fns|
    ensures forall k :: 0 <= k < |fns| ==> r[4 * k..4 * k + 4] == StubLines(fns[k])
  {
    if fns == [] then []
    else
      var init := fns[..|fns| - 1];
      var prev := AllStubLines(init);
      var r := prev + StubLines(fns[|fns| - 1]);
      forall k | 0 <= k < |init| ensures r[4 * k..4 * k + 4] == StubLines(fns[k]) {
        SliceOfPrefix(prev, StubLines(fns[|fns| - 1]), 4 * k, 4 * k + 4);
        assert init[k] == fns[k];
      }
      r
  }

  lemma SliceOfPrefix<T>(a: seq<T>, b: seq<T>, i: nat, j: nat)
    requires i <= j <= |a|
    ensures (a + b)[i..j] == a[i..j]
  {
  }

  /** Every line the module file consists of: the header, the stubs, and a
      final blank line. */
  function RenderedLines(m: ModuleResult): (r: seq<string>)
    ensures |r| == 5 + 4 * |m.functions|
    ensures r[..4] == HeaderLines(m.lib)
    ensures forall k :: 0 <= k < |m.functions| ==> r[4 + 4 * k..8 + 4 * k] == StubLines(m.functions[k])
    ensures r[|r| - 1] == ""
  {
    var stubs := AllStubLines(m.functions);
    var r := HeaderLines(m.lib) + stubs + [""];
    assert forall k :: 0 <= k < |m.functions| ==> r[4 + 4 * k..8 + 4 * k] == stubs[4 * k..4 * k + 4];
    r
  }

  /** The text of lines each followed by a line break. */
  function Unlines(ls: seq<string>): string {
    if ls == [] then "" else ls[0] + LineBreak + Unlines(ls[1..])
  }

  lemma {:induction false} UnlinesConcat(a: seq<string>, b: seq<string>)
    ensures Unlines(a + b) == Unlines(a) + Unlines(b)
  {
    if a == [] {
      assert a + b == b;
    } else {
      assert (a + b)[1..] == a[1..] + b;
      UnlinesConcat(a[1..], b);
    }
  }

  lemma {:induction false} UnlinesAsJoin(ls: seq<string>)
    ensures Unlines(ls) == Join(ls + [""], LineBreak)
  {
    if ls != [] {
      UnlinesAsJoin(ls[1..]);
      assert (ls + [""])[1..] == ls[1..] + [""];
      JoinCons(ls[0], ls[1..] + [""], LineBreak);
      assert ls + [""] == [ls[0]] + (ls[1..] + [""]);
    }
  }

  lemma UnlinesSnoc(ls: seq<string>, l: string)
    ensures Unlines(ls + [l]) == Unlines(ls) + l + LineBreak
  {
    UnlinesConcat(ls, [l]);
    assert Unlines([l]) == l + LineBreak + Unlines([]);
  }

  /** Writes each of `ls`, in order, each followed by a line break. */
  method WriteLines(text: string, ls: seq<string>) returns (out: string)
    ensures out == text + Unlines(ls)
  {
    ghost var written: seq<string> := [];
    out := text;
    for j := 0 to |ls|
      invariant written == ls[..j]
      invariant out == text + Unlines(written)
    {
      UnlinesSnoc(written, ls[j]);
      out := out + ls[j] + LineBreak;
      written := written + [ls[j]];
    }
    assert ls[..|ls|] == ls;
  }

  /** The writes of `generate_from_file` for a module: the header, then the
      stub of every function in order, then a closing blank line. */
  method EmitBindings(m: ModuleResult) returns (text: string)
    ensures text == Unlines(RenderedLines(m))
  {
    text := WriteLines("", HeaderLines(m.lib));
    assert HeaderLines(m.lib) + AllStubLines(m.functions[..0]) == HeaderLines(m.lib);
    for i := 0 to |m.functions|
      invariant text == Unlines(HeaderLines(m.lib) + AllStubLines(m.functions[..i]))
    {
      text := WriteLines(text, StubLines(m.functions[i]));
      UnlinesNextStub(HeaderLines(m.lib), m.functions, i);
    }
    text := WriteLines(text, [""]);
    UnlinesRendered(m);
  }

  lemma UnlinesNextStub(header: seq<string>, fns: seq<Function>, i: nat)
    requires i < |fns|
    ensures Unlines(header + AllStubLines(fns[..i + 1]))
            == Unlines(header + AllStubLines(fns[..i])) + Unlines(StubLines(fns[i]))
  {
    AllStubLinesSnoc(fns, i);
    assert header + AllStubLines(fns[..i + 1]) == (header + AllStubLines(fns[..i])) + StubLines(fns[i]);
    UnlinesConcat(header + AllStubLines(fns[..i]), StubLines(fns[i]));
  }

  lemma AllStubLinesSnoc(fns: seq<Function>, i: nat)
    requires i < |fns|
    ensures AllStubLines(fns[..i + 1]) == AllStubLines(fns[..i]) + StubLines(fns[i])
  {
    var pre := fns[..i + 1];
    assert pre[..|pre| - 1] == fns[..i];
  }

  lemma UnlinesRendered(m: ModuleResult)
    ensures Unlines(RenderedLines(m))
            == Unlines(HeaderLines(m.lib) + AllStubLines(m.functions[..|m.functions|])) + Unlines([""])
  {
    assert m.functions[..|m.functions|] == m.functions;
    UnlinesConcat(HeaderLines(m.lib) + AllStubLines(m.functions), [""]);
  }

  /** No rendered line holds a line break when the library name and every
      function and parameter name are free of them. */
  ghost predicate SingleLineNames(m: ModuleResult) {
    && '\n' !in m.lib
    && forall k :: 0 <= k < |m.functions| ==>
         && '\n' !in m.functions[k].name
         && forall j :: 0 <= j < |m.functions[k].args| ==> '\n' !in m.functions[k].args[j].name
  }

  lemma HeaderSingleLine(lib: string, i: nat)
    requires '\n' !in lib
    requires i < 4
    ensures '\n' !in HeaderLines(lib)[i]
  {
    if i == 0 {
      CommentSingleLine();
    } else if i == 1 {
      ImportSingleLine();
    }
  }

  lemma CommentSingleLine()
    ensures '\n' !in GeneratedComment
  {
  }

  lemma ImportSingleLine()
    ensures '\n' !in ImportLine
  {
  }

  lemma StubSingleLine(f: Function, i: nat)
    requires '\n' !in f.name
    requires forall j :: 0 <= j < |f.args| ==> '\n' !in f.args[j].name
    requires i < 4
    ensures '\n' !in StubLines(f)[i]
  {
    if i == 2 {
      SignatureSingleLine(f);
    }
  }

  /** Every line of the stubs of `fns` is free of line breaks. */
  lemma {:induction false} StubsSingleLine(fns: seq<Function>, i: nat)
    requires forall k :: 0 <= k < |fns| ==>
               && '\n' !in fns[k].name
               && forall j :: 0 <= j < |fns[k].args| ==> '\n' !in fns[k].args[j].name
    requires i < |AllStubLines(fns)|
    ensures '\n' !in AllStubLines(fns)[i]
  {
    var init := fns[..|fns| - 1];
    if i < 4 * |init| {
      assert forall k :: 0 <= k < |init| ==> init[k] == fns[k];
      StubsSingleLine(init, i);
    } else {
      StubSingleLine(fns[|fns| - 1], i - 4 * |init|);
    }
  }

  /** Each rendered line is free of line breaks. */
  lemma RenderedLineSingle(m: ModuleResult, i: nat)
    requires SingleLineNames(m)
    requires i < |RenderedLines(m)|
    ensures '\n' !in RenderedLines(m)[i]
  {
    var stubs := AllStubLines(m.functions);
    assert RenderedLines(m) == HeaderLines(m.lib) + stubs + [""];
    if i < 4 {
      HeaderSingleLine(m.lib, i);
    } else if i < 4 + |stubs| {
      StubsSingleLine(m.functions, i - 4);
    }
  }

  /** Splitting the emitted text at its line breaks gives back the rendered
      lines, followed by the empty remainder after the last line break. */
  lemma EmittedTextLines(m: ModuleResult)
    requires SingleLineNames(m)
    ensures Split(Unlines(RenderedLines(m)), LineBreak) == RenderedLines(m) + [""]
  {
    var ls := RenderedLines(m) + [""];
    forall i | 0 <= i < |ls| ensures !Contains(ls[i], LineBreak) {
      ContainsChar(ls[i], '\n');
      if i < |ls| - 1 {
        RenderedLineSingle(m, i);
      }
    }
    UnlinesAsJoin(RenderedLines(m));
    SplitJoin(ls, LineBreak);
  }

  lemma SignatureSingleLine(f: Function)
    requires '\n' !in f.name
    requires forall j :: 0 <= j < |f.args| ==> '\n' !in f.args[j].name
    ensures '\n' !in Signature(f)
  {
    var texts := ArgumentTexts(f.args);
    forall j | 0 <= j < |texts| ensures '\n' !in texts[j] {
      assert texts[j] == f.args[j].name + ": " + HostName(f.args[j].typ);
    }
    JoinWithout(texts, ArgSeparator, '\n');
  }

  /** A join holds a character only if a part or the separator does. */
  lemma {:induction false} JoinWithout(parts: seq<string>, sep: string, c: char)
    requires c !in sep
    requires forall j :: 0 <= j < |parts| ==> c !in parts[j]
    ensures c !in Join(parts, sep)
  {
    if |parts| > 1 {
      JoinWithout(parts[1..], sep, c);
    }
  }

  /** `generate_from_file` after parsing: no text when the file exports no
      function, otherwise the rendered module; any parse failure aborts the
      file. */
  method GenerateFromFile(fileName: string, root: Node, lines: seq<string>) returns (r: Result<Option<string>>)
    ensures r.Err? <==> ScanModule(fileName, root, lines).Err?
    ensures r.Err? ==> r.error == ScanModule(fileName, root, lines).error
    ensures r == Ok(None) <==> ExportedDeclarations(root.children) == []
    ensures r.Ok? && r.value.Some? ==>
              ScanModule(fileName, root, lines).Ok? && ScanModule(fileName, root, lines).value.Some?
              && r.value.value == Unlines(RenderedLines(ScanModule(fileName, root, lines).value.value))
  {
    var scanned := ScanModule(fileName, root, lines);
    match scanned
    case Err(e) => r := Err(e);
    case Ok(None) => r := Ok(None);
    case Ok(Some(m)) =>
      var text := EmitBindings(m);
      r := Ok(Some(text));
  }
}
