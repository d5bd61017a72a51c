/** One function declaration node turned into a descriptor: name, return
    type and parameters (`parse_return_type`, `parse_argument`,
    `parse_function`). */
module Declarations {
  import opened Common
  import opened Text
  import opened SyntaxTree
  import opened SpanReader
  import opened TypeMapper

  /** A stub parameter: its name and host type. */
  datatype Argument = Argument(name: string, typ: HostType)

  /** A stub: its name, return type and parameters in declaration order. */
  datatype Function = Function(name: string, ret: HostType, args: seq<Argument>)

  /** What separates a parameter's name from its type spelling. */
  const ParamSeparator: string := ": "

  /** No later child has the same kind as child `i`. */
  ghost predicate LastOfKind(cs: seq<Node>, i: int)
    requires 0 <= i < |cs|
  {
    forall j :: i < j < |cs| ==> cs[j].kind != cs[i].kind
  }

  /** `{x.type: x for x in children}`: the children entered left to right,
      so a later child of a kind overwrites an earlier one. */
  function ChildrenByKind(cs: seq<Node>): map<string, Node>
    decreases |cs|
  {
    if cs == [] then map[] else ChildrenByKind(cs[..|cs| - 1])[cs[|cs| - 1].kind := cs[|cs| - 1]]
  }

  /** Every child's kind is a key of the index. */
  lemma {:induction false} ChildrenByKindCovers(cs: seq<Node>)
    ensures forall i :: 0 <= i < |cs| ==> cs[i].kind in ChildrenByKind(cs)
    decreases |cs|
  {
    if cs != [] {
      var init := cs[..|cs| - 1];
      ChildrenByKindCovers(init);
      forall i | 0 <= i < |init| ensures cs[i].kind in ChildrenByKind(cs) {
        assert init[i] == cs[i];
      }
    }
  }

  /** Every key of the index is the kind of some child. */
  lemma {:induction false} ChildrenByKindOnlyKinds(cs: seq<Node>, k: string)
    requires k in ChildrenByKind(cs)
    ensures exists i :: 0 <= i < |cs| && cs[i].kind == k
    decreases |cs|
  {
    var init, last := cs[..|cs| - 1], cs[|cs| - 1];
    if k != last.kind {
      ChildrenByKindOnlyKinds(init, k);
      var i :| 0 <= i < |init| && init[i].kind == k;
      assert cs[i] == init[i];
    }
  }

  /** Each kind maps to the last child of that kind. */
  lemma {:induction false} ChildrenByKindLastWins(cs: seq<Node>, i: int)
    requires 0 <= i < |cs| && LastOfKind(cs, i)
    ensures cs[i].kind in ChildrenByKind(cs) && ChildrenByKind(cs)[cs[i].kind] == cs[i]
    decreases |cs|
  {
    var init, last := cs[..|cs| - 1], cs[|cs| - 1];
    if i < |init| {
      assert cs[i] == init[i];
      assert LastOfKind(init, i);
      ChildrenByKindLastWins(init, i);
    }
  }

  /** `parse_return_type`: the `builtin_type` child when there is one,
      otherwise the `pointer_type` child, read and mapped; with neither,
      the type is never bound. */
  function ParseReturnType(nodes: map<string, Node>, lines: seq<string>): (r: Result<HostType>)
    ensures forall t :: r == Ok(t) <==>
              ("builtin_type" in nodes && SpanText(nodes["builtin_type"], lines) == Ok(Spelling(t)))
              || ("builtin_type" !in nodes && "pointer_type" in nodes
                  && SpanText(nodes["pointer_type"], lines) == Ok(Spelling(t)))
    ensures "builtin_type" !in nodes && "pointer_type" !in nodes ==> r == Err(UnboundReturnType)
  {
    if "builtin_type" in nodes then
      var spelling :- SpanText(nodes["builtin_type"], lines);
      MapType(spelling)
    else if "pointer_type" in nodes then
      var spelling :- SpanText(nodes["pointer_type"], lines);
      MapType(spelling)
    else Err(UnboundReturnType)
  }

  /** `parse_argument`: the parameter's text must split at `": "` into
      exactly a name and a type spelling, and the spelling must map. */
  function ParseArgument(n: Node, lines: seq<string>): (r: Result<Argument>)
    ensures r.Ok? ==> SpanText(n, lines) == Ok(r.value.name + ParamSeparator + Spelling(r.value.typ))
    ensures r.Ok? ==> !Contains(r.value.name, ParamSeparator)
    ensures SpanText(n, lines).Err? ==> r == Err(SpanText(n, lines).error)
    ensures SpanText(n, lines).Ok? && |Split(SpanText(n, lines).value, ParamSeparator)| != 2 ==>
              r == Err(MalformedParameter(|Split(SpanText(n, lines).value, ParamSeparator)|))
  {
    var text :- SpanText(n, lines);
    var parts := Split(text, ParamSeparator);
    if |parts| != 2 then Err(MalformedParameter(|parts|))
    else
      var t :- MapType(parts[1]);
      JoinSplit(text, ParamSeparator);
      SplitPieces(text, ParamSeparator);
      JoinCons(parts[0], [parts[1]], ParamSeparator);
      assert parts == [parts[0]] + [parts[1]];
      Ok(Argument(parts[0], t))
  }

  /** Neither native spelling holds the parameter separator. */
  lemma SpellingHasNoSeparator(t: HostType)
    ensures !Contains(Spelling(t), ParamSeparator)
  {
    var s := Spelling(t);
    assert forall i :: 0 <= i < |s| - 1 ==> !(s[i] == ':' && s[i + 1] == ' ');
    forall i | 0 <= i < |s| - 1 ensures !OccursAt(s, ParamSeparator, i) {
      assert s[i..i + 2][0] == s[i] && s[i..i + 2][1] == s[i + 1];
    }
  }

  /** A parameter parses to `Argument(name, t)` exactly when its text is the
      name, the separator and the spelling of `t`, the name itself holding
      no separator. */
  lemma ParseArgumentExact(n: Node, lines: seq<string>, name: string, t: HostType)
    ensures ParseArgument(n, lines) == Ok(Argument(name, t)) <==>
              SpanText(n, lines) == Ok(name + ParamSeparator + Spelling(t)) && !Contains(name, ParamSeparator)
  {
    if SpanText(n, lines) == Ok(name + ParamSeparator + Spelling(t)) && !Contains(name, ParamSeparator) {
      assert Unbordered(ParamSeparator);
      SplitConcat(name, ParamSeparator, Spelling(t));
      SpellingHasNoSeparator(t);
      SplitPieces(Spelling(t), ParamSeparator);
      assert Split(name + ParamSeparator + Spelling(t), ParamSeparator) == [name, Spelling(t)];
    }
  }

  function IsParameter(n: Node): bool {
    n.kind == "parameter"
  }

  /** The `parameter` children of a parameter list, in order. */
  function Parameters(list: Node): seq<Node> {
    Filter(list.children, IsParameter)
  }

  /** `parse_function`: the name from the last `identifier` child, the
      return type, then every `parameter` child of the last `parameters`
      child, parsed in order; the first failure is the result. */
  function ParseFunction(n: Node, lines: seq<string>): (r: Result<Function>)
    ensures r.Ok? ==>
              var nodes := ChildrenByKind(n.children);
              && "identifier" in nodes && "parameters" in nodes
              && SpanText(nodes["identifier"], lines) == Ok(r.value.name)
              && ParseReturnType(nodes, lines) == Ok(r.value.ret)
              && |r.value.args| == |Parameters(nodes["parameters"])|
              && forall i :: 0 <= i < |r.value.args| ==>
                   ParseArgument(Parameters(nodes["parameters"])[i], lines) == Ok(r.value.args[i])
    ensures (forall i :: 0 <= i < |n.children| ==> n.children[i].kind != "identifier") ==>
              r == Err(MissingChild("identifier"))
    ensures var nodes := ChildrenByKind(n.children);
            ("identifier" in nodes && SpanText(nodes["identifier"], lines).Ok?
             && ParseReturnType(nodes, lines).Ok?
             && forall i :: 0 <= i < |n.children| ==> n.children[i].kind != "parameters") ==>
              r == Err(MissingChild("parameters"))
    ensures var nodes := ChildrenByKind(n.children);
            ("identifier" in nodes && "parameters" in nodes
             && SpanText(nodes["identifier"], lines).Ok?
             && ParseReturnType(nodes, lines).Ok?
             && forall i :: 0 <= i < |Parameters(nodes["parameters"])| ==>
                  ParseArgument(Parameters(nodes["parameters"])[i], lines).Ok?) ==>
              r.Ok?
  {
    var nodes := ChildrenByKind(n.children);
    if "identifier" !in nodes then Err(MissingChild("identifier"))
    else
      ChildrenByKindOnlyKinds(n.children, "identifier");
      var name :- SpanText(nodes["identifier"], lines);
      var ret :- ParseReturnType(nodes, lines);
      if "parameters" !in nodes then Err(MissingChild("parameters"))
      else
        ChildrenByKindOnlyKinds(n.children, "parameters");
        var args :- MapResult(Parameters(nodes["parameters"]), p => ParseArgument(p, lines));
        Ok(Function(name, ret, args))
  }

  // The declaration `export fn add(a: i32, b: i32) i32 { ... }` as the
  // parser presents it: its source lines and its node.

  const AddLines: seq<string> := ["export fn add(a: i32, b: i32) i32 {", "    return a + b;", "}"]
  const AddParamA: Node := Node("parameter", Point(0, 14), Point(0, 20), [])
  const AddParamB: Node := Node("parameter", Point(0, 22), Point(0, 28), [])
  const AddParams: Node := Node("parameters", Point(0, 13), Point(0, 29), [
    Node("(", Point(0, 13), Point(0, 14), []), AddParamA,
    Node(",", Point(0, 20), Point(0, 21), []), AddParamB,
    Node(")", Point(0, 28), Point(0, 29), [])])
  const AddName: Node := Node("identifier", Point(0, 10), Point(0, 13), [])
  const AddReturn: Node := Node("builtin_type", Point(0, 30), Point(0, 33), [])
  const AddDecl: Node := Node("function_declaration", Point(0, 0), Point(2, 1), [
    Node("export", Point(0, 0), Point(0, 6), []),
    Node("fn", Point(0, 7), Point(0, 9), []),
    AddName,
    AddParams,
    AddReturn,
    Node("block", Point(0, 34), Point(2, 1), [])])

  /** The span of a node on the first line of the example is the fragment
      between its columns. */
  lemma AddFragment(n: Node, before: string, piece: string, after: string)
    requires AddLines[0] == before + piece + after
    requires n.start == Point(0, |before|) && n.end == Point(0, |before| + |piece|)
    ensures SpanText(n, AddLines) == Ok(piece)
  {
    assert (before + piece + after)[|before|..|before| + |piece|] == piece;
  }

  /** The span of the name. */
  lemma AddNameSpan()
    ensures SpanText(AddName, AddLines) == Ok("add")
  {
    AddFragment(AddName, "export fn ", "add", "(a: i32, b: i32) i32 {");
  }

  /** The span of the return type. */
  lemma AddReturnSpan()
    ensures SpanText(AddReturn, AddLines) == Ok("i32")
  {
    AddFragment(AddReturn, "export fn add(a: i32, b: i32) ", "i32", " {");
  }

  /** The spans of the two parameters. */
  lemma AddParameterSpans()
    ensures SpanText(AddParamA, AddLines) == Ok("a: i32")
    ensures SpanText(AddParamB, AddLines) == Ok("b: i32")
  {
    AddFragment(AddParamA, "export fn add(", "a: i32", ", b: i32) i32 {");
    AddFragment(AddParamB, "export fn add(a: i32, ", "b: i32", ") i32 {");
  }

  /** The parameter list holds the two parameters, in order. */
  lemma AddParameterList()
    ensures Parameters(AddParams) == [AddParamA, AddParamB]
  {
    var ps := AddParams.children;
    assert Filter(ps[4..], IsParameter) == [] by { assert ps[4..][1..] == []; }
    assert Filter(ps[3..], IsParameter) == [AddParamB] by { assert ps[3..][1..] == ps[4..]; }
    assert Filter(ps[2..], IsParameter) == [AddParamB] by { assert ps[2..][1..] == ps[3..]; }
    assert Filter(ps[1..], IsParameter) == [AddParamA, AddParamB] by { assert ps[1..][1..] == ps[2..]; }
  }

  /** Each parameter parses to its name and `int`. */
  lemma AddParameterTexts()
    ensures ParseArgument(AddParamA, AddLines) == Ok(Argument("a", Int))
    ensures ParseArgument(AddParamB, AddLines) == Ok(Argument("b", Int))
  {
    AddParameterSpans();
    assert !Contains("a", ParamSeparator) && !Contains("b", ParamSeparator);
    assert "a" + ParamSeparator + Spelling(Int) == "a: i32";
    assert "b" + ParamSeparator + Spelling(Int) == "b: i32";
    ParseArgumentExact(AddParamA, AddLines, "a", Int);
    ParseArgumentExact(AddParamB, AddLines, "b", Int);
  }

  /** Both parameters parse, in order. */
  lemma AddArguments()
    ensures MapResult(Parameters(AddParams), p => ParseArgument(p, AddLines))
              == Ok([Argument("a", Int), Argument("b", Int)])
  {
    var a, b := AddParamA, AddParamB;
    AddParameterList();
    AddParameterTexts();
    var f := p => ParseArgument(p, AddLines);
    var args := MapResult([a, b], f);
    assert args.Ok? && |args.value| == 2;
    assert [a, b][0] == a && [a, b][1] == b;
    assert f(a) == Ok(args.value[0]) && f(b) == Ok(args.value[1]);
    assert args.value == [args.value[0], args.value[1]];
  }

  /** The declaration yields a stub named `add` returning `int` with the
      parameters `a` then `b`, both `int`. */
  lemma AddDeclaration()
    ensures ParseFunction(AddDecl, AddLines) == Ok(Function("add", Int, [Argument("a", Int), Argument("b", Int)]))
  {
    var cs := AddDecl.children;
    var nodes := ChildrenByKind(cs);
    ChildrenByKindLastWins(cs, 2);
    ChildrenByKindLastWins(cs, 3);
    ChildrenByKindLastWins(cs, 4);
    assert nodes["identifier"] == AddName && nodes["parameters"] == AddParams && nodes["builtin_type"] == AddReturn;
    AddNameSpan();
    AddReturnSpan();
    assert ParseReturnType(nodes, AddLines) == Ok(Int);
    AddArguments();
  }
}
