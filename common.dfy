/** Failure-compatible result type for the binding generator, and the two
    list-comprehension shapes the generator uses: a filter and a map whose
    element function may fail (the first failure aborts the whole list). */
module Common {

  datatype Option<+T> = None | Some(value: T)

  /** Every way the generator can stop on one source file. */
  datatype Error =
    | IndexError                    // a row outside the line array
    | UnknownType(spelling: string) // a native type outside the vocabulary
    | MissingChild(kind: string)    // lookup of an absent child kind
    | MalformedParameter(pieces: nat) // a parameter text that is not `name: type`
    | UnboundReturnType             // neither return-type child is present

  datatype Result<+T> = Ok(value: T) | Err(error: Error) {
    predicate IsFailure() { Err? }

    function PropagateFailure<U>(): Result<U>
      requires Err?
    {
      Err(error)
    }

    function Extract(): T
      requires Ok?
    {
      value
    }
  }

  /** `[x for x in xs if p(x)]` */
  function Filter<T>(xs: seq<T>, p: T -> bool): (r: seq<T>)
    ensures |r| <= |xs|
    ensures forall i :: 0 <= i < |r| ==> r[i] in xs && p(r[i])
    ensures forall i :: 0 <= i < |xs| && p(xs[i]) ==> xs[i] in r
  {
    if xs == [] then []
    else if p(xs[0]) then [xs[0]] + Filter(xs[1..], p)
    else Filter(xs[1..], p)
  }

  /** Filtering distributes over concatenation, so the kept elements stay in
      their original relative order. */
  lemma {:induction false} FilterConcat<T>(a: seq<T>, b: seq<T>, p: T -> bool)
    ensures Filter(a + b, p) == Filter(a, p) + Filter(b, p)
  {
    if a == [] {
      assert a + b == b;
    } else {
      assert (a + b)[1..] == a[1..] + b;
      FilterConcat(a[1..], b, p);
    }
  }

  /** `[f(x) for x in xs]` where `f` may raise: the elements are evaluated
      left to right and the first failure is the result. */
  function MapResult<A, B>(xs: seq<A>, f: A -> Result<B>): (r: Result<seq<B>>)
    ensures r.Ok? <==> forall i :: 0 <= i < |xs| ==> f(xs[i]).Ok?
    ensures r.Ok? ==> |r.value| == |xs| && forall i :: 0 <= i < |xs| ==> f(xs[i]) == Ok(r.value[i])
    ensures r.Err? ==> exists i :: 0 <= i < |xs| && f(xs[i]) == Err(r.error) && forall j :: 0 <= j < i ==> f(xs[j]).Ok?
  {
    if xs == [] then Ok([])
    else
      var y :- f(xs[0]);
      var ys :- MapResult(xs[1..], f);
      assert forall i :: 1 <= i < |xs| ==> f(xs[i]) == Ok(ys[i - 1]);
      Ok([y] + ys)
  }
}
