/** Translation of a value message (Any) into an expression message (Expr). */
module AnyToExpr {
  import opened Options

  type Scalar = string

  datatype AnyField = AnyField(key: string, value: Any)

  datatype Any =
    | ScalarValue(scalar: Scalar)
    | ObjectValue(fields: seq<AnyField>)
    | ArrayValue(elements: seq<Any>)

  datatype ExprField = ExprField(key: string, value: Expr)

  /** An Expr message by the parts that are present in it: the type tag, which the translation only
      ever sets to LITERAL, and the literal, object and array sub-messages. */
  datatype Expr = Expr(
    isLiteral: bool, literal: Option<Scalar>,
    hasObject: bool, members: seq<ExprField>,
    hasArray: bool, items: seq<Expr>)

  const FRESH := Expr(false, None, false, [], false, [])

  /** any2expr into `dest`: a literal replaces, fields and elements are appended. */
  function Fill(src: Any, dest: Expr): Expr
    decreases src, 1
  {
    match src
    case ScalarValue(s) => dest.(isLiteral := true, literal := Some(s))
    case ObjectValue(fields) => dest.(hasObject := true, members := dest.members + FillFields(fields))
    case ArrayValue(elements) => dest.(hasArray := true, items := dest.items + FillElements(elements))
  }

  function FillFields(fields: seq<AnyField>): (r: seq<ExprField>)
    ensures |r| == |fields|
    decreases fields, 0
  {
    if fields == [] then []
    else
      var last := fields[|fields| - 1];
      FillFields(fields[..|fields| - 1]) + [ExprField(last.key, Fill(last.value, FRESH))]
  }

  function FillElements(elements: seq<Any>): (r: seq<Expr>)
    ensures |r| == |elements|
    decreases elements, 0
  {
    if elements == [] then []
    else FillElements(elements[..|elements| - 1]) + [Fill(elements[|elements| - 1], FRESH)]
  }

  // ---- the three functions of the source ----

  method Any2Expr(src: Any, dest: Expr) returns (out: Expr)
    ensures out == Fill(src, dest)
    decreases src, 1
  {
    match src
    case ScalarValue(s) => out := dest.(isLiteral := true, literal := Some(s));
    case ObjectValue(fields) =>
      var members := Object2Expr(fields, dest.members);
      out := dest.(hasObject := true, members := members);
    case ArrayValue(elements) =>
      var items := Array2Expr(elements, dest.items);
      out := dest.(hasArray := true, items := items);
  }

  method Object2Expr(src: seq<AnyField>, dest: seq<ExprField>) returns (out: seq<ExprField>)
    ensures out == dest + FillFields(src)
    decreases src, 0
  {
    out := dest;
    for i := 0 to |src|
      invariant out == dest + FillFields(src[..i])
    {
      var value := Any2Expr(src[i].value, FRESH);
      assert src[..i + 1][..i] == src[..i];
      out := out + [ExprField(src[i].key, value)];
    }
    assert src[..|src|] == src;
  }

  method Array2Expr(src: seq<Any>, dest: seq<Expr>) returns (out: seq<Expr>)
    ensures out == dest + FillElements(src)
    decreases src, 0
  {
    out := dest;
    for i := 0 to |src|
      invariant out == dest + FillElements(src[..i])
    {
      var value := Any2Expr(src[i], FRESH);
      assert src[..i + 1][..i] == src[..i];
      out := out + [value];
    }
    assert src[..|src|] == src;
  }

  // ---- nothing is lost ----

  /** Reads a value back by which part of the expression is present. */
  function ReadBack(e: Expr): Option<Any>
    decreases e, 1
  {
    if e.literal.Some? then Some(ScalarValue(e.literal.value))
    else if e.hasObject then
      var fields := ReadFields(e.members);
      if fields.Some? then Some(ObjectValue(fields.value)) else None
    else if e.hasArray then
      var elements := ReadElements(e.items);
      if elements.Some? then Some(ArrayValue(elements.value)) else None
    else None
  }

  function ReadFields(fields: seq<ExprField>): Option<seq<AnyField>>
    decreases fields, 0
  {
    if fields == [] then Some([])
    else
      var front := ReadFields(fields[..|fields| - 1]);
      var last := ReadBack(fields[|fields| - 1].value);
      if front.None? || last.None? then None
      else Some(front.value + [AnyField(fields[|fields| - 1].key, last.value)])
  }

  function ReadElements(elements: seq<Expr>): Option<seq<Any>>
    decreases elements, 0
  {
    if elements == [] then Some([])
    else
      var front := ReadElements(elements[..|elements| - 1]);
      var last := ReadBack(elements[|elements| - 1]);
      if front.None? || last.None? then None else Some(front.value + [last.value])
  }

  /** Nesting, keys, order and leaves all survive: the translation has an inverse. */
  lemma {:induction false} ReadBackFill(src: Any)
    ensures ReadBack(Fill(src, FRESH)) == Some(src)
    decreases src, 1
  {
    match src
    case ScalarValue(_) =>
    case ObjectValue(fields) =>
      ReadBackFields(fields);
      assert [] + FillFields(fields) == FillFields(fields);
    case ArrayValue(elements) =>
      ReadBackElements(elements);
      assert [] + FillElements(elements) == FillElements(elements);
  }

  lemma {:induction false} ReadBackFields(fields: seq<AnyField>)
    ensures ReadFields(FillFields(fields)) == Some(fields)
    decreases fields, 0
  {
    if fields != [] {
      var n := |fields| - 1;
      ReadBackFields(fields[..n]);
      ReadBackFill(fields[n].value);
      assert FillFields(fields)[..n] == FillFields(fields[..n]);
      assert fields == fields[..n] + [fields[n]];
    }
  }

  lemma {:induction false} ReadBackElements(elements: seq<Any>)
    ensures ReadElements(FillElements(elements)) == Some(elements)
    decreases elements, 0
  {
    if elements != [] {
      var n := |elements| - 1;
      ReadBackElements(elements[..n]);
      ReadBackFill(elements[n]);
      assert FillElements(elements)[..n] == FillElements(elements[..n]);
      assert elements == elements[..n] + [elements[n]];
    }
  }

  // ---- what protobuf requires of it ----

  /** IsInitialized: the required type tag is set here and in every part. */
  predicate Initialized(e: Expr)
    decreases e
  {
    && e.isLiteral
    && (forall i :: 0 <= i < |e.members| ==> Initialized(e.members[i].value))
    && (forall i :: 0 <= i < |e.items| ==> Initialized(e.items[i]))
  }

  /** Objects and arrays get no type tag, so exactly the scalars become complete messages. */
  lemma InitializedIff(src: Any)
    ensures Initialized(Fill(src, FRESH)) <==> src.ScalarValue?
  {
  }
}
