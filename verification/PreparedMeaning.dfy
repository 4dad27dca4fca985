/** What the server makes of a plain CRUD request and of the execution of its prepared form. */
module PreparedMeaning {
  import opened Options
  import opened Placeholders
  import opened OperationTexts
  import opened Bindings

  datatype Kind = Find | Modify | Remove

  /** Row count and offset are 64-bit unsigned in the message. */
  datatype Limit = Limit(rowCount: Option<nat>, offset: Option<nat>)

  datatype Message = Message(kind: Kind, body: seq<Expr<nat>>, limit: Limit, args: seq<Scalar>)

  /** The message of a Prepare request: no arguments, and positions in place of the limit's numbers. */
  datatype Template = Template(kind: Kind, body: seq<Expr<nat>>, rowCountAt: Option<nat>, offsetAt: Option<nat>)

  function Count<T>(o: Option<T>): nat { if o.Some? then 1 else 0 }

  /** add_message and handle_limit_expr: the limit's positions follow those of the bound values. */
  function ToTemplate(m: Message, bound: nat): Template {
    Template(m.kind, m.body,
             if m.limit.rowCount.Some? then Some(bound) else None,
             if m.limit.offset.Some? then Some(bound + Count(m.limit.rowCount)) else None)
  }

  /** static_cast<int32_t> of a 64-bit unsigned number. */
  function Int32(n: nat): (r: int)
    ensures -0x8000_0000 <= r < 0x8000_0000
    ensures (r - n) % 0x1_0000_0000 == 0
  {
    var low := n % 0x1_0000_0000;
    if low < 0x8000_0000 then low else low - 0x1_0000_0000
  }

  function LimitArg(n: Option<nat>): seq<Scalar> {
    if n.Some? then [Sint(Int32(n.value))] else []
  }

  /** send_execute_msg: the bound values, then the limit's numbers. */
  function ExecuteArgs(values: seq<Scalar>, limit: Limit): seq<Scalar> {
    values + LimitArg(limit.rowCount) + LimitArg(limit.offset)
  }

  /** A request with every placeholder replaced by the argument at its position. */
  datatype Meaning = Meaning(
    kind: Kind, body: seq<Expr<Option<Scalar>>>, rowCount: Option<Option<Scalar>>, offset: Option<Option<Scalar>>)

  function PlainMeaning(m: Message): Meaning {
    Meaning(m.kind, FillAll(m.body, ByPosition(m.args)),
            if m.limit.rowCount.Some? then Some(Some(Sint(m.limit.rowCount.value))) else None,
            if m.limit.offset.Some? then Some(Some(Sint(m.limit.offset.value))) else None)
  }

  function ExecuteMeaning(t: Template, args: seq<Scalar>): Meaning {
    Meaning(t.kind, FillAll(t.body, ByPosition(args)),
            if t.rowCountAt.Some? then Some(ByPosition(args)(t.rowCountAt.value)) else None,
            if t.offsetAt.Some? then Some(ByPosition(args)(t.offsetAt.value)) else None)
  }

  predicate Fits(n: Option<nat>) { n.Some? ==> n.value < 0x8000_0000 }

  /** No placeholder of the message reads one of the limit's argument slots. */
  ghost predicate ClearOfLimit(m: Message, bound: nat) {
    forall p <- HolesAll(m.body) ::
      !(bound <= p < bound + Count(m.limit.rowCount) + Count(m.limit.offset))
  }

  lemma Int32Exact(n: nat)
    ensures Int32(n) == n <==> n < 0x8000_0000
  {
  }

  /** Executing the prepared form means the same as the plain request with the same values exactly
      when the limit's numbers survive the cast and no placeholder position runs into the limit. */
  lemma PreparedMeansPlainIff(m: Message, values: seq<Scalar>)
    ensures ExecuteMeaning(ToTemplate(m, |values|), ExecuteArgs(values, m.limit))
              == PlainMeaning(m.(args := values))
       <==> Fits(m.limit.rowCount) && Fits(m.limit.offset) && ClearOfLimit(m, |values|)
  {
    var args := ExecuteArgs(values, m.limit);
    var n := |values|;
    assert |args| == n + Count(m.limit.rowCount) + Count(m.limit.offset);
    assert forall p: nat :: p < n ==> args[p] == values[p];
    FillAllAgrees(m.body, ByPosition(args), ByPosition(values));
    assert forall p: nat :: ByPosition(args)(p) == ByPosition(values)(p) <==> !(n <= p < |args|);
    if m.limit.rowCount.Some? {
      Int32Exact(m.limit.rowCount.value);
      assert args[n] == Sint(Int32(m.limit.rowCount.value));
    }
    if m.limit.offset.Some? {
      Int32Exact(m.limit.offset.value);
      assert args[n + Count(m.limit.rowCount)] == Sint(Int32(m.limit.offset.value));
    }
  }

  /** Fewer arguments behind the bound values leave the texts aligned. */
  lemma SoundWithout(history: seq<Event>, extra: nat)
    requires Sound(history, extra)
    ensures Sound(history, 0)
  {
    var d := DraftOf(history);
    forall j | 0 <= j < |Picked(d)|
      ensures AlignedAt(d.texts, Picked(d)[j], 0)
    {
      assert AlignedAt(d.texts, Picked(d)[j], extra);
    }
  }

  lemma SameBodyMeansPlain(m: Message, values: seq<Scalar>)
    requires Fits(m.limit.rowCount) && Fits(m.limit.offset)
    requires FillAll(m.body, ByPosition(ExecuteArgs(values, m.limit))) == FillAll(m.body, ByPosition(values))
    ensures ExecuteMeaning(ToTemplate(m, |values|), ExecuteArgs(values, m.limit)) == PlainMeaning(m.(args := values))
  {
    var args := ExecuteArgs(values, m.limit);
    FillAllAgrees(m.body, ByPosition(args), ByPosition(values));
    forall p | p in HolesAll(m.body)
      ensures !(|values| <= p < |args|)
    {
      assert ByPosition(args)(p) == ByPosition(values)(p);
    }
    PreparedMeansPlainIff(m, values);
  }

  lemma ExecuteArgsSplit(values: seq<Scalar>, limit: Limit)
    ensures ExecuteArgs(values, limit) == values + (LimitArg(limit.rowCount) + LimitArg(limit.offset))
    ensures |LimitArg(limit.rowCount) + LimitArg(limit.offset)| == Count(limit.rowCount) + Count(limit.offset)
    ensures values + [] == values
  {
  }

  lemma SoundBodies(history: seq<Event>, limit: Limit)
    requires AllBound(After(history).variables) && Sound(history, Count(limit.rowCount) + Count(limit.offset))
    ensures var op := After(history);
            var values, written := BoundPrefix(op.variables), FillAll(Written(history), ByName(Environment(history)));
            && FillAll(Body(op), ByPosition(ExecuteArgs(values, limit))) == written
            && FillAll(Body(op), ByPosition(values)) == written
  {
    var values := BoundPrefix(After(history).variables);
    var extra := LimitArg(limit.rowCount) + LimitArg(limit.offset);
    ExecuteArgsSplit(values, limit);
    FinalisedArgsMeanBindings(history, extra);
    SoundWithout(history, |extra|);
    FinalisedArgsMeanBindings(history, []);
  }

  /** An operation whose texts are aligned with the limit behind the bound values, with representable
      limits: the prepared path, the plain path and the user's named bindings all mean the same. */
  lemma PreparedMeansBindings(m: Message, history: seq<Event>)
    requires m.body == Body(After(history)) && AllBound(After(history).variables)
    requires Sound(history, Count(m.limit.rowCount) + Count(m.limit.offset))
    requires Fits(m.limit.rowCount) && Fits(m.limit.offset)
    ensures var values := BoundPrefix(After(history).variables);
            var meant := ExecuteMeaning(ToTemplate(m, |After(history).variables|), ExecuteArgs(values, m.limit));
            && meant == PlainMeaning(m.(args := values))
            && meant.body == FillAll(Written(history), ByName(Environment(history)))
  {
    SoundBodies(history, m.limit);
    BoundPrefixElements(After(history).variables);
    SameBodyMeansPlain(m, BoundPrefix(After(history).variables));
  }

  // ---- operations that mean something else when prepared ----

  /** `:x` parsed twice and then bound to 7. */
  function Repeated(): seq<Event> {
    [Parsed(Hole("x")), Parsed(Hole("x")), Bound("x", Some(Sint(7)))]
  }

  lemma AfterRepeated()
    ensures After(Repeated()) == Operation([Hole(0), Hole(1)], None, [Variable("x", Some(Sint(7)))])
  {
    var x: Expr<string> := Hole("x");
    var v := Variable("x", None);
    var h1: seq<Event> := [Parsed(x)];
    var h2 := h1 + [Parsed(x)];
    assert h1[..0] == [] && h2[..1] == h1 && Repeated()[..2] == h2;
    assert Names([]) == [] && Names([v]) == ["x"];
    assert [] + ["x"] == ["x"] && ["x"] + ["x"] == ["x", "x"] && ["x", "x"][1..] == ["x"] && ["x"][1..] == [];
    assert AddVariables([], ["x"]) == [v] && AddVariables([v], ["x", "x"]) == [v];
    assert After(h1) == Operation([Hole(0)], None, [v]);
    assert After(h2) == Operation([Hole(0), Hole(1)], None, [v]);
  }

  /** With a limit of 10 rows, the second use of `:x` is stored with the position of the limit's
      argument: it reads nothing in the plain request and 10 in the execution. */
  lemma PlaceholderReadsLimit()
    ensures var op := After(Repeated());
            var m := Message(Find, Body(op), Limit(Some(10), None), []);
            && BoundPrefix(op.variables) == [Sint(7)]
            && PlainMeaning(m.(args := [Sint(7)])).body == [Hole(Some(Sint(7))), Hole(None)]
            && ExecuteMeaning(ToTemplate(m, |op.variables|), ExecuteArgs([Sint(7)], m.limit)).body
                 == [Hole(Some(Sint(7))), Hole(Some(Sint(10)))]
  {
    AfterRepeated();
    var stored: seq<Expr<nat>> := [Hole(0), Hole(1)];
    assert stored + [] == stored;
    assert BoundPrefix([]) == [] && BoundPrefix(After(Repeated()).variables) == [Sint(7)];
    assert ExecuteArgs([Sint(7)], Limit(Some(10), None)) == [Sint(7), Sint(10)];
    FillTwo(0, 1, ByPosition([Sint(7)]));
    FillTwo(0, 1, ByPosition([Sint(7), Sint(10)]));
  }

  lemma FillTwo<P, Q>(p: P, q: P, f: P -> Q)
    ensures FillAll([Hole(p), Hole(q)], f) == [Hole(f(p)), Hole(f(q))]
  {
    var es: seq<Expr<P>> := [Hole(p), Hole(q)];
    assert es[1..] == [Hole(q)] && es[1..][1..] == [];
    assert FillAll(es[1..], f) == [Hole(f(q))];
  }

  /** One condition without placeholders and a limit of 2^31 rows: the execution asks for a negative
      number of rows. */
  lemma LimitTurnsNegative(condition: string)
    ensures var op := After([Parsed(Leaf(condition))]);
            var m := Message(Find, Body(op), Limit(Some(0x8000_0000), None), []);
            && AllBound(op.variables) && BoundPrefix(op.variables) == []
            && PlainMeaning(m).rowCount == Some(Some(Sint(0x8000_0000)))
            && ExecuteMeaning(ToTemplate(m, |op.variables|), ExecuteArgs([], m.limit)).rowCount
                 == Some(Some(Sint(-0x8000_0000)))
  {
    var h: seq<Event> := [Parsed(Leaf(condition))];
    assert h[..0] == [];
    assert After(h).variables == [];
    assert ExecuteArgs([], Limit(Some(0x8000_0000), None)) == [Sint(-0x8000_0000)];
  }
}
