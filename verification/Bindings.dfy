/** The placeholders of one operation and the values bound to them. */
module Bindings {
  import opened Options
  import opened Sequences
  import opened Placeholders
  import opened OperationTexts

  /** A scalar of the protocol; only signed integers are looked into. */
  datatype Scalar = Sint(value: int) | Other(encoding: string)

  /** A placeholder, with the value bound to it if there is one. */
  datatype Variable = Variable(name: string, value: Option<Scalar>)

  function Names(vs: seq<Variable>): seq<string> {
    seq(|vs|, i requires 0 <= i < |vs| => vs[i].name)
  }

  ghost predicate AllBound(vs: seq<Variable>) {
    forall v <- vs :: v.value.Some?
  }

  /** The values up to the first placeholder without one. */
  function BoundPrefix(vs: seq<Variable>): seq<Scalar> {
    if vs == [] || vs[0].value.None? then [] else [vs[0].value.value] + BoundPrefix(vs[1..])
  }

  function AddVariable(vs: seq<Variable>, name: string): seq<Variable> {
    if name in Names(vs) then vs else vs + [Variable(name, None)]
  }

  function AddVariables(vs: seq<Variable>, names: seq<string>): seq<Variable>
    decreases |names|
  {
    if names == [] then vs else AddVariables(AddVariable(vs, names[0]), names[1..])
  }

  /** Every variable called `name` gets `value`; there is at most one. */
  function BindVariable(vs: seq<Variable>, name: string, value: Option<Scalar>): seq<Variable> {
    seq(|vs|, i requires 0 <= i < |vs| => if vs[i].name == name then Variable(name, value) else vs[i])
  }

  class Bindings {
    var variables: seq<Variable>

    ghost predicate Valid()
      reads this
    {
      NoRepeats(Names(variables))
    }

    constructor ()
      ensures Valid() && variables == []
    {
      variables := [];
    }

    method FindVariable(name: string) returns (it: nat)
      ensures it <= |variables|
      ensures it < |variables| ==> variables[it].name == name
      ensures it == |variables| <==> name !in Names(variables)
    {
      it := 0;
      while it < |variables| && variables[it].name != name
        invariant it <= |variables|
        invariant forall i :: 0 <= i < it ==> variables[i].name != name
      {
        it := it + 1;
      }
      if it < |variables| { assert Names(variables)[it] == name; }
    }

    method AddPlaceholder(name: string)
      requires Valid()
      modifies this
      ensures Valid() && variables == AddVariable(old(variables), name)
    {
      var it := FindVariable(name);
      if it == |variables| {
        AddedName(variables, name);
        variables := variables + [Variable(name, None)];
      }
    }

    method AddPlaceholders(names: seq<string>)
      requires Valid()
      modifies this
      ensures Valid() && variables == AddVariables(old(variables), names)
    {
      for i := 0 to |names|
        invariant Valid()
        invariant AddVariables(variables, names[i..]) == AddVariables(old(variables), names)
      {
        assert names[i..][1..] == names[i + 1..];
        AddPlaceholder(names[i]);
      }
      assert names[|names|..] == [];
    }

    method GetPlaceholders() returns (names: seq<string>)
      ensures names == Names(variables)
    {
      names := [];
      for i := 0 to |variables|
        invariant names == Names(variables)[..i]
      {
        names := names + [variables[i].name];
      }
    }

    /** parse_expression: the parser is given the names known so far and appends to them. */
    method ParseExpression(e: Expr<string>) returns (stored: Expr<nat>)
      requires Valid()
      modifies this
      ensures Valid()
      ensures stored == Compile(e, old(Names(variables))).0
      ensures variables == AddVariables(old(variables), Compile(e, old(Names(variables))).1)
    {
      var placeholders := GetPlaceholders();
      var (expression, names) := Compile(e, placeholders);
      stored := expression;
      AddPlaceholders(names);
    }

    /** `value` is None when the given value has no scalar form. */
    method Bind(name: string, value: Option<Scalar>) returns (found: bool)
      requires Valid()
      modifies this
      ensures Valid()
      ensures found <==> name in old(Names(variables))
      ensures variables == BindVariable(old(variables), name, value)
    {
      var it := FindVariable(name);
      found := it < |variables|;
      assert forall i :: 0 <= i < |variables| ==> Names(variables)[i] == variables[i].name;
      if found {
        variables := variables[it := Variable(name, value)];
      }
      assert Names(variables) == old(Names(variables));
    }

    /** Appends to `args`; the values in front of the first unbound placeholder are appended even
        when it throws. */
    method Finalize(args: seq<Scalar>) returns (appended: seq<Scalar>, thrown: bool)
      ensures appended == args + BoundPrefix(variables)
      ensures thrown <==> !AllBound(variables)
    {
      appended := args;
      for i := 0 to |variables|
        invariant forall j :: 0 <= j < i ==> variables[j].value.Some?
        invariant appended + BoundPrefix(variables[i..]) == args + BoundPrefix(variables)
      {
        if variables[i].value.None? { return appended, true; }
        assert variables[i..][1..] == variables[i + 1..];
        appended := appended + [variables[i].value.value];
      }
      thrown := false;
    }
  }

  lemma AddedName(vs: seq<Variable>, name: string)
    ensures Names(AddVariable(vs, name)) == AddName(Names(vs), name)
    ensures NoRepeats(Names(vs)) ==> NoRepeats(Names(AddVariable(vs, name)))
  {
    assert name !in Names(vs) ==> Names(vs + [Variable(name, None)]) == Names(vs) + [name];
  }

  lemma {:induction false} AddedNames(vs: seq<Variable>, names: seq<string>)
    ensures Names(AddVariables(vs, names)) == AddNames(Names(vs), names)
    decreases |names|
  {
    if names != [] {
      AddedName(vs, names[0]);
      AddedNames(AddVariable(vs, names[0]), names[1..]);
    }
  }

  // ---- one operation: texts given and values bound in any order ----

  /** What the user does: gives a condition, a grouping or a value, which share the operation's list of
      names; gives a having condition, which replaces the one before; gives a field or a sort clause,
      compiled against a list of its own; binds a value. */
  datatype Event =
    | Parsed(source: Expr<string>)
    | Having(source: Expr<string>)
    | Alone(source: Expr<string>)
    | Bound(name: string, value: Option<Scalar>)

  /** The message's expressions, the having condition apart, and the placeholders. */
  datatype Operation = Operation(stored: seq<Expr<nat>>, having: Option<Expr<nat>>, variables: seq<Variable>)

  function Body(op: Operation): seq<Expr<nat>> { op.stored + Listed(op.having) }

  function After(history: seq<Event>): Operation {
    if history == [] then Operation([], None, [])
    else
      var op, last := After(history[..|history| - 1]), history[|history| - 1];
      match last
      case Parsed(e) =>
        var (expression, names) := Compile(e, Names(op.variables));
        op.(stored := op.stored + [expression], variables := AddVariables(op.variables, names))
      case Having(e) =>
        var (expression, names) := Compile(e, Names(op.variables));
        op.(having := Some(expression), variables := AddVariables(op.variables, names))
      case Alone(e) => op.(stored := op.stored + [Compile(e, []).0])
      case Bound(name, value) => op.(variables := BindVariable(op.variables, name, value))
  }

  /** The texts given, and which of them the message holds. */
  function DraftOf(history: seq<Event>): Draft {
    if history == [] then Draft([], [], None)
    else
      var d, last := DraftOf(history[..|history| - 1]), history[|history| - 1];
      match last
      case Parsed(e) => d.(texts := d.texts + [Text(e, false)], stored := d.stored + [|d.texts|])
      case Having(e) => d.(texts := d.texts + [Text(e, false)], having := Some(|d.texts|))
      case Alone(e) => d.(texts := d.texts + [Text(e, true)], stored := d.stored + [|d.texts|])
      case Bound(_, _) => d
  }

  /** What the user has bound by name: the last value given to each name that was known then. */
  function Environment(history: seq<Event>): map<string, Scalar> {
    if history == [] then map[]
    else
      var before, last := history[..|history| - 1], history[|history| - 1];
      if !last.Bound? || last.name !in KnownNames(DraftOf(before).texts) then Environment(before)
      else if last.value.Some? then Environment(before)[last.name := last.value.value]
      else Environment(before) - {last.name}
  }

  ghost predicate Reflects(vs: seq<Variable>, env: map<string, Scalar>) {
    && (forall v <- vs :: v.value == ByName(env)(v.name))
    && (forall name <- env :: name in Names(vs))
  }

  lemma CompiledLonger(ts: seq<Text>, text: Text, picks: seq<nat>)
    requires Within(ts, picks)
    ensures Within(ts + [text], picks) && Compiled(ts + [text], picks) == Compiled(ts, picks)
  {
    forall j | 0 <= j < |picks|
      ensures CompiledAt(ts + [text], picks[j]) == CompiledAt(ts, picks[j])
    {
      assert (ts + [text])[..picks[j]] == ts[..picks[j]];
    }
  }

  lemma CompiledLast(ts: seq<Text>, text: Text, picks: seq<nat>)
    requires Within(ts, picks)
    ensures Within(ts + [text], picks + [|ts|])
    ensures Compiled(ts + [text], picks + [|ts|])
              == Compiled(ts, picks) + [Compile(text.source, if text.own then [] else KnownNames(ts)).0]
  {
    var longer := ts + [text];
    CompiledLonger(ts, text, picks);
    CompiledSplits(longer, picks, [|ts|]);
    assert ListFor(longer, |ts|) == if text.own then [] else KnownNames(ts) by {
      assert longer[..|ts|] == ts;
    }
    assert Compiled(longer, [|ts|]) == [CompiledAt(longer, |ts|)];
  }

  lemma KnownNamesLast(ts: seq<Text>, text: Text)
    ensures KnownNames(ts + [text])
              == if text.own then KnownNames(ts) else AddNames(KnownNames(ts), Compile(text.source, KnownNames(ts)).1)
  {
    assert (ts + [text])[..|ts|] == ts;
  }

  lemma CompiledSplits(ts: seq<Text>, a: seq<nat>, b: seq<nat>)
    requires Within(ts, a) && Within(ts, b)
    ensures Within(ts, a + b) && Compiled(ts, a + b) == Compiled(ts, a) + Compiled(ts, b)
  {
  }

  lemma {:induction false} AddVariablesReflects(vs: seq<Variable>, names: seq<string>, env: map<string, Scalar>)
    requires Reflects(vs, env)
    ensures Reflects(AddVariables(vs, names), env)
    decreases |names|
  {
    if names != [] {
      AddedName(vs, names[0]);
      AddVariablesReflects(AddVariable(vs, names[0]), names[1..], env);
    }
  }

  lemma BindKeepsNames(vs: seq<Variable>, name: string, value: Option<Scalar>)
    ensures Names(BindVariable(vs, name, value)) == Names(vs)
    ensures forall v <- BindVariable(vs, name, value) ::
              if v.name == name then v.value == value && name in Names(vs) else v in vs
  {
    var bound := BindVariable(vs, name, value);
    forall i | 0 <= i < |vs|
      ensures Names(bound)[i] == Names(vs)[i]
      ensures if bound[i].name == name then bound[i].value == value && name in Names(vs) else bound[i] in vs
    {
      assert Names(vs)[i] == vs[i].name && vs[i] in vs;
    }
  }

  lemma BindReflects(vs: seq<Variable>, env: map<string, Scalar>, name: string, value: Option<Scalar>)
    requires Reflects(vs, env)
    ensures Names(BindVariable(vs, name, value)) == Names(vs)
    ensures name !in Names(vs) ==> Reflects(BindVariable(vs, name, value), env)
    ensures name in Names(vs) ==>
      Reflects(BindVariable(vs, name, value), if value.Some? then env[name := value.value] else env - {name})
  {
    BindKeepsNames(vs, name, value);
  }

  /** The operation holds the draft's stored texts and having condition as compiled, and its variables
      are the draft's names. */
  ghost predicate KeepsDraft(op: Operation, d: Draft) {
    && Within(d.texts, d.stored) && Compiled(d.texts, d.stored) == op.stored
    && Within(d.texts, Listed(d.having)) && Compiled(d.texts, Listed(d.having)) == Listed(op.having)
    && KnownNames(d.texts) == Names(op.variables)
  }

  lemma KeepsDraftNext(op: Operation, d: Draft, event: Event, op': Operation, d': Draft)
    requires KeepsDraft(op, d) && !event.Bound?
    requires d' == match event
                   case Parsed(e) => d.(texts := d.texts + [Text(e, false)], stored := d.stored + [|d.texts|])
                   case Having(e) => d.(texts := d.texts + [Text(e, false)], having := Some(|d.texts|))
                   case Alone(e) => d.(texts := d.texts + [Text(e, true)], stored := d.stored + [|d.texts|])
    requires op' == match event
                    case Parsed(e) =>
                      Operation(op.stored + [Compile(e, Names(op.variables)).0], op.having, op'.variables)
                    case Having(e) => Operation(op.stored, Some(Compile(e, Names(op.variables)).0), op'.variables)
                    case Alone(e) => Operation(op.stored + [Compile(e, []).0], op.having, op'.variables)
    requires op'.variables == if event.Alone? then op.variables
                              else AddVariables(op.variables, Compile(event.source, Names(op.variables)).1)
    ensures KeepsDraft(op', d')
  {
    var text := Text(event.source, event.Alone?);
    AddedNames(op.variables, Compile(event.source, Names(op.variables)).1);
    CompiledLonger(d.texts, text, d.stored);
    CompiledLonger(d.texts, text, Listed(d.having));
    CompiledLast(d.texts, text, if event.Having? then [] else d.stored);
    KnownNamesLast(d.texts, text);
    assert [] + [|d.texts|] == [|d.texts|];
  }

  /** Whatever the order of texts and bindings, the operation holds the texts of its draft compiled
      against their lists, and each variable holds the last value bound to it. */
  lemma {:induction false} HistoryMeaning(history: seq<Event>)
    ensures KeepsDraft(After(history), DraftOf(history)) && Reflects(After(history).variables, Environment(history))
  {
    if history != [] {
      var before, last := history[..|history| - 1], history[|history| - 1];
      var op := After(before);
      HistoryMeaning(before);
      if last.Bound? {
        BindReflects(op.variables, Environment(before), last.name, last.value);
      } else {
        KeepsDraftNext(op, DraftOf(before), last, After(history), DraftOf(history));
        AddVariablesReflects(op.variables, Compile(last.source, Names(op.variables)).1, Environment(before));
      }
    }
  }

  /** The expressions that are sent, as the user wrote them. */
  function Written(history: seq<Event>): seq<Expr<string>>
    requires Within(DraftOf(history).texts, Picked(DraftOf(history)))
  {
    Sourced(DraftOf(history).texts, Picked(DraftOf(history)))
  }

  lemma BodyIsCompiled(history: seq<Event>)
    ensures var d := DraftOf(history);
            Within(d.texts, Picked(d)) && Compiled(d.texts, Picked(d)) == Body(After(history))
  {
    HistoryMeaning(history);
    var d := DraftOf(history);
    CompiledSplits(d.texts, d.stored, Listed(d.having));
  }

  /** The names of every text that shares the list stay among the placeholders, also those of a having
      condition that was replaced, so `Finalize` throws unless they get a value. */
  lemma GivenNamesRemain(history: seq<Event>, i: nat)
    requires i < |DraftOf(history).texts| && !DraftOf(history).texts[i].own
    ensures forall name <- Holes(DraftOf(history).texts[i].source) :: name in Names(After(history).variables)
  {
    var ts := DraftOf(history).texts;
    var known, holes := KnownNames(ts[..i]), Holes(ts[i].source);
    HistoryMeaning(history);
    KnownNamesNext(ts, i);
    AddNamesGrows(known, holes);
    forall name | name in holes
      ensures name in KnownNames(ts)
    {
      HasPrefixElement(AddNames(known, holes), KnownNames(ts), name);
    }
  }

  /** Every text that is sent is aligned, with `extra` arguments behind the bound values. */
  ghost predicate Sound(history: seq<Event>, extra: nat) {
    var d := DraftOf(history);
    Within(d.texts, Picked(d)) && AllAligned(d.texts, Picked(d), extra)
  }

  lemma {:induction false} BoundPrefixOfAll(vs: seq<Variable>, env: map<string, Scalar>)
    requires AllBound(vs) && Reflects(vs, env)
    ensures forall name <- Names(vs) :: name in env
    ensures BoundPrefix(vs) == Args(Names(vs), env)
  {
    forall i | 0 <= i < |vs|
      ensures Names(vs)[i] in env && vs[i].value == Some(env[Names(vs)[i]])
    {
      assert vs[i] in vs;
    }
    BoundPrefixElements(vs);
  }

  lemma {:induction false} BoundPrefixElements(vs: seq<Variable>)
    requires AllBound(vs)
    ensures |BoundPrefix(vs)| == |vs|
    ensures forall i :: 0 <= i < |vs| ==> vs[i].value == Some(BoundPrefix(vs)[i])
  {
    if vs != [] { BoundPrefixElements(vs[1..]); }
  }

  /** For every history that leaves no placeholder unbound, and whose texts are aligned, what is sent,
      read by position from the finalised arguments and whatever stands behind them, means what the
      user wrote, read by name from the user's bindings. */
  lemma FinalisedArgsMeanBindings(history: seq<Event>, extra: seq<Scalar>)
    requires AllBound(After(history).variables) && Sound(history, |extra|)
    ensures var op := After(history);
            FillAll(Body(op), ByPosition(BoundPrefix(op.variables) + extra))
              == FillAll(Written(history), ByName(Environment(history)))
  {
    var op, d, env := After(history), DraftOf(history), Environment(history);
    HistoryMeaning(history);
    BodyIsCompiled(history);
    BoundPrefixOfAll(op.variables, env);
    AlignedBodyReadsRight(d.texts, Picked(d), env, extra);
  }
}
