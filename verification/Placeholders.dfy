/** How the named placeholders of an expression become positions in a list of names, and when reading
    arguments by position gives the values that were bound by name. */
module Placeholders {
  import opened Options
  import opened Sequences

  /** An expression whose placeholders carry a `P`: a name in the source text, a position in the
      stored message, the value found for it once it is evaluated. */
  datatype Expr<P> = Leaf(text: string) | Hole(id: P) | Node(op: string, operands: seq<Expr<P>>)

  /** The placeholders of an expression in the order in which the parser meets them. */
  function Holes<P>(e: Expr<P>): seq<P>
    decreases e, 1
  {
    match e
    case Leaf(_) => []
    case Hole(p) => [p]
    case Node(_, es) => HolesAll(es)
  }

  function HolesAll<P>(es: seq<Expr<P>>): seq<P>
    decreases es, 0
  {
    if es == [] then [] else Holes(es[0]) + HolesAll(es[1..])
  }

  /** Replaces every placeholder by its image under `f`. */
  function Fill<P, Q>(e: Expr<P>, f: P -> Q): Expr<Q>
    decreases e, 1
  {
    match e
    case Leaf(s) => Leaf(s)
    case Hole(p) => Hole(f(p))
    case Node(op, es) => Node(op, FillAll(es, f))
  }

  function FillAll<P, Q>(es: seq<Expr<P>>, f: P -> Q): (r: seq<Expr<Q>>)
    ensures |r| == |es|
    decreases es, 0
  {
    if es == [] then [] else [Fill(es[0], f)] + FillAll(es[1..], f)
  }

  // ---- the parser's side ----

  /** What parsing does to the list of placeholder names: each occurrence is appended, whether or
      not its name is already there, and gets the index it is appended at. */
  function Compile(e: Expr<string>, names: seq<string>): (r: (Expr<nat>, seq<string>))
    ensures r.1 == names + Holes(e)
    decreases e, 1
  {
    match e
    case Leaf(s) => (Leaf(s), names)
    case Hole(name) => (Hole(|names|), names + [name])
    case Node(op, es) =>
      var (es', names') := CompileAll(es, names);
      (Node(op, es'), names')
  }

  function CompileAll(es: seq<Expr<string>>, names: seq<string>): (r: (seq<Expr<nat>>, seq<string>))
    ensures r.1 == names + HolesAll(es)
    decreases es, 0
  {
    if es == [] then ([], names)
    else
      var (first, names1) := Compile(es[0], names);
      var (rest, names2) := CompileAll(es[1..], names1);
      assert names + Holes(es[0]) + HolesAll(es[1..]) == names + (Holes(es[0]) + HolesAll(es[1..]));
      ([first] + rest, names2)
  }

  // ---- the operation's side ----

  /** Bindings::add_placeholder on the names alone. */
  function AddName(known: seq<string>, name: string): seq<string> {
    if name in known then known else known + [name]
  }

  function AddNames(known: seq<string>, names: seq<string>): seq<string>
    decreases |names|
  {
    if names == [] then known else AddNames(AddName(known, names[0]), names[1..])
  }

  // ---- the two ways to find a placeholder's value ----

  function ByName<V>(values: map<string, V>): string -> Option<V> {
    name => if name in values then Some(values[name]) else None
  }

  function ByPosition<V>(args: seq<V>): nat -> Option<V> {
    i => if 0 <= i < |args| then Some(args[i]) else None
  }

  /** The finalised arguments: the bound values in placeholder order. */
  function Args<V>(known: seq<string>, values: map<string, V>): seq<V>
    requires forall name <- known :: name in values
  {
    seq(|known|, i requires 0 <= i < |known| => values[known[i]])
  }

  // ---- Fill and Holes ----

  lemma {:induction false} FillAgrees<P, Q>(e: Expr<P>, f: P -> Q, g: P -> Q)
    ensures Fill(e, f) == Fill(e, g) <==> forall p <- Holes(e) :: f(p) == g(p)
    decreases e, 1
  {
    if e.Node? { FillAllAgrees(e.operands, f, g); }
  }

  lemma {:induction false} FillAllAgrees<P, Q>(es: seq<Expr<P>>, f: P -> Q, g: P -> Q)
    ensures FillAll(es, f) == FillAll(es, g) <==> forall p <- HolesAll(es) :: f(p) == g(p)
    decreases es, 0
  {
    if es != [] {
      FillAgrees(es[0], f, g);
      FillAllAgrees(es[1..], f, g);
      var a, b := FillAll(es, f), FillAll(es, g);
      assert a[0] == Fill(es[0], f) && b[0] == Fill(es[0], g);
      assert a[1..] == FillAll(es[1..], f) && b[1..] == FillAll(es[1..], g);
    }
  }

  /** Each of `names` finds its own value at its index, counted from `base`. */
  ghost predicate InPlace<Q>(names: seq<string>, base: nat, byPos: nat -> Q, byName: string -> Q) {
    forall k :: 0 <= k < |names| ==> byPos(base + k) == byName(names[k])
  }

  lemma InPlaceSplits<Q>(a: seq<string>, b: seq<string>, base: nat, byPos: nat -> Q, byName: string -> Q)
    ensures InPlace(a + b, base, byPos, byName)
       <==> InPlace(a, base, byPos, byName) && InPlace(b, base + |a|, byPos, byName)
  {
    if InPlace(a + b, base, byPos, byName) {
      assert forall k :: 0 <= k < |a| ==> (a + b)[k] == a[k];
      assert forall k :: 0 <= k < |b| ==> (a + b)[|a| + k] == b[k];
    }
  }

  /** A compiled expression filled by position agrees with its source filled by name exactly when
      each occurrence finds its own value at the index it was appended at. */
  lemma {:induction false} CompiledAgrees<Q>(e: Expr<string>, names: seq<string>,
                                             byPos: nat -> Q, byName: string -> Q)
    ensures Fill(Compile(e, names).0, byPos) == Fill(e, byName)
       <==> InPlace(Holes(e), |names|, byPos, byName)
    decreases e, 1
  {
    match e
    case Leaf(_) =>
    case Hole(name) => assert Holes(e)[0] == name;
    case Node(_, es) => CompiledAllAgrees(es, names, byPos, byName);
  }

  lemma {:induction false} CompiledAllAgrees<Q>(es: seq<Expr<string>>, names: seq<string>,
                                                byPos: nat -> Q, byName: string -> Q)
    ensures FillAll(CompileAll(es, names).0, byPos) == FillAll(es, byName)
       <==> InPlace(HolesAll(es), |names|, byPos, byName)
    decreases es, 0
  {
    if es != [] {
      var (first, names1) := Compile(es[0], names);
      var (rest, _) := CompileAll(es[1..], names1);
      CompiledAgrees(es[0], names, byPos, byName);
      CompiledAllAgrees(es[1..], names1, byPos, byName);
      FillAllCons(first, rest, byPos);
      ConsEqual(Fill(first, byPos), FillAll(rest, byPos), Fill(es[0], byName), FillAll(es[1..], byName));
      InPlaceSplits(Holes(es[0]), HolesAll(es[1..]), |names|, byPos, byName);
    }
  }

  lemma ConsEqual<T>(x: T, xs: seq<T>, y: T, ys: seq<T>)
    ensures [x] + xs == [y] + ys <==> x == y && xs == ys
  {
    if [x] + xs == [y] + ys {
      assert ([x] + xs)[0] == ([y] + ys)[0];
      assert ([x] + xs)[1..] == ([y] + ys)[1..];
    }
  }

  lemma FillAllCons<P, Q>(e: Expr<P>, es: seq<Expr<P>>, f: P -> Q)
    ensures FillAll([e] + es, f) == [Fill(e, f)] + FillAll(es, f)
  {
    assert ([e] + es)[1..] == es;
  }

  // ---- the list of known names ----

  lemma {:induction false} AddNamesGrows(known: seq<string>, names: seq<string>)
    ensures known <= AddNames(known, names)
    ensures NoRepeats(known) ==> NoRepeats(AddNames(known, names))
    ensures forall name <- names :: name in AddNames(known, names)
    decreases |names|
  {
    if names != [] {
      AddNamesGrows(AddName(known, names[0]), names[1..]);
      assert names == [names[0]] + names[1..];
      var first := AddName(known, names[0]);
      var i :| 0 <= i < |first| && first[i] == names[0];
      assert AddNames(known, names)[i] == names[0];
    }
  }

  lemma {:induction false} AddNamesSplits(known: seq<string>, a: seq<string>, b: seq<string>)
    ensures AddNames(known, a + b) == AddNames(AddNames(known, a), b)
    decreases |a|
  {
    if a == [] {
      assert a + b == b;
    } else {
      assert (a + b)[1..] == a[1..] + b;
      AddNamesSplits(AddName(known, a[0]), a[1..], b);
    }
  }

  lemma {:induction false} AddKnownNames(known: seq<string>, names: seq<string>)
    requires forall name <- names :: name in known
    ensures AddNames(known, names) == known
    decreases |names|
  {
    if names != [] { AddKnownNames(known, names[1..]); }
  }

  lemma {:induction false} AddNewNames(known: seq<string>, names: seq<string>)
    requires NoRepeats(known + names)
    ensures AddNames(known, names) == known + names
    decreases |names|
  {
    if names == [] {
      assert known + names == known;
    } else {
      assert known + names == known + [names[0]] + names[1..];
      assert names[0] !in known by {
        assert (known + names)[|known|] == names[0];
        assert forall i :: 0 <= i < |known| ==> (known + names)[i] == known[i];
      }
      AddNewNames(known + [names[0]], names[1..]);
    }
  }

  /** parse_expression's effect on the names: the parser gets the known names and gives them back
      followed by its own, so only the latter matter. */
  lemma ParsedNames(known: seq<string>, e: Expr<string>)
    ensures AddNames(known, Compile(e, known).1) == AddNames(known, Holes(e))
  {
    AddNamesSplits(known, known, Holes(e));
    AddKnownNames(known, known);
  }

  /** Two lists of expressions filled alike agree element by element. */
  lemma {:induction false} FillAllEqual<P, R, Q>(es: seq<Expr<P>>, gs: seq<Expr<R>>, f: P -> Q, g: R -> Q)
    requires |es| == |gs|
    ensures FillAll(es, f) == FillAll(gs, g) <==> forall j :: 0 <= j < |es| ==> Fill(es[j], f) == Fill(gs[j], g)
  {
    if es != [] {
      FillAllEqual(es[1..], gs[1..], f, g);
      ConsEqual(Fill(es[0], f), FillAll(es[1..], f), Fill(gs[0], g), FillAll(gs[1..], g));
      assert forall j :: 0 < j < |es| ==> es[1..][j - 1] == es[j] && gs[1..][j - 1] == gs[j];
    }
  }

  // ---- one expression against the operation's final list of names ----

  /** Exactly the names of the list have a value: binding any other name fails. */
  ghost predicate BoundExactly<V>(values: map<string, V>, final: seq<string>) {
    forall name :: name in values <==> name in final
  }

  /** Position `at` is where the final list has `name`. Behind the list there are `extra` further
      arguments, which are nobody's; beyond them nothing is read, which is right for a name without a
      value. */
  predicate Belongs(name: string, at: nat, final: seq<string>, extra: nat) {
    if at < |final| then name == final[at] else |final| + extra <= at && name !in final
  }

  /** So do all occurrences, appended from position `base` on. */
  ghost predicate Aligned(holes: seq<string>, base: nat, final: seq<string>, extra: nat) {
    forall k :: 0 <= k < |holes| ==> Belongs(holes[k], base + k, final, extra)
  }

  /** Reading by position gives what was bound by name for every choice of values. */
  ghost predicate ReadRight<V(!new)>(e: Expr<string>, list: seq<string>, final: seq<string>, extra: seq<V>) {
    forall values: map<string, V> | BoundExactly(values, final) ::
      Fill(Compile(e, list).0, ByPosition(Args(final, values) + extra)) == Fill(e, ByName(values))
  }

  lemma AlignedReadsRight<V>(e: Expr<string>, list: seq<string>, final: seq<string>,
                             values: map<string, V>, extra: seq<V>)
    requires BoundExactly(values, final) && Aligned(Holes(e), |list|, final, |extra|)
    ensures Fill(Compile(e, list).0, ByPosition(Args(final, values) + extra)) == Fill(e, ByName(values))
  {
    AlignedInPlace(Holes(e), |list|, final, values, extra);
    CompiledAgrees(e, list, ByPosition(Args(final, values) + extra), ByName(values));
  }

  lemma AlignedInPlace<V>(holes: seq<string>, base: nat, final: seq<string>, values: map<string, V>, extra: seq<V>)
    requires BoundExactly(values, final) && Aligned(holes, base, final, |extra|)
    ensures InPlace(holes, base, ByPosition(Args(final, values) + extra), ByName(values))
  {
    forall k | 0 <= k < |holes|
      ensures ByPosition(Args(final, values) + extra)(base + k) == ByName(values)(holes[k])
    {
      BelongsReadsRight(holes[k], base + k, final, values, extra);
    }
  }

  lemma BelongsReadsRight<V>(name: string, at: nat, final: seq<string>, values: map<string, V>, extra: seq<V>)
    requires BoundExactly(values, final) && Belongs(name, at, final, |extra|)
    ensures ByPosition(Args(final, values) + extra)(at) == ByName(values)(name)
  {
    if at < |final| { assert final[at] in final; }
  }

  /** `bad` gets one value and every other placeholder another. */
  function Marked<V>(final: seq<string>, bad: string, a: V, b: V): map<string, V> {
    map name <- final :: if name == bad then a else b
  }

  lemma MisalignedMisread<V>(e: Expr<string>, list: seq<string>, final: seq<string>, extra: seq<V>, a: V, b: V)
    returns (values: map<string, V>)
    requires NoRepeats(final) && !Aligned(Holes(e), |list|, final, |extra|) && a != b
    ensures BoundExactly(values, final)
    ensures Fill(Compile(e, list).0, ByPosition(Args(final, values) + extra)) != Fill(e, ByName(values))
  {
    var k :| 0 <= k < |Holes(e)| && !Belongs(Holes(e)[k], |list| + k, final, |extra|);
    var at, bad := |list| + k, Holes(e)[k];
    if |final| <= at < |final| + |extra| && extra[at - |final|] == a {
      values := Marked(final, bad, b, a);
    } else {
      values := Marked(final, bad, a, b);
    }
    var args := Args(final, values) + extra;
    assert ByPosition(args)(at) != ByName(values)(bad);
    CompiledAgrees(e, list, ByPosition(args), ByName(values));
  }

  /** The exact condition for one expression, whatever list it is compiled against. */
  lemma ReadRightIff<V(!new)>(e: Expr<string>, list: seq<string>, final: seq<string>, extra: seq<V>, a: V, b: V)
    requires NoRepeats(final) && a != b
    ensures ReadRight(e, list, final, extra) <==> Aligned(Holes(e), |list|, final, |extra|)
  {
    if Aligned(Holes(e), |list|, final, |extra|) {
      forall values: map<string, V> | BoundExactly(values, final)
        ensures Fill(Compile(e, list).0, ByPosition(Args(final, values) + extra)) == Fill(e, ByName(values))
      {
        AlignedReadsRight(e, list, final, values, extra);
      }
    } else {
      var values := MisalignedMisread(e, list, final, extra, a, b);
    }
  }
}
