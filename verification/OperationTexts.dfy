/** All the texts a user gives to one operation, and when every one of them that is sent is read
    correctly. */
module OperationTexts {
  import opened Options
  import opened Sequences
  import opened Placeholders

  /** A text parsed for the operation. Conditions, groupings and values go through parse_expression and
      share the operation's list of names. The fields of find and all sort clauses are compiled each
      against a list of its own, which is thrown away. */
  datatype Text = Text(source: Expr<string>, own: bool)

  /** The operation's list of names after parsing `ts`. */
  function KnownNames(ts: seq<Text>): seq<string> {
    if ts == [] then []
    else
      var known, last := KnownNames(ts[..|ts| - 1]), ts[|ts| - 1];
      if last.own then known else AddNames(known, Compile(last.source, known).1)
  }

  /** The list that the text at `i` is compiled against. */
  function ListFor(ts: seq<Text>, i: nat): seq<string>
    requires i < |ts|
  {
    if ts[i].own then [] else KnownNames(ts[..i])
  }

  function CompiledAt(ts: seq<Text>, i: nat): Expr<nat>
    requires i < |ts|
  {
    Compile(ts[i].source, ListFor(ts, i)).0
  }

  /** What the operation has been given: its texts, which of them its message holds, and the one that
      is its having condition, which a later one replaces. */
  datatype Draft = Draft(texts: seq<Text>, stored: seq<nat>, having: Option<nat>)

  function Listed<T>(o: Option<T>): seq<T> { if o.Some? then [o.value] else [] }

  /** The texts that are sent. */
  function Picked(d: Draft): seq<nat> { d.stored + Listed(d.having) }

  predicate Within(ts: seq<Text>, picks: seq<nat>) { forall j :: 0 <= j < |picks| ==> picks[j] < |ts| }

  function Compiled(ts: seq<Text>, picks: seq<nat>): seq<Expr<nat>>
    requires Within(ts, picks)
  {
    seq(|picks|, j requires 0 <= j < |picks| => CompiledAt(ts, picks[j]))
  }

  function Sourced(ts: seq<Text>, picks: seq<nat>): seq<Expr<string>>
    requires Within(ts, picks)
  {
    seq(|picks|, j requires 0 <= j < |picks| => ts[picks[j]].source)
  }

  // ---- the list of names ----

  lemma {:induction false} KnownNamesGrow(ts: seq<Text>, i: nat)
    requires i <= |ts|
    ensures NoRepeats(KnownNames(ts)) && KnownNames(ts[..i]) <= KnownNames(ts)
    decreases |ts|
  {
    if i == |ts| {
      assert ts[..i] == ts;
    }
    if ts != [] {
      var front, last := ts[..|ts| - 1], ts[|ts| - 1];
      if i < |ts| { assert front[..i] == ts[..i]; }
      KnownNamesGrow(front, if i < |ts| then i else |front|);
      AddNamesGrows(KnownNames(front), Compile(last.source, KnownNames(front)).1);
    }
  }

  lemma KnownNamesNext(ts: seq<Text>, i: nat)
    requires i < |ts| && !ts[i].own
    ensures AddNames(KnownNames(ts[..i]), Holes(ts[i].source)) <= KnownNames(ts)
  {
    assert ts[..i + 1][..i] == ts[..i];
    ParsedNames(KnownNames(ts[..i]), ts[i].source);
    KnownNamesGrow(ts, i + 1);
  }

  // ---- the exact condition ----

  ghost predicate AlignedAt(ts: seq<Text>, i: nat, extra: nat)
    requires i < |ts|
  {
    Aligned(Holes(ts[i].source), |ListFor(ts, i)|, KnownNames(ts), extra)
  }

  ghost predicate AllAligned(ts: seq<Text>, picks: seq<nat>, extra: nat)
    requires Within(ts, picks)
  {
    forall j :: 0 <= j < |picks| ==> AlignedAt(ts, picks[j], extra)
  }

  /** What is sent, read by position from the finalised arguments and the `extra` ones behind them,
      means what was written, for every choice of values. */
  ghost predicate PositionsMeanNames<V(!new)>(ts: seq<Text>, picks: seq<nat>, extra: seq<V>)
    requires Within(ts, picks)
  {
    var final := KnownNames(ts);
    forall values: map<string, V> | BoundExactly(values, final) ::
      FillAll(Compiled(ts, picks), ByPosition(Args(final, values) + extra))
        == FillAll(Sourced(ts, picks), ByName(values))
  }

  lemma AlignedBodyReadsRight<V>(ts: seq<Text>, picks: seq<nat>, values: map<string, V>, extra: seq<V>)
    requires Within(ts, picks) && AllAligned(ts, picks, |extra|) && BoundExactly(values, KnownNames(ts))
    ensures FillAll(Compiled(ts, picks), ByPosition(Args(KnownNames(ts), values) + extra))
              == FillAll(Sourced(ts, picks), ByName(values))
  {
    var final := KnownNames(ts);
    var byPos := ByPosition(Args(final, values) + extra);
    forall j | 0 <= j < |picks|
      ensures Fill(Compiled(ts, picks)[j], byPos) == Fill(Sourced(ts, picks)[j], ByName(values))
    {
      var i := picks[j];
      assert AlignedAt(ts, i, |extra|);
      AlignedReadsRight(ts[i].source, ListFor(ts, i), final, values, extra);
    }
    FillAllEqual(Compiled(ts, picks), Sourced(ts, picks), byPos, ByName(values));
  }

  lemma MisalignedBodyMisread<V>(ts: seq<Text>, picks: seq<nat>, extra: seq<V>, a: V, b: V)
    returns (values: map<string, V>)
    requires Within(ts, picks) && !AllAligned(ts, picks, |extra|) && a != b
    ensures BoundExactly(values, KnownNames(ts))
    ensures FillAll(Compiled(ts, picks), ByPosition(Args(KnownNames(ts), values) + extra))
              != FillAll(Sourced(ts, picks), ByName(values))
  {
    var final := KnownNames(ts);
    KnownNamesGrow(ts, |ts|);
    var j :| 0 <= j < |picks| && !AlignedAt(ts, picks[j], |extra|);
    values := MisalignedMisread(ts[picks[j]].source, ListFor(ts, picks[j]), final, extra, a, b);
    var byPos := ByPosition(Args(final, values) + extra);
    assert Fill(Compiled(ts, picks)[j], byPos) != Fill(Sourced(ts, picks)[j], ByName(values));
    FillAllEqual(Compiled(ts, picks), Sourced(ts, picks), byPos, ByName(values));
  }

  /** For any texts, and any of them being sent. */
  lemma PositionsMeanNamesIff<V(!new)>(ts: seq<Text>, picks: seq<nat>, extra: seq<V>, a: V, b: V)
    requires Within(ts, picks) && a != b
    ensures PositionsMeanNames(ts, picks, extra) <==> AllAligned(ts, picks, |extra|)
  {
    var final := KnownNames(ts);
    if AllAligned(ts, picks, |extra|) {
      forall values: map<string, V> | BoundExactly(values, final)
        ensures FillAll(Compiled(ts, picks), ByPosition(Args(final, values) + extra))
                  == FillAll(Sourced(ts, picks), ByName(values))
      {
        AlignedBodyReadsRight(ts, picks, values, extra);
      }
    } else {
      var values := MisalignedBodyMisread(ts, picks, extra, a, b);
    }
  }

  /** No stored text uses a name twice, or one that was met before. */
  ghost predicate NewNamesAt(ts: seq<Text>, i: nat)
    requires i < |ts|
  {
    NoRepeats(KnownNames(ts[..i]) + Holes(ts[i].source))
  }

  /** A text that shares the list is aligned exactly if all its names are new; further arguments do not
      matter to it. */
  lemma SharedAlignedIff(ts: seq<Text>, i: nat, extra: nat)
    requires i < |ts| && !ts[i].own
    ensures AlignedAt(ts, i, extra) <==> NewNamesAt(ts, i)
  {
    var known, holes, final := KnownNames(ts[..i]), Holes(ts[i].source), KnownNames(ts);
    KnownNamesGrow(ts, i);
    KnownNamesNext(ts, i);
    AddNamesGrows(known, holes);
    if NoRepeats(known + holes) {
      AddNewNames(known, holes);
      PrefixIsAligned(known, holes, final, extra);
    }
    if Aligned(holes, |known|, final, extra) {
      forall name | name in holes
        ensures name in final
      {
        HasPrefixElement(AddNames(known, holes), final, name);
      }
      AlignedIsPrefix(known, holes, final, extra);
      assert final == known + holes + final[|known + holes|..];
      NoRepeatsPrefix(known + holes, final[|known + holes|..]);
    }
  }

  lemma PrefixIsAligned(known: seq<string>, holes: seq<string>, final: seq<string>, extra: nat)
    requires known + holes <= final
    ensures Aligned(holes, |known|, final, extra)
  {
    forall k | 0 <= k < |holes|
      ensures |known| + k < |final| && holes[k] == final[|known| + k]
    {
      assert (known + holes)[|known| + k] == holes[k];
    }
  }

  lemma AlignedIsPrefix(known: seq<string>, holes: seq<string>, final: seq<string>, extra: nat)
    requires known <= final && Aligned(holes, |known|, final, extra) && forall name <- holes :: name in final
    ensures known + holes <= final
  {
    forall k | 0 <= k < |holes|
      ensures |known| + k < |final| && holes[k] == final[|known| + k]
    {
      assert holes[k] in final;
    }
    assert holes != [] ==> holes[|holes| - 1] in holes;
  }

  lemma HasPrefixElement<T>(a: seq<T>, b: seq<T>, x: T)
    requires a <= b && x in a
    ensures x in b
  {
    var i :| 0 <= i < |a| && a[i] == x;
    assert b[i] == x;
  }

  /** A text with a list of its own is aligned exactly if it uses the operation's names in their order,
      each once, from the first on; behind the last of them it may use names without a value, unless
      there are further arguments. */
  lemma OwnAlignedIff(ts: seq<Text>, i: nat, extra: nat)
    requires i < |ts| && ts[i].own
    ensures AlignedAt(ts, i, extra) <==>
              var holes, final := Holes(ts[i].source), KnownNames(ts);
              || holes <= final
              || (extra == 0 && final <= holes && forall name <- holes[|final|..] :: name !in final)
  {
    var holes, final := Holes(ts[i].source), KnownNames(ts);
    if Aligned(holes, 0, final, extra) && |final| < |holes| {
      assert holes[|final|] !in final && extra == 0;
    }
    if final <= holes {
      assert forall k :: |final| <= k < |holes| ==> holes[k] == holes[|final|..][k - |final|];
    }
  }

  /** When every text shares the list: no placeholder name occurs twice in all of them. */
  lemma {:induction false} NewNamesIff(ts: seq<Text>)
    requires forall t <- ts :: !t.own
    ensures (forall i :: 0 <= i < |ts| ==> NewNamesAt(ts, i)) <==> NoRepeats(AllHoles(ts))
    ensures NoRepeats(AllHoles(ts)) ==> KnownNames(ts) == AllHoles(ts)
  {
    if ts != [] {
      var n := |ts| - 1;
      var front, e := ts[..n], ts[n].source;
      NewNamesIff(front);
      NewNamesFront(ts);
      ParsedNames(KnownNames(front), e);
      if NoRepeats(AllHoles(ts)) {
        NoRepeatsPrefix(AllHoles(front), Holes(e));
      }
      if NoRepeats(AllHoles(front)) && NoRepeats(AllHoles(front) + Holes(e)) {
        AddNewNames(AllHoles(front), Holes(e));
      }
    }
  }

  lemma NewNamesFront(ts: seq<Text>)
    requires ts != []
    ensures var n := |ts| - 1;
            (forall i :: 0 <= i < |ts| ==> NewNamesAt(ts, i))
            <==> NewNamesAt(ts, n) && forall i :: 0 <= i < n ==> NewNamesAt(ts[..n], i)
  {
    var n := |ts| - 1;
    forall i | 0 <= i < n
      ensures NewNamesAt(ts[..n], i) <==> NewNamesAt(ts, i)
    {
      assert ts[..n][..i] == ts[..i];
    }
  }

  function AllHoles(ts: seq<Text>): seq<string> {
    if ts == [] then [] else AllHoles(ts[..|ts| - 1]) + Holes(ts[|ts| - 1].source)
  }

  lemma SharedPositionsMeanNamesIff<V(!new)>(ts: seq<Text>, picks: seq<nat>, extra: seq<V>, a: V, b: V)
    requires Within(ts, picks) && a != b
    requires (forall t <- ts :: !t.own) && forall i :: 0 <= i < |ts| ==> i in picks
    ensures PositionsMeanNames(ts, picks, extra) <==> NoRepeats(AllHoles(ts))
  {
    PositionsMeanNamesIff(ts, picks, extra, a, b);
    NewNamesIff(ts);
    SharedAllAlignedIff(ts, picks, |extra|);
  }

  lemma SharedAllAlignedIff(ts: seq<Text>, picks: seq<nat>, extra: nat)
    requires Within(ts, picks)
    requires (forall t <- ts :: !t.own) && forall i :: 0 <= i < |ts| ==> i in picks
    ensures AllAligned(ts, picks, extra) <==> forall i :: 0 <= i < |ts| ==> NewNamesAt(ts, i)
  {
    if AllAligned(ts, picks, extra) {
      forall i | 0 <= i < |ts|
        ensures NewNamesAt(ts, i)
      {
        assert i in picks;
        var j :| 0 <= j < |picks| && picks[j] == i;
        SharedAlignedIff(ts, i, extra);
      }
    } else {
      var j :| 0 <= j < |picks| && !AlignedAt(ts, picks[j], extra);
      SharedAlignedIff(ts, picks[j], extra);
    }
  }

  // ---- two operations that are misread ----

  function Placeholder(name: string): Expr<string> { Hole(name) }

  /** Two conditions that both use `:x`, bound to 7: the second is stored with position 1, the arguments
      are [7], and it reads nothing. */
  lemma RepeatedNameExample()
    ensures var ts := [Text(Placeholder("x"), false), Text(Placeholder("x"), false)];
            && KnownNames(ts) == ["x"] && CompiledAt(ts, 0) == Hole(0) && CompiledAt(ts, 1) == Hole(1)
            && Fill(CompiledAt(ts, 1), ByPosition([7])) == Hole(None)
            && Fill(ts[1].source, ByName(map["x" := 7])) == Hole(Some(7))
  {
    var ts := [Text(Placeholder("x"), false), Text(Placeholder("x"), false)];
    assert ts[..0] == [] && ts[..1] == [ts[0]] && [ts[0]][..0] == [];
    assert AddNames([], ["x"]) == ["x"] by { assert [] + ["x"] == ["x"] && ["x"][1..] == []; }
    assert AddNames(["x"], ["x", "x"]) == ["x"] by { AddKnownNames(["x"], ["x", "x"]); }
    assert KnownNames([ts[0]]) == ["x"];
  }

  /** A condition on `:x` and `:y`, bound to 1 and 2. The field `:x` is read correctly; the field `:y`
      gets the first position of its own list and reads the value of `:x`. */
  lemma FieldExample()
    ensures var condition := Node("=", [Placeholder("x"), Placeholder("y")]);
            var ts := [Text(condition, false), Text(Placeholder("x"), true), Text(Placeholder("y"), true)];
            var values := map["x" := 1, "y" := 2];
            && KnownNames(ts) == ["x", "y"] && Args(["x", "y"], values) == [1, 2]
            && Fill(CompiledAt(ts, 1), ByPosition([1, 2])) == Fill(ts[1].source, ByName(values))
            && Fill(CompiledAt(ts, 2), ByPosition([1, 2])) == Hole(Some(1))
            && Fill(ts[2].source, ByName(values)) == Hole(Some(2))
  {
    var es := [Placeholder("x"), Placeholder("y")];
    var condition := Node("=", es);
    var ts := [Text(condition, false), Text(Placeholder("x"), true), Text(Placeholder("y"), true)];
    assert es[1..] == [Placeholder("y")] && es[1..][1..] == [];
    assert HolesAll(es[1..]) == ["y"] && Holes(condition) == ["x", "y"];
    assert ts[..0] == [] && ts[..2][..1] == ts[..1] && ts[..1][..0] == [];
    AddNewNames([], ["x", "y"]);
    assert [] + Holes(condition) == Holes(condition);
    assert KnownNames(ts[..1]) == ["x", "y"];
    assert KnownNames(ts[..2]) == ["x", "y"];
  }
}
