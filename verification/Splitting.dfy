/** util::single_separator_split. */
module Splitting {

  /** The tokens with the separator between them. */
  function Join(tokens: seq<string>, separator: char): string
    requires tokens != []
  {
    if |tokens| == 1 then tokens[0]
    else Join(tokens[..|tokens| - 1], separator) + [separator] + tokens[|tokens| - 1]
  }

  function Occurrences(s: string, c: char): nat {
    if s == [] then 0 else Occurrences(s[..|s| - 1], c) + if s[|s| - 1] == c then 1 else 0
  }

  ghost predicate SeparatorFree(tokens: seq<string>, separator: char) {
    forall t <- tokens :: separator !in t
  }

  /** `tokens` is the decomposition of `s`. */
  ghost predicate Splits(tokens: seq<string>, s: string, separator: char) {
    tokens != [] && SeparatorFree(tokens, separator) && Join(tokens, separator) == s
  }

  lemma JoinSnoc(tokens: seq<string>, token: string, separator: char)
    requires tokens != []
    ensures Join(tokens + [token], separator) == Join(tokens, separator) + [separator] + token
  {
    assert (tokens + [token])[..|tokens|] == tokens;
  }

  /** `tokens` are the tokens that end before position `last`. */
  ghost predicate SplitsUpTo(tokens: seq<string>, input: string, last: nat, separator: char) {
    last <= |input| && if tokens == [] then last == 0 else input[..last] == Join(tokens, separator) + [separator]
  }

  lemma NextToken(tokens: seq<string>, input: string, last: nat, idx: nat, separator: char)
    requires SplitsUpTo(tokens, input, last, separator) && last <= idx < |input| && input[idx] == separator
    ensures SplitsUpTo(tokens + [input[last..idx]], input, idx + 1, separator)
  {
    var token := input[last..idx];
    assert input[..idx + 1] == input[..last] + token + [separator];
    if tokens == [] {
      assert tokens + [token] == [token];
    } else {
      JoinSnoc(tokens, token, separator);
    }
  }

  lemma FinalToken(tokens: seq<string>, input: string, last: nat, separator: char)
    requires SplitsUpTo(tokens, input, last, separator)
    ensures Join(tokens + [input[last..]], separator) == input
  {
    assert input == input[..last] + input[last..];
    if tokens == [] {
      assert tokens + [input[last..]] == [input];
    } else {
      JoinSnoc(tokens, input[last..], separator);
    }
  }

  /** Appends the tokens of `input`; an empty input appends nothing. */
  method SingleSeparatorSplit(output: seq<string>, input: string, separator: char) returns (out: seq<string>)
    ensures input == [] ==> out == output
    ensures input != [] ==> output <= out && Splits(out[|output|..], input, separator)
  {
    out := output;
    if input == [] { return; }
    var idx, last := 0, 0;
    ghost var tokens: seq<string> := [];
    while idx < |input|
      invariant 0 <= last <= idx <= |input|
      invariant out == output + tokens && SeparatorFree(tokens, separator)
      invariant separator !in input[last..idx]
      invariant SplitsUpTo(tokens, input, last, separator)
    {
      if input[idx] == separator {
        NextToken(tokens, input, last, idx, separator);
        var token := input[last..idx];
        tokens := tokens + [token];
        out := out + [token];
        last := idx + 1;
      }
      idx := idx + 1;
    }
    FinalToken(tokens, input, last, separator);
    assert input[last..] == input[last..idx];
    out := out + [input[last..]];
    assert out[|output|..] == tokens + [input[last..]];
  }

  // ---- there is only one decomposition, and its size is known ----

  lemma {:induction false} OccurrencesSplit(a: string, b: string, c: char)
    ensures Occurrences(a + b, c) == Occurrences(a, c) + Occurrences(b, c)
  {
    if b == [] {
      assert a + b == a;
    } else {
      OccurrencesSplit(a, b[..|b| - 1], c);
      assert (a + b)[..|a + b| - 1] == a + b[..|b| - 1];
    }
  }

  lemma {:induction false} NoOccurrence(s: string, c: char)
    requires c !in s
    ensures Occurrences(s, c) == 0
  {
    if s != [] { NoOccurrence(s[..|s| - 1], c); }
  }

  /** One token more than there are separators. */
  lemma {:induction false} TokenCount(tokens: seq<string>, s: string, separator: char)
    requires Splits(tokens, s, separator)
    ensures |tokens| == Occurrences(s, separator) + 1
    decreases |tokens|
  {
    var n := |tokens| - 1;
    NoOccurrence(tokens[n], separator);
    if n > 0 {
      var front := Join(tokens[..n], separator);
      TokenCount(tokens[..n], front, separator);
      OccurrencesSplit(front + [separator], tokens[n], separator);
      assert (front + [separator])[..|front|] == front;
    }
  }

  lemma SeparatorInLonger(a: string, x: string, b: string, y: string, separator: char)
    requires a + [separator] + x == b + [separator] + y && |x| < |y|
    ensures separator in y
  {
    var s := a + [separator] + x;
    assert s[|a|] == separator && s[|a|] == (b + [separator] + y)[|a|] == y[|a| - |b| - 1];
  }

  /** The last token is what follows the last separator. */
  lemma LastToken(a: string, x: string, b: string, y: string, separator: char)
    requires a + [separator] + x == b + [separator] + y
    requires separator !in x && separator !in y
    ensures a == b && x == y
  {
    if |x| < |y| {
      SeparatorInLonger(a, x, b, y, separator);
    } else if |y| < |x| {
      SeparatorInLonger(b, y, a, x, separator);
    } else {
      var s := a + [separator] + x;
      assert a == s[..|a|] && b == s[..|b|] && x == s[|a| + 1..] && y == s[|b| + 1..];
    }
  }

  /** No other separator-free list joins to the same string. */
  lemma {:induction false} SplitIsUnique(tokens: seq<string>, others: seq<string>, s: string, separator: char)
    requires Splits(tokens, s, separator) && Splits(others, s, separator)
    ensures tokens == others
    decreases |tokens|
  {
    TokenCount(tokens, s, separator);
    TokenCount(others, s, separator);
    var n := |tokens| - 1;
    if n > 0 {
      var front, frontOther := Join(tokens[..n], separator), Join(others[..n], separator);
      LastToken(front, tokens[n], frontOther, others[n], separator);
      SplitIsUnique(tokens[..n], others[..n], front, separator);
      assert tokens == tokens[..n] + [tokens[n]] && others == others[..n] + [others[n]];
    }
  }
}
