/** Quoting of identifiers and the savepoint statements built from them. */
module Identifiers {
  import opened Options

  function Doubled(s: string): string {
    if s == [] then []
    else Doubled(s[..|s| - 1]) + if s[|s| - 1] == '`' then "``" else [s[|s| - 1]]
  }

  function Quoted(s: string): string { "`" + Doubled(s) + "`" }

  method EscapeIdentifier(identifier: string) returns (result: string)
    ensures result == Quoted(identifier)
  {
    result := "`";
    for i := 0 to |identifier|
      invariant result == "`" + Doubled(identifier[..i])
    {
      assert identifier[..i + 1][..i] == identifier[..i];
      if identifier[i] == '`' { result := result + "``"; } else { result := result + [identifier[i]]; }
    }
    assert identifier[..|identifier|] == identifier;
    result := result + "`";
  }

  // ---- the server's side: how a quoted identifier is read ----

  /** After the opening backtick: the identifier and what follows the closing one. A doubled backtick
      stands for one. */
  function ScanBody(s: string): Option<(string, string)> {
    if s == [] then None
    else if s[0] != '`' then
      var r := ScanBody(s[1..]);
      if r.None? then None else Some(([s[0]] + r.value.0, r.value.1))
    else if |s| > 1 && s[1] == '`' then
      var r := ScanBody(s[2..]);
      if r.None? then None else Some((['`'] + r.value.0, r.value.1))
    else Some(([], s[1..]))
  }

  function Scan(s: string): Option<(string, string)> {
    if s != [] && s[0] == '`' then ScanBody(s[1..]) else None
  }

  lemma {:induction false} DoubledFront(c: char, s: string)
    ensures Doubled([c] + s) == (if c == '`' then "``" else [c]) + Doubled(s)
  {
    if s == [] {
      assert [c] + s == [c] && [c][..0] == [];
    } else {
      var n := |s| - 1;
      assert ([c] + s)[..n + 1] == [c] + s[..n];
      DoubledFront(c, s[..n]);
    }
  }

  lemma ScanBodyFront(c: char, tail: string)
    ensures var front := if c == '`' then "``" else [c];
            var r := ScanBody(tail);
            r.Some? ==> ScanBody(front + tail) == Some(([c] + r.value.0, r.value.1))
  {
    if c == '`' {
      assert ("``" + tail)[2..] == tail;
    } else {
      assert ([c] + tail)[1..] == tail;
    }
  }

  lemma Regroup(a: string, b: string, c: string, d: string)
    ensures a + b + c + d == a + (b + c + d)
  {
  }

  lemma {:induction false} ScanBodyDoubled(s: string, rest: string)
    requires rest == [] || rest[0] != '`'
    ensures ScanBody(Doubled(s) + "`" + rest) == Some((s, rest))
  {
    if s == [] {
      assert Doubled(s) + "`" + rest == "`" + rest && ("`" + rest)[1..] == rest;
    } else {
      var tail := Doubled(s[1..]) + "`" + rest;
      ScanBodyDoubled(s[1..], rest);
      ScanBodyFront(s[0], tail);
      DoubledFront(s[0], s[1..]);
      assert s == [s[0]] + s[1..];
      Regroup(if s[0] == '`' then "``" else [s[0]], Doubled(s[1..]), "`", rest);
    }
  }

  /** Whatever follows, as long as it is not another backtick, the server reads back the name. */
  lemma QuotedIsRead(s: string, rest: string)
    requires rest == [] || rest[0] != '`'
    ensures Scan(Quoted(s) + rest) == Some((s, rest))
  {
    ScanBodyDoubled(s, rest);
    assert (Quoted(s) + rest)[1..] == Doubled(s) + "`" + rest;
  }

  lemma QuotingIsInjective(s: string, t: string)
    requires Quoted(s) == Quoted(t)
    ensures s == t
  {
    QuotedIsRead(s, []);
    QuotedIsRead(t, []);
  }

  // ---- savepoints ----

  function Digits(n: nat): string {
    (if n < 10 then [] else Digits(n / 10)) + ['0' + (n % 10) as char]
  }

  function Number(s: string): nat {
    if s == [] then 0
    else 10 * Number(s[..|s| - 1]) + if s[|s| - 1] < '0' then 0 else s[|s| - 1] as int - '0' as int
  }

  lemma {:induction false} NumberOfDigits(n: nat)
    ensures Number(Digits(n)) == n
  {
    var last := '0' + (n % 10) as char;
    assert Digits(n)[..|Digits(n)| - 1] == if n < 10 then [] else Digits(n / 10);
    assert last as int - '0' as int == n % 10;
    if n >= 10 { NumberOfDigits(n / 10); }
  }

  /** The seed is a 32-bit unsigned counter. */
  class SavepointNames {
    var seed: nat

    ghost predicate Valid()
      reads this
    {
      seed < 0x1_0000_0000
    }

    constructor ()
      ensures Valid() && seed == 1
    {
      seed := 1;
    }

    /** setSavepoint: an empty name is replaced by a generated one. */
    method SetSavepoint(given: string) returns (name: string, query: string)
      requires Valid()
      modifies this
      ensures Valid()
      ensures name == if given == [] then "SAVEPOINT" + Digits(old(seed)) else given
      ensures seed == if given == [] then (old(seed) + 1) % 0x1_0000_0000 else old(seed)
      ensures "SAVEPOINT " <= query && Scan(query[10..]) == Some((name, []))
    {
      name := given;
      if given == [] {
        name := "SAVEPOINT" + Digits(seed);
        seed := (seed + 1) % 0x1_0000_0000;
      }
      var quoted := EscapeIdentifier(name);
      query := "SAVEPOINT " + quoted;
      QuotedIsRead(name, []);
      assert query[10..] == Quoted(name) + [];
    }
  }

  method RollbackTo(name: string) returns (query: string)
    ensures "ROLLBACK TO " <= query && Scan(query[12..]) == Some((name, []))
  {
    var quoted := EscapeIdentifier(name);
    query := "ROLLBACK TO " + quoted;
    QuotedIsRead(name, []);
    assert query[12..] == Quoted(name) + [];
  }

  method ReleaseSavepoint(name: string) returns (query: string)
    ensures "RELEASE SAVEPOINT " <= query && Scan(query[18..]) == Some((name, []))
  {
    var quoted := EscapeIdentifier(name);
    query := "RELEASE SAVEPOINT " + quoted;
    QuotedIsRead(name, []);
    assert query[18..] == Quoted(name) + [];
  }

  /** Different seeds generate different names. */
  lemma GeneratedNamesDiffer(m: nat, n: nat)
    requires m != n
    ensures "SAVEPOINT" + Digits(m) != "SAVEPOINT" + Digits(n)
  {
    NumberOfDigits(m);
    NumberOfDigits(n);
    assert ("SAVEPOINT" + Digits(m))[9..] == Digits(m) && ("SAVEPOINT" + Digits(n))[9..] == Digits(n);
  }
}
