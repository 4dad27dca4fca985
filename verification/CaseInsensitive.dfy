/** util::iless, and lookup in a std::map ordered by it. */
module CaseInsensitive {
  import opened Options

  /** toupper of the C locale. */
  function Upper(c: char): char {
    if 'a' <= c <= 'z' then c - 'a' + 'A' else c
  }

  /** The same character, or the two cases of one Latin letter, whose codes are 32 apart. */
  predicate SameLetter(c: char, d: char) {
    || c == d
    || ('a' <= c <= 'z' && c as int == d as int + 32)
    || ('a' <= d <= 'z' && d as int == c as int + 32)
  }

  lemma UpperIff(c: char, d: char)
    ensures Upper(c) == Upper(d) <==> SameLetter(c, d)
  {
  }

  /** Equal character by character, apart from the case of Latin letters. */
  ghost predicate EqualUpToCase(a: string, b: string) {
    |a| == |b| && forall i :: 0 <= i < |a| ==> SameLetter(a[i], b[i])
  }

  lemma EqualUpToCaseCons(a: string, b: string)
    requires a != [] && b != []
    ensures EqualUpToCase(a, b) <==> SameLetter(a[0], b[0]) && EqualUpToCase(a[1..], b[1..])
  {
    if SameLetter(a[0], b[0]) && EqualUpToCase(a[1..], b[1..]) {
      forall i | 0 <= i < |a|
        ensures SameLetter(a[i], b[i])
      {
        if i > 0 { assert SameLetter(a[1..][i - 1], b[1..][i - 1]); }
      }
    }
  }

  /** Lexicographic comparison of the upper-cased characters. */
  predicate Less(a: string, b: string) {
    if b == [] then false
    else if a == [] then true
    else if Upper(a[0]) < Upper(b[0]) then true
    else if Upper(b[0]) < Upper(a[0]) then false
    else Less(a[1..], b[1..])
  }

  predicate Incomparable(a: string, b: string) { !Less(a, b) && !Less(b, a) }

  lemma {:induction false} Irreflexive(a: string)
    ensures !Less(a, a)
  {
    if a != [] { Irreflexive(a[1..]); }
  }

  lemma {:induction false} Asymmetric(a: string, b: string)
    requires Less(a, b)
    ensures !Less(b, a)
  {
    if a != [] && b != [] && Upper(a[0]) == Upper(b[0]) { Asymmetric(a[1..], b[1..]); }
  }

  lemma {:induction false} Transitive(a: string, b: string, c: string)
    requires Less(a, b) && Less(b, c)
    ensures Less(a, c)
  {
    if a != [] && Upper(a[0]) == Upper(b[0]) && Upper(b[0]) == Upper(c[0]) {
      Transitive(a[1..], b[1..], c[1..]);
    }
  }

  /** Two strings are incomparable exactly when they are equal up to case. */
  lemma {:induction false} IncomparableIff(a: string, b: string)
    ensures Incomparable(a, b) <==> EqualUpToCase(a, b)
  {
    if a != [] && b != [] {
      IncomparableIff(a[1..], b[1..]);
      UpperIff(a[0], b[0]);
      EqualUpToCaseCons(a, b);
    }
  }

  /** The order, exactly: up to some index the strings are equal up to case, and there the first one
      ends or has the smaller character, in upper case. */
  lemma {:induction false} LessIff(a: string, b: string)
    ensures Less(a, b) <==> exists k :: DiffersAt(a, b, k)
  {
    if a == [] {
      assert b != [] ==> DiffersAt(a, b, 0);
    } else if b != [] {
      LessIff(a[1..], b[1..]);
      UpperIff(a[0], b[0]);
      if SameLetter(a[0], b[0]) {
        if k: nat :| DiffersAt(a[1..], b[1..], k) { DiffersAtCons(a, b, k + 1); }
        if k: nat :| DiffersAt(a, b, k) && k > 0 { DiffersAtCons(a, b, k); }
      } else if Upper(a[0]) < Upper(b[0]) {
        assert DiffersAt(a, b, 0);
      }
    }
  }

  ghost predicate DiffersAt(a: string, b: string, k: nat) {
    k <= |a| && k < |b| && EqualUpToCase(a[..k], b[..k]) && (k == |a| || Upper(a[k]) < Upper(b[k]))
  }

  lemma DiffersAtCons(a: string, b: string, k: nat)
    requires a != [] && b != [] && SameLetter(a[0], b[0]) && k > 0
    ensures DiffersAt(a, b, k) <==> DiffersAt(a[1..], b[1..], k - 1)
  {
    if k <= |a| && k <= |b| {
      EqualUpToCaseCons(a[..k], b[..k]);
      assert a[..k][1..] == a[1..][..k - 1] && b[..k][1..] == b[1..][..k - 1];
    }
  }

  lemma IncomparableIsTransitive(a: string, b: string, c: string)
    requires Incomparable(a, b) && Incomparable(b, c)
    ensures Incomparable(a, c)
  {
    IncomparableIff(a, b);
    IncomparableIff(b, c);
    IncomparableIff(a, c);
  }

  // ---- ordered tables ----

  ghost predicate Ordered<V>(table: seq<(string, V)>) {
    forall i, j :: 0 <= i < j < |table| ==> Less(table[i].0, table[j].0)
  }

  /** std::map::find: the first entry not below the key, if the key is not below it either. */
  function Lookup<V>(table: seq<(string, V)>, key: string): Option<V> {
    if table == [] then None
    else if Less(table[0].0, key) then Lookup(table[1..], key)
    else if Less(key, table[0].0) then None
    else Some(table[0].1)
  }

  /** Lookup finds an entry exactly when some entry's key equals the given key up to case, and then
      it finds that entry. */
  lemma {:induction false} LookupFinds<V>(table: seq<(string, V)>, key: string, i: nat)
    requires Ordered(table) && i < |table| && EqualUpToCase(table[i].0, key)
    ensures Lookup(table, key) == Some(table[i].1)
  {
    IncomparableIff(table[i].0, key);
    if i > 0 {
      assert Less(table[0].0, key) by {
        LessThanEquivalent(table[0].0, table[i].0, key);
      }
      LookupFinds(table[1..], key, i - 1);
    }
  }

  lemma {:induction false} LessThanEquivalent(a: string, b: string, c: string)
    requires Less(a, b) && EqualUpToCase(b, c)
    ensures Less(a, c)
  {
    UpperIff(b[0], c[0]);
    if a != [] && Upper(a[0]) == Upper(b[0]) {
      EqualUpToCaseCons(b, c);
      LessThanEquivalent(a[1..], b[1..], c[1..]);
    }
  }

  lemma {:induction false} LookupMisses<V>(table: seq<(string, V)>, key: string)
    requires forall i :: 0 <= i < |table| ==> !EqualUpToCase(table[i].0, key)
    ensures Lookup(table, key) == None
  {
    if table != [] {
      IncomparableIff(table[0].0, key);
      LookupMisses(table[1..], key);
    }
  }
}
