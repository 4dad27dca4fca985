/** Negotiation of a compression algorithm with the server. */
module CompressionSetup {
  import CaseInsensitive
  import opened Options

  datatype Algorithm = NoCompression | ZstdStream | Lz4Message | ZlibDeflateStream

  datatype Policy = Required | Preferred | Disabled

  /** A PHP value, as far as reading the server's capabilities looks into it. */
  datatype Value =
    | Text(text: string)
    | Array(fields: seq<(string, Value)>)
    | Object(fields: seq<(string, Value)>)
    | Scalar

  /** The server's reaction to a capabilities-set request: it takes the algorithm, does not, or
      reports an error, which the client throws. A request that cannot be sent counts as refused. */
  datatype Answer = Accept | Refuse | ServerError(code: int)

  datatype Outcome =
    | Configured(algorithm: Algorithm)
    | NotSupported
    | CompressorNotAvailable
    | NegotiationFailure
    | Thrown(code: int)

  // ---- names ----

  /** The names and aliases, in the order of `CaseInsensitive.Less`. */
  const NAMES: seq<(string, Algorithm)> := [
    ("deflate", ZlibDeflateStream),
    ("deflate_stream", ZlibDeflateStream),
    ("lz4", Lz4Message),
    ("lz4_message", Lz4Message),
    ("zlib", ZlibDeflateStream),
    ("zlib_stream", ZlibDeflateStream),
    ("zstd", ZstdStream),
    ("zstd_stream", ZstdStream)]

  function ToAlgorithm(name: string): Algorithm {
    match CaseInsensitive.Lookup(NAMES, name)
    case Some(a) => a
    case None => NoCompression
  }

  /** The first characters agree and then `a` ends or has the smaller character. */
  lemma LessAt(a: string, b: string, k: nat)
    requires k <= |a| && k < |b| && a[..k] == b[..k]
    requires k == |a| || CaseInsensitive.Upper(a[k]) < CaseInsensitive.Upper(b[k])
    ensures CaseInsensitive.Less(a, b)
  {
    assert CaseInsensitive.DiffersAt(a, b, k);
    CaseInsensitive.LessIff(a, b);
  }

  lemma NamesOrdered()
    ensures CaseInsensitive.Ordered(NAMES)
  {
    forall i, j | 0 <= i < j < |NAMES|
      ensures CaseInsensitive.Less(NAMES[i].0, NAMES[j].0)
    {
      if i + 1 == j && i % 2 == 0 {
        LessAt(NAMES[i].0, NAMES[j].0, |NAMES[i].0|);
      } else if i >= 4 {
        LessAt(NAMES[i].0, NAMES[j].0, 1);
      } else {
        LessAt(NAMES[i].0, NAMES[j].0, 0);
      }
    }
  }

  lemma ListedName(name: string, a: Algorithm)
    requires a != NoCompression
    ensures ToAlgorithm(name) == a <==>
            exists i :: 0 <= i < |NAMES| && NAMES[i].1 == a && CaseInsensitive.EqualUpToCase(NAMES[i].0, name)
  {
    NamesOrdered();
    if i :| 0 <= i < |NAMES| && CaseInsensitive.EqualUpToCase(NAMES[i].0, name) {
      forall j | 0 <= j < |NAMES| && CaseInsensitive.EqualUpToCase(NAMES[j].0, name)
        ensures ToAlgorithm(name) == NAMES[j].1
      {
        CaseInsensitive.LookupFinds(NAMES, name, j);
      }
    } else {
      CaseInsensitive.LookupMisses(NAMES, name);
    }
  }

  ghost predicate Is(name: string, word: string) { CaseInsensitive.EqualUpToCase(word, name) }

  /** The names that are recognised, in any mixture of upper and lower case. */
  lemma ToAlgorithmIff(name: string)
    ensures ToAlgorithm(name) == ZstdStream <==> Is(name, "zstd") || Is(name, "zstd_stream")
    ensures ToAlgorithm(name) == Lz4Message <==> Is(name, "lz4") || Is(name, "lz4_message")
    ensures ToAlgorithm(name) == ZlibDeflateStream <==>
              Is(name, "zlib") || Is(name, "zlib_stream") || Is(name, "deflate") || Is(name, "deflate_stream")
  {
    ListedName(name, ZstdStream);
    ListedName(name, Lz4Message);
    ListedName(name, ZlibDeflateStream);
    assert NAMES[6].0 == "zstd" && NAMES[7].0 == "zstd_stream" && NAMES[2].0 == "lz4" && NAMES[3].0 == "lz4_message";
    assert NAMES[0].0 == "deflate" && NAMES[1].0 == "deflate_stream";
    assert NAMES[4].0 == "zlib" && NAMES[5].0 == "zlib_stream";
  }

  /** Negotiate::to_string: the name a request carries. */
  function WireName(a: Algorithm): string
    requires a != NoCompression
  {
    match a
    case ZstdStream => "zstd_stream"
    case Lz4Message => "lz4_message"
    case ZlibDeflateStream => "deflate_stream"
  }

  /** The name of a request is read back as the algorithm it asks for. */
  lemma WireNameRoundTrip(a: Algorithm)
    requires a != NoCompression
    ensures ToAlgorithm(WireName(a)) == a
  {
    var i := match a case ZstdStream => 7 case Lz4Message => 3 case ZlibDeflateStream => 1;
    NamesOrdered();
    assert NAMES[i] == (WireName(a), a);
    CaseInsensitive.LookupFinds(NAMES, WireName(a), i);
  }

  /** The recognised names of a list, in order. */
  function Recognised(names: seq<string>): seq<Algorithm> {
    if names == [] then []
    else
      var last := ToAlgorithm(names[|names| - 1]);
      Recognised(names[..|names| - 1]) + if last == NoCompression then [] else [last]
  }

  /** Indices of a list of length `n`, in order. */
  ghost predicate InOrder(at: seq<nat>, n: nat) {
    && (forall k :: 0 <= k < |at| ==> at[k] < n)
    && forall k, l :: 0 <= k < l < |at| ==> at[k] < at[l]
  }

  lemma InOrderSnoc(at: seq<nat>, n: nat)
    requires InOrder(at, n)
    ensures InOrder(at, n + 1) && InOrder(at + [n], n + 1)
    ensures forall i :: i in at + [n] <==> i in at || i == n
  {
  }

  /** Each recognised name of the list gives its algorithm, in the order of the list, and no other. */
  lemma {:induction false} RecognisedAt(names: seq<string>) returns (at: seq<nat>)
    ensures InOrder(at, |names|) && |at| == |Recognised(names)|
    ensures forall k :: 0 <= k < |at| ==> Recognised(names)[k] == ToAlgorithm(names[at[k]])
    ensures forall i :: 0 <= i < |names| ==> (i in at <==> ToAlgorithm(names[i]) != NoCompression)
  {
    at := [];
    if names != [] {
      var n := |names| - 1;
      var front := names[..n];
      at := RecognisedAt(front);
      InOrderSnoc(at, n);
      assert forall i :: 0 <= i < n ==> front[i] == names[i];
      if ToAlgorithm(names[n]) != NoCompression {
        assert Recognised(names) == Recognised(front) + [ToAlgorithm(names[n])];
        at := at + [n];
      } else {
        assert Recognised(names) == Recognised(front);
      }
    }
  }

  lemma RecognisedIff(names: seq<string>, a: Algorithm)
    ensures a in Recognised(names) <==> a != NoCompression && exists name <- names :: ToAlgorithm(name) == a
  {
    var at := RecognisedAt(names);
    if a in Recognised(names) {
      var k :| 0 <= k < |at| && Recognised(names)[k] == a;
      assert names[at[k]] in names && at[k] in at;
    }
    if a != NoCompression && exists name <- names :: ToAlgorithm(name) == a {
      var i :| 0 <= i < |names| && ToAlgorithm(names[i]) == a;
      var k :| 0 <= k < |at| && at[k] == i;
      assert Recognised(names)[k] == a;
    }
  }

  method ToAlgorithms(names: seq<string>) returns (algorithms: seq<Algorithm>)
    ensures algorithms == Recognised(names)
  {
    algorithms := [];
    for i := 0 to |names|
      invariant algorithms == Recognised(names[..i])
    {
      assert names[..i + 1][..i] == names[..i];
      var algorithm := ToAlgorithm(names[i]);
      if algorithm != NoCompression { algorithms := algorithms + [algorithm]; }
    }
    assert names[..|names|] == names;
  }

  // ---- the server's capabilities ----

  function Field(fields: seq<(string, Value)>, name: string): (r: Option<Value>)
    ensures r.Some? ==> (name, r.value) in fields
    ensures r.None? ==> forall f <- fields :: f.0 != name
  {
    if fields == [] then None
    else if fields[0].0 == name then Some(fields[0].1)
    else Field(fields[1..], name)
  }

  /** The list under compression/algorithm, if the capabilities have that shape. */
  function Advertised(raw: Value): Option<seq<(string, Value)>> {
    if !raw.Array? then None
    else
      var caps := Field(raw.fields, "compression");
      if caps.None? || !caps.value.Object? then None
      else
        var algorithms := Field(caps.value.fields, "algorithm");
        if algorithms.None? || !algorithms.value.Array? then None else Some(algorithms.value.fields)
  }

  function Texts(fields: seq<(string, Value)>): seq<string> {
    if fields == [] then []
    else
      var last := fields[|fields| - 1].1;
      Texts(fields[..|fields| - 1]) + if last.Text? then [last.text] else []
  }

  /** What the server can do, as far as the client understands it. */
  function Supported(raw: Value): seq<Algorithm> {
    var fields := Advertised(raw);
    if fields.None? then [] else Recognised(Texts(fields.value))
  }

  /** The list has a name of `a` among its texts. */
  ghost predicate Names(list: seq<(string, Value)>, a: Algorithm) {
    exists f <- list :: f.1.Text? && ToAlgorithm(f.1.text) == a
  }

  lemma {:induction false} NamesIff(list: seq<(string, Value)>, a: Algorithm)
    ensures (exists name <- Texts(list) :: ToAlgorithm(name) == a) <==> Names(list, a)
  {
    if list != [] {
      var n := |list| - 1;
      var front, last := list[..n], list[n].1;
      NamesIff(front, a);
      assert list == front + [list[n]];
      assert last.Text? ==> Texts(list) == Texts(front) + [last.text];
      assert !last.Text? ==> Texts(list) == Texts(front);
      assert forall name :: name in Texts(front) ==> name in Texts(list);
      assert last.Text? ==> last.text in Texts(list);
      assert list[n] in list;
    }
  }

  /** The capabilities are an array whose "compression" is an object whose "algorithm" is `list`. */
  ghost predicate Holds(raw: Value, caps: seq<(string, Value)>, list: seq<(string, Value)>) {
    && raw.Array? && Field(raw.fields, "compression") == Some(Object(caps))
    && Field(caps, "algorithm") == Some(Array(list))
  }

  /** An algorithm is supported exactly if the capabilities have a list with one of its names. */
  lemma SupportedIff(raw: Value, a: Algorithm)
    ensures a in Supported(raw) <==> a != NoCompression && exists caps, list :: Holds(raw, caps, list) && Names(list, a)
  {
    var fields := Advertised(raw);
    if fields.Some? {
      assert Holds(raw, Field(raw.fields, "compression").value.fields, fields.value);
      RecognisedIff(Texts(fields.value), a);
      NamesIff(fields.value, a);
    }
  }

  method GatherCapabilities(raw: Value) returns (ok: bool, supported: seq<Algorithm>)
    ensures supported == Supported(raw)
    ensures ok <==> supported != []
  {
    supported := [];
    var fields := Advertised(raw);
    if fields.None? { return false, []; }
    var values := fields.value;
    for i := 0 to |values|
      invariant supported == Recognised(Texts(values[..i]))
    {
      NextField(values, i);
      if values[i].1.Text? {
        var algorithm := ToAlgorithm(values[i].1.text);
        if algorithm != NoCompression { supported := supported + [algorithm]; }
      }
    }
    assert values[..|values|] == values;
    ok := supported != [];
  }

  lemma NextField(values: seq<(string, Value)>, i: nat)
    requires i < |values|
    ensures var v := values[i].1;
            Recognised(Texts(values[..i + 1])) == Recognised(Texts(values[..i]))
              + if v.Text? && ToAlgorithm(v.text) != NoCompression then [ToAlgorithm(v.text)] else []
  {
    var v := values[i].1;
    assert values[..i + 1][..i] == values[..i];
    if v.Text? {
      RecognisedSnoc(Texts(values[..i]), v.text);
    } else {
      assert Texts(values[..i + 1]) == Texts(values[..i]);
    }
  }

  lemma RecognisedSnoc(names: seq<string>, name: string)
    ensures Recognised(names + [name])
            == Recognised(names) + if ToAlgorithm(name) == NoCompression then [] else [ToAlgorithm(name)]
  {
    assert (names + [name])[..|names|] == names;
  }

  // ---- negotiation ----

  /** The server refuses every one of `requests`, each asked after those before it. */
  ghost predicate Refused(requests: seq<Algorithm>, answer: (seq<Algorithm>, Algorithm) -> Answer) {
    forall i :: 0 <= i < |requests| ==> answer(requests[..i], requests[i]) == Refuse
  }

  lemma RefusedSnoc(requests: seq<Algorithm>, a: Algorithm, answer: (seq<Algorithm>, Algorithm) -> Answer)
    requires Refused(requests, answer) && answer(requests, a) == Refuse
    ensures Refused(requests + [a], answer)
  {
    assert forall i :: 0 <= i < |requests| ==> (requests + [a])[..i] == requests[..i];
    assert (requests + [a])[..|requests|] == requests;
  }

  /** The requests are the client's choices, among the first `n`, that the server advertises and this
      build can compress. */
  ghost predicate Asked(requests: seq<Algorithm>, algorithms: seq<Algorithm>, n: nat,
                        supported: seq<Algorithm>, available: set<Algorithm>)
    requires n <= |algorithms|
  {
    if n == 0 then requests == []
    else if algorithms[n - 1] in supported && algorithms[n - 1] in available then
      && requests != [] && requests[|requests| - 1] == algorithms[n - 1]
      && Asked(requests[..|requests| - 1], algorithms, n - 1, supported, available)
    else Asked(requests, algorithms, n - 1, supported, available)
  }

  lemma AskedSnoc(requests: seq<Algorithm>, algorithms: seq<Algorithm>, n: nat,
                  supported: seq<Algorithm>, available: set<Algorithm>)
    requires n < |algorithms| && Asked(requests, algorithms, n, supported, available)
    ensures algorithms[n] in supported && algorithms[n] in available ==>
              Asked(requests + [algorithms[n]], algorithms, n + 1, supported, available)
    ensures !(algorithms[n] in supported && algorithms[n] in available) ==>
              Asked(requests, algorithms, n + 1, supported, available)
  {
    assert (requests + [algorithms[n]])[..|requests|] == requests;
  }

  /** Seen from the client's list: the choices at increasing indices `at`, and `at` has exactly the
      indices of what the server advertises and this build can compress. */
  lemma {:induction false} AskedInOrder(requests: seq<Algorithm>, algorithms: seq<Algorithm>, n: nat,
                                        supported: seq<Algorithm>, available: set<Algorithm>)
    returns (at: seq<nat>)
    requires n <= |algorithms| && Asked(requests, algorithms, n, supported, available)
    ensures InOrder(at, n) && |at| == |requests|
    ensures forall k :: 0 <= k < |at| ==> requests[k] == algorithms[at[k]]
    ensures forall i :: 0 <= i < n ==> (i in at <==> algorithms[i] in supported && algorithms[i] in available)
  {
    at := [];
    if n > 0 {
      if algorithms[n - 1] in supported && algorithms[n - 1] in available {
        at := AskedInOrder(requests[..|requests| - 1], algorithms, n - 1, supported, available);
        InOrderSnoc(at, n - 1);
        at := at + [n - 1];
      } else {
        at := AskedInOrder(requests, algorithms, n - 1, supported, available);
        InOrderSnoc(at, n - 1);
      }
    }
  }

  /** Whatever the client wants, the server advertises and this build can compress has been asked for,
      and nothing else. */
  lemma {:induction false} AskedIff(requests: seq<Algorithm>, algorithms: seq<Algorithm>, n: nat,
                                    supported: seq<Algorithm>, available: set<Algorithm>, a: Algorithm)
    requires n <= |algorithms| && Asked(requests, algorithms, n, supported, available)
    ensures a in requests <==> a in algorithms[..n] && a in supported && a in available
  {
    if n > 0 {
      assert algorithms[..n] == algorithms[..n - 1] + [algorithms[n - 1]];
      if algorithms[n - 1] in supported && algorithms[n - 1] in available {
        var before := requests[..|requests| - 1];
        AskedIff(before, algorithms, n - 1, supported, available, a);
        assert requests == before + [algorithms[n - 1]];
      } else {
        AskedIff(requests, algorithms, n - 1, supported, available, a);
      }
    }
  }

  /** The request for the client's choice at `n` was answered with `last`, after all eligible choices
      before it had been asked for, in order, and refused. */
  ghost predicate EndsAt(n: nat, requests: seq<Algorithm>, algorithms: seq<Algorithm>, supported: seq<Algorithm>,
                         available: set<Algorithm>, answer: (seq<Algorithm>, Algorithm) -> Answer, last: Answer)
  {
    && n < |algorithms| && requests != []
    && var before := requests[..|requests| - 1];
    && requests == before + [algorithms[n]] && algorithms[n] in supported && algorithms[n] in available
    && Asked(before, algorithms, n, supported, available) && Refused(before, answer)
    && answer(before, algorithms[n]) == last
  }

  datatype SearchResult = Accepted(algorithm: Algorithm) | AllRefused | Failed(code: int)

  /** How the search for an algorithm ended, given the requests it made. */
  ghost predicate Explains(result: SearchResult, requests: seq<Algorithm>, algorithms: seq<Algorithm>,
                           supported: seq<Algorithm>, available: set<Algorithm>,
                           answer: (seq<Algorithm>, Algorithm) -> Answer)
  {
    match result
    case Accepted(a) =>
      exists n: nat :: EndsAt(n, requests, algorithms, supported, available, answer, Accept) && algorithms[n] == a
    case AllRefused =>
      Asked(requests, algorithms, |algorithms|, supported, available) && Refused(requests, answer)
    case Failed(code) =>
      exists n: nat :: EndsAt(n, requests, algorithms, supported, available, answer, ServerError(code))
  }

  lemma Ends(requests: seq<Algorithm>, algorithms: seq<Algorithm>, n: nat, supported: seq<Algorithm>,
             available: set<Algorithm>, answer: (seq<Algorithm>, Algorithm) -> Answer)
    requires n < |algorithms| && algorithms[n] in supported && algorithms[n] in available
    requires Asked(requests, algorithms, n, supported, available) && Refused(requests, answer)
    ensures EndsAt(n, requests + [algorithms[n]], algorithms, supported, available, answer,
                   answer(requests, algorithms[n]))
  {
    assert (requests + [algorithms[n]])[..|requests|] == requests;
  }

  /** The requests a search makes before it ends are the eligible choices up to some index. */
  lemma SearchIndex(result: SearchResult, requests: seq<Algorithm>, algorithms: seq<Algorithm>,
                    supported: seq<Algorithm>, available: set<Algorithm>,
                    answer: (seq<Algorithm>, Algorithm) -> Answer)
    returns (n: nat)
    requires Explains(result, requests, algorithms, supported, available, answer)
    ensures n <= |algorithms| && Asked(requests, algorithms, n, supported, available)
    ensures result.AllRefused? ==> n == |algorithms|
    ensures result.Accepted? ==> n > 0 && requests != [] && requests[|requests| - 1] == result.algorithm
  {
    match result
    case AllRefused => n := |algorithms|;
    case Accepted(a) =>
      var m: nat :| EndsAt(m, requests, algorithms, supported, available, answer, Accept) && algorithms[m] == a;
      AskedSnoc(requests[..|requests| - 1], algorithms, m, supported, available);
      n := m + 1;
    case Failed(code) =>
      var m: nat :| EndsAt(m, requests, algorithms, supported, available, answer, ServerError(code));
      AskedSnoc(requests[..|requests| - 1], algorithms, m, supported, available);
      n := m + 1;
  }

  /** Only what the client wants, the server advertises and this build can compress is asked for, and
      all of it before the search gives up. */
  lemma SearchAsks(result: SearchResult, requests: seq<Algorithm>, algorithms: seq<Algorithm>,
                   supported: seq<Algorithm>, available: set<Algorithm>,
                   answer: (seq<Algorithm>, Algorithm) -> Answer)
    requires Explains(result, requests, algorithms, supported, available, answer)
    ensures forall a <- requests :: a in algorithms && a in supported && a in available
    ensures result.AllRefused? ==> forall a <- algorithms :: a in supported && a in available ==> a in requests
    ensures result.Accepted? ==> result.algorithm in requests
  {
    var n := SearchIndex(result, requests, algorithms, supported, available, answer);
    forall a: Algorithm
      ensures a in requests <==> a in algorithms[..n] && a in supported && a in available
    {
      AskedIff(requests, algorithms, n, supported, available, a);
    }
    assert n == |algorithms| ==> algorithms[..n] == algorithms;
  }

  // ---- the search has only one possible end ----

  lemma {:induction false} AskedUnique(p: seq<Algorithm>, q: seq<Algorithm>, algorithms: seq<Algorithm>, n: nat,
                                       supported: seq<Algorithm>, available: set<Algorithm>)
    requires n <= |algorithms|
    requires Asked(p, algorithms, n, supported, available) && Asked(q, algorithms, n, supported, available)
    ensures p == q
  {
    if n > 0 {
      if algorithms[n - 1] in supported && algorithms[n - 1] in available {
        AskedUnique(p[..|p| - 1], q[..|q| - 1], algorithms, n - 1, supported, available);
        assert p == p[..|p| - 1] + [p[|p| - 1]] && q == q[..|q| - 1] + [q[|q| - 1]];
      } else {
        AskedUnique(p, q, algorithms, n - 1, supported, available);
      }
    }
  }

  lemma {:induction false} AskedPrefix(requests: seq<Algorithm>, algorithms: seq<Algorithm>, n: nat, m: nat,
                                       supported: seq<Algorithm>, available: set<Algorithm>)
    returns (p: seq<Algorithm>)
    requires m <= n <= |algorithms| && Asked(requests, algorithms, n, supported, available)
    ensures p <= requests && Asked(p, algorithms, m, supported, available)
  {
    if m == n {
      p := requests;
    } else {
      if algorithms[n - 1] in supported && algorithms[n - 1] in available {
        p := AskedPrefix(requests[..|requests| - 1], algorithms, n - 1, m, supported, available);
      } else {
        p := AskedPrefix(requests, algorithms, n - 1, m, supported, available);
      }
    }
  }

  /** A choice that the server does not refuse ends the search: nobody asks for later ones. */
  lemma NothingAfterEnd(n: nat, requests: seq<Algorithm>, last: Answer, further: seq<Algorithm>, m: nat,
                        algorithms: seq<Algorithm>, supported: seq<Algorithm>, available: set<Algorithm>,
                        answer: (seq<Algorithm>, Algorithm) -> Answer)
    requires EndsAt(n, requests, algorithms, supported, available, answer, last) && last != Refuse
    requires n < m <= |algorithms| && Asked(further, algorithms, m, supported, available)
    ensures !Refused(further, answer)
  {
    var before := requests[..|requests| - 1];
    var p := AskedPrefix(further, algorithms, m, n + 1, supported, available);
    AskedUnique(p[..|p| - 1], before, algorithms, n, supported, available);
    assert further[..|before|] == before && further[|before|] == algorithms[n];
  }

  lemma SameEnd(n: nat, p: seq<Algorithm>, last: Answer, m: nat, q: seq<Algorithm>, final: Answer,
                algorithms: seq<Algorithm>, supported: seq<Algorithm>, available: set<Algorithm>,
                answer: (seq<Algorithm>, Algorithm) -> Answer)
    requires EndsAt(n, p, algorithms, supported, available, answer, last) && last != Refuse
    requires EndsAt(m, q, algorithms, supported, available, answer, final) && final != Refuse
    ensures n == m && p == q && last == final
  {
    if n < m {
      NothingAfterEnd(n, p, last, q[..|q| - 1], m, algorithms, supported, available, answer);
    }
    if m < n {
      NothingAfterEnd(m, q, final, p[..|p| - 1], n, algorithms, supported, available, answer);
    }
    AskedUnique(p[..|p| - 1], q[..|q| - 1], algorithms, n, supported, available);
  }

  /** The answer with which a search ends. */
  function EndOf(result: SearchResult): Answer {
    match result
    case Accepted(_) => Accept
    case Failed(code) => ServerError(code)
    case AllRefused => Refuse
  }

  /** The client's list, the server's capabilities and answers and this build determine which requests
      are sent and how the search ends. */
  lemma SearchIsDetermined(result: SearchResult, p: seq<Algorithm>, q: seq<Algorithm>,
                           algorithms: seq<Algorithm>, supported: seq<Algorithm>, available: set<Algorithm>,
                           answer: (seq<Algorithm>, Algorithm) -> Answer)
    requires Explains(result, p, algorithms, supported, available, answer)
    ensures forall other :: Explains(other, q, algorithms, supported, available, answer) ==> other == result && q == p
  {
    forall other | Explains(other, q, algorithms, supported, available, answer)
      ensures other == result && q == p
    {
      OneEnd(result, p, other, q, algorithms, supported, available, answer);
    }
  }

  lemma OneEnd(result: SearchResult, p: seq<Algorithm>, other: SearchResult, q: seq<Algorithm>,
               algorithms: seq<Algorithm>, supported: seq<Algorithm>, available: set<Algorithm>,
               answer: (seq<Algorithm>, Algorithm) -> Answer)
    requires Explains(result, p, algorithms, supported, available, answer)
    requires Explains(other, q, algorithms, supported, available, answer)
    ensures other == result && q == p
  {
    if result.AllRefused? && other.AllRefused? {
      AskedUnique(p, q, algorithms, |algorithms|, supported, available);
    } else if result.AllRefused? {
      var m: nat :| EndsAt(m, q, algorithms, supported, available, answer, EndOf(other));
      NothingAfterEnd(m, q, EndOf(other), p, |algorithms|, algorithms, supported, available, answer);
    } else if other.AllRefused? {
      var n: nat :| EndsAt(n, p, algorithms, supported, available, answer, EndOf(result));
      NothingAfterEnd(n, p, EndOf(result), q, |algorithms|, algorithms, supported, available, answer);
    } else {
      var n: nat :| EndsAt(n, p, algorithms, supported, available, answer, EndOf(result))
                    && (result.Accepted? ==> algorithms[n] == result.algorithm);
      var m: nat :| EndsAt(m, q, algorithms, supported, available, answer, EndOf(other))
                    && (other.Accepted? ==> algorithms[m] == other.algorithm);
      SameEnd(n, p, EndOf(result), m, q, EndOf(other), algorithms, supported, available, answer);
    }
  }

  /** Setup::negotiate: asks for one eligible choice after the other until the server takes one. */
  method Negotiate(algorithms: seq<Algorithm>, supported: seq<Algorithm>, available: set<Algorithm>,
                   answer: (seq<Algorithm>, Algorithm) -> Answer)
    returns (result: SearchResult, requests: seq<Algorithm>)
    ensures Explains(result, requests, algorithms, supported, available, answer)
    ensures forall a <- requests :: a in algorithms && a in supported && a in available
    ensures result.AllRefused? ==> forall a <- algorithms :: a in supported && a in available ==> a in requests
    ensures result.Accepted? ==> result.algorithm in requests
  {
    result, requests := Search(algorithms, supported, available, answer);
    SearchAsks(result, requests, algorithms, supported, available, answer);
  }

  method Search(algorithms: seq<Algorithm>, supported: seq<Algorithm>, available: set<Algorithm>,
                answer: (seq<Algorithm>, Algorithm) -> Answer)
    returns (result: SearchResult, requests: seq<Algorithm>)
    ensures Explains(result, requests, algorithms, supported, available, answer)
  {
    requests := [];
    for i := 0 to |algorithms|
      invariant Asked(requests, algorithms, i, supported, available)
      invariant Refused(requests, answer)
    {
      var algorithm := algorithms[i];
      AskedSnoc(requests, algorithms, i, supported, available);
      if algorithm in supported && algorithm in available {
        Ends(requests, algorithms, i, supported, available, answer);
        var reply := answer(requests, algorithm);
        match reply {
          case Accept => return Accepted(algorithm), requests + [algorithm];
          case ServerError(code) => return Failed(code), requests + [algorithm];
          case Refuse => RefusedSnoc(requests, algorithm, answer);
        }
        requests := requests + [algorithm];
      }
    }
    result := AllRefused;
  }

  class Setup {
    const policy: Policy
    const algorithms: seq<Algorithm>
    const available: set<Algorithm>
    const answer: (seq<Algorithm>, Algorithm) -> Answer
    var supported: seq<Algorithm>
    var negotiated: Algorithm
    var requests: seq<Algorithm>       // sent to the server, in order

    ghost predicate Valid() { NoCompression !in available }

    /** `available` is what this build can compress; `custom` the client's own order, if given. */
    constructor (policy: Policy, custom: Option<seq<string>>, available: set<Algorithm>,
                 answer: (seq<Algorithm>, Algorithm) -> Answer)
      requires NoCompression !in available
      ensures Valid() && this.policy == policy && this.available == available && this.answer == answer
      ensures algorithms == if custom.Some? then Recognised(custom.value)
                            else [ZstdStream, Lz4Message, ZlibDeflateStream]
      ensures supported == [] && negotiated == NoCompression && requests == []
    {
      var order := [ZstdStream, Lz4Message, ZlibDeflateStream];
      if custom.Some? { order := ToAlgorithms(custom.value); }
      this.policy, this.algorithms, this.available, this.answer := policy, order, available, answer;
      supported, negotiated, requests := [], NoCompression, [];
    }

    method Run(raw: Value) returns (outcome: Outcome)
      requires Valid() && requests == [] && negotiated == NoCompression
      modifies this
      ensures policy.Disabled? ==> outcome == Configured(NoCompression)
      ensures outcome.Configured? && outcome.algorithm != NoCompression ==>
                && outcome.algorithm in algorithms && outcome.algorithm in Supported(raw)
                && outcome.algorithm in available
                && Explains(Accepted(outcome.algorithm), requests, algorithms, Supported(raw), available, answer)
      ensures outcome == Configured(NoCompression) ==>
                || (policy.Disabled? && requests == [])
                || (policy.Preferred?
                    && Explains(AllRefused, requests, algorithms, Supported(raw), available, answer))
      ensures outcome == NotSupported <==> policy.Required? && Supported(raw) == []
      ensures outcome == CompressorNotAvailable <==>
                policy.Required? && Supported(raw) != [] && (forall a <- algorithms :: a !in available)
      ensures outcome == NotSupported || outcome == CompressorNotAvailable ==> requests == []
      // nothing else is asked for, and before giving up everything that could be
      ensures forall a <- requests :: a in algorithms && a in Supported(raw) && a in available
      ensures outcome == NegotiationFailure || (outcome == Configured(NoCompression) && policy.Preferred?) ==>
                forall a <- algorithms :: a in Supported(raw) && a in available ==> a in requests
      ensures outcome == NegotiationFailure ==>
                && policy.Required?
                && Explains(AllRefused, requests, algorithms, Supported(raw), available, answer)
      ensures outcome.Thrown? ==>
                Explains(Failed(outcome.code), requests, algorithms, Supported(raw), available, answer)
    {
      if policy.Disabled? { return Configured(negotiated); }
      var gathered;
      gathered, supported := GatherCapabilities(raw);
      if !gathered && policy.Required? { return NotSupported; }
      if policy.Required? && !(exists a <- algorithms :: a in available) { return CompressorNotAvailable; }
      var result;
      result, requests := Negotiate(algorithms, supported, available, answer);
      match result {
        case Failed(code) => return Thrown(code);
        case Accepted(algorithm) => negotiated := algorithm;
        case AllRefused => if policy.Required? { return NegotiationFailure; }
      }
      outcome := Configured(negotiated);
    }
  }

  lemma Lz4Recognised()
    ensures Recognised(["LZ4"]) == [Lz4Message]
  {
    ToAlgorithmIff("LZ4");
    assert Is("LZ4", "lz4");
    assert ["LZ4"][..0] == [] && Recognised([]) == [];
  }

  function Lz4Capabilities(): Value {
    Array([("compression", Object([("algorithm", Array([("0", Text("lz4_message"))]))]))])
  }

  lemma Lz4Supported()
    ensures Lz4Message in Supported(Lz4Capabilities())
  {
    var list: seq<(string, Value)> := [("0", Text("lz4_message"))];
    var caps := [("algorithm", Array(list))];
    ToAlgorithmIff("lz4_message");
    assert list[0] in list && list[0].1.Text? && Is("lz4_message", "lz4_message");
    assert Holds(Lz4Capabilities(), caps, list) && Names(list, Lz4Message);
    SupportedIff(Lz4Capabilities(), Lz4Message);
  }

  lemma OnlyChoice(a: Algorithm, requests: seq<Algorithm>, supported: seq<Algorithm>,
                   accepts: (seq<Algorithm>, Algorithm) -> Answer)
    requires a in supported && accepts([], a) == Accept
    ensures forall r :: Explains(r, requests, [a], supported, {a}, accepts) ==> r == Accepted(a) && requests == [a]
  {
    Ends([], [a], 0, supported, {a}, accepts);
    assert [] + [a] == [a];
    SearchIsDetermined(Accepted(a), [a], requests, [a], supported, {a}, accepts);
  }

  /** A client that requires compression and has one algorithm left to choose, which the server advertises
      and takes: they agree on it, after one request. */
  method RequireOnly(names: seq<string>, a: Algorithm, raw: Value) returns (outcome: Outcome, setup: Setup)
    requires a != NoCompression && Recognised(names) == [a] && a in Supported(raw)
    ensures outcome == Configured(a) && setup.requests == [a]
  {
    var accepts := (before: seq<Algorithm>, b: Algorithm) => Accept;
    setup := new Setup(Required, Some(names), {a}, accepts);
    outcome := setup.Run(raw);
    OnlyChoice(a, setup.requests, Supported(raw), accepts);
  }

  /** For instance with "LZ4" in the client's list and lz4_message among the server's capabilities. */
  method RequiredLz4() returns (outcome: Outcome, setup: Setup)
    ensures outcome == Configured(Lz4Message) && setup.requests == [Lz4Message]
  {
    Lz4Recognised();
    Lz4Supported();
    outcome, setup := RequireOnly(["LZ4"], Lz4Message, Lz4Capabilities());
  }
}
