/** The frames inside a compressed payload: a 4-byte little-endian length that covers the type byte
    and the payload, the type byte, the payload. */
module FrameCodec {
  import opened Options

  type Byte = n: int | 0 <= n < 0x100

  datatype Message = Message(kind: Byte, payload: seq<Byte>)

  /** A 32-bit number as the four bytes a little-endian store writes. */
  function EncodeLength(n: nat): (r: seq<Byte>)
    requires n < 0x1_0000_0000
    ensures |r| == 4
  {
    [n % 0x100, n / 0x100 % 0x100, n / 0x1_0000 % 0x100, n / 0x100_0000]
  }

  function DecodeLength(b: seq<Byte>): (n: nat)
    requires |b| >= 4
    ensures n < 0x1_0000_0000
  {
    b[0] as int + 0x100 * (b[1] as int) + 0x1_0000 * (b[2] as int) + 0x100_0000 * (b[3] as int)
  }

  /** The number whose byte at index i weighs 256 to the power of i. */
  function Weighed(b: seq<Byte>): nat {
    if b == [] then 0 else b[0] + 0x100 * Weighed(b[1..])
  }

  /** Little-endian: the four bytes weigh 1, 2^8, 2^16 and 2^24. */
  lemma LengthIsWeighed(b: seq<Byte>, n: nat)
    requires |b| >= 4 && n < 0x1_0000_0000
    ensures DecodeLength(b) == Weighed(b[..4])
    ensures Weighed(EncodeLength(n)) == n
  {
    FourWeighed(b[0], b[1], b[2], b[3]);
    assert b[..4] == [b[0], b[1], b[2], b[3]];
    var e := EncodeLength(n);
    FourWeighed(e[0], e[1], e[2], e[3]);
    assert e == [e[0], e[1], e[2], e[3]];
    LengthRoundTrip(n);
  }

  lemma FourWeighed(w: Byte, x: Byte, y: Byte, z: Byte)
    ensures Weighed([w, x, y, z]) == w as int + 0x100 * (x as int) + 0x1_0000 * (y as int) + 0x100_0000 * (z as int)
  {
    assert [w, x, y, z][1..] == [x, y, z] && [x, y, z][1..] == [y, z] && [y, z][1..] == [z] && [z][1..] == [];
    assert Weighed([z]) == z as int;
    assert Weighed([y, z]) == y as int + 0x100 * Weighed([z]);
    assert Weighed([x, y, z]) == x as int + 0x100 * Weighed([y, z]);
  }

  lemma LengthRoundTrip(n: nat)
    requires n < 0x1_0000_0000
    ensures DecodeLength(EncodeLength(n)) == n
  {
    var q1, q2 := n / 0x100, n / 0x1_0000;
    assert n == 0x100 * q1 + n % 0x100;
    assert q2 == q1 / 0x100 && q1 == 0x100 * q2 + q1 % 0x100;
    assert n / 0x100_0000 == q2 / 0x100 && q2 == 0x100 * (q2 / 0x100) + q2 % 0x100;
  }

  lemma LengthIsUnique(b: seq<Byte>)
    requires |b| == 4
    ensures EncodeLength(DecodeLength(b)) == b
  {
    Digits(b[0], b[1] as int + 0x100 * (b[2] as int) + 0x1_0000 * (b[3] as int));
    Digits(b[1], b[2] as int + 0x100 * (b[3] as int));
    Digits(b[2], b[3] as int);
    var n := DecodeLength(b);
    assert n / 0x100 / 0x100 == n / 0x1_0000 && n / 0x1_0000 / 0x100 == n / 0x100_0000;
  }

  lemma Digits(low: Byte, high: nat)
    ensures (low as int + 0x100 * high) % 0x100 == low && (low as int + 0x100 * high) / 0x100 == high
  {
  }

  /** The length field is a uint32_t: larger sizes wrap. */
  function Frame(m: Message): seq<Byte> {
    EncodeLength((1 + |m.payload|) % 0x1_0000_0000) + [m.kind] + m.payload
  }

  function Frames(ms: seq<Message>): seq<Byte> {
    if ms == [] then [] else Frame(ms[0]) + Frames(ms[1..])
  }

  /** The size of the message fits its length field. */
  predicate Fits(m: Message) { 1 + |m.payload| < 0x1_0000_0000 }

  /** The first frame of `b` and what follows it; None when the extractor would read past the end,
      also when the length is too small to cover the type byte. */
  function SplitFrame(b: seq<Byte>): (r: Option<(Message, seq<Byte>)>)
    ensures r.Some? ==> Fits(r.value.0) && b == Frame(r.value.0) + r.value.1 && |r.value.1| < |b|
  {
    if |b| < 5 then None
    else
      var length := DecodeLength(b);
      if length < 1 || 4 + length > |b| then None
      else
        var m := Message(b[4], b[5..4 + length]);
        FrontFrame(b, length);
        Some((m, b[4 + length..]))
  }

  lemma FrontFrame(b: seq<Byte>, length: nat)
    requires 5 <= 4 + length <= |b| && DecodeLength(b) == length
    ensures b == Frame(Message(b[4], b[5..4 + length])) + b[4 + length..]
  {
    assert EncodeLength(length) == b[..4] by {
      assert DecodeLength(b) == DecodeLength(b[..4]);
      LengthIsUnique(b[..4]);
    }
    assert b[..4] + [b[4]] + b[5..4 + length] + b[4 + length..] == b;
  }

  /** All messages of a payload, if it is a sequence of frames. */
  function Parse(b: seq<Byte>): Option<seq<Message>> {
    if b == [] then Some([])
    else
      var r := SplitFrame(b);
      if r.None? then None
      else
        var rest := Parse(r.value.1);
        if rest.None? then None else Some([r.value.0] + rest.value)
  }

  lemma SplitComposed(m: Message, rest: seq<Byte>)
    requires Fits(m)
    ensures SplitFrame(Frame(m) + rest) == Some((m, rest))
  {
    FrontLength(1 + |m.payload|, [m.kind] + m.payload + rest);
    SplitKnownLength(EncodeLength(1 + |m.payload|), m, rest);
  }

  lemma SplitKnownLength(length: seq<Byte>, m: Message, rest: seq<Byte>)
    requires |length| == 4 && DecodeLength(length + ([m.kind] + m.payload + rest)) == 1 + |m.payload|
    ensures SplitFrame(length + [m.kind] + m.payload + rest) == Some((m, rest))
  {
    FrameParts(length, m, rest);
  }

  lemma FrameParts(length: seq<Byte>, m: Message, rest: seq<Byte>)
    requires |length| == 4
    ensures var b := length + [m.kind] + m.payload + rest;
            && b == length + ([m.kind] + m.payload + rest)
            && |b| == 5 + |m.payload| + |rest| && b[4] == m.kind
            && b[5..5 + |m.payload|] == m.payload && b[5 + |m.payload|..] == rest
  {
  }

  lemma FrontLength(n: nat, rest: seq<Byte>)
    requires n < 0x1_0000_0000
    ensures DecodeLength(EncodeLength(n) + rest) == n
  {
    LengthRoundTrip(n);
    assert (EncodeLength(n) + rest)[..4] == EncodeLength(n);
  }

  function Prepend(ms: seq<Message>, rest: Option<seq<Message>>): Option<seq<Message>> {
    if rest.None? then None else Some(ms + rest.value)
  }

  lemma ParseCons(m: Message, rest: seq<Byte>)
    requires Fits(m)
    ensures Parse(Frame(m) + rest) == Prepend([m], Parse(rest))
  {
    SplitComposed(m, rest);
    assert Frame(m) + rest != [];
  }

  /** Extraction undoes composition. */
  lemma {:induction false} ParseComposed(ms: seq<Message>)
    requires forall m <- ms :: Fits(m)
    ensures Parse(Frames(ms)) == Some(ms)
  {
    if ms != [] {
      ParseCons(ms[0], Frames(ms[1..]));
      ParseComposed(ms[1..]);
      assert ms == [ms[0]] + ms[1..];
    }
  }

  /** Whatever is extracted composes back to exactly the bytes consumed. */
  lemma {:induction false} ParseIsSound(b: seq<Byte>)
    requires Parse(b).Some?
    ensures Frames(Parse(b).value) == b
    ensures forall m <- Parse(b).value :: Fits(m)
    decreases |b|
  {
    if b != [] {
      var (m, rest) := SplitFrame(b).value;
      ParseIsSound(rest);
      assert ([m] + Parse(rest).value)[1..] == Parse(rest).value;
    }
  }

  /** A payload is extracted to `ms` exactly when it is the frames of `ms` and every size fits: in
      particular no payload has two decompositions, and the round trip fails for an oversized message. */
  lemma ParseIff(b: seq<Byte>, ms: seq<Message>)
    ensures Parse(b) == Some(ms) <==> b == Frames(ms) && forall m <- ms :: Fits(m)
  {
    if Parse(b) == Some(ms) { ParseIsSound(b); }
    if b == Frames(ms) && forall m <- ms :: Fits(m) { ParseComposed(ms); }
  }

  lemma SingleFrameIff(m: Message)
    ensures Parse(Frame(m)) == Some([m]) <==> Fits(m)
  {
    assert [m][1..] == [] && Frames([m]) == Frame(m) + [];
    ParseIff(Frame(m), [m]);
    assert m in [m];
  }

  /** A length of two, the type and one byte of payload. */
  lemma ShortFrame(kind: Byte, p: Byte)
    ensures Parse([2, 0, 0, 0, kind, p]) == Some([Message(kind, [p])])
  {
    var b: seq<Byte> := [2, 0, 0, 0, kind, p];
    assert b[5..6] == [p] && b[6..] == [];
    assert SplitFrame(b) == Some((Message(kind, [p]), []));
    assert Parse([]) == Some([]) && [Message(kind, [p])] + [] == [Message(kind, [p])];
  }

  lemma UniqueDecomposition(ms: seq<Message>, ns: seq<Message>)
    requires forall m <- ms :: Fits(m)
    requires forall n <- ns :: Fits(n)
    requires Frames(ms) == Frames(ns)
    ensures ms == ns
  {
    ParseComposed(ms);
    ParseComposed(ns);
  }

  // ---- Payload_composer ----

  /** Fills a buffer of the final size through an advancing position. */
  method Compose(kind: Byte, payload: seq<Byte>) returns (buffer: array<Byte>)
    ensures fresh(buffer) && buffer[..] == Frame(Message(kind, payload))
  {
    buffer := new Byte[4 + 1 + |payload|];
    var length := EncodeLength((1 + |payload|) % 0x1_0000_0000);
    var it := 0;
    while it < 4
      invariant 0 <= it <= 4
      invariant buffer[..it] == length[..it]
    {
      buffer[it] := length[it];
      it := it + 1;
    }
    buffer[it] := kind;
    it := it + 1;
    var i := 0;
    assert buffer[..it + i] == length + [kind] + payload[..i];
    while i < |payload|
      invariant 0 <= i <= |payload|
      invariant buffer[..it + i] == length + [kind] + payload[..i]
    {
      buffer[it + i] := payload[i];
      i := i + 1;
    }
    assert buffer[..] == buffer[..it + |payload|] && payload[..|payload|] == payload;
  }

  // ---- Message_extractor ----

  /** extract_length, extract_type and extract_payload from position `it`. */
  method ReadFrame(b: seq<Byte>, it: nat) returns (overrun: bool, m: Message, next: nat)
    requires it <= |b|
    ensures overrun <==> SplitFrame(b[it..]).None?
    ensures !overrun ==> it < next <= |b| && SplitFrame(b[it..]) == Some((m, b[next..]))
  {
    overrun, m, next := true, Message(0, []), it;
    if |b| - it < 5 { return; }
    var length := DecodeLength(b[it..it + 4]);
    assert length == DecodeLength(b[it..]);
    if length < 1 || it + 4 + length > |b| { return; }
    assert b[it..][5..4 + length] == b[it + 5..it + 4 + length];
    assert b[it..][4 + length..] == b[it + 4 + length..];
    overrun, m, next := false, Message(b[it + 4], b[it + 5..it + 4 + length]), it + 4 + length;
  }

  /** Appends the messages of `b` to `messages`. `overrun` stands for the source's read past the end
      of the payload; the messages before it have been appended then. */
  method Extract(b: seq<Byte>, messages: seq<Message>) returns (out: seq<Message>, overrun: bool)
    ensures overrun <==> Parse(b).None?
    ensures !overrun ==> out == messages + Parse(b).value
    ensures messages <= out && Frames(out[|messages|..]) <= b
  {
    out, overrun := messages, false;
    var it := 0;
    ghost var done := [];
    assert b[0..] == b && out == messages + done;
    PrependNothing(Parse(b));
    while it != |b|
      invariant it <= |b|
      invariant out == messages + done
      invariant ReadUpTo(b, it, done)
      decreases |b| - it
    {
      var m, next;
      overrun, m, next := ReadFrame(b, it);
      if overrun { return; }
      ReadOn(b, it, next, done, m);
      done, out, it := done + [m], out + [m], next;
    }
    assert b[it..] == [] && done + [] == done;
  }

  /** `done` are the messages in front of position `it`, and the rest is still to be read. */
  ghost predicate ReadUpTo(b: seq<Byte>, it: nat, done: seq<Message>)
    requires it <= |b|
  {
    b[..it] == Frames(done) && Parse(b) == Prepend(done, Parse(b[it..]))
  }

  lemma ReadOn(b: seq<Byte>, it: nat, next: nat, done: seq<Message>, m: Message)
    requires it < next <= |b| && ReadUpTo(b, it, done) && SplitFrame(b[it..]) == Some((m, b[next..]))
    ensures ReadUpTo(b, next, done + [m])
  {
    PrependSnoc(done, m, Parse(b[next..]));
    FramesSnoc(done, m);
    Adjacent(b, it, next, Frame(m));
  }

  lemma Adjacent(b: seq<Byte>, it: nat, next: nat, f: seq<Byte>)
    requires it <= next <= |b| && b[it..] == f + b[next..]
    ensures b[..next] == b[..it] + f
  {
    assert |f| == next - it;
    assert forall i :: 0 <= i < |f| ==> b[it + i] == b[it..][i];
  }

  lemma PrependNothing(rest: Option<seq<Message>>)
    ensures Prepend([], rest) == rest
  {
    assert rest.Some? ==> [] + rest.value == rest.value;
  }

  lemma PrependSnoc(ms: seq<Message>, m: Message, rest: Option<seq<Message>>)
    ensures Prepend(ms, Prepend([m], rest)) == Prepend(ms + [m], rest)
  {
    if rest.Some? {
      assert ms + ([m] + rest.value) == ms + [m] + rest.value;
    }
  }

  lemma {:induction false} FramesSnoc(ms: seq<Message>, m: Message)
    ensures Frames(ms + [m]) == Frames(ms) + Frame(m)
  {
    if ms == [] {
      assert ms + [m] == [m];
    } else {
      assert (ms + [m])[1..] == ms[1..] + [m];
      FramesSnoc(ms[1..], m);
    }
  }
}
