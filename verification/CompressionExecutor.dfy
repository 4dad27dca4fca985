/** compression::Executor: installs the negotiated compressor and runs messages through it. */
module CompressionExecutor {
  import opened Options
  import opened FrameCodec
  import CompressionSetup

  type Algorithm = CompressionSetup.Algorithm

  /** One of the library compressors, by its effect on whole payloads. */
  datatype Compressor = Compressor(
    algorithm: Algorithm, compress: seq<Byte> -> seq<Byte>, decompress: seq<Byte> -> seq<Byte>)

  ghost predicate Lossless(c: Compressor) {
    forall b: seq<Byte> :: c.decompress(c.compress(b)) == b
  }

  /** The compressors of this build: a creator exists for every algorithm, but it throws for one
      that was not compiled in. */
  type Library = map<Algorithm, Compressor>

  class Executor {
    var compressor: Option<Compressor>

    constructor ()
      ensures compressor.None?
    {
      compressor := None;
    }

    ghost predicate Enabled()
      reads this
    {
      compressor.Some?
    }

    /** reset(cfg). A creator that throws leaves the installed compressor as it was. */
    method Reset(algorithm: Algorithm, library: Library) returns (thrown: bool)
      modifies this
      ensures thrown <==> algorithm != CompressionSetup.NoCompression && algorithm !in library
      ensures thrown ==> compressor == old(compressor)
      ensures !thrown ==> (Enabled() <==> algorithm != CompressionSetup.NoCompression)
      ensures !thrown && Enabled() ==> compressor == Some(library[algorithm])
    {
      thrown := false;
      if algorithm == CompressionSetup.NoCompression {
        compressor := None;
      } else if algorithm in library {
        compressor := Some(library[algorithm]);
      } else {
        thrown := true;
      }
    }

    /** The source asserts that a compressor is installed. */
    method CompressMessage(kind: Byte, payload: seq<Byte>) returns (size: nat, compressed: seq<Byte>)
      requires Enabled()
      ensures size == 5 + |payload|
      ensures compressed == compressor.value.compress(Frame(Message(kind, payload)))
    {
      var buffer := Compose(kind, payload);
      size := buffer.Length;
      assert |buffer[..]| == 5 + |payload|;
      compressed := compressor.value.compress(buffer[..]);
    }

    method DecompressMessages(compressed: seq<Byte>, messages: seq<Message>)
      returns (out: seq<Message>, overrun: bool)
      requires Enabled()
      ensures overrun <==> Parse(compressor.value.decompress(compressed)).None?
      ensures !overrun ==> out == messages + Parse(compressor.value.decompress(compressed)).value
    {
      out, overrun := Extract(compressor.value.decompress(compressed), messages);
    }
  }

  /** A message that went through a lossless compressor comes back as it was, if and only if its size
      fits the length field. */
  method RoundTrip(executor: Executor, kind: Byte, payload: seq<Byte>, messages: seq<Message>)
    returns (out: seq<Message>, overrun: bool)
    requires executor.Enabled() && Lossless(executor.compressor.value)
    ensures !overrun && out == messages + [Message(kind, payload)] <==> Fits(Message(kind, payload))
  {
    var m := Message(kind, payload);
    var size, compressed := executor.CompressMessage(kind, payload);
    out, overrun := executor.DecompressMessages(compressed, messages);
    SingleFrameIff(m);
    if !overrun {
      assert out[|messages|..] == Parse(Frame(m)).value && (messages + [m])[|messages|..] == [m];
    }
  }

  /** A batch that the server compressed as one payload comes back message by message. */
  method ReceiveBatch(executor: Executor, batch: seq<Message>, messages: seq<Message>)
    returns (out: seq<Message>, overrun: bool)
    requires executor.Enabled() && Lossless(executor.compressor.value)
    requires forall m <- batch :: Fits(m)
    ensures !overrun && out == messages + batch
  {
    ParseComposed(batch);
    out, overrun := executor.DecompressMessages(executor.compressor.value.compress(Frames(batch)), messages);
  }

  /** setup_compression: whatever the negotiation returns can be installed, and compression is on
      afterwards exactly when an algorithm was agreed on. */
  method SetUp(policy: CompressionSetup.Policy, custom: Option<seq<string>>, library: Library,
               answer: (seq<Algorithm>, Algorithm) -> CompressionSetup.Answer, raw: CompressionSetup.Value,
               executor: Executor)
    returns (outcome: CompressionSetup.Outcome)
    requires CompressionSetup.NoCompression !in library
    modifies executor
    ensures outcome.Configured? ==>
              && (executor.Enabled() <==> outcome.algorithm != CompressionSetup.NoCompression)
              && (executor.Enabled() ==> outcome.algorithm in library
                                         && executor.compressor == Some(library[outcome.algorithm]))
    ensures policy.Required? && outcome.Configured? ==> executor.Enabled()
    ensures policy.Disabled? ==> outcome.Configured? && !executor.Enabled()
    ensures !outcome.Configured? ==> executor.compressor == old(executor.compressor)
  {
    var setup := new CompressionSetup.Setup(policy, custom, library.Keys, answer);
    outcome := setup.Run(raw);
    if outcome.Configured? {
      var thrown := executor.Reset(outcome.algorithm, library);
      assert !thrown;
    }
  }
}
