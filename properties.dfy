/** What readExif promises, stated over the reference definition Expected
    (which ReadExif.Run is proved to compute) and over the argument check. */
module ReadExifProperties {
  import Decimal
  import opened ReadExif

  // ---------------------------------------------------------------------
  // Argument-count validation

  /** readExif() rejects with the exact RangeError text the tests expect. */
  lemma MissingArgsMessage()
    ensures CheckArgCount(0).Some?
    ensures CheckArgCount(0).value.code == "ERR_MISSING_ARGS"
    ensures ErrorToString(CheckArgCount(0).value) == "RangeError: " + ExpectedOneArgument + ", but got no arguments."
  {
  }

  /** readExif('_', '_') rejects with the exact RangeError text the tests expect. */
  lemma TwoArgsMessage()
    ensures CheckArgCount(2).Some?
    ensures CheckArgCount(2).value.code == "ERR_TOO_MANY_ARGS"
    ensures ErrorToString(CheckArgCount(2).value) == "RangeError: " + ExpectedOneArgument + ", but got 2 arguments."
  {
  }

  /** For two or more arguments the message names the actual count: between
      the fixed prefix and suffix stand the canonical decimal digits of argc. */
  lemma TooManyArgsMessageNamesCount(argc: nat)
    requires argc >= 2
    ensures CheckArgCount(argc).Some?
    ensures var m := CheckArgCount(argc).value.message;
            var p := ExpectedOneArgument + ", but got ";
            var s := " arguments.";
            |m| > |p| + |s| && m[..|p|] == p && m[|m| - |s|..] == s &&
            Decimal.IsDigits(m[|p|..|m| - |s|]) && m[|p|] != '0' &&
            Decimal.Parse(m[|p|..|m| - |s|]) == argc
  {
    var p := ExpectedOneArgument + ", but got ";
    var s := " arguments.";
    var d := Decimal.Show(argc);
    var m := p + d + s;
    assert CheckArgCount(argc).value.message == m;
    assert m[..|p|] == p;
    assert m[|m| - |s|..] == s;
    assert m[|p|..|m| - |s|] == d;
    Decimal.ParseShow(argc);
  }

  /** Different argument counts give different messages. */
  lemma TooManyArgsMessagesDiffer(m: nat, n: nat)
    requires m >= 2 && n >= 2 && m != n
    ensures CheckArgCount(m).value.message != CheckArgCount(n).value.message
  {
    TooManyArgsMessageNamesCount(m);
    TooManyArgsMessageNamesCount(n);
  }

  // ---------------------------------------------------------------------
  // The buffer handed to the decoder

  /** Buffer.concat of the pushed chunks is the stream's bytes so far. */
  lemma {:induction false} ConcatIsReceived(chunks: seq<seq<byte>>, n: nat)
    requires n <= |chunks|
    ensures Concat(chunks[..n]) == Received(chunks, n)
  {
    if n > 0 {
      ConcatIsReceived(chunks, n - 1);
      assert chunks[..n] == chunks[..n - 1] + [chunks[n - 1]];
      ConcatSnoc(chunks[..n - 1], chunks[n - 1]);
    }
  }

  /** The buffer only grows: each attempt's input extends every earlier one. */
  lemma {:induction false} BufferGrows(chunks: seq<seq<byte>>, i: nat, j: nat)
    requires i <= j <= |chunks|
    ensures Received(chunks, i) <= Received(chunks, j)
  {
    if i < j {
      BufferGrows(chunks, i, j - 1);
    }
  }

  /** The bytes received so far depend only on the chunks received so far. */
  lemma {:induction false} ReceivedOfPrefix(chunks: seq<seq<byte>>, other: seq<seq<byte>>, n: nat)
    requires n <= |chunks| && n <= |other| && chunks[..n] == other[..n]
    ensures Received(chunks, n) == Received(other, n)
    ensures ReadCount(chunks, n) == ReadCount(other, n)
  {
    if n > 0 {
      assert chunks[n - 1] == chunks[..n][n - 1] == other[..n][n - 1] == other[n - 1];
      assert chunks[..n - 1] == chunks[..n][..n - 1];
      assert other[..n - 1] == other[..n][..n - 1];
      ReceivedOfPrefix(chunks, other, n - 1);
    }
  }

  /** The first attempt gets the first chunk as it is; the second gets the
      two chunks joined in arrival order. */
  lemma FirstTwoAttempts<T>(decode: Decoder<T>, chunks: seq<seq<byte>>)
    requires |chunks| >= 2
    ensures AttemptAt(decode, chunks, 0) == decode(chunks[0])
    ensures AttemptAt(decode, chunks, 1) == decode(chunks[0] + chunks[1])
  {
    assert Received(chunks, 1) == [] + chunks[0] == chunks[0];
  }

  // ---------------------------------------------------------------------
  // How the operation settles

  /** The first attempt on which the decoder returns resolves the promise
      with exactly that result, and no later chunk is read. */
  lemma ResolvesWithFirstResult<T>(source: Stream, decode: Decoder<T>, k: nat)
    requires k < |source.chunks| && AttemptAt(decode, source.chunks, k).Returned?
    requires forall j :: 0 <= j < k ==> !ConclusiveAt(decode, source.chunks, j)
    ensures Expected(source, decode) == Resolved(AttemptAt(decode, source.chunks, k).tags)
    ensures Consumed(source, decode) == k + 1
  {
    FirstConclusiveIsLeast(decode, source.chunks, k);
  }

  /** ERR_DATA_NOT_SUPPORTED with at least 107 bytes read rejects at once
      with that very error, and no later chunk is read. */
  lemma NotSupportedIsConclusive<T>(source: Stream, decode: Decoder<T>, k: nat, e: Error)
    requires k < |source.chunks| && AttemptAt(decode, source.chunks, k) == Threw(e)
    requires e.code == ErrDataNotSupported && ReadCount(source.chunks, k + 1) >= MinimumJpegSize
    requires forall j :: 0 <= j < k ==> !ConclusiveAt(decode, source.chunks, j)
    ensures Expected(source, decode) == Rejected(e)
    ensures Consumed(source, decode) == k + 1
  {
    FirstConclusiveIsLeast(decode, source.chunks, k);
  }

  /** A decoder error that is not conclusive (any other code, or
      ERR_DATA_NOT_SUPPORTED below 107 bytes) only stands as the last
      outcome: the next chunk, if there is one, is read and decoded. */
  lemma ProvisionalErrorContinues<T>(source: Stream, decode: Decoder<T>, k: nat, e: Error)
    requires k + 1 < |source.chunks| && AttemptAt(decode, source.chunks, k) == Threw(e)
    requires e.code != ErrDataNotSupported || ReadCount(source.chunks, k + 1) < MinimumJpegSize
    requires forall j :: 0 <= j < k ==> !ConclusiveAt(decode, source.chunks, j)
    ensures Consumed(source, decode) >= k + 2
  {
  }

  /** Once an attempt is conclusive, nothing the stream would deliver later
      (more chunks, an error) changes the outcome. */
  lemma LaterInputIrrelevant<T>(source: Stream, other: Stream, decode: Decoder<T>, k: nat)
    requires k < |source.chunks| && k < |other.chunks|
    requires source.chunks[..k + 1] == other.chunks[..k + 1]
    requires ConclusiveAt(decode, source.chunks, k)
    requires forall j :: 0 <= j < k ==> !ConclusiveAt(decode, source.chunks, j)
    ensures Expected(other, decode) == Expected(source, decode)
    ensures Consumed(other, decode) == Consumed(source, decode)
  {
    forall j | 0 <= j <= k
      ensures ConclusiveAt(decode, other.chunks, j) == ConclusiveAt(decode, source.chunks, j)
      ensures AttemptAt(decode, other.chunks, j) == AttemptAt(decode, source.chunks, j)
    {
      assert other.chunks[..j + 1] == other.chunks[..k + 1][..j + 1];
      assert source.chunks[..j + 1] == source.chunks[..k + 1][..j + 1];
      ReceivedOfPrefix(source.chunks, other.chunks, j + 1);
    }
    FirstConclusiveIsLeast(decode, source.chunks, k);
    FirstConclusiveIsLeast(decode, other.chunks, k);
  }

  /** An error of the stream itself rejects the promise with that error,
      unchanged, unless an attempt was conclusive first. */
  lemma TransportErrorPassedThrough<T>(source: Stream, decode: Decoder<T>, e: Error)
    requires source.error == Some(e)
    requires forall j :: 0 <= j < |source.chunks| ==> !ConclusiveAt(decode, source.chunks, j)
    ensures Expected(source, decode) == Rejected(e)
  {
  }

  /** At close, when the stream ran out and the last attempt failed with
      ERR_INSUFFICIENT_DATA_SIZE, the promise rejects with that error. */
  lemma InsufficientDataAtClose<T>(source: Stream, decode: Decoder<T>, e: Error)
    requires source.error.None? && |source.chunks| >= 1
    requires AttemptAt(decode, source.chunks, |source.chunks| - 1) == Threw(e)
    requires e.code == ErrInsufficientDataSize
    requires forall j :: 0 <= j < |source.chunks| - 1 ==> !ConclusiveAt(decode, source.chunks, j)
    ensures Expected(source, decode) == Rejected(e)
  {
  }

  /** When chunks arrived, none was conclusive and the stream closed without
      error, the promise settles exactly when the last remembered error is
      ERR_INSUFFICIENT_DATA_SIZE; otherwise it stays pending for ever. */
  lemma CloseSettlesOnlyOnInsufficientData<T>(source: Stream, decode: Decoder<T>)
    requires source.error.None? && |source.chunks| >= 1
    requires forall j :: 0 <= j < |source.chunks| ==> !ConclusiveAt(decode, source.chunks, j)
    ensures AttemptAt(decode, source.chunks, |source.chunks| - 1).Threw?
    ensures Expected(source, decode) != Pending
            <==> AttemptAt(decode, source.chunks, |source.chunks| - 1).err.code == ErrInsufficientDataSize
  {
    assert !ConclusiveAt(decode, source.chunks, |source.chunks| - 1);
    assert FirstConclusive(decode, source.chunks, 0).None?;
  }

  /** An empty stream that closes without error rejects with whatever the
      decoder throws for an empty buffer. */
  lemma EmptyStreamRejectsWithDecoderError<T>(source: Stream, decode: Decoder<T>, e: Error)
    requires source.chunks == [] && source.error.None?
    requires decode([]) == Threw(e)
    ensures Expected(source, decode) == Rejected(e)
    ensures Consumed(source, decode) == 0
  {
  }

  // ---------------------------------------------------------------------
  // The 107-byte threshold on a one-chunk file

  /** A stream whose only chunk is `file`. */
  function WholeFile(file: seq<byte>): Stream {
    Stream([file], None)
  }

  lemma OneChunk<T>(decode: Decoder<T>, file: seq<byte>)
    ensures AttemptAt(decode, [file], 0) == decode(file)
    ensures ReadCount([file], 1) == |file|
  {
    assert Received([file], 1) == [] + file == file;
  }

  /** A one-chunk file that the decoder rejects as not supported settles
      exactly when the file has at least 107 bytes; a shorter file leaves
      the promise pending. */
  lemma NotSupportedThresholdIsExact<T>(decode: Decoder<T>, file: seq<byte>, e: Error)
    requires e.code == ErrDataNotSupported
    requires decode(file) == Threw(e)
    ensures Expected(WholeFile(file), decode) == (if |file| >= MinimumJpegSize then Rejected(e) else Pending)
  {
    OneChunk(decode, file);
    if |file| >= MinimumJpegSize {
      FirstConclusiveIsLeast(decode, [file], 0);
    } else {
      assert !ConclusiveAt(decode, [file], 0);
      assert |ErrDataNotSupported| != |ErrInsufficientDataSize|;
      assert FirstConclusive(decode, [file], 0).None?;
    }
  }

  /** A one-chunk file on which the decoder reports ERR_INSUFFICIENT_DATA_SIZE
      rejects with that error, whatever its size. */
  lemma SmallFileIsInsufficient<T>(decode: Decoder<T>, file: seq<byte>, e: Error)
    requires e.code == ErrInsufficientDataSize && decode(file) == Threw(e)
    ensures Expected(WholeFile(file), decode) == Rejected(e)
  {
    OneChunk(decode, file);
    InsufficientDataAtClose(WholeFile(file), decode, e);
  }
}
