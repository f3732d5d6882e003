/** The incremental decode loop of read-exif's readExif: argument-count
    validation, then repeated decoding of the growing byte buffer of a stream,
    settled by the decoder, by the stream's own error or at stream close. */
module ReadExif {
  import Decimal

  newtype byte = x: int | 0 <= x < 256

  datatype Option<T> = None | Some(value: T)

  /** A JavaScript Error value: its class name, its `code` property ("" when
      it has none) and its message. */
  datatype Error = Error(name: string, code: string, message: string)

  /** What one call of the external decoder does: return tag data or throw. */
  datatype Attempt<T> = Returned(tags: T) | Threw(err: Error)

  /** The state of the promise readExif returns. */
  datatype Settlement<T> = Pending | Resolved(tags: T) | Rejected(err: Error)

  /** The external EXIF decoder (get-exif), left uninterpreted. */
  type Decoder<T> = seq<byte> -> Attempt<T>

  /** What the read stream delivers: its chunks in order, then possibly an
      error of the stream itself; the stream then closes. */
  datatype Stream = Stream(chunks: seq<seq<byte>>, error: Option<Error>)

  /** Below this many bytes read, ERR_DATA_NOT_SUPPORTED is not trusted
      (named MINIMUN_JPEG_SIZE in the source). */
  const MinimumJpegSize: nat := 107

  const ErrMissingArgs: string := "ERR_MISSING_ARGS"
  const ErrTooManyArgs: string := "ERR_TOO_MANY_ARGS"
  const ErrDataNotSupported: string := "ERR_DATA_NOT_SUPPORTED"
  const ErrInsufficientDataSize: string := "ERR_INSUFFICIENT_DATA_SIZE"
  const ExpectedOneArgument: string := "Expected 1 argument (<string|Buffer|Uint8Array|URL>)"

  /** `String(err)` for an Error value. */
  function ErrorToString(e: Error): string {
    e.name + ": " + e.message
  }

  // ---------------------------------------------------------------------
  // Argument-count validation

  /** The RangeError readExif throws for `argc` arguments, if any. */
  function CheckArgCount(argc: nat): (r: Option<Error>)
    ensures r.None? <==> argc == 1
    ensures r.Some? ==> r.value.name == "RangeError"
    ensures argc == 0 ==> r.Some? && r.value.code == ErrMissingArgs
    ensures argc >= 2 ==> r.Some? && r.value.code == ErrTooManyArgs
  {
    if argc == 0 then
      Some(Error("RangeError", ErrMissingArgs, ExpectedOneArgument + ", but got no arguments."))
    else if argc != 1 then
      Some(Error("RangeError", ErrTooManyArgs,
                 ExpectedOneArgument + ", but got " + Decimal.Show(argc) + " arguments."))
    else
      None
  }

  // ---------------------------------------------------------------------
  // Buffers

  /** Buffer.concat of a list of chunks: their bytes joined in order. */
  function Concat(cs: seq<seq<byte>>): seq<byte> {
    if cs == [] then [] else Concat(cs[..|cs| - 1]) + cs[|cs| - 1]
  }

  /** Concatenating one more chunk appends its bytes. */
  lemma ConcatSnoc(cs: seq<seq<byte>>, c: seq<byte>)
    ensures Concat(cs + [c]) == Concat(cs) + c
  {
  }

  /** The bytes of the first n chunks of a stream, in arrival order. */
  function Received(chunks: seq<seq<byte>>, n: nat): seq<byte>
    requires n <= |chunks|
  {
    if n == 0 then [] else Received(chunks, n - 1) + chunks[n - 1]
  }

  /** The stream's bytesRead counter once the first n chunks were read. */
  function ReadCount(chunks: seq<seq<byte>>, n: nat): nat
    requires n <= |chunks|
  {
    if n == 0 then 0 else ReadCount(chunks, n - 1) + |chunks[n - 1]|
  }

  /** With bytesRead equal to the total length of the chunks read,
      Buffer.concat(buffers, bytesRead) neither truncates nor zero-fills:
      the decoder sees exactly bytesRead bytes. */
  lemma {:induction false} ReceivedLength(chunks: seq<seq<byte>>, n: nat)
    requires n <= |chunks|
    ensures |Received(chunks, n)| == ReadCount(chunks, n)
  {
    if n > 0 {
      ReceivedLength(chunks, n - 1);
    }
  }

  /** The successive inputs of the decoder: the bytes after one chunk, after
      two, and so on up to n. */
  function Buffers(chunks: seq<seq<byte>>, n: nat): (bs: seq<seq<byte>>)
    requires n <= |chunks|
    ensures |bs| == n
  {
    if n == 0 then [] else Buffers(chunks, n - 1) + [Received(chunks, n)]
  }

  /** The j-th input holds the chunks up to and including chunk j. */
  lemma {:induction false} BuffersAt(chunks: seq<seq<byte>>, n: nat, j: nat)
    requires j < n <= |chunks|
    ensures Buffers(chunks, n)[j] == Received(chunks, j + 1)
  {
    if j < n - 1 {
      BuffersAt(chunks, n - 1, j);
    }
  }

  // ---------------------------------------------------------------------
  // Reference definition of the outcome

  /** The decoder's verdict on the buffer after chunk j (0-based) arrived. */
  function AttemptAt<T>(decode: Decoder<T>, chunks: seq<seq<byte>>, j: nat): Attempt<T>
    requires j < |chunks|
  {
    decode(Received(chunks, j + 1))
  }

  /** An attempt ends reading when the decoder returns, or when it rejects the
      format once at least MinimumJpegSize bytes have been read. */
  predicate Conclusive<T>(a: Attempt<T>, bytesRead: nat) {
    a.Returned? || (a.err.code == ErrDataNotSupported && bytesRead >= MinimumJpegSize)
  }

  predicate ConclusiveAt<T>(decode: Decoder<T>, chunks: seq<seq<byte>>, j: nat)
    requires j < |chunks|
  {
    Conclusive(AttemptAt(decode, chunks, j), ReadCount(chunks, j + 1))
  }

  /** The first conclusive attempt at index `from` or later. */
  function FirstConclusive<T>(decode: Decoder<T>, chunks: seq<seq<byte>>, from: nat): (r: Option<nat>)
    requires from <= |chunks|
    ensures r.Some? ==> from <= r.value < |chunks| && ConclusiveAt(decode, chunks, r.value)
    ensures r.Some? ==> forall j :: from <= j < r.value ==> !ConclusiveAt(decode, chunks, j)
    ensures r.None? ==> forall j :: from <= j < |chunks| ==> !ConclusiveAt(decode, chunks, j)
    decreases |chunks| - from
  {
    if from == |chunks| then None
    else if ConclusiveAt(decode, chunks, from) then Some(from)
    else FirstConclusive(decode, chunks, from + 1)
  }

  /** How a returned value or a thrown error settles the promise. */
  function Verdict<T>(a: Attempt<T>): Settlement<T> {
    match a
    case Returned(tags) => Resolved(tags)
    case Threw(err) => Rejected(err)
  }

  /** The number of chunks readExif consumes from the stream. */
  function Consumed<T>(source: Stream, decode: Decoder<T>): nat {
    match FirstConclusive(decode, source.chunks, 0)
    case Some(j) => j + 1
    case None => |source.chunks|
  }

  /** The settlement of readExif's promise: the first conclusive attempt
      decides; failing that the stream's own error; failing that the close
      handler's rules, which leave the promise pending when the last
      remembered error is not ERR_INSUFFICIENT_DATA_SIZE. */
  function Expected<T>(source: Stream, decode: Decoder<T>): Settlement<T> {
    var chunks := source.chunks;
    match FirstConclusive(decode, chunks, 0)
    case Some(j) => Verdict(AttemptAt(decode, chunks, j))
    case None =>
      if source.error.Some? then Rejected(source.error.value)
      else if chunks == [] then
        (match decode([])
         case Threw(err) => Rejected(err)
         case Returned(_) => Pending)
      else
        var last := AttemptAt(decode, chunks, |chunks| - 1);
        if last.Threw? && last.err.code == ErrInsufficientDataSize then Rejected(last.err) else Pending
  }

  lemma FirstConclusiveIsLeast<T>(decode: Decoder<T>, chunks: seq<seq<byte>>, k: nat)
    requires k < |chunks| && ConclusiveAt(decode, chunks, k)
    requires forall j :: 0 <= j < k ==> !ConclusiveAt(decode, chunks, j)
    ensures FirstConclusive(decode, chunks, 0) == Some(k)
  {
    var r := FirstConclusive(decode, chunks, 0);
    assert r.Some?;
    assert r.value == k;
  }

  // ---------------------------------------------------------------------
  // The promise executor

  /** First settlement wins: resolve/reject on a settled promise do nothing. */
  function Settle<T>(current: Settlement<T>, next: Settlement<T>): Settlement<T> {
    if current.Pending? then next else current
  }

  function FirstOf<T>(calls: seq<Settlement<T>>): Settlement<T> {
    if calls == [] then Pending else calls[0]
  }

  /** The 'readable' handler: a loop that reads the stream's chunks one at
      a time while any remain, pushing each onto `buffers` and decoding the
      buffer, until the decoder returns (resolve) or rejects the format with
      at least MinimumJpegSize bytes read (destroy(err), whose 'error'
      handler rejects). Returns the chunks consumed, the handler's variables,
      the settlement it made (Pending if none) and the decoder's inputs. */
  method OnReadable<T>(chunks: seq<seq<byte>>, decode: Decoder<T>)
    returns (consumed: nat, buffers: seq<seq<byte>>, last: Option<Attempt<T>>, destroyed: bool,
             r: Settlement<T>, inputs: seq<seq<byte>>)
    ensures consumed <= |chunks| && |buffers| == consumed
    ensures Concat(buffers) == Received(chunks, consumed)
    ensures inputs == Buffers(chunks, consumed)
    ensures destroyed <==> FirstConclusive(decode, chunks, 0).Some?
    ensures destroyed ==> FirstConclusive(decode, chunks, 0) == Some(consumed - 1)
    ensures destroyed ==> r == Verdict(AttemptAt(decode, chunks, consumed - 1))
    ensures !destroyed ==> r == Pending && consumed == |chunks|
    ensures !destroyed ==> last == if chunks == [] then None else Some(AttemptAt(decode, chunks, |chunks| - 1))
  {
    var bytesRead: nat := 0;
    consumed, buffers, last, destroyed, r, inputs := 0, [], None, false, Pending, [];
    while consumed < |chunks| && !destroyed
      invariant consumed <= |chunks|
      invariant |buffers| == consumed
      invariant Concat(buffers) == Received(chunks, consumed)
      invariant bytesRead == ReadCount(chunks, consumed)
      invariant inputs == Buffers(chunks, consumed)
      invariant forall j :: 0 <= j < consumed - 1 ==> !ConclusiveAt(decode, chunks, j)
      invariant destroyed ==> consumed >= 1 && ConclusiveAt(decode, chunks, consumed - 1)
      invariant destroyed ==> r == Verdict(AttemptAt(decode, chunks, consumed - 1))
      invariant !destroyed ==> r == Pending
      invariant !destroyed && consumed >= 1 ==>
        !ConclusiveAt(decode, chunks, consumed - 1) && last == Some(AttemptAt(decode, chunks, consumed - 1))
      invariant consumed == 0 ==> last == None
      decreases |chunks| - consumed
    {
      var chunk := chunks[consumed];
      ConcatSnoc(buffers, chunk);
      buffers := buffers + [chunk];
      bytesRead := bytesRead + |chunk|;
      consumed := consumed + 1;

      var buffer := if |buffers| == 1 then chunk else Concat(buffers);
      assert buffer == Received(chunks, consumed) by {
        assert |buffers| == 1 ==> Received(chunks, consumed) == [] + chunk;
      }
      // Buffer.concat(buffers, bytesRead) takes all of these bytes, no more, no fewer.
      ReceivedLength(chunks, consumed);
      assert |buffer| == bytesRead;
      inputs := inputs + [buffer];
      var attempt := decode(buffer);
      match attempt
      case Threw(err) =>
        if bytesRead >= MinimumJpegSize && err.code == ErrDataNotSupported {
          destroyed := true;
          r := Rejected(err);
        } else {
          last := Some(attempt);
        }
      case Returned(tags) =>
        last := Some(attempt);
        destroyed := true;
        r := Resolved(tags);
    }
    if destroyed {
      FirstConclusiveIsLeast(decode, chunks, consumed - 1);
    } else {
      assert chunks[..consumed] == chunks;
    }
  }

  /** The promise executor: the 'readable' handler, then the 'error' handler
      (for an error of the stream itself, which a destroyed stream no longer
      emits), then the 'close' handler. Every resolve/reject call is logged
      in `calls`; the first one settles the promise. */
  method Run<T>(source: Stream, decode: Decoder<T>)
    returns (r: Settlement<T>, consumed: nat, inputs: seq<seq<byte>>, calls: seq<Settlement<T>>)
    ensures r == Expected(source, decode)
    ensures consumed == Consumed(source, decode)
    ensures |inputs| == consumed + (if source.chunks == [] then 1 else 0)
    ensures forall j :: 0 <= j < consumed ==> inputs[j] == Received(source.chunks, j + 1)
    ensures source.chunks == [] ==> inputs == [[]]
    ensures r == FirstOf(calls)
    ensures forall j :: 0 <= j < |calls| ==> !calls[j].Pending?
  {
    var buffers, last, destroyed;
    consumed, buffers, last, destroyed, r, inputs := OnReadable(source.chunks, decode);
    forall j | 0 <= j < consumed
      ensures inputs[j] == Received(source.chunks, j + 1)
    {
      BuffersAt(source.chunks, consumed, j);
    }
    calls := if destroyed then [r] else [];

    // 'error'
    if !destroyed && source.error.Some? {
      calls := calls + [Rejected(source.error.value)];
      r := Settle(r, Rejected(source.error.value));
    }

    // 'close'
    if last.Some? && last.value.Threw? && last.value.err.code == ErrInsufficientDataSize {
      calls := calls + [Rejected(last.value.err)];
      r := Settle(r, Rejected(last.value.err));
    } else if |buffers| == 0 {
      inputs := inputs + [[]];
      match decode([])
      case Threw(err) =>
        calls := calls + [Rejected(err)];
        r := Settle(r, Rejected(err));
      case Returned(_) =>
    }
  }

  /** readExif(...args): the argument check, then the stream `open` makes of
      the single argument (createReadStream) run through the executor. The
      flag `streamOpened` tells whether a stream was opened at all. */
  method ReadExif<A, T>(args: seq<A>, open: A -> Stream, decode: Decoder<T>)
    returns (r: Settlement<T>, streamOpened: bool)
    ensures streamOpened <==> |args| == 1
    ensures |args| != 1 ==> CheckArgCount(|args|).Some? && r == Rejected(CheckArgCount(|args|).value)
    ensures |args| == 1 ==> r == Expected(open(args[0]), decode)
  {
    var check := CheckArgCount(|args|);
    if check.Some? {
      return Rejected(check.value), false;
    }
    var source := open(args[0]);
    var consumed, inputs, calls;
    r, consumed, inputs, calls := Run(source, decode);
    streamOpened := true;
  }
}
