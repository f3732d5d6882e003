# read-exif: the incremental decode loop, in Dafny

`readExif(...args)` reads EXIF tags from an image without reading the whole
file. It first checks that it got exactly one argument. It then opens a read
stream and, after each chunk, hands everything received so far to the EXIF
decoder `get-exif`. It stops at the first of these:

- the decoder returns: the promise resolves with that result;
- the decoder throws `ERR_DATA_NOT_SUPPORTED` once at least 107 bytes
  (`MINIMUN_JPEG_SIZE`) were read: the stream is destroyed with that error,
  and the promise rejects with it;
- the stream itself fails: the promise rejects with the stream's error;
- the stream closes: if the last remembered decoder error has code
  `ERR_INSUFFICIENT_DATA_SIZE`, the promise rejects with it; if no chunk
  arrived, the decoder runs once on an empty buffer and the promise rejects
  with what it throws; otherwise nothing settles the promise.

The model has three modules:

- `ReadExif` (read_exif.dfy) holds the data model and the operations.
  - The decoder is a parameter `decode: seq<byte> -> Attempt<T>` that either
    returns tags or throws an `Error`.
  - A stream is its chunks in order plus an optional error of its own.
  - A `Settlement` is `Pending`, `Resolved(tags)` or `Rejected(err)`.
  - `CheckArgCount` is the argument check.
  - `OnReadable` is the `readable` handler's `while` loop. It keeps
    `buffers`, `bytesRead` and the last remembered outcome as local state.
  - `Run` runs `OnReadable`, then the `error` handler, then the `close`
    handler. It logs every resolve and reject call; the first call settles
    the promise.
  - `ReadExif` is the whole call.
  - `Expected` and `Consumed` are reference definitions: the outcome and
    the number of chunks read, stated through the first conclusive attempt
    (`FirstConclusive`). `Run` is proved to compute exactly them.
- `ReadExifProperties` (properties.dfy) holds the lemmas that state what the
  operation promises, in terms of `Expected`.
- `Decimal` (decimal.dfy) renders the argument count in the error message,
  and proves that the digits read back as the count.

Assumption: the stream's `bytesRead` equals the total length of the chunks
consumed so far. Under it, `Buffer.concat(buffers, this.bytesRead)` is plain
concatenation (`ReadExif.ReceivedLength`). The stream's error, if any, is
delivered after its chunks. `close` always comes last.

A file shorter than 107 bytes that never decodes is rejected with
`ERR_INSUFFICIENT_DATA_SIZE` only when the decoder's last error has that code
(index.js:61-64; the 106-byte fixture of test.js:57-66 relies on this). If
the last error is `ERR_DATA_NOT_SUPPORTED` on fewer than 107 bytes, the close
handler settles nothing and the promise stays pending
(`ReadExifProperties.NotSupportedThresholdIsExact`,
`ReadExifProperties.CloseSettlesOnlyOnInsufficientData`).

## Model

| member | source | states |
|---|---|---|
| `ReadExif.CheckArgCount` | index.js:11-25 | no error exactly when there is one argument; otherwise a RangeError coded `ERR_MISSING_ARGS` for zero arguments and `ERR_TOO_MANY_ARGS` for two or more |
| `ReadExif.ReadExif` | index.js:10-31 | with a count other than one: rejects with the argument error and opens no stream; with one argument: settles as `Expected` on the stream opened from it |
| `ReadExif.OnReadable` | index.js:32-58 | the loop reads chunks up to and including the first conclusive attempt, or all of them when none is conclusive; it hands the decoder the successive concatenations; it resolves or rejects with that attempt's outcome, and otherwise remembers the last attempt |
| `ReadExif.Run` | index.js:27-73 | the settlement equals `Expected` and the chunks read equal `Consumed`; the j-th decoder input is the bytes of chunks 0..j; an empty stream makes exactly one decoder call, on `[]`; the first resolve/reject call fixes the outcome and no call is `Pending` |
| `ReadExif.FirstConclusive` | index.js:45-56 | the least attempt index at which the decoder returned or rejected the format with at least 107 bytes read, or none |
| `ReadExif.FirstConclusiveIsLeast` | index.js:45-56 | an attempt that is conclusive, with no conclusive attempt before it, is the one that decides |
| `ReadExif.ConcatSnoc` | index.js:36-42 | pushing a chunk onto `buffers` appends its bytes to `Buffer.concat(buffers)` |
| `ReadExif.ReceivedLength` | index.js:42 | the received bytes number exactly `bytesRead`, so the length argument of `Buffer.concat` neither truncates nor pads |
| `ReadExif.BuffersAt` | index.js:35-43 | the j-th decoder input holds chunks 0..j in arrival order |
| `ReadExifProperties.MissingArgsMessage` | index.js:13-17 | zero arguments: code `ERR_MISSING_ARGS`; `String(err)` is `RangeError: `, the fixed text `Expected 1 argument (...)` of index.js:8, then `, but got no arguments.` |
| `ReadExifProperties.TwoArgsMessage` | index.js:20-24 | two arguments: code `ERR_TOO_MANY_ARGS`; `String(err)` ends `but got 2 arguments.` |
| `ReadExifProperties.TooManyArgsMessageNamesCount` | index.js:20-24 | for n ≥ 2 the message is the fixed prefix, then the canonical decimal digits of n, then ` arguments.`; the digits read back as n |
| `ReadExifProperties.TooManyArgsMessagesDiffer` | index.js:21 | different counts give different messages |
| `ReadExifProperties.ConcatIsReceived` | index.js:36-42 | `Buffer.concat` of the pushed chunks is the stream's bytes so far |
| `ReadExifProperties.BufferGrows` | index.js:36 | every decoder input extends every earlier one |
| `ReadExifProperties.ReceivedOfPrefix` | index.js:35-43 | the bytes and the byte count after n chunks depend only on those n chunks |
| `ReadExifProperties.FirstTwoAttempts` | index.js:39-43 | the first attempt decodes the first chunk as it is; the second decodes the first two chunks joined in order |
| `ReadExifProperties.ResolvesWithFirstResult` | index.js:54-56 | the first attempt on which the decoder returns resolves with exactly that result, and no further chunk is read |
| `ReadExifProperties.NotSupportedIsConclusive` | index.js:45-48 | `ERR_DATA_NOT_SUPPORTED` with at least 107 bytes read rejects with that very error, and no further chunk is read |
| `ReadExifProperties.ProvisionalErrorContinues` | index.js:44-51 | any other decoder error, or `ERR_DATA_NOT_SUPPORTED` below 107 bytes, does not stop the loop: the next chunk is read |
| `ReadExifProperties.LaterInputIrrelevant` | index.js:46-56 | once an attempt is conclusive, any continuation of the stream gives the same outcome and the same number of chunks read |
| `ReadExifProperties.TransportErrorPassedThrough` | index.js:59 | with no conclusive attempt, a stream error rejects with that error unchanged |
| `ReadExifProperties.InsufficientDataAtClose` | index.js:61-64 | at close, a last error coded `ERR_INSUFFICIENT_DATA_SIZE` rejects with that error |
| `ReadExifProperties.CloseSettlesOnlyOnInsufficientData` | index.js:60-73 | chunks arrived, none conclusive, no stream error: the last attempt threw, and the promise settles if and only if that error is coded `ERR_INSUFFICIENT_DATA_SIZE`; otherwise it stays pending |
| `ReadExifProperties.EmptyStreamRejectsWithDecoderError` | index.js:66-72 | an empty stream rejects with the error the decoder throws on an empty buffer, and reads no chunk |
| `ReadExifProperties.NotSupportedThresholdIsExact` | index.js:45 | a one-chunk file on which the decoder throws `ERR_DATA_NOT_SUPPORTED` (whatever it does on other buffers): rejected with that error if it has at least 107 bytes, pending otherwise |
| `ReadExifProperties.SmallFileIsInsufficient` | test.js:57-66 | a one-chunk file on which the decoder reports `ERR_INSUFFICIENT_DATA_SIZE` rejects with that error |
| `Decimal.Show` | index.js:21 | the rendering of a count is a non-empty digit string with no leading zero |
| `Decimal.ParseShow` | index.js:21 | the rendered digits read back as the number |

## Left out

- Opening the input (`createReadStream`) is the parameter `open` of `ReadExif.ReadExif`. Its checks of paths, Buffers and URLs, its `ERR_INVALID_ARG_TYPE` and its I/O codes such as `ENOENT` appear only as the stream's optional error.
- The EXIF decoder `get-exif` is not part of this model. It is the uninterpreted parameter `decode`.
- Event-loop and promise scheduling, the `destroy()` mechanics and the relative order of `error` and `close` are not modelled. A stream is a sequential list of chunks, then its own error, then `close`. A destroyed stream delivers nothing more. Resolve and reject calls are logged, and the first one wins.
- The zero-fill or truncation of `Buffer.concat` when `bytesRead` differs from the buffered length is outside the assumption that they are equal.
- The close handler's check `lastErrorOrResult.code` is applied only to thrown errors. A returned tag object is assumed to carry no `code` property. After a return, the promise is already settled, so this affects at most the log of ignored calls.
- Thrown values that are not Error objects (`null`, `undefined`) are not modelled. Every thrown value has a `code`, and `""` stands for a missing one.
- test.js is not modelled. Its fixture writing and test harness are not part of this model; its assertions are reflected in the lemmas about messages and thresholds.
