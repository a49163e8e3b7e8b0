# iterable-io, modelled in Dafny

`iterableio` lets a caller read any iterable of byte chunks through Python's
file interface. Its core has two parts.

- `RawIterableReader` is an unbuffered `io.RawIOBase`. Its `readinto` pulls
  chunks from the producer onto a pending buffer (`_extra`) until enough bytes
  are pending or the producer raises `StopIteration`. It then hands out a
  prefix of that buffer. `_total` counts every byte pulled, and `tell()` is
  `_total - len(_extra)`.
- `open_iterable` checks a mode string and the decoding options against an
  ordered list of rules. It then stacks nothing, a `BufferedReader`, or a
  `TextIOWrapper` over a `BufferedReader` on top of the raw reader.

The Dafny project has four modules:

- `Wrappers` (wrappers.dfy) holds `Option` and `Result`.
- `Bytes` (bytes.dfy) holds bytes, chunks and `Concat`, the concatenation of a
  run of chunks (`b"".join(chunks)`), with the lemmas about it.
- `RawReader` (raw_reader.dfy) holds the class `RawIterableReader`.
  - Its fields `iter`, `extra`, `total` and `closed` are the source's `_iter`,
    `_extra`, `_total` and `closed`.
  - The producer is a value `Producer(chunks, cursor)`. Its only operation is
    `Next()`, which yields the next chunk or `StopIteration`.
  - Three ghost fields give the abstract view: `Chunks` (every chunk the
    producer will ever yield), `Pulled` (how many have been pulled) and
    `Delivered` (the bytes handed out so far).
  - `Valid()` ties the real fields to these. `Remaining()` is the unread
    stream: `_extra` followed by the chunks not yet pulled.
  - The module also holds client methods. Each one replays a read loop from
    the repository's tests against the class's contracts.
- `OpenIterable` (open_iterable.dfy) holds `Open`, a pure function. It returns
  either the first rule broken or the stack of layers, as a `Stream` value.
  The io library's layers appear in it only as tags.

## Model

| member | source | states |
|---|---|---|
| `RawReader.RawIterableReader.constructor` | iterableio.py:13-16 | A new reader holds the whole producer, has an empty `_extra` and `_total == 0`, and its unread stream is the concatenation of every chunk. |
| `RawReader.RawIterableReader.Readable` | iterableio.py:18-19 | The reader always reports that it is readable. |
| `RawReader.RawIterableReader.Close` | iterableio.py:21-23 | After close, the reader is closed and `_iter` is released. `_extra`, `_total` and the delivered bytes stay as they were. |
| `RawReader.RawIterableReader.Tell` | iterableio.py:25-28 | On a closed reader, `tell` fails as closed. Otherwise it returns `_total - len(_extra)`, which is the number of bytes delivered so far. |
| `RawReader.RawIterableReader.PullNext` | iterableio.py:39-46 | One `next(self._iter)`: either the next chunk is appended to `_extra` and counted in `_total`, or the producer is exhausted and `_iter` becomes None. The unread stream does not change. |
| `RawReader.RawIterableReader.PullUntil` | iterableio.py:36-46 | The pull loop ends with at least `len(b)` bytes pending, or with `_iter` None. `_iter` is None afterwards exactly when it was None before or fewer than `len(b)` bytes are pending, so an empty chunk never ends the loop; only `StopIteration` does. It never pulls an exhausted producer, and it never pulls when enough bytes are already pending (so never for a request of length 0). It stops at the first chunk that makes enough bytes pending, and `_extra` gains exactly the pulled chunks' bytes. |
| `RawReader.RawIterableReader.ReadInto` | iterableio.py:30-52 | On a closed reader, `readinto` fails and changes nothing. Otherwise it returns exactly `min(len(b), bytes left)`, so it returns a full `len(b)` unless the stream is at its end. Those bytes are the next ones of the stream and are written to `b[:lret]`; the rest of `b` is untouched. A short read leaves `_iter` None and `_extra` empty. After a successful read, `_iter` is None exactly when it was None before or the read was short, so a read served in full keeps the producer. `_total` never decreases. The pull loop's guarantees carry over. |
| `RawReader.RawIterableReader.StreamIsConcat` | iterableio.py:45-48 | The bytes delivered so far, followed by the unread stream, are exactly the concatenation of every chunk. Nothing is lost, duplicated or reordered. |
| `RawReader.CopyInto` | iterableio.py:50-51 | `b[:lret] = ret` writes `ret` into the front of `b` and leaves the rest of `b` unchanged. |
| `RawReader.ReadAndTell` | tests/test_iteratorio.py:51-55 | A read of `n` bytes followed by `tell()` returns `min(n, bytes left)` bytes that extend what was delivered. The position it reports equals the number of bytes delivered. |
| `RawReader.ReadInSizes` | tests/test_iteratorio.py:49-55 | For any chunks and any sequence of read lengths: the joined reads are a prefix of the producer's bytes, and each position equals the bytes delivered so far. A read is short only at the end of the stream, and every read issued at the end returns nothing. |
| `RawReader.ReadByteByByte` | tests/test_iteratorio.py:115-124 | Reading one byte at a time until an empty read yields every byte of the producer, one per read, in order. |
| `RawReader.EmptyChunkProducerBytes` | tests/test_iteratorio.py:106-113 | The producer "1", seven empty chunks, "2", "3", six empty chunks, "4" carries the bytes "1234". |
| `RawReader.EmptyChunksDoNotEndStream` | tests/test_iteratorio.py:104-124 | Reading that producer one byte at a time gives "1234" in exactly four reads, so no empty chunk ends the stream. |
| `RawReader.UnreadableAfterClose` | tests/test_iteratorio.py:88-101 | Over a producer yielding "12345": a read of 0 bytes returns nothing and a read of 1 byte returns "1". After close, both a read and `tell` fail as closed. |
| `Bytes.EmptyChunksCarryNoBytes` | iterableio.py:38-46 | Dropping every empty chunk leaves the concatenated stream unchanged. |
| `OpenIterable.CharsCard` | iterableio.py:126-127 | `len(mode) > len(set(mode))` holds exactly when some character of the mode is repeated. |
| `OpenIterable.BufferSize` | iterableio.py:153-154 | When buffering is on, the size used is positive. It is the requested size when that is positive, and the default otherwise. |
| `OpenIterable.Open` | iterableio.py:147-165 | On success the result is the raw reader exactly when `buffering == 0`, and only in binary mode. Buffered binary mode gives one buffering layer of the resolved size. Text mode gives a text layer with the caller's encoding, errors, newline and mode string, over that buffering layer. |
| `OpenIterable.OpenReportsFirstBrokenRule` | iterableio.py:126-145 | Validation fails exactly when one of the seven rules is broken: (1) bad or repeated mode character; (2) no `r`; (3) text and binary together; (4) binary with encoding; (5) binary with errors; (6) binary with newline; (7) unbuffered text. When validation fails, the error reported is the first broken rule in that order. |
| `OpenIterable.OpenAcceptsExactly` | iterableio.py:126-145 | The accepted configurations are exactly: modes `r`, `rt`, `tr` with buffering not 0; and modes `rb`, `br` with no encoding, errors or newline. |
| `OpenIterable.InvalidInputsRejected` | tests/test_iteratorio.py:10-25 | `""`, `"abc"`, `"rtb"`, `("rt", 0)` and binary mode with an encoding, an errors policy or a newline are each rejected, each by its own rule. |
| `OpenIterable.ReturnedLayers` | tests/test_iteratorio.py:63-69 | Layers returned per mode: `("rb", 0)` gives the raw reader. `("rb", -1)` and `("rb", 1)` give a buffering layer of the default size and of size 1. `("rt", -1)` and `("rt", 1)` give a text layer. `"r"` is accepted. |

## Left out

- Inherited `io.RawIOBase` machinery is left out: `read`, `readall`, `readline`, iteration, `seekable`, `writable`, the context-manager protocol and `_checkClosed`. The closed check is modelled as the `ClosedFile` error result of `ReadInto` and `Tell`. The client methods call `ReadInto` with a fresh buffer of the requested size where the tests call `read(n)`.
- The internals of `io.BufferedReader` and `io.TextIOWrapper` are left out: block buffering, decoding, newline translation, `readlines` and line iteration. They are library code, and `Open` records them only as tags. So the text round-trip test (tests/test_iteratorio.py:127-170) is not modelled.
- `io.DEFAULT_BUFFER_SIZE` is platform-defined. `DefaultBufferSize` is a positive constant whose value the model leaves open (8192 in CPython), so no contract depends on its value.
- The producer is a finite list of chunks read through a cursor. An infinite or blocking producer cannot be stated this way. `iter(iterable)` over an iterable that was already partly consumed is not modelled either.
- Exceptions raised by the producer itself, and the `except: ret.close(); raise` clean-up of `open_iterable` (iterableio.py:166-168), are left out. Python exception propagation from foreign code is outside the model.
- The text of the ValueError messages is left out, including the mode string quoted in "invalid mode". Each rule is a constructor of `ModeError`.
- The TypeError for a non-integer `buffering` (tests/test_iteratorio.py:16) is left out. It comes from Python's comparison of a string with 0, not from this code.
- `Close` keeps `_extra`, as the source does: its `close` only drops `_iter` (iterableio.py:21-23). Nothing can observe the kept bytes, since every later read or `tell` fails.
- `readinto` in the source runs its pull loop inline. In the model, that loop is the method `PullUntil`, one pull is `PullNext`, and the slice assignment into `b` is `CopyInto`. The split is only there to keep each proof small.
- `OpenIterable.Open`: the argument checks of `io.TextIOWrapper` itself (iterableio.py:163) are not modelled. It raises ValueError for a newline other than None, `''`, `'\n'`, `'\r'` or `'\r\n'`, and LookupError for an encoding the codec registry does not know. So in text mode `Open` reports success where the source raises. The codec registry is library state outside this model.
