# zreader, modelled in Dafny

`zreader` is a Go package that hands out one `io.ReadCloser` for a file
or stream that may be compressed with bzip2, gzip or zstd, or not
compressed at all. Its core has two parts, and this project models both.

- **Magic-byte detection** (`magic.go`, module `Magic` in `magic.dfy`).
  `zTypeFromBytes` matches exact prefixes against a constant table of six
  signatures and returns one of the tags zNone, zBzip2, zGzip, zZip, zZstd.
  The zip tag has three signatures: standard, empty archive and spanned
  archive. The model proves the following.
  - The signatures of different formats are pairwise prefix-disjoint.
  - No input carries signatures of two formats.
  - A first-match scan over any reordering of the table gives the same
    answer as the detector.
  - Every signature fits in the 4-byte window (`magicBytePrefixSize`), so
    only the first 4 bytes of an input matter.
- **The reader** (`zreader.go`, modules `Io` in `io.dfy` and `Zreader` in
  `zreader.dfy`).
  - `fromBufferedReader` peeks 4 bytes from a `bufio.Reader` without
    consuming them.
  - If the peek meets io.EOF, the raw bytes are passed through with tag
    zNone. Any other peek error is returned.
  - Otherwise the reader dispatches on the detected tag.
    - bzip2's constructor cannot fail. gzip's and zstd's can, and their
      error is returned; there is no fallback to pass-through.
    - zip and unknown input pass the raw bytes through.
  - `Open` closes the file it opened when construction fails. It records
    the file in `fileCloser` only on success.
  - `Close` closes the decompressor first and stops on its error. Then it
    closes the file, but only if the reader owns one.

Modelling choices:
- The buffered source is a class: the stream's bytes, the error reported
  after them, and a read position. `Peek` has no `modifies` clause, so
  peeking cannot move the position. `FromBufferedReader` has none either.
  Each decompressor is handed the same buffered source, at the position
  it had before the peek (`decoder.input` is that source and `pos` is
  unchanged). Only the peek is known to consume nothing: what a decoder
  reads from the source while it is built is not modelled (see below).
- `ZReader.ztype` and `ZReader.decompressor` are `const`: nothing can
  change them after construction. Only `fileCloser` is a `var`.
- The foreign decoders are opaque. `Codecs` says what each constructor
  reports for one input: bzip2 gives a decoder, while gzip and zstd give
  `Ready` or `Rejected(error)`. A working decoder is its decoded output,
  the error it reports after that output, and what its own Close reports.
- Closers (the file, the gzip reader) are objects with a close counter
  and a fixed result. This lets the contracts say which closers a call
  reached and what it returned.
- `Plan` is a function that gives the outcome of construction from the
  pending stream and the decoder outcomes. The construction methods are
  proved against it.

Facts about the source that the model keeps as they are:
- There are five tags (zreader.go:29-35) and the detection window is 4
  bytes (magic.go:5).
- The reader keeps no closed state. A second `Close` calls the same
  closers again (zreader.go:110-118), and the model's `ZReader.Close` does
  the same.
- The 3-byte input `1f 8b 08` is classified gzip by `zTypeFromBytes`
  (magic.go:20-21). The reader still passes it through as zNone, because
  `Peek(4)` meets io.EOF before detection runs (zreader.go:72-75).
  `ShortGzipHeaderPassesThrough` states both facts.
- The zstd decoder is wrapped in `io.NopCloser` (zreader.go:98), so the
  decoder's own Close is never reached. `ZReader.Close` states this.

## Model

| member | source | states |
|---|---|---|
| `Magic.ZTypeFromBytes` | magic.go:16-31 | A result other than ZNone is the tag of a table signature that the input begins with. ZNone is returned exactly when the input begins with none of the six signatures. |
| `Magic.SignatureTablePrefixDisjoint` | magic.go:7-14 | No signature of one format is a prefix of a signature of another format. No entry carries the ZNone tag. |
| `Magic.AtMostOneFormat` | magic.go:8-13 | No input carries signatures of two different formats. |
| `Magic.DetectsExactlyTheCarriedFormat` | magic.go:16-31 | For each format, the detector reports it if and only if the input begins with one of its signatures. |
| `Magic.FirstMatchFindsAnyMatch` | magic.go:17-30 | In a prefix-disjoint table, a first-match scan returns the tag of any entry the input matches, wherever that entry stands. |
| `Magic.FirstMatchNone` | magic.go:28-29 | A first-match scan returns "none" exactly when no entry matches. |
| `Magic.CaseOrderIrrelevant` | magic.go:16-31 | Any table holding the same entries as the signature table, in any order or with repeats, gives the detector's answer on every input. |
| `Magic.Window` | magic.go:5 | The detection window is exactly the first 4 bytes of the input, or the whole input when it is no longer than that. |
| `Magic.SignaturesFitWindow` | magic.go:5-13 | Every signature is non-empty and at most `magicBytePrefixSize` (4) bytes long. |
| `Magic.WindowKeepsSignature` | magic.go:5-13 | A signature of at most 4 bytes begins the window exactly when it begins the whole input. |
| `Magic.DetectionSeesOnlyWindow` | magic.go:5-31 | The tag of an input equals the tag of its first 4 bytes. |
| `Magic.TooShortNeverMatches` | magic.go:16-29 | An input shorter than a signature never matches it. |
| `Magic.CarriedSignatureWins` | magic.go:16-31 | Whichever table signature an input begins with, the detector reports that signature's format, even though it tests the signatures in a fixed order. |
| `Magic.ClassifiesEachSignature` | magic.go:8-27 | Input starting `42 5a 68` is bzip2, `1f 8b` is gzip, any of the three `50 4b ..` is zip, `28 b5 2f fd` is zstd. |
| `Magic.ShorterThanEverySignatureIsNone` | magic.go:16-29 | Every input shorter than two bytes, the length of the shortest signature, is zNone. |
| `Magic.ShortInputsAreNone` | magic.go:28-29 | Empty input is ZNone, and so are `50 4b 03` and `28 b5 2f`, which stop short of the zip and zstd signatures they begin like. |
| `Io.ReadStep` | zreader.go:105-107 | One Read of up to n bytes delivers a prefix of the pending bytes, as long as both n and the pending bytes allow. It always makes progress while bytes remain. It reports the stream's end error only when nothing is left. |
| `Io.ReadStepSplits` | zreader.go:105-107 | After a read, the delivered bytes followed by what is left are what was pending. An error means nothing was pending. A read without an error leaves fewer bytes pending. |
| `Io.BufferedSource.constructor` | zreader.go:68 | A fresh buffered reader has the whole stream pending. |
| `Io.BufferedSource.Peek` | zreader.go:72-77 | Peek returns exactly the next n bytes when that many remain, and the stream's end error (io.EOF or another) otherwise. It changes no state. |
| `Io.BufferedSource.Read` | zreader.go:75 | A pass-through read delivers the next pending raw bytes and advances past exactly them. |
| `Io.Closer.Close` | zreader.go:110-118 | Each Close is counted and returns the closer's outcome. |
| `Zreader.Decoder.Read` | zreader.go:105-107 | A decoder read delivers its next decoded bytes, then its end error (EOF or a mid-stream decode error). |
| `Zreader.Decoder.constructor` | zreader.go:82 | bzip2's constructor, which cannot fail: a decoder over the given source that will deliver the given output and then its end error, with a fresh unclosed closer only when the decoder can be closed. |
| `Zreader.NewDecoder` | zreader.go:84-97 | A rejected gzip or zstd header returns that error and builds nothing. Otherwise a fresh decoder is built over the given source. |
| `Zreader.ReadCloser.NopCloser` | zreader.go:75 | `io.NopCloser` over the raw source or a decoder: its Close reaches nothing. |
| `Zreader.ReadCloser.Closing` | zreader.go:84-89 | The gzip reader used as the decompressor directly, without `io.NopCloser`: it reads from the decoder's own source, and its Close reaches the decoder's closer. |
| `Zreader.ReadCloser.Read` | zreader.go:105-107 | A read goes to the decoder when there is one, otherwise to the raw source. |
| `Zreader.ReadCloser.Close` | zreader.go:111 | Close reaches only the gzip reader's closer and returns its result; under `io.NopCloser` it returns no error. |
| `Zreader.ZReader.constructor` | zreader.go:40-44 | A literal ZReader has the given tag and decompressor and no file closer. |
| `Zreader.ZReader.Read` | zreader.go:105-107 | Read forwards to the decompressor and delivers what it delivers. The tag, decompressor and file closer are untouched. |
| `Zreader.ZReader.Close` | zreader.go:110-118 | The decompressor is closed first. If it errors, that error is returned and the file is not closed. Otherwise the file is closed if and only if `fileCloser` is set, and its result is returned. The zstd decoder's own closer is never reached. |
| `Zreader.Plan` | zreader.go:71-102 | Under 4 bytes: io.EOF gives zNone pass-through, other errors are refused. Otherwise the tag is `zTypeFromBytes` of the input and a gzip or zstd rejection is returned, never passed through. Only zNone and zZip pass raw bytes through; only gzip's reader is closed directly. |
| `Zreader.FromBufferedReader` | zreader.go:71-102 | Builds exactly what `Plan` gives for the source's pending bytes. The source position is unchanged, the decompressor uses that same source, and `fileCloser` is unset. |
| `Zreader.NewReader` | zreader.go:67-69 | Wraps a caller's stream with `fileCloser` unset. The whole stream, magic bytes included, is still pending. |
| `Zreader.Open` | zreader.go:48-61 | An open error is returned as is. If construction fails, the file is closed once and the error returned. On success the file is not closed and becomes `fileCloser`, and the buffered source and any gzip closer are fresh, so the reader shares nothing else with the caller. |
| `Zreader.ReadAll` | zreader_test.go:29 | Reading to the end yields every pending byte in order, and no error when the stream ends in io.EOF. |
| `Zreader.ReadAllThroughOpen` | zreader_test.go:25-35 | Opening a file and reading it to the end yields the raw bytes under pass-through and the decoder's output otherwise, with the file left open. An open error or a refused construction yields only its error, and a refused construction closes the file once. |
| `Zreader.ReadAllThroughNewReader` | zreader.go:67-69 | Wrapping a stream and reading it all yields the raw bytes under pass-through and the decoder's output otherwise. A refused construction yields only its error. |
| `Zreader.ShortGzipHeaderPassesThrough` | zreader.go:72-75 | The 3-byte input `1f 8b 08` is classified gzip, yet the reader passes it through as zNone. |

## Left out

- The bzip2, gzip and zstd decoding algorithms are foreign library calls. They are modelled only by their init outcome, their decoded output, their end error and their close result.
- How a decoder consumes the shared buffered source (gzip reads its header while it is built) is not modelled. Decoders read their own abstract output.
- `os.Open` and path handling are OS I/O. `Open` takes the outcome of opening as a parameter, so the path itself is not modelled.
- A real file reports `os.ErrClosed` when closed twice. A model closer reports the same fixed result every time.
- `Io.BufferedSource.Read` and `Zreader.Decoder.Read` deliver as many bytes as are requested and available. A real `bufio.Reader` may deliver fewer per call, which the io.Reader contract allows.
- `bufio` internals (buffer size, `ErrBufferFull`, reading straight into large buffers) are not modelled. Peek of 4 bytes never reaches those limits.
- `Zreader.NewReader`: `bufio.NewReader` hands back a caller's own `*bufio.Reader` unchanged when its buffer is large enough, and the reader then reads and moves the caller's object. The model takes the stream as a value and builds a fresh buffered source, so this sharing does not arise.
- `Io.ReadStep`: a read delivers either bytes or an error, never both. A real decoder such as `gzip.Reader` may return its last bytes together with io.EOF, and `ZReader.Read` forwards that. What `ReadAll` yields is the same either way.
- `Zreader.Open`: the file's contents and its close handle are independent, so a read after `Close` still delivers the stream. A real closed file fails reads with `os.ErrClosed` once bufio's buffer is used up.
- Errors other than io.EOF are opaque codes. `errors.Is` wrapping is not modelled.
- The comparison against `test-data` files in the package test depends on real decoders and files. Only its read-to-the-end step is modelled.
- Concurrency is not modelled: zreader's own code starts no goroutines, and the foreign decoders' internals are not modelled.
