/** The multiplexing reader: it peeks at the first bytes of a buffered
    source, picks a decompressor by their magic bytes, forwards reads to it,
    and on close releases the decompressor and, when it opened the file
    itself, the file. The foreign decoders are modelled only by what their
    initialisation reports and by the stream they then deliver. */
module Zreader {
  import opened Io
  import opened Magic

  /** What a foreign decoder does once it is set up: the decoded bytes it
      delivers, the error it reports after them (io.EOF, or a decode error
      found mid-stream) and what its own Close reports. */
  datatype DecoderBehavior = DecoderBehavior(output: seq<bv8>, end: Error, closeResult: Option<Error>)

  /** What a fallible decoder constructor reports on the stream it is
      given: a working decoder, or the error it found in the header. */
  datatype InitOutcome = Ready(behavior: DecoderBehavior) | Rejected(error: Error)

  /** The foreign decoders as they turn out on one input: bzip2's
      constructor cannot fail, gzip's and zstd's can. */
  datatype Codecs = Codecs(bzip2: DecoderBehavior, gzip: InitOutcome, zstd: InitOutcome)

  /** An opened file: the stream of its contents and its close handle. */
  datatype File = File(contents: Stream, handle: Closer)

  /** A foreign decoder reading from `input`. */
  class Decoder {
    const format: ZType
    const input: BufferedSource
    const output: seq<bv8>
    const end: Error
    /** The decoder's own Close, when it has one (the bzip2 reader has none). */
    const closer: Closer?
    var delivered: nat

    ghost predicate Valid()
      reads this
    {
      delivered <= |output|
    }

    /** The decoded bytes not delivered yet. */
    ghost function Pending(): seq<bv8>
      reads this
      requires Valid()
    {
      output[delivered..]
    }

    constructor (format: ZType, input: BufferedSource, b: DecoderBehavior, closable: bool)
      ensures Valid() && this.format == format && this.input == input
      ensures output == b.output && end == b.end && Pending() == b.output
      ensures closable ==> closer != null && fresh(closer) && closer.result == b.closeResult && closer.closeCount == 0
      ensures !closable ==> closer == null
    {
      this.format, this.input, output, end, delivered := format, input, b.output, b.end, 0;
      if closable {
        closer := new Closer(b.closeResult);
      } else {
        closer := null;
      }
    }

    method Read(n: nat) returns (chunk: seq<bv8>, err: Option<Error>)
      requires Valid()
      modifies this
      ensures Valid()
      ensures (chunk, err) == ReadStep(old(Pending()), n, end)
      ensures Pending() == old(Pending())[|chunk|..]
    {
      if n > 0 && delivered == |output| {
        chunk, err := [], Some(end);
      } else {
        var k := Min(n, |output| - delivered);
        assert output[delivered..delivered + k] == Pending()[..k];
        chunk, err := output[delivered..delivered + k], None;
        delivered := delivered + k;
      }
    }
  }

  /** A decoder constructor of the `gzip.NewReader` / `zstd.NewReader`
      kind: on a rejected header nothing is built and the error is returned. */
  method NewDecoder(format: ZType, input: BufferedSource, init: InitOutcome, closable: bool)
    returns (r: Result<Decoder>)
    ensures init.Rejected? ==> r == Failure(init.error)
    ensures init.Ready? ==>
              && r.Ok? && fresh(r.value) && r.value.Valid()
              && r.value.format == format && r.value.input == input
              && r.value.output == init.behavior.output && r.value.end == init.behavior.end
              && r.value.delivered == 0
              && (closable <==> r.value.closer != null)
              && (closable ==> fresh(r.value.closer) && r.value.closer.closeCount == 0
                               && r.value.closer.result == init.behavior.closeResult)
  {
    match init
    case Rejected(e) =>
      r := Failure(e);
    case Ready(b) =>
      var d := new Decoder(format, input, b, closable);
      r := Ok(d);
  }

  /** The io.ReadCloser the reader forwards to: the raw buffered source or
      a decoder reading it, and what its Close reaches (nothing when it is
      wrapped in io.NopCloser). */
  class ReadCloser {
    const src: BufferedSource
    const decoder: Decoder?
    const closer: Closer?

    ghost predicate Valid()
      reads src, decoder
    {
      && src.Valid()
      && (decoder != null ==> decoder.Valid() && decoder.input == src)
      && (closer != null ==> decoder != null && closer == decoder.closer)
    }

    /** The bytes still to be read through this reader. */
    ghost function Pending(): seq<bv8>
      reads src, decoder
      requires Valid()
    {
      if decoder == null then src.Pending() else decoder.Pending()
    }

    /** What a read reports once nothing is pending. */
    function End(): Error {
      if decoder == null then src.end else decoder.end
    }

    /** What Close reports. */
    function CloseResult(): Option<Error> {
      if closer == null then None else closer.result
    }

    /** io.NopCloser over the raw source or over a decoder of it. */
    constructor NopCloser(src: BufferedSource, decoder: Decoder?)
      requires decoder != null ==> decoder.input == src
      ensures this.src == src && this.decoder == decoder && closer == null
    {
      this.src, this.decoder, closer := src, decoder, null;
    }

    /** A decoder that is itself an io.ReadCloser. */
    constructor Closing(decoder: Decoder)
      requires decoder.closer != null
      ensures src == decoder.input && this.decoder == decoder && closer == decoder.closer
    {
      src, this.decoder, closer := decoder.input, decoder, decoder.closer;
    }

    method Read(n: nat) returns (chunk: seq<bv8>, err: Option<Error>)
      requires Valid()
      modifies src, decoder
      ensures Valid()
      ensures (chunk, err) == ReadStep(old(Pending()), n, End())
      ensures Pending() == old(Pending())[|chunk|..]
    {
      if decoder == null {
        chunk, err := src.Read(n);
      } else {
        chunk, err := decoder.Read(n);
      }
    }

    method Close() returns (e: Option<Error>)
      requires Valid()
      modifies closer
      ensures closer != null ==> closer.closeCount == old(closer.closeCount) + 1
      ensures e == CloseResult()
    {
      if closer == null {
        e := None;
      } else {
        e := closer.Close();
      }
    }
  }

  /** How a format tag is wired to its decompressor: none and zip pass the
      raw bytes through, bzip2 and zstd are decoded behind io.NopCloser,
      gzip's reader is closed directly. */
  ghost predicate Wired(t: ZType, d: ReadCloser) {
    match t
    case ZNone => d.decoder == null
    case ZZip => d.decoder == null
    case ZGzip => d.decoder != null && d.decoder.format == ZGzip && d.closer != null
    case ZBzip2 => d.decoder != null && d.decoder.format == ZBzip2 && d.closer == null
    case ZZstd => d.decoder != null && d.decoder.format == ZZstd && d.closer == null
  }

  /** The reader: its format tag and decompressor are fixed when it is
      built; `fileCloser` is set only by Open. */
  class ZReader {
    const ztype: ZType
    const decompressor: ReadCloser
    var fileCloser: Closer?

    ghost predicate Valid()
      reads this, decompressor.src, decompressor.decoder
    {
      && decompressor.Valid()
      && Wired(ztype, decompressor)
      && (fileCloser != null && decompressor.decoder != null ==> fileCloser != decompressor.decoder.closer)
    }

    /** The composite literal: no file closer. */
    constructor (ztype: ZType, decompressor: ReadCloser)
      ensures this.ztype == ztype && this.decompressor == decompressor && fileCloser == null
    {
      this.ztype, this.decompressor, fileCloser := ztype, decompressor, null;
    }

    /** Read forwards to the decompressor and changes nothing else. */
    method Read(n: nat) returns (chunk: seq<bv8>, err: Option<Error>)
      requires Valid()
      modifies decompressor.src, decompressor.decoder
      ensures Valid()
      ensures (chunk, err) == ReadStep(old(decompressor.Pending()), n, decompressor.End())
      ensures decompressor.Pending() == old(decompressor.Pending())[|chunk|..]
    {
      chunk, err := decompressor.Read(n);
    }

    /** Close the decompressor; on its error stop there, otherwise close the
        file if this reader owns one. Nothing records that the reader is
        closed: a second Close runs the same steps again. */
    method Close() returns (e: Option<Error>)
      requires Valid()
      modifies decompressor.closer, fileCloser
      ensures Valid()
      ensures decompressor.closer != null ==>
                decompressor.closer.closeCount == old(decompressor.closer.closeCount) + 1
      ensures decompressor.CloseResult().Some? ==>
                e == decompressor.CloseResult()
                && (fileCloser != null ==> fileCloser.closeCount == old(fileCloser.closeCount))
      ensures decompressor.CloseResult().None? && fileCloser == null ==> e == None
      ensures decompressor.CloseResult().None? && fileCloser != null ==>
                e == fileCloser.result && fileCloser.closeCount == old(fileCloser.closeCount) + 1
      // The zstd decoder's own Close sits behind io.NopCloser and is never reached.
      ensures decompressor.closer == null && decompressor.decoder != null && decompressor.decoder.closer != null ==>
                decompressor.decoder.closer.closeCount == old(decompressor.decoder.closer.closeCount)
    {
      e := decompressor.Close();
      if e.Some? {
        return;
      }
      if fileCloser != null {
        e := fileCloser.Close();
      }
    }
  }

  // -----------------------------------------------------------------------
  // Construction.

  /** How a decompressor is made from the buffered source. */
  datatype Wiring = PassThrough | Decode(behavior: DecoderBehavior, closable: bool)

  /** The outcome of construction on a source with `pending` bytes ahead
      and `end` after them. */
  datatype Construction = Build(ztype: ZType, wiring: Wiring) | Refuse(error: Error)

  /** What construction yields, stated over the stream ahead of the source
      and the format its leading bytes announce. */
  function Plan(pending: seq<bv8>, end: Error, codecs: Codecs): (p: Construction)
    // A source shorter than the window is passed through on io.EOF; any
    // other error ends construction.
    ensures |pending| < MagicBytePrefixSize ==>
              p == if end == EOF then Build(ZNone, PassThrough) else Refuse(end)
    // Otherwise the tag is the detected format and no read error matters.
    ensures |pending| >= MagicBytePrefixSize && p.Build? ==> p.ztype == ZTypeFromBytes(pending)
    ensures |pending| >= MagicBytePrefixSize ==>
              (p.Refuse? <==> (ZTypeFromBytes(pending) == ZGzip && codecs.gzip.Rejected?)
                              || (ZTypeFromBytes(pending) == ZZstd && codecs.zstd.Rejected?))
    ensures |pending| >= MagicBytePrefixSize && p.Refuse? ==>
              p.error == if ZTypeFromBytes(pending) == ZGzip then codecs.gzip.error else codecs.zstd.error
    // Only none and zip pass raw bytes through; only gzip's Close is reached.
    ensures p.Build? ==> (p.wiring.PassThrough? <==> p.ztype == ZNone || p.ztype == ZZip)
    ensures p.Build? && p.ztype == ZBzip2 ==> p.wiring == Decode(codecs.bzip2, false)
    ensures p.Build? && p.ztype == ZGzip ==> codecs.gzip.Ready? && p.wiring == Decode(codecs.gzip.behavior, true)
    ensures p.Build? && p.ztype == ZZstd ==> codecs.zstd.Ready? && p.wiring == Decode(codecs.zstd.behavior, false)
  {
    if |pending| < MagicBytePrefixSize then
      if end == EOF then Build(ZNone, PassThrough) else Refuse(end)
    else
      match ZTypeFromBytes(pending)
      case ZBzip2 => Build(ZBzip2, Decode(codecs.bzip2, false))
      case ZGzip =>
        (match codecs.gzip
         case Ready(b) => Build(ZGzip, Decode(b, true))
         case Rejected(e) => Refuse(e))
      case ZZip => Build(ZZip, PassThrough)
      case ZZstd =>
        (match codecs.zstd
         case Ready(b) => Build(ZZstd, Decode(b, false))
         case Rejected(e) => Refuse(e))
      case ZNone => Build(ZNone, PassThrough)
  }

  /** The decompressor `d` is the one `w` describes, freshly set up. */
  ghost predicate Realizes(d: ReadCloser, w: Wiring)
    reads d.decoder, d.closer
  {
    match w
    case PassThrough => d.decoder == null
    case Decode(b, closable) =>
      && d.decoder != null
      && d.decoder.output == b.output && d.decoder.end == b.end && d.decoder.delivered == 0
      && (closable <==> d.closer != null)
      && (d.closer != null ==> d.closer.result == b.closeResult && d.closer.closeCount == 0)
  }

  /** Peek at the first bytes without reading them, pick the decompressor
      and build the reader around the same buffered source. */
  method FromBufferedReader(uncompressed: BufferedSource, codecs: Codecs) returns (r: Result<ZReader>)
    requires uncompressed.Valid()
    ensures uncompressed.pos == old(uncompressed.pos)
    ensures var p := Plan(uncompressed.Pending(), uncompressed.end, codecs);
            && (p.Refuse? ==> r == Failure(p.error))
            && (p.Build? ==>
                  && r.Ok? && fresh(r.value) && fresh(r.value.decompressor)
                  && (r.value.decompressor.decoder != null ==> fresh(r.value.decompressor.decoder))
                  && (r.value.decompressor.decoder != null && r.value.decompressor.decoder.closer != null ==>
                        fresh(r.value.decompressor.decoder.closer))
                  && r.value.Valid() && r.value.ztype == p.ztype && r.value.fileCloser == null
                  && r.value.decompressor.src == uncompressed
                  && Realizes(r.value.decompressor, p.wiring))
  {
    ghost var pending := uncompressed.Pending();
    var peek := uncompressed.Peek(MagicBytePrefixSize);
    if peek.Failure? {
      if peek.error == EOF {
        var d := new ReadCloser.NopCloser(uncompressed, null);
        var z := new ZReader(ZNone, d);
        r := Ok(z);
      } else {
        r := Failure(peek.error);
      }
      return;
    }
    var magicBlock := peek.value;
    DetectionSeesOnlyWindow(pending);
    assert Window(pending) == magicBlock;
    var t := ZTypeFromBytes(magicBlock);
    if t == ZBzip2 {
      var dec := new Decoder(ZBzip2, uncompressed, codecs.bzip2, false);
      var d := new ReadCloser.NopCloser(uncompressed, dec);
      var z := new ZReader(ZBzip2, d);
      r := Ok(z);
    } else if t == ZGzip {
      var dec := NewDecoder(ZGzip, uncompressed, codecs.gzip, true);
      if dec.Failure? {
        r := Failure(dec.error);
        return;
      }
      var d := new ReadCloser.Closing(dec.value);
      var z := new ZReader(ZGzip, d);
      r := Ok(z);
    } else if t == ZZip {
      var d := new ReadCloser.NopCloser(uncompressed, null);
      var z := new ZReader(ZZip, d);
      r := Ok(z);
    } else if t == ZZstd {
      var dec := NewDecoder(ZZstd, uncompressed, codecs.zstd, true);
      if dec.Failure? {
        r := Failure(dec.error);
        return;
      }
      var d := new ReadCloser.NopCloser(uncompressed, dec.value);
      var z := new ZReader(ZZstd, d);
      r := Ok(z);
    } else {
      var d := new ReadCloser.NopCloser(uncompressed, null);
      var z := new ZReader(ZNone, d);
      r := Ok(z);
    }
  }

  /** Wrap a caller's reader: the reader does not own it. Every byte of the
      stream, magic bytes included, is still ahead of the decompressor. */
  method NewReader(input: Stream, codecs: Codecs) returns (r: Result<ZReader>)
    ensures var p := Plan(input.bytes, input.end, codecs);
            && (p.Refuse? ==> r == Failure(p.error))
            && (p.Build? ==>
                  && r.Ok? && fresh(r.value) && fresh(r.value.decompressor.src)
                  && (r.value.decompressor.decoder != null && r.value.decompressor.decoder.closer != null ==>
                        fresh(r.value.decompressor.decoder.closer))
                  && r.value.Valid() && r.value.ztype == p.ztype && r.value.fileCloser == null
                  && r.value.decompressor.src.Pending() == input.bytes
                  && r.value.decompressor.src.end == input.end
                  && Realizes(r.value.decompressor, p.wiring))
  {
    var buffered := new BufferedSource(input);
    r := FromBufferedReader(buffered, codecs);
  }

  /** Open a file (the outcome of opening it is given as `opening`) and build a reader that
      owns it. When construction fails, the file is closed before the error
      is returned; only a built reader holds the file. */
  method Open(opening: Result<File>, codecs: Codecs) returns (r: Result<ZReader>)
    modifies if opening.Ok? then {opening.value.handle} else {}
    ensures opening.Failure? ==> r == Failure(opening.error)
    ensures opening.Ok? ==>
              var file := opening.value;
              var p := Plan(file.contents.bytes, file.contents.end, codecs);
              && (p.Refuse? ==>
                    r == Failure(p.error) && file.handle.closeCount == old(file.handle.closeCount) + 1)
              && (p.Build? ==>
                    && r.Ok? && fresh(r.value) && fresh(r.value.decompressor.src)
                    && (r.value.decompressor.decoder != null && r.value.decompressor.decoder.closer != null ==>
                          fresh(r.value.decompressor.decoder.closer))
                    && r.value.Valid()
                    && r.value.ztype == p.ztype && r.value.fileCloser == file.handle
                    && file.handle.closeCount == old(file.handle.closeCount)
                    && r.value.decompressor.src.Pending() == file.contents.bytes
                    && r.value.decompressor.src.end == file.contents.end
                    && Realizes(r.value.decompressor, p.wiring))
  {
    if opening.Failure? {
      r := Failure(opening.error);
      return;
    }
    var file := opening.value;
    r := NewReader(file.contents, codecs);
    if r.Failure? {
      var _ := file.handle.Close();
      return;
    }
    r.value.fileCloser := file.handle;
  }

  // -----------------------------------------------------------------------
  // Reading a whole stream, as the package's test does with io.ReadAll.

  /** io.ReadAll over the reader with reads of `chunkSize` bytes: every
      pending byte, in order, and no error when the stream ends in io.EOF. */
  method ReadAll(z: ZReader, chunkSize: nat) returns (bytes: seq<bv8>, err: Option<Error>)
    requires z.Valid() && chunkSize > 0
    modifies z.decompressor.src, z.decompressor.decoder
    ensures z.Valid() && z.decompressor.Pending() == []
    ensures bytes == old(z.decompressor.Pending())
    ensures err == if z.decompressor.End() == EOF then None else Some(z.decompressor.End())
  {
    var d := z.decompressor;
    ghost var whole := d.Pending();
    bytes := [];
    while true
      invariant z.Valid()
      invariant bytes + d.Pending() == whole
      decreases |d.Pending()|
    {
      ghost var before := d.Pending();
      var chunk, e := z.Read(chunkSize);
      ghost var rest := d.Pending();
      ReadStepSplits(before, chunkSize, d.End(), chunk, e);
      AppendChunk(bytes, chunk, before, rest, whole);
      bytes := bytes + chunk;
      if e.Some? {
        err := if e.value == EOF then None else e;
        return;
      }
    }
  }

  /** Appending a chunk to what was read keeps "read so far, then still
      pending" equal to the whole stream. */
  lemma AppendChunk(bytes: seq<bv8>, chunk: seq<bv8>, before: seq<bv8>, rest: seq<bv8>, whole: seq<bv8>)
    requires bytes + before == whole && before == chunk + rest
    ensures (bytes + chunk) + rest == whole
    ensures rest == [] ==> bytes + chunk == whole
  {
  }

  /** Wrapping a stream and reading it to the end yields the raw bytes when
      they are passed through and the decoder's output otherwise; a refused
      construction yields its error and nothing else. */
  method ReadAllThroughNewReader(input: Stream, codecs: Codecs, chunkSize: nat)
    returns (bytes: seq<bv8>, err: Option<Error>)
    requires chunkSize > 0
    ensures var p := Plan(input.bytes, input.end, codecs);
            && (p.Refuse? ==> bytes == [] && err == Some(p.error))
            && (p.Build? && p.wiring.PassThrough? ==>
                  bytes == input.bytes && (err == None <==> input.end == EOF))
            && (p.Build? && p.wiring.Decode? ==>
                  bytes == p.wiring.behavior.output
                  && (err == None <==> p.wiring.behavior.end == EOF))
  {
    var r := NewReader(input, codecs);
    if r.Failure? {
      bytes, err := [], Some(r.error);
      return;
    }
    bytes, err := ReadAll(r.value, chunkSize);
  }

  /** The package test's path: open a file and read it to the end. A file
      that cannot be opened or a refused construction yields only its
      error; otherwise the reader yields the raw bytes under pass-through
      and the decoder's output otherwise, and the file stays open. A
      refused construction closes the file once. */
  method ReadAllThroughOpen(opening: Result<File>, codecs: Codecs, chunkSize: nat)
    returns (bytes: seq<bv8>, err: Option<Error>)
    requires chunkSize > 0
    modifies if opening.Ok? then {opening.value.handle} else {}
    ensures opening.Failure? ==> bytes == [] && err == Some(opening.error)
    ensures opening.Ok? ==>
              var file := opening.value;
              var p := Plan(file.contents.bytes, file.contents.end, codecs);
              && (p.Refuse? ==>
                    && bytes == [] && err == Some(p.error)
                    && file.handle.closeCount == old(file.handle.closeCount) + 1)
              && (p.Build? ==> file.handle.closeCount == old(file.handle.closeCount))
              && (p.Build? && p.wiring.PassThrough? ==>
                    bytes == file.contents.bytes && (err == None <==> file.contents.end == EOF))
              && (p.Build? && p.wiring.Decode? ==>
                    bytes == p.wiring.behavior.output
                    && (err == None <==> p.wiring.behavior.end == EOF))
  {
    var r := Open(opening, codecs);
    if r.Failure? {
      bytes, err := [], Some(r.error);
      return;
    }
    bytes, err := ReadAll(r.value, chunkSize);
  }

  /** A three-byte input that begins like gzip is detected as gzip, yet the
      reader passes it through untouched: the four-byte peek meets io.EOF
      before any decoder is chosen. */
  lemma ShortGzipHeaderPassesThrough(codecs: Codecs)
    ensures ZTypeFromBytes([0x1f, 0x8b, 0x08]) == ZGzip
    ensures Plan([0x1f, 0x8b, 0x08], EOF, codecs) == Build(ZNone, PassThrough)
  {
    var s: seq<bv8> := [0x1f, 0x8b, 0x08];
    assert s[..3][0] != MagicBzip2[0] && s[..2] == MagicGzip;
  }
}
