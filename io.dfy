/** The pieces of Go's io and bufio packages the reader relies on: errors
    with io.EOF told apart, readers seen as the byte streams they deliver,
    a buffered source that can peek, and things that can be closed. */
module Io {

  datatype Option<T> = None | Some(value: T)

  /** An error as the reader sees it: io.EOF, or any other error, which the
      reader only passes on. */
  datatype Error = EOF | IoError(code: nat)

  datatype Result<T> = Ok(value: T) | Failure(error: Error)

  /** An io.Reader over its whole life: the bytes it delivers and the error
      it reports once they are used up (io.EOF, or a read error). */
  datatype Stream = Stream(bytes: seq<bv8>, end: Error)

  function Min(a: nat, b: nat): nat {
    if a <= b then a else b
  }

  /** One call of `Read(p)` with `len(p) == n` on a reader whose remaining
      bytes are `pending`: the bytes delivered and the error reported.
      A short read is not an error; the end is only reported once nothing
      is left. */
  function ReadStep(pending: seq<bv8>, n: nat, end: Error): (r: (seq<bv8>, Option<Error>))
    ensures |r.0| <= n && r.0 <= pending
    ensures r.1.Some? <==> n > 0 && pending == []
    ensures r.1.Some? ==> r.1.value == end
    ensures n > 0 && pending != [] ==> |r.0| > 0
    ensures |r.0| == Min(n, |pending|)
  {
    if n > 0 && pending == [] then ([], Some(end))
    else (pending[..Min(n, |pending|)], None)
  }

  /** What one read step leaves: the delivered bytes followed by the rest
      are what was pending; an error means nothing was pending. */
  lemma ReadStepSplits(pending: seq<bv8>, n: nat, end: Error, chunk: seq<bv8>, e: Option<Error>)
    requires n > 0 && (chunk, e) == ReadStep(pending, n, end)
    ensures pending == chunk + pending[|chunk|..]
    ensures e.Some? ==> pending == [] && e == Some(end)
    ensures e.None? ==> |pending[|chunk|..]| < |pending|
  {
    assert chunk == pending[..|chunk|];
  }

  /** A bufio.Reader over a stream: `pos` bytes of `data` have been read. */
  class BufferedSource {
    const data: seq<bv8>
    const end: Error
    var pos: nat

    ghost predicate Valid()
      reads this
    {
      pos <= |data|
    }

    /** The bytes not read yet. */
    ghost function Pending(): seq<bv8>
      reads this
      requires Valid()
    {
      data[pos..]
    }

    /** bufio.NewReader: nothing read yet. */
    constructor (s: Stream)
      ensures Valid() && data == s.bytes && end == s.end && pos == 0
      ensures Pending() == s.bytes
    {
      data, end, pos := s.bytes, s.end, 0;
    }

    /** bufio.Reader.Peek: the next `n` bytes, without reading them. When
        fewer remain, the stream's end error (io.EOF or a read error). */
    method Peek(n: nat) returns (r: Result<seq<bv8>>)
      requires Valid()
      ensures r.Ok? <==> n <= |Pending()|
      ensures r.Ok? ==> r.value == Pending()[..n] && |r.value| == n
      ensures r.Failure? ==> r.error == end
    {
      if pos + n <= |data| {
        r := Ok(data[pos..pos + n]);
      } else {
        r := Failure(end);
      }
    }

    /** bufio.Reader.Read with a buffer of `n` bytes. */
    method Read(n: nat) returns (chunk: seq<bv8>, err: Option<Error>)
      requires Valid()
      modifies this
      ensures Valid()
      ensures (chunk, err) == ReadStep(old(Pending()), n, end)
      ensures Pending() == old(Pending())[|chunk|..]
    {
      if n > 0 && pos == |data| {
        chunk, err := [], Some(end);
      } else {
        var k := Min(n, |data| - pos);
        assert data[pos..pos + k] == Pending()[..k];
        chunk, err := data[pos..pos + k], None;
        pos := pos + k;
      }
    }
  }

  /** An io.Closer whose effect the reader cannot see: closing it is
      counted, and it reports the same outcome each time. */
  class Closer {
    var closeCount: nat
    const result: Option<Error>

    constructor (result: Option<Error>)
      ensures closeCount == 0 && this.result == result
    {
      closeCount := 0;
      this.result := result;
    }

    method Close() returns (e: Option<Error>)
      modifies this
      ensures closeCount == old(closeCount) + 1 && e == result
    {
      closeCount := closeCount + 1;
      e := result;
    }
  }
}
