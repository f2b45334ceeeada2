/** Byte streams as the proxy meets them: readers that split a body into arbitrary reads
    and writers that may take only part of what they are given. */
module Streams {
  newtype byte = x: int | 0 <= x < 256

  /** The size of every read buffer. */
  const CHUNK := 0x8000

  datatype ReadError = NoError | EOF | Failed

  /** A source of bytes. `rest` is what it has not delivered yet, and `stalls` bounds how many more
      times it may return no bytes and no error. */
  class Reader {
    var rest: seq<byte>
    var stalls: nat
    const faulty: bool  // the source may fail before its end

    constructor (body: seq<byte>, stalls: nat, faulty: bool)
      ensures this.rest == body && this.stalls == stalls && this.faulty == faulty
    {
      this.rest, this.stalls, this.faulty := body, stalls, faulty;
    }

    /** One read: any prefix of the rest that fits, with or without an error. */
    method Read(capacity: nat) returns (chunk: seq<byte>, err: ReadError)
      modifies this
      ensures chunk + rest == old(rest) && |chunk| <= capacity
      ensures err == EOF ==> rest == []
      ensures err == Failed ==> faulty
      ensures stalls <= old(stalls)
      ensures err == NoError && chunk == [] && capacity > 0 ==> stalls < old(stalls)
    {
      var n: nat :| n <= capacity && n <= |rest|;
      var fail: bool, end: bool := *, *;
      chunk, rest := rest[..n], rest[n..];
      err := NoError;
      if faulty && fail {
        err := Failed;
      } else if rest == [] && (stalls == 0 || end) {
        err := EOF;
      } else if n == 0 && stalls > 0 {
        stalls := stalls - 1;
      } else if n == 0 && capacity > 0 {
        chunk, rest := rest[..1], rest[1..];
      }
    }
  }

  /** A destination of bytes. A lawful writer reports every short write as an error,
      as io.Writer demands; a reliable one never falls short. */
  class Writer {
    var out: seq<byte>
    const lawful: bool
    const reliable: bool

    constructor (lawful: bool, reliable: bool)
      ensures out == [] && this.lawful == lawful && this.reliable == reliable
    {
      this.out, this.lawful, this.reliable := [], lawful, reliable;
    }

    method Write(p: seq<byte>) returns (n: nat, ok: bool)
      modifies this
      ensures n <= |p| && out == old(out) + p[..n]
      ensures lawful && n < |p| ==> !ok
      ensures reliable ==> ok && n == |p|
    {
      n, ok := |p|, true;
      if !reliable {
        n :| n <= |p|;
        ok := *;
        if lawful && n < |p| {
          ok := false;
        }
      }
      out := out + p[..n];
    }
  }

  /** The next read of a body of which `at` bytes have been read. */
  lemma NextChunk(body: seq<byte>, at: nat, chunk: seq<byte>, rest: seq<byte>)
    requires at <= |body| && chunk + rest == body[at..]
    ensures at + |chunk| <= |body| && rest == body[at + |chunk|..]
    ensures chunk == body[at..at + |chunk|]
    ensures forall n: nat :: n <= |chunk| ==> body[..at] + chunk[..n] == body[..at + n]
  {
    assert body == body[..at] + (chunk + rest);
    assert rest == (chunk + rest)[|chunk|..];
  }

  /** What a stream holds once it takes n bytes of that read. */
  lemma Taken(front: seq<byte>, body: seq<byte>, at: nat, chunk: seq<byte>, n: nat)
    requires at + |chunk| <= |body| && n <= |chunk| && chunk == body[at..at + |chunk|]
    ensures front + body[..at] + chunk[..n] == front + body[..at + n]
  {
    assert body[..at] + chunk[..n] == body[..at + n];
  }
}
