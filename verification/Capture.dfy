/** Bodies on their way through the proxy: streamed to the client while a bounded copy is captured for the
    cache, and staged from the cache before a hit is served. Digests come from an arbitrary function. */
module Capture {
  import opened Streams
  import opened Options
  import Text

  function Least(a: int, b: int): int {
    if a < b then a else b
  }

  /** The spool keeps at most `maximum` bytes of what it is offered, and hashes what it keeps. */
  class CaptureSpool {
    const file: Writer
    const maximum: nat
    var hashed: seq<byte>
    var size: nat
    var overflow: bool
    var failed: bool
    ghost var offered: seq<byte>

    constructor (file: Writer, maximum: nat)
      requires file.out == []
      ensures Valid() && this.file == file && this.maximum == maximum && offered == [] && !failed
    {
      this.file, this.maximum := file, maximum;
      hashed, size, overflow, failed, offered := [], 0, false, false, [];
    }

    /** The spool holds a prefix of what it was offered: all of it unless it failed or overflowed,
        and it overflows exactly when it is offered more than the maximum. */
    ghost predicate Valid()
      reads this, file
    {
      && file.out == hashed && size == |hashed| <= maximum && hashed <= offered
      && (!failed && !overflow ==> hashed == offered)
      && (!failed ==> (overflow <==> |offered| > maximum))
    }

    method Capture(body: seq<byte>)
      requires Valid()
      modifies this, file
      ensures Valid() && offered == old(offered) + body
      ensures file.reliable && !old(failed) ==> !failed
    {
      offered := offered + body;
      if failed || overflow || |body| == 0 {
        return;
      }
      var allowed := Least(|body|, maximum - size);
      if allowed > 0 {
        var written, ok := file.Write(body[..allowed]);
        assert body[..allowed][..written] == body[..written];
        hashed, size := hashed + body[..written], size + written;
        if !ok || written != allowed {
          failed := true;
          return;
        }
      }
      if allowed < |body| {
        overflow := true;
      }
    }
  }

  datatype StreamError = Streamed | ReadFailed | WriteFailed | NoProgress

  /** Sends one chunk and offers the spool the part that was taken. */
  method Forward(dst: Writer, spool: CaptureSpool, chunk: seq<byte>) returns (written: nat, ok: bool)
    requires dst != spool.file && spool.Valid()
    modifies dst, spool, spool.file
    ensures spool.Valid() && written <= |chunk|
    ensures dst.out == old(dst.out) + chunk[..written] && spool.offered == old(spool.offered) + chunk[..written]
    ensures dst.reliable ==> ok && written == |chunk|
    ensures spool.file.reliable && !old(spool.failed) ==> !spool.failed
  {
    written, ok := dst.Write(chunk);
    if written > 0 {
      spool.Capture(chunk[..written]);
    }
  }

  /** Sends src to dst; the spool is offered exactly the bytes dst took. */
  method StreamAndCapture(dst: Writer, src: Reader, spool: CaptureSpool) returns (err: StreamError)
    requires dst != spool.file && spool.Valid()
    modifies dst, src, spool, spool.file
    ensures spool.Valid()
    ensures old(dst.out) <= dst.out && spool.offered == old(spool.offered) + dst.out[|old(dst.out)|..]
    ensures dst.out <= old(dst.out) + old(src.rest)
    ensures err == Streamed ==> dst.out == old(dst.out) + old(src.rest) && src.rest == []
    ensures !src.faulty && old(src.stalls) == 0 && dst.reliable ==> err == Streamed
    ensures spool.file.reliable && !old(spool.failed) ==> !spool.failed
  {
    hide CaptureSpool.Valid;
    ghost var body, front, offered := src.rest, dst.out, spool.offered;
    ghost var at: nat := 0;
    assert body[..0] == [] && front + [] == front && offered + [] == offered;
    while true
      invariant spool.Valid() && at <= |body|
      invariant dst.out == front + body[..at] && spool.offered == offered + body[..at]
      invariant src.rest == body[at..] && src.stalls <= old(src.stalls)
      invariant spool.file.reliable && !old(spool.failed) ==> !spool.failed
      decreases |src.rest|
    {
      var chunk, readErr := src.Read(CHUNK);
      NextChunk(body, at, chunk, src.rest);
      if |chunk| > 0 {
        var written, ok := Forward(dst, spool, chunk);
        Taken(front, body, at, chunk, written);
        Taken(offered, body, at, chunk, written);
        at := at + written;
        if !ok || written != |chunk| {
          return WriteFailed;
        }
      }
      if readErr == EOF {
        assert body[..at] == body;
        return Streamed;
      } else if readErr == Failed {
        return ReadFailed;
      }
      if |chunk| == 0 {
        return NoProgress;
      }
    }
  }

  /** What the background store is asked to put. */
  datatype PutRequest<D> = PutRequest(body: seq<byte>, size: nat, digest: D)

  /** Serves a cacheable response. Whatever the pattern of partial reads and writes, a put is requested only for the
      complete upstream body, sent whole to the client, with its own size and digest, within the limit; a longer body is
      still sent whole. `seekable` and `expired` stand for the two checks made after streaming. */
  method ServeAndStore<D>(dst: Writer, src: Reader, temporary: Writer, maximum: nat, sha: seq<byte> -> D,
                          seekable: bool, expired: bool) returns (err: StreamError, put: Option<PutRequest<D>>)
    requires dst != temporary && temporary.out == []
    modifies dst, src, temporary
    ensures put.Some? ==>
      var body := old(src.rest);
      && dst.out == old(dst.out) + body && put == Some(PutRequest(body, |body|, sha(body)))
      && |body| <= maximum && temporary.out == body
    ensures err == Streamed ==> dst.out == old(dst.out) + old(src.rest)
    ensures !src.faulty && old(src.stalls) == 0 && dst.reliable && temporary.reliable && seekable && !expired ==>
      err == Streamed && (put.Some? <==> |old(src.rest)| <= maximum)
    ensures |temporary.out| <= maximum
  {
    var spool := new CaptureSpool(temporary, maximum);
    put := None;
    err := StreamAndCapture(dst, src, spool);
    assert err == Streamed ==> dst.out[|old(dst.out)|..] == old(src.rest);
    if err != Streamed || spool.failed || spool.overflow || !seekable || expired {
      return;
    }
    assert spool.offered == old(src.rest);
    put := Some(PutRequest(temporary.out, spool.size, sha(spool.hashed)));
  }

  // ---- staging a hit ----

  datatype CopyError = Copied | Cancelled | TooLarge | BadRead | ShortWrite | Stalled

  /** Copies at most `maximum` bytes, hashing what it writes. */
  method CopyBounded(dst: Writer, src: Reader, maximum: nat, cancelled: nat -> bool)
      returns (written: nat, hashed: seq<byte>, err: CopyError, checks: nat)
    modifies dst, src
    ensures written <= maximum && written <= |old(src.rest)| && dst.out == old(dst.out) + old(src.rest)[..written]
    ensures err == Copied ==> written == |old(src.rest)| && hashed == old(src.rest)
    ensures (forall k :: 0 <= k < checks ==> !cancelled(k)) && (err == Cancelled ==> cancelled(checks))
    ensures err != Cancelled ==> checks >= 2
    ensures !src.faulty && old(src.stalls) == 0 && dst.reliable && err != Cancelled ==>
      err == if |old(src.rest)| <= maximum then Copied else TooLarge
  {
    written, hashed, checks := 0, [], 0;
    ghost var body := src.rest;
    while true
      invariant forall k :: 0 <= k < checks ==> !cancelled(k)
      invariant written <= maximum && written <= |body| && src.rest == body[written..]
      invariant dst.out == old(dst.out) + body[..written] && hashed == body[..written]
      invariant src.stalls <= old(src.stalls)
      decreases |src.rest|
    {
      if cancelled(checks) {
        return written, hashed, Cancelled, checks;
      }
      checks := checks + 1;
      var chunk, readErr := src.Read(CHUNK);
      NextChunk(body, written, chunk, src.rest);
      if cancelled(checks) {
        return written, hashed, Cancelled, checks;
      }
      checks := checks + 1;
      if |chunk| > 0 {
        var allowed := Least(|chunk|, maximum - written);
        if allowed > 0 {
          var count, ok := dst.Write(chunk[..allowed]);
          assert chunk[..allowed][..count] == chunk[..count];
          assert old(dst.out) + body[..written] + chunk[..count] == old(dst.out) + (body[..written] + chunk[..count]);
          written := written + count;
          if !ok || count != allowed {
            return written, hashed, ShortWrite, checks;
          }
          hashed := hashed + chunk[..allowed];
        }
        if allowed < |chunk| {
          return written, hashed, TooLarge, checks;
        }
      }
      if readErr != NoError {
        return written, hashed, if readErr == EOF then Copied else BadRead, checks;
      }
      if |chunk| == 0 {
        return written, hashed, Stalled, checks;
      }
    }
  }

  /** A cached object as its store returned it; None is the zero time. */
  datatype Cached = Cached(hasBody: bool, size: int, sha256: string, stored: Option<int>, expires: Option<int>)

  /** A digest in hexadecimal, in either case. */
  predicate ValidDigest(s: string) {
    |s| == 64 && forall i :: 0 <= i < |s| ==> Text.HexValue(s[i]).Some?
  }

  predicate ValidEntry(e: Cached) {
    && e.hasBody && e.size >= 0 && ValidDigest(e.sha256)
    && e.stored.Some? && e.expires.Some? && e.expires.value > e.stored.value
  }

  predicate Expired(e: Cached, now: int)
    requires e.expires.Some?
  {
    e.expires.value <= now
  }

  /** The record is complete and well formed, ends after it begins and after now, and names this body: its length, and its
      digest digit by digit. */
  ghost predicate Vouches(e: Cached, body: seq<byte>, sha: seq<byte> -> string, now: int) {
    && e.hasBody && e.stored.Some? && e.expires.Some? && e.stored.value < e.expires.value && now < e.expires.value
    && |body| == e.size && |e.sha256| == 64 && Text.SameDigits(sha(body), e.sha256)
  }

  lemma DigitsAreValid(s: string, t: string)
    ensures Text.SameDigits(s, t) && |t| == 64 ==> ValidDigest(t)
  {
  }

  /** A hit is served only from staged bytes whose length and digest are those of a valid record; the staged file never
      outgrows the limit; and with a sound store a valid, intact, unexpired object within the limit is always a hit. */
  method LoadCached(entry: Cached, src: Reader, temporary: Writer, maximum: nat, sha: seq<byte> -> string,
                    now: int, later: int, cancelled: nat -> bool) returns (hit: bool)
    requires temporary.out == [] && now <= later
    modifies src, temporary
    ensures |temporary.out| <= maximum
    ensures hit ==> !cancelled(0) && !cancelled(1)
    ensures hit ==> temporary.out == old(src.rest) && Vouches(entry, temporary.out, sha, later)
    ensures !src.faulty && old(src.stalls) == 0 && temporary.reliable && (forall k :: !cancelled(k)) ==>
      (hit <==> Vouches(entry, old(src.rest), sha, later) && |old(src.rest)| <= maximum)
  {
    hide Text.ToLower, Text.HexValue, Text.SameDigits;
    ghost var source := src.rest;
    DigitsAreValid(sha(source), entry.sha256);
    if !ValidEntry(entry) || Expired(entry, now) || entry.size > maximum {
      return false;
    }
    ghost var body := src.rest;
    var written, hashed, err, checks := CopyBounded(temporary, src, maximum, cancelled);
    assert err == Copied ==> body[..written] == body;
    Text.FoldsExactlyDigits(sha(hashed), entry.sha256);
    hit := err == Copied && written == entry.size && Text.ToLower(sha(hashed)) == Text.ToLower(entry.sha256)
      && !Expired(entry, later);
  }
}
