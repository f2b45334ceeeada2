/** The filesystem artifact cache: one framed file per entry, written aside and renamed into place.
    Record encoding and digests are arbitrary functions; only that decoding undoes encoding is used. */
module FileStore {
  import opened Streams
  import opened Options

  const MAGIC: seq<byte> := [0x50, 0x46, 0x57, 0x41, 0x52, 0x54, 0x32, 0x0A]
  const MAX_RECORD := 0x1_0000

  /** A cache file starts with this line. */
  lemma MagicIs(i: nat)
    requires i < 8
    ensures |MAGIC| == 8 && MAGIC[i] as int == "PFWART2\n"[i] as int
  {
  }

  /** Headers by lower-case name. */
  type Header = map<string, seq<string>>

  const SAFE := {"age", "cache-control", "content-disposition", "content-type", "date", "digest", "etag",
                 "last-modified", "vary"}

  function SafeHeaders(h: Header): Header {
    map name | name in h && name in SAFE :: h[name]
  }

  datatype Record<D> = Record(headers: Header, sha256: D, size: int, stored: int, expires: int)

  /** ValidatePut, for digests that are well formed by their type. */
  predicate ValidRecord<D>(r: Record<D>) {
    r.size >= 0 && r.expires > r.stored
  }

  datatype Codec<!D> = Codec(encode: Record<D> -> seq<byte>, decode: seq<byte> -> Option<Record<D>>)

  ghost predicate Inverse<D(!new)>(c: Codec<D>) {
    forall r: Record<D> :: c.decode(c.encode(r)) == Some(r)
  }

  // ---- framing ----

  function BigEndian(n: int): (b: seq<byte>)
    requires 0 <= n < 0x1_0000_0000
    ensures |b| == 4
  {
    [(n / 0x100_0000) as byte, (n / 0x1_0000 % 0x100) as byte, (n / 0x100 % 0x100) as byte, (n % 0x100) as byte]
  }

  function FromBigEndian(b: seq<byte>): (n: int)
    requires |b| == 4
    ensures 0 <= n < 0x1_0000_0000
  {
    b[0] as int * 0x100_0000 + b[1] as int * 0x1_0000 + b[2] as int * 0x100 + b[3] as int
  }

  lemma BigEndianRoundTrip(n: int)
    requires 0 <= n < 0x1_0000_0000
    ensures FromBigEndian(BigEndian(n)) == n
  {
    var a, b := n / 0x1_0000, n / 0x100;
    assert n / 0x100_0000 == a / 0x100 && a == b / 0x100;
  }

  predicate Fits<D>(c: Codec<D>, r: Record<D>) {
    0 < |c.encode(r)| <= MAX_RECORD
  }

  function Frame<D>(c: Codec<D>, r: Record<D>, body: seq<byte>): seq<byte>
    requires Fits(c, r)
  {
    MAGIC + BigEndian(|c.encode(r)|) + c.encode(r) + body
  }

  datatype Loaded<D> = Invalid | Gone | Found(record: Record<D>, body: seq<byte>)

  /** What Get makes of a file's contents. */
  function Parse<D>(c: Codec<D>, file: seq<byte>, now: int): Loaded<D> {
    if |file| < 12 || file[..8] != MAGIC then Invalid
    else
      var n := FromBigEndian(file[8..12]);
      if n == 0 || n > MAX_RECORD || |file| < 12 + n then Invalid
      else
        var record := c.decode(file[12..12 + n]);
        if record.None? || !ValidRecord(record.value) then Invalid
        else if record.value.expires <= now then Gone
        else if |file| != 12 + n + record.value.size then Invalid
        else Found(record.value.(headers := SafeHeaders(record.value.headers)), file[12 + n..])
  }

  lemma SafeTwice(h: Header)
    ensures SafeHeaders(SafeHeaders(h)) == SafeHeaders(h)
  {
  }

  /** Reading a file whose first 12 + n bytes are those of a frame. */
  lemma ParseFramed<D(!new)>(c: Codec<D>, r: Record<D>, file: seq<byte>, now: int)
    requires Inverse(c) && Fits(c, r) && Frame(c, r, []) <= file
    ensures var head := Frame(c, r, []);
      Parse(c, file, now) ==
        if !ValidRecord(r) then Invalid else if r.expires <= now then Gone
        else if |file| != |head| + r.size then Invalid
        else Found(r.(headers := SafeHeaders(r.headers)), file[|head|..])
  {
    var record := c.encode(r);
    var n := |record|;
    BigEndianRoundTrip(n);
    var head := Frame(c, r, []);
    assert head == file[..12 + n];
    assert file[..8] == head[..8] == MAGIC;
    assert file[8..12] == head[8..12] == BigEndian(n);
    assert file[12..12 + n] == head[12..12 + n] == record;
  }

  /** The file is a frame around these record bytes, and what it holds is still valid: what the format promises to find. */
  ghost predicate Holds<D>(c: Codec<D>, file: seq<byte>, now: int, bytes: seq<byte>, record: Record<D>, body: seq<byte>) {
    && 1 <= |bytes| <= 65536 && file == MAGIC + BigEndian(|bytes|) + bytes + body
    && c.decode(bytes) == Some(record) && record.stored < record.expires && now < record.expires && |body| == record.size
  }

  /** The record with its safe headers only. */
  function Stripped<D>(r: Record<D>): Record<D> {
    Record(SafeHeaders(r.headers), r.sha256, r.size, r.stored, r.expires)
  }

  ghost predicate IsEntry<D(!new)>(c: Codec<D>, file: seq<byte>, now: int, found: Record<D>, body: seq<byte>) {
    exists bytes: seq<byte>, record: Record<D> :: Holds(c, file, now, bytes, record, body) && found == Stripped(record)
  }

  /** A file is read back exactly when it is such a frame, as its record with the safe headers and its body. */
  lemma FindsExactlyFrames<D(!new)>(c: Codec<D>, file: seq<byte>, now: int, found: Record<D>, body: seq<byte>)
    ensures Parse(c, file, now) == Found(found, body) <==> IsEntry(c, file, now, found, body)
  {
    if Parse(c, file, now) == Found(found, body) {
      var n := FromBigEndian(file[8..12]);
      var bytes := file[12..12 + n];
      FileIsFrame(file, n);
      assert Holds(c, file, now, bytes, c.decode(bytes).value, body);
    }
    if IsEntry(c, file, now, found, body) {
      var bytes: seq<byte>, record: Record<D> :| Holds(c, file, now, bytes, record, body) && found == Stripped(record);
      FrameParts(bytes, body);
    }
  }

  lemma FileIsFrame(file: seq<byte>, n: nat)
    requires |file| >= 12 + n && file[..8] == MAGIC && n == FromBigEndian(file[8..12]) && n <= MAX_RECORD
    ensures file == MAGIC + BigEndian(n) + file[12..12 + n] + file[12 + n..]
  {
    LengthBytes(file[8..12]);
  }

  /** The length field encodes to what was decoded. */
  lemma LengthBytes(b: seq<byte>)
    requires |b| == 4
    ensures BigEndian(FromBigEndian(b)) == b
  {
    var high, low := b[0] as int * 0x100 + b[1] as int, b[2] as int * 0x100 + b[3] as int;
    var n := FromBigEndian(b);
    assert n == high * 0x1_0000 + low;
    Halves(high, low);
    assert n / 0x100_0000 == high / 0x100 && n / 0x100 % 0x100 == low / 0x100;
  }

  lemma Halves(high: int, low: int)
    requires 0 <= high < 0x1_0000 && 0 <= low < 0x1_0000
    ensures var n := high * 0x1_0000 + low;
      n / 0x1_0000 == high && n % 0x100 == low % 0x100 && n / 0x100 == high * 0x100 + low / 0x100
  {
  }

  lemma FrameParts(bytes: seq<byte>, body: seq<byte>)
    requires |bytes| <= MAX_RECORD
    ensures var file := MAGIC + BigEndian(|bytes|) + bytes + body;
      && |file| == 12 + |bytes| + |body| && file[..8] == MAGIC && FromBigEndian(file[8..12]) == |bytes|
      && file[12..12 + |bytes|] == bytes && file[12 + |bytes|..] == body
  {
    BigEndianRoundTrip(|bytes|);
    var file := MAGIC + BigEndian(|bytes|) + bytes + body;
    assert file[8..12] == BigEndian(|bytes|);
  }

  /** Nothing else that starts or ends like it is read back: every strict prefix and every extension is refused. */
  lemma OnlyTheWholeFile<D(!new)>(c: Codec<D>, r: Record<D>, body: seq<byte>, other: seq<byte>, now: int)
    requires Inverse(c) && Fits(c, r) && |body| == r.size
    requires other < Frame(c, r, body) || Frame(c, r, body) < other
    ensures !Parse(c, other, now).Found?
  {
    var file, head := Frame(c, r, body), Frame(c, r, []);
    assert file == head + body;
    if head <= other {
      ParseFramed(c, r, other, now);
    } else {
      assert other == file[..|other|] == head[..|other|];
      CutHead(c, r, other, now);
    }
  }

  lemma CutHead<D>(c: Codec<D>, r: Record<D>, other: seq<byte>, now: int)
    requires Fits(c, r) && other < Frame(c, r, [])
    ensures Parse(c, other, now) == Invalid
  {
    var n := |c.encode(r)|;
    BigEndianRoundTrip(n);
    var head := Frame(c, r, []);
    if |other| >= 12 {
      assert other == head[..|other|];
      assert other[8..12] == head[8..12] == BigEndian(n);
    }
  }

  // ---- copying the body ----

  /** Copies a body of exactly `size` bytes. It never writes more than that; it succeeds only after writing that many;
      and when the source always makes progress it succeeds exactly if the source holds that many. */
  method CopyExactly(dst: Writer, src: Reader, size: nat, cancelled: nat -> bool) returns (written: nat, ok: bool, checks: nat)
    modifies dst, src
    ensures written <= size && written <= |old(src.rest)| && dst.out == old(dst.out) + old(src.rest)[..written]
    ensures ok ==> written == size
    ensures ok && old(src.stalls) == 0 ==> |old(src.rest)| == size
    ensures (forall k :: 0 <= k < checks ==> !cancelled(k)) && (ok && size > 0 ==> checks >= 1)
    ensures !src.faulty && old(src.stalls) == 0 && dst.reliable && !cancelled(checks) ==> (ok <==> |old(src.rest)| == size)
  {
    written, checks := 0, 0;
    ghost var body := src.rest;
    while written < size
      invariant (forall k :: 0 <= k < checks ==> !cancelled(k)) && (written > 0 ==> checks >= 1)
      invariant written <= size && written <= |body| && src.rest == body[written..]
      invariant dst.out == old(dst.out) + body[..written] && src.stalls <= old(src.stalls)
      decreases |src.rest|
    {
      if cancelled(checks) {
        return written, false, checks;
      }
      checks := checks + 1;
      var want := if size - written < CHUNK then size - written else CHUNK;
      var chunk, readErr := src.Read(want);
      NextChunk(body, written, chunk, src.rest);
      if |chunk| > 0 {
        var count, fine := dst.Write(chunk);
        written := written + count;
        if !fine || count != |chunk| {
          return written, false, checks;
        }
      }
      if readErr != NoError {
        if readErr == EOF && written == size {
          break;
        }
        return written, false, checks;
      }
      if |chunk| == 0 {
        return written, false, checks;
      }
    }
    var extra, err := src.Read(1);
    ok := |extra| == 0 && err != Failed;
  }

  // ---- the store ----

  datatype Request<D> = Request(headers: Header, sha256: D, size: int, stored: int, expires: int)

  function RecordOf<D>(q: Request<D>): Record<D> {
    Record(SafeHeaders(q.headers), q.sha256, q.size, q.stored, q.expires)
  }

  /** Reading back, before it expires, what Put wrote gives the record and the body it was asked to put. */
  lemma RoundTrip<D(!new)>(c: Codec<D>, q: Request<D>, body: seq<byte>, now: int)
    requires Inverse(c) && Fits(c, RecordOf(q)) && ValidRecord(RecordOf(q)) && |body| == q.size && now < q.expires
    ensures Parse(c, Frame(c, RecordOf(q), body), now) == Found(RecordOf(q), body)
  {
    var r := RecordOf(q);
    var file, head := Frame(c, r, body), Frame(c, r, []);
    assert file == head + body;
    SafeTwice(q.headers);
    ParseFramed(c, r, file, now);
  }

  predicate ValidKey(key: string) {
    |key| == 64 && forall i :: 0 <= i < |key| ==> '0' <= key[i] <= '9' || 'a' <= key[i] <= 'f'
  }

  /** Sixty-four hexadecimal digits, letters in lower case. */
  ghost predicate HexKey(key: string) {
    |key| == 64 && forall i :: 0 <= i < |key| ==> IsDigit(key[i])
  }

  ghost predicate IsDigit(c: char) {
    48 <= c as int <= 57 || 97 <= c as int <= 102
  }

  lemma KeysAre(key: string)
    ensures ValidKey(key) <==> HexKey(key)
  {
    assert forall i :: 0 <= i < |key| ==> (IsDigit(key[i]) <==> '0' <= key[i] <= '9' || 'a' <= key[i] <= 'f');
  }

  /** What is stored of the headers describes the body and its freshness; nothing that belongs to one client is. */
  lemma SafeHeadersAre(h: Header, name: string)
    ensures name in SafeHeaders(h) <==>
      && name in h
      && (name == "age" || name == "cache-control" || name == "content-disposition" || name == "content-type" || name == "date"
          || name == "digest" || name == "etag" || name == "last-modified" || name == "vary")
    ensures name in SafeHeaders(h) ==> SafeHeaders(h)[name] == h[name]
  {
  }

  /** The answer of the store for a key. */
  ghost function Answer<D>(c: Codec<D>, files: map<string, seq<byte>>, key: string, now: int): Loaded<D> {
    if !ValidKey(key) then Invalid else if key !in files then Gone else Parse(c, files[key], now)
  }

  /** With the entry put, its key answers with the record and body put until it expires and with nothing from then on, and
      every other key answers as before. */
  lemma PutThenGet<D(!new)>(c: Codec<D>, files: map<string, seq<byte>>, key: string, q: Request<D>, body: seq<byte>)
    requires Inverse(c) && ValidKey(key) && Fits(c, RecordOf(q)) && ValidRecord(RecordOf(q)) && |body| == q.size
    ensures var after := files[key := Frame(c, RecordOf(q), body)];
      forall k, now :: Answer(c, after, k, now) ==
        if k != key then Answer(c, files, k, now) else if q.expires <= now then Gone else Found(RecordOf(q), body)
  {
    var file := Frame(c, RecordOf(q), body);
    assert Frame(c, RecordOf(q), []) + body == file;
    forall now ensures Parse(c, file, now) == if q.expires <= now then Gone else Found(RecordOf(q), body) {
      if now < q.expires {
        RoundTrip(c, q, body, now);
      } else {
        ParseFramed(c, RecordOf(q), file, now);
      }
    }
  }

  class FileSystemStore<!D(==, !new)> {
    var files: map<string, seq<byte>>
    const codec: Codec<D>
    const sha: seq<byte> -> D

    constructor (codec: Codec<D>, sha: seq<byte> -> D)
      ensures files == map[] && this.codec == codec && this.sha == sha
    {
      this.codec, this.sha, files := codec, sha, map[];
    }

    /** Writes an entry aside and renames it into place. It succeeds only for a body of the declared size and digest, and
        then Get answers with it; after every failure Get answers as before. `renames` is false when the file cannot be
        synced, closed or renamed. */
    method Put(key: string, q: Request<D>, body: Reader, temporary: Writer, renames: bool, cancelled: nat -> bool)
        returns (ok: bool)
      requires temporary.lawful && temporary.out == []
      modifies this`files, body, temporary
      ensures !ok ==> files == old(files)
      ensures ok ==>
        && q.size >= 0 && q.size <= |old(body.rest)| && ValidKey(key) && ValidRecord(RecordOf(q)) && Fits(codec, RecordOf(q))
        && var taken := old(body.rest)[..q.size];
           && files == old(files)[key := Frame(codec, RecordOf(q), taken)] && sha(taken) == q.sha256
      ensures ok && Inverse(codec) ==>
        forall k, now :: Answer(codec, files, k, now) ==
          if k != key then Answer(codec, old(files), k, now) else if q.expires <= now then Gone
          else Found(RecordOf(q), old(body.rest)[..q.size])
      ensures ok && old(body.stalls) == 0 ==> |old(body.rest)| == q.size
      ensures ok ==> renames && (q.size > 0 ==> !cancelled(0))
      ensures !body.faulty && old(body.stalls) == 0 && temporary.reliable && renames && (forall k :: !cancelled(k)) ==>
        (ok <==>
          && HexKey(key) && q.stored < q.expires && 1 <= |codec.encode(RecordOf(q))| <= 65536
          && |old(body.rest)| == q.size && sha(old(body.rest)) == q.sha256)
    {
      hide Parse, Answer, Inverse, ValidKey, HexKey;
      KeysAre(key);
      var record := RecordOf(q);
      if !ValidKey(key) || !ValidRecord(record) || !Fits(codec, record) {
        return false;
      }
      var encoded := codec.encode(record);
      var head := MAGIC + BigEndian(|encoded|) + encoded;
      ok := WriteHead(temporary, MAGIC, BigEndian(|encoded|), encoded);
      if !ok {
        return;
      }
      var written: nat;
      ghost var source := body.rest;
      var checks: nat;
      written, ok, checks := CopyExactly(temporary, body, q.size, cancelled);
      if !ok {
        return false;
      }
      assert temporary.out == head + source[..written];
      assert |source| == q.size ==> source[..written] == source;
      assert temporary.out[|head|..] == source[..written];
      if sha(temporary.out[|head|..]) != q.sha256 || !renames {
        return false;
      }
      files := files[key := temporary.out];
      if Inverse(codec) {
        PutThenGet(codec, old(files), key, q, source[..q.size]);
      }
    }

    /** Finds exactly the entries whose file is a frame around a valid, unexpired record and a body of its size, and
        returns that record with its safe headers and that body; an absent or expired entry is gone. */
    method Get(key: string, now: int) returns (found: Loaded<D>)
      ensures found == Answer(codec, files, key, now)
      ensures forall r, b :: found == Found(r, b) <==> HexKey(key) && key in files && IsEntry(codec, files[key], now, r, b)
      ensures if !HexKey(key) then found == Invalid else key !in files ==> found == Gone
    {
      KeysAre(key);
      if !ValidKey(key) {
        return Invalid;
      }
      if key !in files {
        return Gone;
      }
      forall r, b ensures Parse(codec, files[key], now) == Found(r, b) <==> IsEntry(codec, files[key], now, r, b) {
        FindsExactlyFrames(codec, files[key], now, r, b);
      }
      return Parse(codec, files[key], now);
    }
  }

  method WriteHead(dst: Writer, magic: seq<byte>, length: seq<byte>, record: seq<byte>) returns (ok: bool)
    requires dst.lawful && dst.out == []
    modifies dst
    ensures ok ==> dst.out == magic + length + record
    ensures dst.reliable ==> ok
  {
    var n: nat;
    n, ok := dst.Write(magic);
    if ok {
      n, ok := dst.Write(length);
      if ok {
        n, ok := dst.Write(record);
      }
    }
  }
}
