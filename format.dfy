/** The container format that `encryptFile` writes and `decryptFile` reads
 *  (encryption.go), as functions on byte strings:
 *
 *    header  = nonce (NONCE_SIZE bytes) || buffer_size (u32 LE)
 *    records = (u32 LE length of the ciphertext || the ciphertext)*
 *
 *  `Frame` is what the encoder produces for a given chunking of the
 *  plaintext, `Decode` is what the decoder produces for a given file, and the
 *  lemmas relate the two.
 */
module Format {
  import opened Binary
  import opened Aead

  const HEADER_SIZE: nat := NONCE_SIZE + 4

  /** The ways the core can fail.  CipherInit stands for the four key-setup
   *  returns of encryption.go (lines 23, 29, 105, 110); RecordTooLong stands
   *  for the slice panic at line 158; the others are the decoder's read and
   *  open failures.  Returns for I/O errors have no constructor. */
  datatype Error =
    | CipherInit      // aes.NewCipher or cipher.NewGCM rejected the key
    | ReadNonce       // the nonce read hit end of file
    | ReadBufferSize  // fewer than 4 bytes left for the header's buffer_size
    | ReadLength      // end of file inside a record's length field
    | RecordTooLong   // a length beyond the scratch buffer (Go: slice panic)
    | TruncatedChunk  // fewer ciphertext bytes left than the length declares
    | Authentication  // gcm.Open rejected a record
  {
    predicate IsHeaderError() {
      ReadNonce? || ReadBufferSize?
    }
  }

  datatype Outcome = Pass | Fail(error: Error)

  /** What the decoder has written to the plaintext sink, and how it ended. */
  datatype Decoded = Decoded(written: seq<byte>, outcome: Outcome)

  // ---------------------------------------------------------------- encoding

  function Header(nonce: seq<byte>, bufferSize: uint32): (r: seq<byte>)
    ensures |r| == |nonce| + 4 && r[..|nonce|] == nonce
    ensures Uint32(r[|nonce|..]) == bufferSize
  {
    Uint32OfPutUint32(bufferSize);
    assert (nonce + PutUint32(bufferSize))[|nonce|..] == PutUint32(bufferSize);
    nonce + PutUint32(bufferSize)
  }

  /** `uint32(len(ciphertext))`: the conversion keeps the low 32 bits. */
  function LengthField(c: seq<byte>): (r: seq<byte>)
    ensures |r| == 4 && Uint32(r) == |c| % U32_LIMIT
    ensures |c| < U32_LIMIT ==> Uint32(r) == |c|
  {
    Uint32OfPutUint32(|c| % U32_LIMIT);
    PutUint32(|c| % U32_LIMIT)
  }

  /** One record: the ciphertext's length field, then the ciphertext. */
  function Record(c: seq<byte>): (r: seq<byte>)
    ensures |r| == 4 + |c| && r[4..] == c
    ensures Uint32(r[..4]) == |c| % U32_LIMIT
  {
    assert (LengthField(c) + c)[..4] == LengthField(c);
    LengthField(c) + c
  }

  function Records(cs: seq<seq<byte>>): (r: seq<byte>) {
    if cs == [] then [] else Record(cs[0]) + Records(cs[1..])
  }

  function Flatten(chunks: seq<seq<byte>>): (r: seq<byte>) {
    if chunks == [] then [] else chunks[0] + Flatten(chunks[1..])
  }

  /** Every chunk sealed under the one nonce, in order. */
  function SealAll(a: Aead, nonce: seq<byte>, chunks: seq<seq<byte>>): (cs: seq<seq<byte>>)
    ensures |cs| == |chunks|
    ensures forall i :: 0 <= i < |chunks| ==> cs[i] == a.seal(nonce, chunks[i])
  {
    if chunks == [] then [] else [a.seal(nonce, chunks[0])] + SealAll(a, nonce, chunks[1..])
  }

  /** The whole output of the encoder for the given chunking of the plaintext. */
  function Frame(a: Aead, nonce: seq<byte>, bufferSize: uint32, chunks: seq<seq<byte>>): (r: seq<byte>)
    ensures |r| >= |nonce| + 4 && r[..|nonce|] == nonce
    ensures Uint32(r[|nonce|..|nonce| + 4]) == bufferSize
    ensures chunks == [] ==> |r| == |nonce| + 4
  {
    var h := Header(nonce, bufferSize);
    assert (h + Records(SealAll(a, nonce, chunks)))[|nonce|..|nonce| + 4] == h[|nonce|..];
    h + Records(SealAll(a, nonce, chunks))
  }

  /** The chunks the encoder's reads may return: each holds 1 to bufferSize
   *  bytes, and together they are the plaintext. */
  predicate IsChunking(chunks: seq<seq<byte>>, plaintext: seq<byte>, bufferSize: nat) {
    Flatten(chunks) == plaintext &&
    forall i :: 0 <= i < |chunks| ==> 0 < |chunks[i]| <= bufferSize
  }

  /** The chunks a regular file yields when bufferSize is at most 2^30, where
   *  each read returns as many bytes as the buffer holds or as are left (Go
   *  caps one read at 2^30 bytes, so a larger buffer is not filled). */
  function FullReads(plaintext: seq<byte>, bufferSize: nat): (r: seq<seq<byte>>)
    requires bufferSize > 0
    ensures r == [] <==> plaintext == []
    ensures forall i :: 0 <= i < |r| ==> 0 < |r[i]| <= bufferSize
    decreases |plaintext|
  {
    if plaintext == [] then []
    else if |plaintext| <= bufferSize then [plaintext]
    else [plaintext[..bufferSize]] + FullReads(plaintext[bufferSize..], bufferSize)
  }

  // ---------------------------------------------------------------- decoding

  /** The record loop of `decryptFile` on the bytes after the header: `bound`
   *  is the length of the scratch buffer. */
  function DecodeRecords(a: Aead, nonce: seq<byte>, bound: nat, s: seq<byte>): (d: Decoded)
    ensures d.outcome.Fail? ==> !d.outcome.error.IsHeaderError() && d.outcome.error != CipherInit
    decreases |s|
  {
    if |s| == 0 then Decoded([], Pass)
    else if |s| < 4 then Decoded([], Fail(ReadLength))
    else
      var len := Uint32(s[..4]);
      if len > bound then Decoded([], Fail(RecordTooLong))
      else if |s| - 4 < len then Decoded([], Fail(TruncatedChunk))
      else match a.open(nonce, s[4..4 + len])
        case None => Decoded([], Fail(Authentication))
        case Some(p) =>
          var rest := DecodeRecords(a, nonce, bound, s[4 + len..]);
          Decoded(p + rest.written, rest.outcome)
  }

  /** One record the decoder reads, opens and writes. */
  lemma DecodeRecordsStep(a: Aead, nonce: seq<byte>, bound: nat, s: seq<byte>, len: nat, p: seq<byte>)
    requires |s| >= 4 && len == Uint32(s[..4]) && len <= bound && 4 + len <= |s|
    requires a.open(nonce, s[4..4 + len]) == Some(p)
    ensures DecodeRecords(a, nonce, bound, s).written == p + DecodeRecords(a, nonce, bound, s[4 + len..]).written
    ensures DecodeRecords(a, nonce, bound, s).outcome == DecodeRecords(a, nonce, bound, s[4 + len..]).outcome
  {
  }

  /** All of `decryptFile`.  `cipher` is the outcome of keying the cipher.
   *  The nonce read takes what is there, up to NONCE_SIZE bytes. */
  function Decode(cipher: Option<Aead>, file: seq<byte>): (d: Decoded)
    ensures d.outcome == Fail(CipherInit) <==> cipher.None?
  {
    if cipher.None? then Decoded([], Fail(CipherInit))
    else if |file| == 0 then Decoded([], Fail(ReadNonce))
    else
      var k := if |file| < NONCE_SIZE then |file| else NONCE_SIZE;
      if |file| - k < 4 then Decoded([], Fail(ReadBufferSize))
      else DecodeRecords(cipher.value, file[..k], Uint32(file[k..k + 4]) + OVERHEAD, file[k + 4..])
  }

  /** A ciphertext the decoder accepts: it fits the scratch buffer, its length
   *  fits the length field, and it opens. */
  predicate Accepted(a: Aead, nonce: seq<byte>, bound: nat, c: seq<byte>) {
    |c| <= bound && |c| < U32_LIMIT && a.open(nonce, c).Some?
  }

  /** The plaintexts of a sequence of ciphertexts, concatenated. */
  function OpenAll(a: Aead, nonce: seq<byte>, cs: seq<seq<byte>>): (r: seq<byte>) {
    if cs == [] then [] else a.open(nonce, cs[0]).GetOr([]) + OpenAll(a, nonce, cs[1..])
  }

  /** The record that follows, complete and within the bound, but rejected by open. */
  predicate RejectedRecordAt(a: Aead, nonce: seq<byte>, bound: nat, t: seq<byte>) {
    |t| >= 4 && Uint32(t[..4]) <= bound && 4 + Uint32(t[..4]) <= |t| &&
    a.open(nonce, t[4..4 + Uint32(t[..4])]).None?
  }

  // ---------------------------------------------------------------- lemmas

  lemma {:induction false} RecordsAppend(cs: seq<seq<byte>>, c: seq<byte>)
    ensures Records(cs + [c]) == Records(cs) + Record(c)
  {
    if cs == [] {
      assert [] + [c] == [c];
    } else {
      assert (cs + [c])[1..] == cs[1..] + [c];
      RecordsAppend(cs[1..], c);
    }
  }

  lemma {:induction false} FlattenAppend(chunks: seq<seq<byte>>, c: seq<byte>)
    ensures Flatten(chunks + [c]) == Flatten(chunks) + c
  {
    if chunks == [] {
      assert [] + [c] == [c];
    } else {
      assert (chunks + [c])[1..] == chunks[1..] + [c];
      FlattenAppend(chunks[1..], c);
    }
  }

  lemma {:induction false} SealAllAppend(a: Aead, nonce: seq<byte>, chunks: seq<seq<byte>>, c: seq<byte>)
    ensures SealAll(a, nonce, chunks + [c]) == SealAll(a, nonce, chunks) + [a.seal(nonce, c)]
  {
    if chunks == [] {
      assert [] + [c] == [c];
    } else {
      assert (chunks + [c])[1..] == chunks[1..] + [c];
      SealAllAppend(a, nonce, chunks[1..], c);
    }
  }

  /** Appending one chunk to the chunking appends exactly its record to the output. */
  lemma FrameAppend(a: Aead, nonce: seq<byte>, bufferSize: uint32, chunks: seq<seq<byte>>, c: seq<byte>)
    ensures Frame(a, nonce, bufferSize, chunks + [c])
         == Frame(a, nonce, bufferSize, chunks) + Record(a.seal(nonce, c))
  {
    SealAllAppend(a, nonce, chunks, c);
    RecordsAppend(SealAll(a, nonce, chunks), a.seal(nonce, c));
  }

  /** The output starts with the nonce and then the buffer size as a u32 LE,
   *  and the records follow: record i is the length field of the i-th chunk's
   *  ciphertext and then that ciphertext, sealed under the same nonce. */
  lemma FrameLayout(a: Aead, nonce: seq<byte>, bufferSize: uint32, chunks: seq<seq<byte>>)
    requires |nonce| == NONCE_SIZE
    ensures var f := Frame(a, nonce, bufferSize, chunks);
      |f| >= HEADER_SIZE && f[..NONCE_SIZE] == nonce &&
      Uint32(f[NONCE_SIZE..HEADER_SIZE]) == bufferSize &&
      f[HEADER_SIZE..] == Records(SealAll(a, nonce, chunks))
  {
    var f := Frame(a, nonce, bufferSize, chunks);
    assert f[NONCE_SIZE..HEADER_SIZE] == PutUint32(bufferSize);
    Uint32OfPutUint32(bufferSize);
  }

  /** With a lawful cipher, every ciphertext the encoder writes is its chunk
   *  plus OVERHEAD bytes, so it fits the decoder's scratch buffer of
   *  bufferSize + OVERHEAD bytes. */
  lemma SealedFitScratch(a: Aead, nonce: seq<byte>, bufferSize: nat, chunks: seq<seq<byte>>)
    requires Lawful(a) && |nonce| == NONCE_SIZE
    requires forall i :: 0 <= i < |chunks| ==> |chunks[i]| <= bufferSize
    ensures forall i :: 0 <= i < |chunks| ==>
      |SealAll(a, nonce, chunks)[i]| == |chunks[i]| + OVERHEAD <= bufferSize + OVERHEAD
  {
  }

  /** With a lawful cipher and room for the tag in a u32, the decoder
   *  accepts every record the encoder writes. */
  lemma SealedAccepted(a: Aead, nonce: seq<byte>, bufferSize: nat, chunks: seq<seq<byte>>)
    requires Lawful(a) && |nonce| == NONCE_SIZE && bufferSize + OVERHEAD < U32_LIMIT
    requires forall i :: 0 <= i < |chunks| ==> |chunks[i]| <= bufferSize
    ensures forall i :: 0 <= i < |chunks| ==>
      Accepted(a, nonce, bufferSize + OVERHEAD, SealAll(a, nonce, chunks)[i])
  {
    var sealed := SealAll(a, nonce, chunks);
    forall i | 0 <= i < |chunks| ensures Accepted(a, nonce, bufferSize + OVERHEAD, sealed[i]) {
      assert sealed[i] == a.seal(nonce, chunks[i]);
      assert a.open(nonce, sealed[i]) == Some(chunks[i]);
    }
  }

  /** An empty plaintext has only the empty chunking, and its output is the
   *  header alone: the first read hits end of file. */
  lemma EmptyPlaintextIsHeaderOnly(a: Aead, nonce: seq<byte>, bufferSize: uint32, chunks: seq<seq<byte>>)
    requires IsChunking(chunks, [], bufferSize)
    ensures chunks == [] && Frame(a, nonce, bufferSize, chunks) == Header(nonce, bufferSize)
  {
  }

  /** A regular file's reads form a chunking in which every chunk but the last
   *  is full, and there are ceil(|plaintext| / bufferSize) of them. */
  lemma {:induction false} FullReadsIsChunking(plaintext: seq<byte>, bufferSize: nat)
    requires bufferSize > 0
    ensures var chunks := FullReads(plaintext, bufferSize);
      IsChunking(chunks, plaintext, bufferSize) &&
      (forall i :: 0 <= i < |chunks| - 1 ==> |chunks[i]| == bufferSize) &&
      |chunks| == (|plaintext| + bufferSize - 1) / bufferSize
    decreases |plaintext|
  {
    var chunks := FullReads(plaintext, bufferSize);
    if plaintext == [] {
    } else if |plaintext| <= bufferSize {
      assert Flatten(chunks) == plaintext + Flatten([]);
      DivOne(|plaintext| - 1, bufferSize);
    } else {
      var rest := plaintext[bufferSize..];
      FullReadsIsChunking(rest, bufferSize);
      assert chunks[1..] == FullReads(rest, bufferSize);
      assert plaintext == plaintext[..bufferSize] + rest;
      DivStep(|rest| + bufferSize - 1, bufferSize);
    }
  }

  lemma DivOne(x: nat, d: nat)
    requires 0 < d && x < d
    ensures (x + d) / d == 1
  {
  }

  lemma DivStep(x: nat, d: nat)
    requires 0 < d
    ensures (x + d) / d == x / d + 1
  {
    var q, r := x / d, x % d;
    assert x + d == (q + 1) * d + r;
    DivUnique(x + d, d, q + 1, r);
  }

  lemma DivUnique(n: nat, d: nat, q: nat, r: nat)
    requires 0 < d && r < d && n == q * d + r
    ensures n / d == q
  {
    var q', r' := n / d, n % d;
    assert n == q' * d + r';
    if q' < q {
      MulMonotone(q' + 1, q, d);
    } else if q' > q {
      MulMonotone(q + 1, q', d);
    }
  }

  lemma MulMonotone(x: nat, y: nat, d: nat)
    requires x <= y
    ensures x * d <= y * d
  {
  }

  /** Opening what was sealed gives back the chunks, concatenated. */
  lemma {:induction false} OpenAllSealAll(a: Aead, nonce: seq<byte>, chunks: seq<seq<byte>>)
    requires Lawful(a) && |nonce| == NONCE_SIZE
    ensures OpenAll(a, nonce, SealAll(a, nonce, chunks)) == Flatten(chunks)
  {
    if chunks != [] {
      OpenAllSealAll(a, nonce, chunks[1..]);
    }
  }

  /** Records the decoder accepts are decoded to their plaintexts, and the
   *  decoder ends normally at the end of the last one. */
  lemma {:induction false} DecodeRecordsOfAccepted(a: Aead, nonce: seq<byte>, bound: nat, cs: seq<seq<byte>>)
    requires forall i :: 0 <= i < |cs| ==> Accepted(a, nonce, bound, cs[i])
    ensures DecodeRecords(a, nonce, bound, Records(cs)) == Decoded(OpenAll(a, nonce, cs), Pass)
  {
    if cs != [] {
      var c := cs[0];
      var s := Records(cs);
      var tail := Records(cs[1..]);
      assert s == PutUint32(|c|) + c + tail;
      assert s[..4] == PutUint32(|c|);
      Uint32OfPutUint32(|c|);
      assert s[4..4 + |c|] == c;
      assert s[4 + |c|..] == tail;
      DecodeRecordsOfAccepted(a, nonce, bound, cs[1..]);
    }
  }

  /** What the decoder writes is always the plaintext of a run of complete,
   *  accepted records at the front of the input, so no byte of a rejected or
   *  malformed record is ever written.  It ends normally exactly when those
   *  records make up the whole input, that is, when end of file falls on a
   *  length-field boundary.  When it stops for an authentication failure, the
   *  record after the run was complete and within the bound. */
  lemma {:induction false} DecodedRecords(a: Aead, nonce: seq<byte>, bound: nat, s: seq<byte>)
    returns (cs: seq<seq<byte>>)
    ensures forall i :: 0 <= i < |cs| ==> Accepted(a, nonce, bound, cs[i])
    ensures Records(cs) <= s
    ensures DecodeRecords(a, nonce, bound, s).written == OpenAll(a, nonce, cs)
    ensures DecodeRecords(a, nonce, bound, s).outcome == Pass <==> Records(cs) == s
    ensures DecodeRecords(a, nonce, bound, s).outcome == Fail(Authentication) ==>
      RejectedRecordAt(a, nonce, bound, s[|Records(cs)|..])
    decreases |s|
  {
    cs := [];
    if |s| >= 4 && Uint32(s[..4]) <= bound && 4 + Uint32(s[..4]) <= |s|
       && a.open(nonce, s[4..4 + Uint32(s[..4])]).Some?
    {
      var len := Uint32(s[..4]);
      var more := DecodedRecords(a, nonce, bound, s[4 + len..]);
      cs := [s[4..4 + len]] + more;
      AcceptedStep(a, nonce, bound, s, more);
    } else {
      NoneAccepted(a, nonce, bound, s);
    }
  }

  /** DecodedRecords when the first record is not accepted: nothing is
   *  written, and the decoder ends normally only on empty input. */
  lemma NoneAccepted(a: Aead, nonce: seq<byte>, bound: nat, s: seq<byte>)
    requires !(|s| >= 4 && Uint32(s[..4]) <= bound && 4 + Uint32(s[..4]) <= |s|
               && a.open(nonce, s[4..4 + Uint32(s[..4])]).Some?)
    ensures DecodeRecords(a, nonce, bound, s).written == []
    ensures DecodeRecords(a, nonce, bound, s).outcome == Pass <==> s == []
    ensures DecodeRecords(a, nonce, bound, s).outcome == Fail(Authentication) ==>
      RejectedRecordAt(a, nonce, bound, s)
  {
  }

  /** One step of DecodedRecords: an accepted record in front of a run. */
  lemma AcceptedStep(a: Aead, nonce: seq<byte>, bound: nat, s: seq<byte>, more: seq<seq<byte>>)
    requires |s| >= 4
    requires Uint32(s[..4]) <= bound && 4 + Uint32(s[..4]) <= |s|
    requires a.open(nonce, s[4..4 + Uint32(s[..4])]).Some?
    requires Records(more) <= s[4 + Uint32(s[..4])..]
    ensures var c := s[4..4 + Uint32(s[..4])];
      var rest := s[4 + Uint32(s[..4])..];
      Accepted(a, nonce, bound, c) &&
      Records([c] + more) == s[..4 + Uint32(s[..4])] + Records(more) &&
      Records([c] + more) <= s &&
      (Records([c] + more) == s <==> Records(more) == rest) &&
      s[|Records([c] + more)|..] == rest[|Records(more)|..] &&
      OpenAll(a, nonce, [c] + more) == a.open(nonce, c).value + OpenAll(a, nonce, more)
  {
    var len := Uint32(s[..4]);
    var c := s[4..4 + len];
    var rest := s[4 + len..];
    var cs := [c] + more;
    PutUint32OfUint32(s[..4]);
    assert LengthField(c) == s[..4];
    assert cs[1..] == more;
    assert Record(c) == s[..4 + len];
    assert s == Record(c) + rest;
    assert Records(cs) == Record(c) + Records(more);
  }

  /** The round trip: decoding the encoder's output, for any plaintext, nonce,
   *  buffer size with room for the tag in a u32, and any chunking the reads
   *  produce, yields the plaintext and ends normally. */
  lemma RoundTrip(a: Aead, nonce: seq<byte>, bufferSize: uint32, chunks: seq<seq<byte>>, plaintext: seq<byte>)
    requires Lawful(a) && |nonce| == NONCE_SIZE
    requires bufferSize + OVERHEAD < U32_LIMIT
    requires IsChunking(chunks, plaintext, bufferSize)
    ensures Decode(Some(a), Frame(a, nonce, bufferSize, chunks)) == Decoded(plaintext, Pass)
  {
    var sealed := SealAll(a, nonce, chunks);
    var bound := bufferSize + OVERHEAD;
    DecodeAfterHeader(a, nonce, bufferSize, Records(sealed));
    SealedAccepted(a, nonce, bufferSize, chunks);
    DecodeRecordsOfAccepted(a, nonce, bound, sealed);
    OpenAllSealAll(a, nonce, chunks);
  }

  /** A file too short to hold the header is rejected with a header error
   *  and nothing is written; a file that holds one never gets a header error. */
  lemma TruncatedHeaderRejected(a: Aead, file: seq<byte>)
    ensures var d := Decode(Some(a), file);
      (d.outcome.Fail? && d.outcome.error.IsHeaderError()) <==> |file| < HEADER_SIZE
    ensures |file| < HEADER_SIZE ==> Decode(Some(a), file).written == []
  {
  }

  // ------------------------------------------------ the record loop as written

  /** Go's `os.File.Read` returns at most this many bytes from one call. */
  const MAX_READ: nat := 0x4000_0000

  /** The record loop of `decryptFile` exactly as written, scratch buffer
   *  included: `buff` holds what earlier records left in it.  The single
   *  `Read` into `buff[:len]` (encryption.go:162) fills only as many bytes as
   *  the file still has, and at most MAX_READ; the rest of the first len
   *  bytes stay as they were, and `gcm.Open` gets all len of them.  A `Read`
   *  at end of file returns `io.EOF`, here `TruncatedChunk`. */
  function StaleDecodeRecords(a: Aead, nonce: seq<byte>, buff: seq<byte>, s: seq<byte>): (d: Decoded)
    ensures d.outcome.Fail? ==> !d.outcome.error.IsHeaderError() && d.outcome.error != CipherInit
    decreases |s|
  {
    if |s| == 0 then Decoded([], Pass)
    else if |s| < 4 then Decoded([], Fail(ReadLength))
    else
      var len := Uint32(s[..4]);
      var t := s[4..];
      if len > |buff| then Decoded([], Fail(RecordTooLong))
      else if 0 < len && t == [] then Decoded([], Fail(TruncatedChunk))
      else
        var avail := if len <= |t| then len else |t|;
        var n := if avail <= MAX_READ then avail else MAX_READ;
        var next := t[..n] + buff[n..];
        match a.open(nonce, next[..len])
        case None => Decoded([], Fail(Authentication))
        case Some(p) =>
          var rest := StaleDecodeRecords(a, nonce, next, t[n..]);
          Decoded(p + rest.written, rest.outcome)
  }

  /** All of `decryptFile` as written: the scratch buffer starts as zeros. */
  function StaleDecode(cipher: Option<Aead>, file: seq<byte>): (d: Decoded)
    ensures d.outcome == Fail(CipherInit) <==> cipher.None?
  {
    if cipher.None? then Decoded([], Fail(CipherInit))
    else if |file| == 0 then Decoded([], Fail(ReadNonce))
    else
      var k := if |file| < NONCE_SIZE then |file| else NONCE_SIZE;
      if |file| - k < 4 then Decoded([], Fail(ReadBufferSize))
      else
        var bound := Uint32(file[k..k + 4]) + OVERHEAD;
        StaleDecodeRecords(cipher.value, file[..k], seq(bound, _ => 0), file[k + 4..])
  }

  /** On well-formed records that a single read can hold, the loop as written
   *  and DecodeRecords agree, whatever the scratch buffer held before. */
  lemma {:induction false} StaleDecodeRecordsOfAccepted(a: Aead, nonce: seq<byte>, buff: seq<byte>, cs: seq<seq<byte>>)
    requires forall i :: 0 <= i < |cs| ==> Accepted(a, nonce, |buff|, cs[i]) && |cs[i]| <= MAX_READ
    ensures StaleDecodeRecords(a, nonce, buff, Records(cs)) == Decoded(OpenAll(a, nonce, cs), Pass)
    ensures DecodeRecords(a, nonce, |buff|, Records(cs)) == Decoded(OpenAll(a, nonce, cs), Pass)
    decreases |cs|
  {
    DecodeRecordsOfAccepted(a, nonce, |buff|, cs);
    if cs != [] {
      var c := cs[0];
      var s := Records(cs);
      var tail := Records(cs[1..]);
      assert s == PutUint32(|c|) + c + tail;
      assert s[..4] == PutUint32(|c|);
      Uint32OfPutUint32(|c|);
      var t := s[4..];
      assert t[..|c|] == c && t[|c|..] == tail;
      var next := c + buff[|c|..];
      assert next[..|c|] == c && |next| == |buff|;
      StaleDecodeRecordsOfAccepted(a, nonce, next, cs[1..]);
    }
  }

  /** The round trip of the loop as written: when a whole record fits one
   *  read, the stale scratch buffer never matters on the encoder's output. */
  lemma StaleRoundTrip(a: Aead, nonce: seq<byte>, bufferSize: uint32, chunks: seq<seq<byte>>, plaintext: seq<byte>)
    requires Lawful(a) && |nonce| == NONCE_SIZE
    requires bufferSize + OVERHEAD <= MAX_READ
    requires IsChunking(chunks, plaintext, bufferSize)
    ensures StaleDecode(Some(a), Frame(a, nonce, bufferSize, chunks)) == Decoded(plaintext, Pass)
  {
    var sealed := SealAll(a, nonce, chunks);
    SealedFitScratch(a, nonce, bufferSize, chunks);
    DecodeAfterHeader(a, nonce, bufferSize, Records(sealed));
    StaleDecodeRecordsOfAccepted(a, nonce, seq(bufferSize + OVERHEAD, _ => 0), sealed);
    OpenAllSealAll(a, nonce, chunks);
  }

  /** A record repeated and cut inside its second copy: the stale scratch
   *  buffer already holds the bytes the cut removed, so the loop as written
   *  opens the second copy and ends normally, while DecodeRecords stops with
   *  TruncatedChunk after the first. */
  lemma StaleRepeatAccepted(a: Aead, nonce: seq<byte>, buff: seq<byte>, c: seq<byte>, k: nat)
    requires |c| <= |buff| && |c| <= MAX_READ && 0 < k < |c|
    requires a.open(nonce, c).Some?
    ensures var s := Record(c) + Record(c)[..4 + k];
      var p := a.open(nonce, c).value;
      StaleDecodeRecords(a, nonce, buff, s) == Decoded(p + p, Pass) &&
      DecodeRecords(a, nonce, |buff|, s) == Decoded(p, Fail(TruncatedChunk))
  {
    var u := Record(c)[..4 + k];
    var s := Record(c) + u;
    assert |c| < U32_LIMIT;
    assert s[..4] == Record(c)[..4] && u[..4] == Record(c)[..4];
    assert s[4..][..|c|] == c && s[4..][|c|..] == u;
    assert u[4..] == c[..k];
    RepeatModel(a, nonce, |buff|, c, u);
    var next := c + buff[|c|..];
    assert s[4..][..|c|] + buff[|c|..] == next;
    RepeatStale(a, nonce, next, c, u, k);
  }

  lemma RepeatModel(a: Aead, nonce: seq<byte>, bound: nat, c: seq<byte>, u: seq<byte>)
    requires |c| <= bound && |c| < U32_LIMIT && a.open(nonce, c).Some?
    requires 4 <= |u| < 4 + |c| && u[..4] == Record(c)[..4]
    ensures DecodeRecords(a, nonce, bound, Record(c) + u) == Decoded(a.open(nonce, c).value, Fail(TruncatedChunk))
  {
    var s := Record(c) + u;
    assert s[..4] == Record(c)[..4] && s[4..4 + |c|] == c && s[4 + |c|..] == u;
    assert DecodeRecords(a, nonce, bound, u) == Decoded([], Fail(TruncatedChunk));
  }

  lemma RepeatStale(a: Aead, nonce: seq<byte>, next: seq<byte>, c: seq<byte>, u: seq<byte>, k: nat)
    requires |c| <= |next| && |c| <= MAX_READ && 0 < k < |c| && next[..|c|] == c
    requires a.open(nonce, c).Some?
    requires u == Record(c)[..4 + k]
    ensures var p := a.open(nonce, c).value;
      StaleDecodeRecords(a, nonce, next, u) == Decoded(p, Pass)
  {
    assert |c| < U32_LIMIT;
    assert u[..4] == Record(c)[..4] && Uint32(u[..4]) == |c|;
    var t := u[4..];
    assert t == c[..k] && t[..k] == c[..k] && t[k..] == [];
    var next' := t[..k] + next[k..];
    assert next'[..|c|] == c;
    assert StaleDecodeRecords(a, nonce, next', []) == Decoded([], Pass);
  }

  /** Both decoders, past a well-formed header, run the record loop with
   *  a scratch buffer of bufferSize + OVERHEAD bytes. */
  lemma DecodeAfterHeader(a: Aead, nonce: seq<byte>, bufferSize: uint32, s: seq<byte>)
    requires |nonce| == NONCE_SIZE
    ensures Decode(Some(a), Header(nonce, bufferSize) + s)
         == DecodeRecords(a, nonce, bufferSize + OVERHEAD, s)
    ensures StaleDecode(Some(a), Header(nonce, bufferSize) + s)
         == StaleDecodeRecords(a, nonce, seq(bufferSize + OVERHEAD, _ => 0), s)
  {
    var g := Header(nonce, bufferSize) + s;
    assert g[..NONCE_SIZE] == nonce;
    assert g[NONCE_SIZE..HEADER_SIZE] == Header(nonce, bufferSize)[NONCE_SIZE..];
    assert g[HEADER_SIZE..] == s;
  }

  /** The container of one chunk written twice. */
  lemma FrameTwice(a: Aead, nonce: seq<byte>, bufferSize: uint32, chunk: seq<byte>)
    ensures Frame(a, nonce, bufferSize, [chunk, chunk])
         == Header(nonce, bufferSize) + Record(a.seal(nonce, chunk)) + Record(a.seal(nonce, chunk))
  {
    var c := a.seal(nonce, chunk);
    var none: seq<seq<byte>> := [];
    assert SealAll(a, nonce, [chunk, chunk]) == [c, c];
    assert [c, c][1..] == [c] && [c][1..] == none;
    assert Records([c]) == Record(c);
  }

  /** A file cut one byte short of its end: the container of two equal
   *  chunks of 4 bytes, with buffer_size 4, loses its last byte.  The loop
   *  as written accepts it and writes both chunks; Decode writes the first
   *  and reports TruncatedChunk. */
  lemma TruncatedRepeatAccepted()
    ensures var a := ToyAead();
      var chunk: seq<byte> := [1, 2, 3, 4];
      var f := Frame(a, seq(NONCE_SIZE, _ => 0), 4, [chunk, chunk]);
      |f| == 64 &&
      StaleDecode(Some(a), f[..63]) == Decoded(chunk + chunk, Pass) &&
      Decode(Some(a), f[..63]) == Decoded(chunk, Fail(TruncatedChunk))
  {
    var a := ToyAead();
    var nonce: seq<byte> := seq(NONCE_SIZE, _ => 0);
    var chunk: seq<byte> := [1, 2, 3, 4];
    var c := a.seal(nonce, chunk);
    assert c == chunk + TOY_TAG && |c| == 20;
    assert c[|c| - OVERHEAD..] == TOY_TAG && c[..|c| - OVERHEAD] == chunk;
    assert a.open(nonce, c) == Some(chunk);
    var f := Frame(a, nonce, 4, [chunk, chunk]);
    FrameTwice(a, nonce, 4, chunk);
    var s := Record(c) + Record(c)[..4 + 19];
    assert f[..63] == Header(nonce, 4) + s;
    DecodeAfterHeader(a, nonce, 4, s);
    StaleRepeatAccepted(a, nonce, seq(20, _ => 0), c, 19);
  }
}
