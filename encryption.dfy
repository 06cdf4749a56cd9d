/** `encryptFile` and `decryptFile` of encryption.go as methods.  The
 *  plaintext and ciphertext files are byte strings read through a cursor;
 *  the sink is a byte string that only grows; the random nonce is a
 *  parameter; `cipher` is the outcome of keying AES-GCM (None when the key
 *  is rejected).
 */
module Encryption {
  import opened Binary
  import opened Aead
  import opened Format

  /** One `Read` of n bytes from `src` at `from` into the front of `buff`. */
  method ReadInto(buff: array<byte>, src: seq<byte>, from: nat, n: nat)
    requires n <= buff.Length && from + n <= |src|
    modifies buff
    ensures buff[..n] == src[from..from + n]
    ensures buff[n..] == old(buff[n..])
  {
    for i := 0 to n
      invariant forall j :: 0 <= j < i ==> buff[j] == src[from + j]
      invariant buff[n..] == old(buff[n..])
    {
      buff[i] := src[from + i];
    }
    assert buff[..n] == src[from..from + n];
  }

  /** Writes the header, then one record per read.  Each read returns between
   *  1 and bufferSize bytes, as many as the source chooses; `chunks` records
   *  what the reads returned.  End of file on a read ends the loop. */
  method EncryptFile(cipher: Option<Aead>, nonce: seq<byte>, plaintext: seq<byte>, bufferSize: uint32)
    returns (out: seq<byte>, r: Outcome, ghost chunks: seq<seq<byte>>)
    requires |nonce| == NONCE_SIZE
    requires bufferSize > 0
    ensures cipher.None? ==> out == [] && r == Fail(CipherInit)
    ensures cipher.Some? ==>
      r == Pass && IsChunking(chunks, plaintext, bufferSize) &&
      out == Frame(cipher.value, nonce, bufferSize, chunks)
  {
    chunks := [];
    if cipher.None? {
      return [], Fail(CipherInit), chunks;
    }
    var aead := cipher.value;
    out := nonce;
    var buff := new byte[bufferSize];
    out := out + PutUint32(bufferSize);
    var pos := 0;
    while pos < |plaintext|
      invariant pos <= |plaintext|
      invariant Flatten(chunks) == plaintext[..pos]
      invariant forall i :: 0 <= i < |chunks| ==> 0 < |chunks[i]| <= bufferSize
      invariant out == Frame(aead, nonce, bufferSize, chunks)
      decreases |plaintext| - pos
    {
      var n :| 0 < n <= bufferSize && pos + n <= |plaintext|;
      ReadInto(buff, plaintext, pos, n);
      var chunk := buff[..n];
      var ciphertext := aead.seal(nonce, chunk);
      out := out + PutUint32(|ciphertext| % U32_LIMIT);
      out := out + ciphertext;
      FrameAppend(aead, nonce, bufferSize, chunks, chunk);
      FlattenAppend(chunks, chunk);
      chunks := chunks + [chunk];
      assert plaintext[..pos + n] == plaintext[..pos] + chunk;
      pos := pos + n;
    }
    assert plaintext[..pos] == plaintext;
    r := Pass;
  }

  /** Reads the header, sizes the scratch buffer from it, then reads, opens
   *  and writes one record at a time until end of file falls exactly where a
   *  length field would start. */
  method DecryptFile(cipher: Option<Aead>, file: seq<byte>) returns (out: seq<byte>, r: Outcome)
    ensures Decoded(out, r) == Decode(cipher, file)
  {
    out := [];
    if cipher.None? {
      return out, Fail(CipherInit);
    }
    var aead := cipher.value;
    if |file| == 0 {
      return out, Fail(ReadNonce);
    }
    var pos := if |file| < NONCE_SIZE then |file| else NONCE_SIZE;
    var nonce := file[..pos];
    if |file| - pos < 4 {
      return out, Fail(ReadBufferSize);
    }
    var bufferSize := Uint32(file[pos..pos + 4]);
    pos := pos + 4;
    var buff := new byte[bufferSize + OVERHEAD];
    ghost var total := DecodeRecords(aead, nonce, buff.Length, file[pos..]);
    while true
      invariant pos <= |file|
      invariant buff.Length == bufferSize + OVERHEAD
      invariant out + DecodeRecords(aead, nonce, buff.Length, file[pos..]).written == total.written
      invariant DecodeRecords(aead, nonce, buff.Length, file[pos..]).outcome == total.outcome
      decreases |file| - pos
    {
      ghost var here := file[pos..];
      if pos == |file| {
        return out, Pass;
      }
      if |file| - pos < 4 {
        return out, Fail(ReadLength);
      }
      assert here[..4] == file[pos..pos + 4];
      var currentLen := Uint32(file[pos..pos + 4]);
      pos := pos + 4;
      if currentLen > buff.Length {
        return out, Fail(RecordTooLong);
      }
      if |file| - pos < currentLen {
        return out, Fail(TruncatedChunk);
      }
      ReadInto(buff, file, pos, currentLen);
      assert here[4..4 + currentLen] == buff[..currentLen];
      pos := pos + currentLen;
      assert here[4 + currentLen..] == file[pos..];
      var plaintext := aead.open(nonce, buff[..currentLen]);
      if plaintext.None? {
        return out, Fail(Authentication);
      }
      DecodeRecordsStep(aead, nonce, buff.Length, here, currentLen, plaintext.value);
      out := out + plaintext.value;
    }
  }

  /** The file written by EncryptFile decrypts, with DecryptFile under the
   *  same cipher, to the original plaintext. */
  method EncryptThenDecrypt(aead: Aead, nonce: seq<byte>, plaintext: seq<byte>, bufferSize: uint32)
    returns (recovered: seq<byte>, r: Outcome)
    requires Lawful(aead) && |nonce| == NONCE_SIZE
    requires 0 < bufferSize && bufferSize + OVERHEAD < U32_LIMIT
    ensures r == Pass && recovered == plaintext
  {
    var file, written;
    ghost var chunks;
    file, written, chunks := EncryptFile(Some(aead), nonce, plaintext, bufferSize);
    RoundTrip(aead, nonce, bufferSize, chunks, plaintext);
    recovered, r := DecryptFile(Some(aead), file);
  }
}
