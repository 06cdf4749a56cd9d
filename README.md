# Chunked authenticated-encryption container (shitty_aes), modelled in Dafny

This project models the engine of `encryption.go` in Dafny. `encryptFile` turns a
plaintext file into a container, and `decryptFile` turns the container back into the
plaintext. The container is laid out as follows:

```
nonce (12 bytes) | buffer_size (u32 LE) | { len (u32 LE) | ciphertext (len bytes) }*
```

Every plaintext chunk is sealed under the same nonce. The decoder sizes its scratch
buffer from the header, at `buffer_size + 16` bytes.

The files:

- `binary.dfy` (module `Binary`) holds bytes, Go's `uint32`, and the little-endian
  `uint32` encoding that `encoding/binary` provides. It proves that the encoding is a
  bijection between `uint32` values and 4-byte strings.
- `aead.dfy` (module `Aead`) holds the cipher. AES-GCM is a record of two function
  values, `seal(nonce, plaintext)` and `open(nonce, ciphertext)`. The predicate
  `Lawful` states the two properties the format relies on:
  - sealing adds exactly `OVERHEAD` (16) bytes;
  - opening a sealed text under the same nonce recovers the plaintext.

  Every lemma that needs these laws takes `Lawful(a)` as a precondition. `ToyAead`
  with `ToyAeadIsLawful` shows that the two laws can hold together, so those lemmas
  are not vacuous.
- `format.dfy` (module `Format`) holds the format as functions:
  - `Frame` is the encoder's output for a given chunking of the plaintext;
  - `DecodeRecords` and `Decode` are the decoder's result: what it has written, and
    whether it ended normally or with which error;
  - the lemmas relate the two;
  - `StaleDecodeRecords` and `StaleDecode` are the decoder's loop exactly as written,
    scratch buffer included, for the finding under "## Findings".
- `encryption.dfy` (module `Encryption`) holds the two entry points as methods:
  - `EncryptFile` and `DecryptFile` are `while` loops over a read cursor into the
    input byte string;
  - output goes to an accumulator that only grows;
  - both reuse an `array<byte>` scratch buffer, as the Go code does.

  Each method is proved against the function that specifies it. `EncryptThenDecrypt`
  runs one after the other and proves that the plaintext comes back.

How the source's environment is represented:

- Files are byte strings.
- The random nonce is a parameter.
- Keying the cipher (`aes.NewCipher`, `cipher.NewGCM`) is a parameter
  `cipher: Option<Aead>`. `None` stands for a rejected key, which surfaces as the
  error `CipherInit`.
- The decoder's error returns become constructors of `Format.Error`:
  - `CipherInit` stands for the four key-setup returns (encryption.go:23, 29, 105
    and 110);
  - `ReadNonce`, `ReadBufferSize`, `ReadLength`, `TruncatedChunk` and
    `Authentication` stand for the decoder's read and open failures;
  - `RecordTooLong` stands for the slice panic at encryption.go:158, which is not a
    `return` in Go;
  - returns for I/O errors have no constructor.
- On failure, the decoder's result still says what had been written to the plaintext
  sink.

Modelling decisions about reads, slices and lengths (where the model departs from
the code, the line under "## Left out" says so):

- The nonce is read with a single `Read` that nobody checks for length
  (encryption.go:120). The model takes whatever is there, up to 12 bytes. A short
  nonce always leaves the file exhausted, so the next header field fails.
  `TruncatedHeaderRejected` proves that every file shorter than the 16-byte header is
  rejected with a header error.
- `buff[:current_len]` (encryption.go:158) panics in Go when a record declares more
  than `buffer_size + 16` bytes. The model returns `RecordTooLong` there instead.
- A chunk read (encryption.go:162) is a single `Read`. The model reads exactly
  `current_len` bytes, or fails with `TruncatedChunk` when fewer remain. What the
  source does instead is on the `Format.DecodeRecords` line under "## Left out";
  `Format.StaleDecodeRecords` models that loop as written, scratch buffer included.
- The encoder's read (encryption.go:73) returns any number from 1 to `buffer_size`
  bytes. `EncryptFile` takes that count by a nondeterministic choice, and its
  contract holds for every choice. `FullReads` is the choice a regular file makes
  when `buffer_size` is at most 2^30 (Go's `Read` returns at most 2^30 bytes per call).
- `uint32(len(ciphertext))` (encryption.go:85) keeps the low 32 bits of the length
  (`LengthField`). For that reason the round trip requires
  `buffer_size + 16 < 2^32`.

## Model

| member | source | states |
|---|---|---|
| `Binary.Uint32OfPutUint32` | encryption.go:66 | reading back the four little-endian bytes written for a `uint32` gives that `uint32` (used for the header field and every length field) |
| `Binary.PutUint32OfUint32` | encryption.go:146 | every 4-byte field read as a `uint32` is exactly the encoding of the value read, so the encoding is a bijection |
| `Binary.PutUint32` | encryption.go:66 | `binary.Write` of a `uint32` in little-endian order (also at :85) writes exactly the four base-256 digits of the value, lowest first: `x % 2^8`, `x / 2^8 % 2^8`, `x / 2^16 % 2^8`, `x / 2^24` |
| `Binary.Uint32` | encryption.go:146 | `binary.Read` of a `uint32` (also at :130) consumes exactly four bytes and yields a `uint32` whose low byte is the first one |
| `Binary.Uint32Digits` | encryption.go:146 | `binary.Read` of a `uint32` (also at :130) takes the first byte as the lowest digit: the value is `b[0] + 2^8 b[1] + 2^16 b[2] + 2^24 b[3]` |
| `Format.LengthField` | encryption.go:85 | the length field `uint32(len(ciphertext))` is four bytes that decode to the ciphertext length modulo 2^32, and to the length itself whenever it is below 2^32 |
| `Format.FullReads` | encryption.go:73 | the reads of a regular file (with `buffer_size` at most 2^30) return no chunk exactly when the file is empty, and every chunk holds 1 to `buffer_size` bytes |
| `Format.Frame` | encryption.go:56-95 | the encoder's whole output starts with the nonce, then four bytes that decode to `buffer_size`; with no chunks it is exactly those bytes |
| `Format.Header` | encryption.go:56-66 | the header is the nonce followed by four bytes that decode to `buffer_size`, and nothing else |
| `Format.Record` | encryption.go:85-91 | one loop iteration writes four bytes that decode to the ciphertext length (mod 2^32), then exactly the ciphertext |
| `Format.SealAll` | encryption.go:82 | chunk i's ciphertext is `seal` of chunk i under the file's one nonce, for every i, and there is one per chunk |
| `Format.FrameLayout` | encryption.go:13-18 | the output starts with the 12 nonce bytes, then `buffer_size` as a u32 LE, then exactly the records of the sealed chunks, in order (by `Format.SealAll`, ciphertext i is chunk i sealed under that same nonce) |
| `Format.FrameAppend` | encryption.go:82-94 | each loop iteration appends exactly one record, `u32 LE(len(ciphertext))` followed by the ciphertext, after the records already written |
| `Format.SealedFitScratch` | encryption.go:125-134 | with a lawful cipher, every ciphertext is its chunk plus 16 bytes, so it fits the decoder's scratch buffer of `buffer_size + 16` bytes |
| `Format.EmptyPlaintextIsHeaderOnly` | encryption.go:72-80 | an empty plaintext has no chunks, and its output is the header alone |
| `Format.FullReadsIsChunking` | encryption.go:73 | the reads of a regular file, with `buffer_size` at most 2^30, form a valid chunking: every chunk but the last is full, and there are ceil(size / buffer_size) of them |
| `Format.DecodeRecords` | encryption.go:144-178 | the record loop never reports a header or cipher-setup error |
| `Format.Decode` | encryption.go:102-134 | decoding fails with `CipherInit` exactly when the key was rejected |
| `Format.DecodeRecordsOfAccepted` | encryption.go:144-178 | a sequence of records that each fit the scratch buffer and open is decoded to their plaintexts in order, and the decoder ends normally at its end |
| `Format.DecodedRecords` | encryption.go:169-177 | the decoder's output is always the plaintext of a run of complete, authenticated records at the front of the input. It ends normally exactly when that run is the whole input, so EOF falls at a length-field boundary (the loop as written lacks this property; see "## Findings"). On an authentication failure the rejected record was complete, and none of its plaintext was written |
| `Format.OpenAllSealAll` | encryption.go:169 | opening the sealed chunks one by one under the file's nonce gives back their concatenation |
| `Format.RoundTrip` | encryption.go:101 | for any plaintext, nonce, `buffer_size` with `buffer_size + 16 < 2^32`, and any chunking the reads may produce, decoding the encoder's output gives the plaintext and ends normally |
| `Format.TruncatedHeaderRejected` | encryption.go:118-133 | a file shorter than nonce plus 4 bytes fails with a header error and writes nothing; a file of at least nonce plus 4 bytes never gets a header error |
| `Format.DecodeAfterHeader` | encryption.go:118-134 | past a well-formed 16-byte header, both decoders run the record loop under the header's nonce with a scratch buffer of `buffer_size + 16` bytes (all zeros for the loop as written) |
| `Format.StaleDecodeRecords` | encryption.go:144-178 | the record loop as written, where the scratch buffer keeps what earlier reads left and each read fills at most 2^30 bytes: it never reports a header or cipher-setup error |
| `Format.StaleDecode` | encryption.go:102-178 | all of `decryptFile` as written, with a zeroed scratch buffer: it fails with `CipherInit` exactly when the key was rejected |
| `Format.StaleDecodeRecordsOfAccepted` | encryption.go:144-178 | on records that fit the scratch buffer and one read, and that open, the loop as written and `DecodeRecords` both decode their plaintexts in order and end normally, whatever the buffer held before |
| `Format.StaleRoundTrip` | encryption.go:101 | the loop as written decodes the encoder's output to the plaintext and ends normally, for every lawful cipher, nonce and chunking, when `buffer_size + 16` is at most 2^30 |
| `Format.StaleRepeatAccepted` | encryption.go:158-169 | for any record that opens, followed by a copy of it cut after its length field and 1 to L-1 ciphertext bytes, the loop as written writes the plaintext twice and ends normally, while `DecodeRecords` writes it once and fails with `TruncatedChunk` |
| `Format.TruncatedRepeatAccepted` | encryption.go:158-169 | concretely: the 64-byte container of chunk `[1,2,3,4]` twice, with `buffer_size` 4, cut to 63 bytes, is accepted by `StaleDecode` with both chunks written, and `Decode` writes one chunk and reports `TruncatedChunk` |
| `Encryption.ReadInto` | encryption.go:162 | one read of n bytes at the cursor fills the front of the scratch buffer with exactly those bytes and leaves the rest alone |
| `Encryption.EncryptFile` | encryption.go:19-99 | a rejected key writes nothing and fails. Otherwise the reads form a chunking of the plaintext (each chunk 1 to `buffer_size` bytes, concatenating to the plaintext), and the output is `Frame` of that chunking |
| `Encryption.DecryptFile` | encryption.go:102-181 | the sink's contents and the outcome are exactly those of `Decode` on the file, across header parsing, scratch-buffer sizing and the record loop |
| `Encryption.EncryptThenDecrypt` | encryption.go:101 | decrypting what `EncryptFile` wrote, under the same lawful cipher, gives the original plaintext and no error |

## Left out

- AES-GCM itself (`aes.NewCipher`, `cipher.NewGCM`, `Seal`, `Open`, encryption.go:21-30, 82, 103-111, 169) is a foreign cryptographic library. It appears only through `Lawful`. A rejected key is the opaque failure `CipherInit`.
- Nonce generation with `crypto/rand` (encryption.go:34-38) is randomness. The nonce is a parameter.
- Opening, creating and closing files, and every read or write error on them, are I/O. Files are byte strings. The `os.Create` failure at encryption.go:136-139, which returns `nil`, is not modelled.
- Short reads of `os.File.Read` on the nonce read are simplified as described above.
- Format.DecodeRecords: a record that declares more ciphertext than is left fails with `TruncatedChunk`, and `open` is never called on it. The source behaves differently, and `Format.StaleDecodeRecords` models what it does. With 1 to L-1 of the declared L bytes left, the single `Read` at encryption.go:162 returns them with a nil error. The rest of `current_buff` still holds bytes left by earlier records (zeros where no record reached), and encryption.go:169 passes all L bytes to `gcm.Open`. `Open` rejects them unless that stale tail equals the missing bytes. It does equal them when an earlier record left the same ciphertext there, as equal chunks sealed under the one reused nonce do. The source then accepts the truncated file, writes the record's plaintext and returns no error (see "## Findings"). With no bytes left, `Read` returns `io.EOF`, which encryption.go:164 returns. A record longer than 2^30 bytes is read short the same way (Go caps one read at 2^30 bytes), even when all of it is in the file. `Open` then sees the stale tail too, and the bytes not read are taken as the next length field.
- Format.RoundTrip (and Encryption.EncryptThenDecrypt): holds for every `buffer_size + 16 < 2^32` because the model reads each record exactly. For the loop as written, `Format.StaleRoundTrip` proves the round trip only when `buffer_size + 16` is at most 2^30. Beyond that, a record over 2^30 bytes is read short at encryption.go:162, and the source's round trip is not guaranteed.
- Format.DecodeRecords: a record that declares more than `buffer_size + 16` bytes fails with `RecordTooLong`. In the source, the slice at encryption.go:158 panics instead of returning an error.
- Tamper detection and wrong-key rejection depend on the cipher's cryptographic strength, which the two laws do not state. The model proves the part that belongs to the format: nothing is written from a record that `open` rejected, and nothing from a malformed record.
- The security weakness of reusing one nonce for every chunk is not a functional property. The model reproduces the same nonce for every chunk.
- Encryption.EncryptFile: requires `buffer_size > 0`, and the source's only caller does not check this. shitty_aes.go:19 and :49 pass `uint32(*buffer_size)` from the unchecked `-b` flag, so `-b 0` or `-b 4294967296` (which wraps to 0) reaches the encoder. There, each `Read` into the empty buffer returns no bytes and no end of file, so the loop never ends, and it keeps writing records of an empty chunk. A method that must terminate cannot model that run, so the model leaves it out.
- On a 32-bit platform, `int(buffer_size) + gcm.Overhead()` (encryption.go:134) can overflow. The model uses unbounded integers there.
- shitty_aes.go (the `main` package) is left out. It does flag parsing, password and file-name prompts, and SHA-256 key stretching, then calls the two entry points, adding or trimming the `.aes` suffix.

## Findings

| source | as written | input that shows it | evidently intended | confidence | as-written member | corrected member |
|---|---|---|---|---|---|---|
| encryption.go:158-169 | one `Read` into `buff[:current_len]` fills only the bytes the file still has; the rest keeps what earlier records left; `gcm.Open` gets all `current_len` bytes | two equal chunks sealed under the one reused nonce give equal records; cut the file inside the second one, e.g. `buffer_size` 4, chunk `[1,2,3,4]` twice, 64 bytes cut to 63 | a file cut inside a record is rejected: the comments at :160-161 and :164 expect each read to return one whole chunk | not executed | `Format.StaleDecodeRecords`, shown by `Format.StaleRepeatAccepted` and `Format.TruncatedRepeatAccepted` | `Format.DecodeRecords`, with `Format.DecodedRecords` proving that it ends normally only when the input is a whole run of complete records |
