# LockBox envelope encryption, modelled in Dafny

LockBox encrypts one file at a time with envelope encryption. A fresh 32-byte
file key seals the file's contents with AES-256-GCM. The long-lived 32-byte
master key seals ("wraps") the file key under the same 12-byte nonce. The
output file is a binary header followed by the content ciphertext. The header
holds the magic `LBX1`, version 1, a one-byte nonce length, a big-endian
two-byte wrapped-key length, the nonce and the wrapped key.

The project has three modules:

- `Errors` (`errors.dfy`): the four error kinds (Keyring, Crypto, Io, Format)
  and the `Result`/`Option` types.
- `HeaderCodec` (`header.dfy`): the header datatype, its encoder `WriteTo` and
  its cursor-style decoder `ReadFrom`. `ReadFrom` returns the parsed header and
  the unconsumed bytes, or an error.
- `Envelope` (`envelope.dfy`): key validation `ToKey32`, and the order in which
  `Encrypt` and `Decrypt` combine key validation, key wrapping, header framing
  and content sealing.

Files are byte sequences. An operation yields a `Run`: the bytes left in the
output file and the returned status. The output file is created empty before
any check, so every `Run` starts from an empty file.

AES-256-GCM is an `Aead` value that carries a `seal` and an `open` function.
The model assumes one fact about them, `Correct`: opening what was sealed
under the same key and nonce gives back the plaintext. Lemmas that need this
take it as a hypothesis. `TotalWithTag` is used only by `EncryptThenDecrypt`.
It says sealing never fails and adds a 16-byte tag. The random file key and
nonce are parameters of `Encrypt`.

Two behaviours of the code matter for the model:

- Decryption creates (truncates) the output file before it reads the header.
  So a failed decryption leaves an empty output file, not a missing one.
- Encryption writes the header before it seals the contents. So a failed
  content seal leaves the header bytes in the output file.

## Model

| member | source | states |
|---|---|---|
| HeaderCodec.FromBeBytes | src/header.rs:51-53 | two bytes read big-endian give a value below 65536 |
| HeaderCodec.ToBeBytes | src/header.rs:26-27 | the two-byte big-endian form of a length below 65536 decodes back to that length |
| HeaderCodec.BeBytesOnto | src/header.rs:51-53 | every two-byte field is the big-endian encoding of the value read from it |
| HeaderCodec.WriteTo | src/header.rs:13-32 | magic and version always come first; the write succeeds iff the nonce is at most 255 bytes and the wrapped key at most 65535 bytes; a cap violation is a Format error with exactly the five prefix bytes written; on success the bytes sit at the offsets of the header layout (length byte at 5, big-endian length at 6-7, nonce from 8, wrapped key after it) and the total is 8 + nonce + wrapped key |
| HeaderCodec.Encode | src/header.rs:13-31 | an in-bounds header encodes to 8 + nonce length + wrapped-key length bytes |
| HeaderCodec.NonceCapCheckedFirst | src/header.rs:14-19 | a too-long nonce is reported as Format before the wrapped-key cap is looked at, after the five prefix bytes were written |
| HeaderCodec.EncodeLayout | src/header.rs:25-30 | the encoding is magic, version, nonce length, big-endian wrapped-key length, nonce, wrapped key |
| HeaderCodec.ReadExact | src/header.rs:55-59 | reading n bytes succeeds iff n bytes remain; it then splits the input into exactly n bytes and the rest, and otherwise fails with Io |
| HeaderCodec.ReadFrom | src/header.rs:34-62 | fewer than 4 bytes is Io; the magic alone, with no version byte, is Io; a wrong magic is Format; a right magic with a wrong version byte is Format; errors are only Io or Format; a parsed header always fits the caps |
| HeaderCodec.TruncatedIsIo | src/header.rs:41-59 | with good magic and either no version byte or a good one, input shorter than the layout it declares is an Io error, never a partial header |
| HeaderCodec.ReadWriteRoundTrip | src/header.rs:13-62 | decoding an in-bounds header's encoding followed by any bytes gives the header back and leaves exactly those bytes |
| HeaderCodec.ParsedIsEncoded | src/header.rs:34-62 | every successful parse consumed exactly the encoding of the header it returned |
| Envelope.ToKey32 | src/crypto.rs:15-22 | fails with Crypto iff the buffer is not 32 bytes; on success the key equals the buffer element-wise |
| Envelope.Encrypt | src/crypto.rs:25-71 | a master key that is not 32 bytes fails with Crypto and writes nothing; errors are Crypto or Format; encryption succeeds iff both keys are 32 bytes, both seals succeed and the wrapped key fits its length field; on success the output parses as a header carrying the one nonce and the master-key seal of the file key, and the remainder is the file-key seal of the plaintext under the same nonce |
| Envelope.Decrypt | src/crypto.rs:74-110 | a header error (Format or Io) wins over the key-length check; a bad master key length after a good header is Crypto; a header nonce that is not 12 bytes is Crypto; after a good header every failure (failed unwrap, unwrapped key not 32 bytes, failed content open) is Crypto; every failure leaves the output empty; on success the output is the content opened under the file key that the wrapped key opens to |
| Envelope.DecryptInvertsEncrypt | src/crypto.rs:25-110 | for a correct cipher, decrypting the output of a successful encryption returns the plaintext |
| Envelope.EncryptLayout | src/crypto.rs:46-69 | a successful encryption writes exactly the encoded header followed by the content ciphertext; the header's nonce length is 12 and the nonce is stored at offset 8 |
| Envelope.EncryptErrorOrder | src/crypto.rs:42-69 | the failure points in order: master-key length and key wrap leave the file empty; an oversize wrapped key leaves magic and version; a bad file key or failed content seal leave the whole header |
| Envelope.EncryptThenDecrypt | src/crypto.rs:25-110 | with 32-byte keys and a correct cipher that adds a 16-byte tag, encryption succeeds, its output is 8 + 12 + 48 + plaintext + 16 bytes long, and decryption returns the plaintext |
| Envelope.DecryptReadsRemainder | src/crypto.rs:100-106 | decryption opens all bytes after the header as the content ciphertext, with no further framing |
| Envelope.DecryptAsWritten | src/crypto.rs:83-92 | the tool aborts exactly when the header parses, the master key is 32 bytes and the header's nonce is not 12 bytes; otherwise it returns what Decrypt does |
| Envelope.DecryptAsWrittenInvertsEncrypt | src/crypto.rs:25-110 | the tool as written never aborts on a file it encrypted, and decrypts it to the plaintext |
| Envelope.BadNonceLengthAborts | src/crypto.rs:83-92 | for every in-bounds header whose nonce is not 12 bytes, any trailing bytes and any 32-byte master key, the tool aborts, while Decrypt reports Crypto with an empty output |
| Envelope.EmptyNonceAborts | src/crypto.rs:88-92 | a well-formed header with an empty nonce makes the tool abort, while Decrypt reports Crypto |

## Left out

- File opening (`src/io.rs`): a missing input or an uncreatable output fails with Io before anything else. The model starts after both files are open.
- The input and output are distinct files. Both operations truncate the output before reading the input, so naming one file as both destroys it; the model keeps them as separate byte sequences.
- Stream failures: `write_all` on the output and `read_to_end` on the input may fail with Io. The model treats the output as an always-writable byte sequence and the input as already read.
- Random generation of the file key and nonce: they are parameters of `Encrypt`. `Encrypt` takes a 12-byte nonce because the tool always generates one.
- AES-256-GCM internals and its security properties (tamper detection, wrong-key rejection, fresh ciphertexts per call) belong to the external cipher. Only `Correct`, and `TotalWithTag` for one lemma, are assumed.
- Memory wiping of key buffers on scope exit is a memory-lifecycle effect that has no counterpart in a value model.
- Master-key storage (`src/keyring_store.rs`), argument parsing (`src/cli.rs`) and dispatch and exit codes (`src/main.rs`) are outside the modelled core.
- Error messages: errors are modelled by kind only.
- Envelope.ToKey32: returns the validated buffer as a 32-byte sequence rather than a fixed-size array copy.

## Findings

| source | as written | input that shows it | evidently intended | confidence | as-written member | corrected member |
|---|---|---|---|---|---|---|
| src/crypto.rs:91 | the header's nonce goes to the AES-GCM nonce conversion, which accepts only 12-byte slices and aborts the process on any other length | a file `4C 42 58 31 01 00 00 00` (good magic and version, empty nonce, empty wrapped key) with a 32-byte master key | a malformed nonce is reported as an error (Crypto) like any other failure to open the wrapped key | medium, not executed; depends on the cipher library's conversion aborting on a length mismatch | Envelope.DecryptAsWritten, Envelope.EmptyNonceAborts, Envelope.BadNonceLengthAborts | Envelope.Decrypt |
