/** Envelope encryption of one file: a fresh file key seals the contents,
    the master key seals (wraps) the file key, and the wrapped key travels
    in the header together with the single nonce both seals use.

    AES-256-GCM is a foreign library. It enters the model as a value `Aead`
    holding the seal and open functions; the only fact the model assumes of
    them is `Correct` (open undoes seal), stated as a hypothesis where it is
    needed. The random file key and nonce are parameters, and the input and
    output files are byte sequences. */
module Envelope {
  import opened Errors
  import opened HeaderCodec

  /** Length of an AES-256 key. */
  const KEY_LEN: nat := 32

  /** Length of the AES-GCM nonce the tool generates. */
  const NONCE_LEN: nat := 12

  /** Length of the authentication tag AES-GCM appends. */
  const TAG_LEN: nat := 16

  type Key32 = k: seq<Byte> | |k| == KEY_LEN
    witness [0, 0, 0, 0, 0, 0, 0, 0, 0, 0, 0, 0, 0, 0, 0, 0,
             0, 0, 0, 0, 0, 0, 0, 0, 0, 0, 0, 0, 0, 0, 0, 0]

  type Nonce = n: seq<Byte> | |n| == NONCE_LEN
    witness [0, 0, 0, 0, 0, 0, 0, 0, 0, 0, 0, 0]

  /** An authenticated cipher: `seal` encrypts and tags, `open` checks the tag
      and decrypts; either may fail. */
  datatype Aead = Aead(
    seal: (Key32, Nonce, seq<Byte>) -> Option<seq<Byte>>,
    open: (Key32, Nonce, seq<Byte>) -> Option<seq<Byte>>)

  /** Opening what was sealed under the same key and nonce gives back the
      plaintext. */
  ghost predicate Correct(a: Aead) {
    forall k, n, p :: a.seal(k, n, p).Some? ==> a.open(k, n, a.seal(k, n, p).value) == Some(p)
  }

  /** Sealing never fails and appends a tag of `TAG_LEN` bytes, as AES-GCM
      does for every plaintext under its length limit. */
  ghost predicate TotalWithTag(a: Aead) {
    forall k, n, p :: a.seal(k, n, p).Some? && |a.seal(k, n, p).value| == |p| + TAG_LEN
  }

  /** The effect of one operation: the bytes it left in the output file
      (created empty up front) and the status it returned. */
  datatype Run = Run(output: seq<Byte>, status: Result<()>)

  /** Validates that a byte buffer is an AES-256 key. */
  function ToKey32(bytes: seq<Byte>): (r: Result<Key32>)
    ensures r.Err? <==> |bytes| != KEY_LEN
    ensures r.Err? ==> r.error == Crypto
    ensures r.Ok? ==> forall i :: 0 <= i < KEY_LEN ==> r.value[i] == bytes[i]
  {
    if |bytes| != KEY_LEN then Err(Crypto) else Ok(bytes)
  }

  /** Encrypts `plaintext` with the given master key, using `fileKey` and
      `nonce` as the freshly generated file key and nonce. */
  function Encrypt(aead: Aead, masterKey: seq<Byte>, fileKey: seq<Byte>, nonce: Nonce, plaintext: seq<Byte>): (r: Run)
    // key validation comes before any output
    ensures |masterKey| != KEY_LEN ==> r == Run([], Err(Crypto))
    ensures r.status.Err? ==> r.status.error in {Crypto, Format}
    // encryption succeeds exactly when every step does
    ensures r.status.Ok? <==>
      && |masterKey| == KEY_LEN && |fileKey| == KEY_LEN
      && aead.seal(masterKey, nonce, fileKey).Some?
      && WithinCaps(Header(nonce, aead.seal(masterKey, nonce, fileKey).value))
      && aead.seal(fileKey, nonce, plaintext).Some?
    // on success the file is a header carrying the nonce and the wrapped
    // file key, followed by the content ciphertext
    ensures r.status.Ok? ==>
      && |masterKey| == KEY_LEN && |fileKey| == KEY_LEN
      && aead.seal(masterKey, nonce, fileKey).Some?
      && aead.seal(fileKey, nonce, plaintext).Some?
      && ReadFrom(r.output) == Ok((Header(nonce, aead.seal(masterKey, nonce, fileKey).value),
                                   aead.seal(fileKey, nonce, plaintext).value))
  {
    match ToKey32(masterKey)
    case Err(e) => Run([], Err(e))
    case Ok(mk) =>
      match aead.seal(mk, nonce, fileKey)
      case None => Run([], Err(Crypto))
      case Some(wrapped) =>
        var header := Header(nonce, wrapped);
        var w := WriteTo(header);
        if w.status.Err? then Run(w.bytes, w.status)
        else
          match ToKey32(fileKey)
          case Err(e) => Run(w.bytes, Err(e))
          case Ok(fk) =>
            match aead.seal(fk, nonce, plaintext)
            case None => Run(w.bytes, Err(Crypto))
            case Some(ciphertext) =>
              ReadWriteRoundTrip(header, ciphertext);
              Run(w.bytes + ciphertext, Ok(()))
  }

  /** Decrypts an encrypted file with the given master key. */
  function Decrypt(aead: Aead, masterKey: seq<Byte>, file: seq<Byte>): (r: Run)
    // header errors take precedence over the key-length check
    ensures ReadFrom(file).Err? ==> r == Run([], Err(ReadFrom(file).error))
    ensures ReadFrom(file).Ok? && |masterKey| != KEY_LEN ==> r == Run([], Err(Crypto))
    // a header whose nonce is not a 12-byte AES-GCM nonce is a Crypto error
    ensures ReadFrom(file).Ok? && |masterKey| == KEY_LEN && |ReadFrom(file).value.0.nonce| != NONCE_LEN ==>
      r == Run([], Err(Crypto))
    // once the header is read, every failure (bad master key, failed
    // unwrap, unwrapped key of the wrong size, failed open) is Crypto
    ensures ReadFrom(file).Ok? && r.status.Err? ==> r.status.error == Crypto
    // nothing is written unless the whole operation succeeds
    ensures r.status.Err? ==> r.output == []
    // on success the plaintext is what opening the bytes after the header
    // gives, under the file key the wrapped key opens to
    ensures r.status.Ok? ==>
      && ReadFrom(file).Ok? && |masterKey| == KEY_LEN
      && var (h, rest) := ReadFrom(file).value;
      && |h.nonce| == NONCE_LEN
      && aead.open(masterKey, h.nonce, h.wrappedKey).Some?
      && |aead.open(masterKey, h.nonce, h.wrappedKey).value| == KEY_LEN
      && aead.open(aead.open(masterKey, h.nonce, h.wrappedKey).value, h.nonce, rest) == Some(r.output)
  {
    match ReadFrom(file)
    case Err(e) => Run([], Err(e))
    case Ok((header, rest)) =>
      match ToKey32(masterKey)
      case Err(e) => Run([], Err(e))
      case Ok(mk) =>
        if |header.nonce| != NONCE_LEN then Run([], Err(Crypto))
        else
          match aead.open(mk, header.nonce, header.wrappedKey)
          case None => Run([], Err(Crypto))
          case Some(fileKeyBytes) =>
            match ToKey32(fileKeyBytes)
            case Err(e) => Run([], Err(e))
            case Ok(fk) =>
              match aead.open(fk, header.nonce, rest)
              case None => Run([], Err(Crypto))
              case Some(plaintext) => Run(plaintext, Ok(()))
  }

  /** Decryption undoes a successful encryption. */
  lemma DecryptInvertsEncrypt(aead: Aead, masterKey: seq<Byte>, fileKey: seq<Byte>, nonce: Nonce, plaintext: seq<Byte>)
    requires Correct(aead)
    requires Encrypt(aead, masterKey, fileKey, nonce, plaintext).status.Ok?
    ensures Decrypt(aead, masterKey, Encrypt(aead, masterKey, fileKey, nonce, plaintext).output) == Run(plaintext, Ok(()))
  {
  }

  /** A successful encryption writes exactly the encoded header followed by
      the content ciphertext: magic, version, a nonce length of 12, the
      nonce itself, then the wrapped key and the sealed contents. */
  lemma EncryptLayout(aead: Aead, masterKey: seq<Byte>, fileKey: seq<Byte>, nonce: Nonce, plaintext: seq<Byte>)
    requires Encrypt(aead, masterKey, fileKey, nonce, plaintext).status.Ok?
    ensures |masterKey| == KEY_LEN
    ensures var out := Encrypt(aead, masterKey, fileKey, nonce, plaintext).output;
      var wrapped := aead.seal(masterKey, nonce, fileKey).value;
      && WithinCaps(Header(nonce, wrapped))
      && out == Encode(Header(nonce, wrapped)) + aead.seal(fileKey, nonce, plaintext).value
      && out[..4] == MAGIC && out[4] == VERSION && out[5] == NONCE_LEN
      && out[FIXED_LEN..FIXED_LEN + NONCE_LEN] == nonce
  {
  }

  /** The failure points of encryption, in order, and what each leaves in
      the output file: a bad master key or a failed wrap leave it empty; an
      oversize wrapped key leaves the magic and version; a bad file key or a
      failed content seal leave the whole header. */
  lemma EncryptErrorOrder(aead: Aead, masterKey: seq<Byte>, fileKey: seq<Byte>, nonce: Nonce, plaintext: seq<Byte>)
    ensures var r := Encrypt(aead, masterKey, fileKey, nonce, plaintext);
      && (|masterKey| != KEY_LEN ==> r == Run([], Err(Crypto)))
      && (|masterKey| == KEY_LEN && aead.seal(masterKey, nonce, fileKey).None? ==> r == Run([], Err(Crypto)))
      && (|masterKey| == KEY_LEN && aead.seal(masterKey, nonce, fileKey).Some? ==>
            var h := Header(nonce, aead.seal(masterKey, nonce, fileKey).value);
            && (!WithinCaps(h) ==> r == Run(MAGIC + [VERSION], Err(Format)))
            && (WithinCaps(h) && |fileKey| != KEY_LEN ==> r == Run(Encode(h), Err(Crypto)))
            && (WithinCaps(h) && |fileKey| == KEY_LEN && aead.seal(fileKey, nonce, plaintext).None? ==>
                  r == Run(Encode(h), Err(Crypto))))
  {
  }

  /** With a 32-byte master key and file key and a cipher that behaves like
      AES-GCM, encryption succeeds, its output is the 8-byte fixed part,
      the 12-byte nonce, the 48-byte wrapped key and the plaintext plus its
      tag, and decryption gives back the plaintext. */
  lemma EncryptThenDecrypt(aead: Aead, masterKey: seq<Byte>, fileKey: seq<Byte>, nonce: Nonce, plaintext: seq<Byte>)
    requires Correct(aead) && TotalWithTag(aead)
    requires |masterKey| == KEY_LEN && |fileKey| == KEY_LEN
    ensures var r := Encrypt(aead, masterKey, fileKey, nonce, plaintext);
      && r.status.Ok?
      && |r.output| == FIXED_LEN + NONCE_LEN + (KEY_LEN + TAG_LEN) + (|plaintext| + TAG_LEN)
      && Decrypt(aead, masterKey, r.output) == Run(plaintext, Ok(()))
  {
    DecryptInvertsEncrypt(aead, masterKey, fileKey, nonce, plaintext);
  }

  /** Decryption takes every byte after the header as the content
      ciphertext, with no further framing. */
  lemma DecryptReadsRemainder(aead: Aead, masterKey: Key32, h: Header, ciphertext: seq<Byte>)
    requires WithinCaps(h) && |h.nonce| == NONCE_LEN
    requires aead.open(masterKey, h.nonce, h.wrappedKey).Some?
    requires |aead.open(masterKey, h.nonce, h.wrappedKey).value| == KEY_LEN
    ensures var fileKey: Key32 := aead.open(masterKey, h.nonce, h.wrappedKey).value;
      Decrypt(aead, masterKey, Encode(h) + ciphertext) ==
        match aead.open(fileKey, h.nonce, ciphertext)
        case None => Run([], Err(Crypto))
        case Some(plaintext) => Run(plaintext, Ok(()))
  {
    ReadWriteRoundTrip(h, ciphertext);
  }

  /** The process outcome of the tool's decryption: it either returns, or
      aborts inside the AES-GCM nonce conversion. */
  datatype Exit = Returned(run: Run) | Panicked

  /** Decryption as the tool performs it. The nonce read from the header
      is handed to a fixed-size conversion that aborts on any length other
      than 12, after the master key has been accepted. */
  function DecryptAsWritten(aead: Aead, masterKey: seq<Byte>, file: seq<Byte>): (x: Exit)
    ensures x.Panicked? <==>
      ReadFrom(file).Ok? && |masterKey| == KEY_LEN && |ReadFrom(file).value.0.nonce| != NONCE_LEN
    ensures x.Returned? ==> x.run == Decrypt(aead, masterKey, file)
  {
    if ReadFrom(file).Ok? && |masterKey| == KEY_LEN && |ReadFrom(file).value.0.nonce| != NONCE_LEN then
      Panicked
    else
      Returned(Decrypt(aead, masterKey, file))
  }

  /** A well-formed header with an empty nonce makes the tool abort rather
      than report an error, while `Decrypt` reports a Crypto error. */
  lemma EmptyNonceAborts(aead: Aead, masterKey: Key32)
    ensures var file := MAGIC + [VERSION, 0, 0, 0];
      && DecryptAsWritten(aead, masterKey, file) == Panicked
      && Decrypt(aead, masterKey, file) == Run([], Err(Crypto))
  {
  }

  /** The tool as written still decrypts every file it encrypted: such a
      file always carries a 12-byte nonce, so the abort is never reached. */
  lemma DecryptAsWrittenInvertsEncrypt(aead: Aead, masterKey: seq<Byte>, fileKey: seq<Byte>, nonce: Nonce, plaintext: seq<Byte>)
    requires Correct(aead)
    requires Encrypt(aead, masterKey, fileKey, nonce, plaintext).status.Ok?
    ensures DecryptAsWritten(aead, masterKey, Encrypt(aead, masterKey, fileKey, nonce, plaintext).output)
      == Returned(Run(plaintext, Ok(())))
  {
    DecryptInvertsEncrypt(aead, masterKey, fileKey, nonce, plaintext);
  }

  /** The tool as written aborts on every well-formed header whose nonce is
      not 12 bytes, whatever follows it, once the master key is accepted. */
  lemma BadNonceLengthAborts(aead: Aead, masterKey: Key32, h: Header, rest: seq<Byte>)
    requires WithinCaps(h) && |h.nonce| != NONCE_LEN
    ensures DecryptAsWritten(aead, masterKey, Encode(h) + rest) == Panicked
    ensures Decrypt(aead, masterKey, Encode(h) + rest) == Run([], Err(Crypto))
  {
    ReadWriteRoundTrip(h, rest);
  }
}
