/** The fixed binary preamble written in front of every encrypted file:
    magic "LBX1", a version byte, a one-byte nonce length, a big-endian
    two-byte wrapped-key length, then the nonce and the wrapped key. */
module HeaderCodec {
  import opened Errors

  /** An unsigned 8-bit value. */
  type Byte = b: int | 0 <= b < 256

  /** The four magic bytes "LBX1". */
  const MAGIC: seq<Byte> := [0x4C, 0x42, 0x58, 0x31]

  /** The only layout version this codec writes or accepts. */
  const VERSION: Byte := 1

  /** Largest nonce whose length fits the one-byte length field. */
  const MAX_NONCE_LEN: nat := 255

  /** Largest wrapped key whose length fits the two-byte length field. */
  const MAX_WRAPPED_LEN: nat := 65535

  /** Number of bytes in front of the nonce: magic, version and the two length fields. */
  const FIXED_LEN: nat := 8

  datatype Header = Header(nonce: seq<Byte>, wrappedKey: seq<Byte>)

  /** Both variable fields fit their length prefixes. */
  predicate WithinCaps(h: Header) {
    |h.nonce| <= MAX_NONCE_LEN && |h.wrappedKey| <= MAX_WRAPPED_LEN
  }

  /** The value of two bytes read as a big-endian unsigned 16-bit number. */
  function FromBeBytes(b: seq<Byte>): (n: nat)
    requires |b| == 2
    ensures n < 65536
  {
    (b[0] as int) * 256 + (b[1] as int)
  }

  /** The big-endian two-byte form of a 16-bit number. */
  function ToBeBytes(n: nat): (b: seq<Byte>)
    requires n < 65536
    ensures |b| == 2
    ensures FromBeBytes(b) == n
  {
    [n / 256, n % 256]
  }

  /** Every pair of bytes is the big-endian encoding of its own value, so
      FromBeBytes is injective and ToBeBytes is onto. */
  lemma BeBytesOnto(b: seq<Byte>)
    requires |b| == 2
    ensures ToBeBytes(FromBeBytes(b)) == b
  {
  }

  /** What the sink holds after a write attempt, and what the write returned. */
  datatype Written = Written(bytes: seq<Byte>, status: Result<()>)

  /** Serialises a header into an empty sink. The magic and version are
      written before the length caps are checked, so a header that fails
      a cap leaves those five bytes behind. */
  function WriteTo(h: Header): (w: Written)
    ensures |w.bytes| >= 5 && w.bytes[..4] == MAGIC && w.bytes[4] == VERSION
    ensures w.status.Ok? <==> WithinCaps(h)
    ensures w.status.Err? ==> w == Written(MAGIC + [VERSION], Err(Format))
    ensures w.status.Ok? ==>
      && |w.bytes| == FIXED_LEN + |h.nonce| + |h.wrappedKey|
      && w.bytes[5] == |h.nonce|
      && FromBeBytes(w.bytes[6..8]) == |h.wrappedKey|
      && w.bytes[FIXED_LEN..FIXED_LEN + |h.nonce|] == h.nonce
      && w.bytes[FIXED_LEN + |h.nonce|..] == h.wrappedKey
  {
    var prefix := MAGIC + [VERSION];
    if |h.nonce| > MAX_NONCE_LEN then
      Written(prefix, Err(Format))
    else if |h.wrappedKey| > MAX_WRAPPED_LEN then
      Written(prefix, Err(Format))
    else
      var lengths := [|h.nonce| as Byte] + ToBeBytes(|h.wrappedKey|);
      var bytes := prefix + lengths + h.nonce + h.wrappedKey;
      assert bytes[FIXED_LEN..FIXED_LEN + |h.nonce|] == h.nonce;
      assert bytes[FIXED_LEN + |h.nonce|..] == h.wrappedKey;
      assert bytes[6..8] == lengths[1..];
      Written(bytes, Ok(()))
  }

  /** The bytes of a header that fits its caps. */
  function Encode(h: Header): (bytes: seq<Byte>)
    requires WithinCaps(h)
    ensures |bytes| == FIXED_LEN + |h.nonce| + |h.wrappedKey|
  {
    WriteTo(h).bytes
  }

  /** The nonce check comes first: a header that violates both caps is
      rejected for its nonce, with only the magic and version written. */
  lemma NonceCapCheckedFirst(h: Header)
    requires |h.nonce| > MAX_NONCE_LEN
    ensures WriteTo(h) == Written(MAGIC + [VERSION], Err(Format))
  {
  }

  /** An in-bounds header encodes to exactly the layout in the module comment. */
  lemma EncodeLayout(h: Header)
    requires WithinCaps(h)
    ensures Encode(h) == MAGIC + [VERSION] + [|h.nonce|] + ToBeBytes(|h.wrappedKey|) + h.nonce + h.wrappedKey
  {
  }

  /** Reads exactly `n` bytes from the front of the input, or fails with an
      I/O error when fewer remain; on success returns the bytes and the rest. */
  function ReadExact(input: seq<Byte>, n: nat): (r: Result<(seq<Byte>, seq<Byte>)>)
    ensures r.Ok? <==> n <= |input|
    ensures r.Err? ==> r.error == Io
    ensures r.Ok? ==> |r.value.0| == n && r.value.0 + r.value.1 == input
  {
    if |input| < n then Err(Io) else Ok((input[..n], input[n..]))
  }

  /** Parses a header from the front of the input, returning it together
      with the unconsumed remainder. */
  function ReadFrom(input: seq<Byte>): (r: Result<(Header, seq<Byte>)>)
    ensures |input| < 4 ==> r == Err(Io)
    ensures input == MAGIC ==> r == Err(Io)
    ensures |input| >= 4 && input[..4] != MAGIC ==> r == Err(Format)
    ensures |input| >= 5 && input[..4] == MAGIC && input[4] != VERSION ==> r == Err(Format)
    ensures r.Err? ==> r.error == Io || r.error == Format
    ensures r.Ok? ==> WithinCaps(r.value.0)
  {
    var (magic, afterMagic) :- ReadExact(input, 4);
    if magic != MAGIC then Err(Format)
    else
      var (version, afterVersion) :- ReadExact(afterMagic, 1);
      if version[0] != VERSION then Err(Format)
      else
        var (nonceLen, afterNonceLen) :- ReadExact(afterVersion, 1);
        var (wrappedLen, afterLens) :- ReadExact(afterNonceLen, 2);
        var (nonce, afterNonce) :- ReadExact(afterLens, nonceLen[0]);
        var (wrappedKey, rest) :- ReadExact(afterNonce, FromBeBytes(wrappedLen));
        Ok((Header(nonce, wrappedKey), rest))
  }

  /** The length a well-formed input must have at least, as declared by its
      own length fields. */
  function DeclaredLen(input: seq<Byte>): nat
    requires |input| >= FIXED_LEN
  {
    FIXED_LEN + input[5] + FromBeBytes(input[6..8])
  }

  /** With good magic and version, an input shorter than the layout it
      declares fails with an I/O error; no partial header is returned. */
  lemma TruncatedIsIo(input: seq<Byte>)
    requires |input| >= 4 && input[..4] == MAGIC && (|input| == 4 || input[4] == VERSION)
    requires |input| < FIXED_LEN || |input| < DeclaredLen(input)
    ensures ReadFrom(input) == Err(Io)
  {
  }

  /** A header that fits its caps, followed by any bytes, parses back to the
      same header and leaves exactly the trailing bytes unconsumed. */
  lemma ReadWriteRoundTrip(h: Header, rest: seq<Byte>)
    requires WithinCaps(h)
    ensures ReadFrom(Encode(h) + rest) == Ok((h, rest))
  {
    var input := Encode(h) + rest;
    var n, k := |h.nonce|, |h.wrappedKey|;
    assert input[..4] == MAGIC;
    assert input[4..][..1] == [VERSION];
    assert input[5..][..1] == [n];
    assert input[6..][..2] == Encode(h)[6..8];
    assert input[8..][..n] == h.nonce;
    assert input[8 + n..] == h.wrappedKey + rest;
    assert input[8 + n..][..k] == h.wrappedKey;
    assert input[8 + n + k..] == rest;
  }

  /** Re-associates a right-nested concatenation of five sequences. */
  lemma AppendAssoc5<T>(a: seq<T>, b: seq<T>, c: seq<T>, d: seq<T>, e: seq<T>)
    ensures a + (b + (c + (d + e))) == a + b + c + d + e
  {
  }

  /** Re-associates a right-nested concatenation of four sequences. */
  lemma AppendAssoc4<T>(a: seq<T>, b: seq<T>, c: seq<T>, d: seq<T>)
    ensures a + (b + (c + d)) == a + b + c + d
  {
  }

  /** Conversely, every successful parse consumed exactly the encoding of
      the header it returned. */
  lemma ParsedIsEncoded(input: seq<Byte>)
    requires ReadFrom(input).Ok?
    ensures Encode(ReadFrom(input).value.0) + ReadFrom(input).value.1 == input
  {
    var (magic, afterMagic) := ReadExact(input, 4).value;
    var (version, afterVersion) := ReadExact(afterMagic, 1).value;
    var (nonceLen, afterNonceLen) := ReadExact(afterVersion, 1).value;
    var (wrappedLen, afterLens) := ReadExact(afterNonceLen, 2).value;
    var (nonce, afterNonce) := ReadExact(afterLens, nonceLen[0]).value;
    var (wrappedKey, rest) := ReadExact(afterNonce, FromBeBytes(wrappedLen)).value;
    assert ReadFrom(input) == Ok((Header(nonce, wrappedKey), rest));
    BeBytesOnto(wrappedLen);
    assert magic == MAGIC && version == [VERSION] && nonceLen == [|nonce| as Byte];
    assert wrappedLen == ToBeBytes(|wrappedKey|);
    var tail := nonce + (wrappedKey + rest);
    calc {
      input;
      magic + (version + (nonceLen + (wrappedLen + tail)));
      MAGIC + ([VERSION] + ([|nonce| as Byte] + (ToBeBytes(|wrappedKey|) + tail)));
      { AppendAssoc5(MAGIC, [VERSION], [|nonce| as Byte], ToBeBytes(|wrappedKey|), tail); }
      MAGIC + [VERSION] + [|nonce| as Byte] + ToBeBytes(|wrappedKey|) + tail;
      { AppendAssoc4(MAGIC + [VERSION] + [|nonce| as Byte] + ToBeBytes(|wrappedKey|), nonce, wrappedKey, rest); }
      MAGIC + [VERSION] + [|nonce| as Byte] + ToBeBytes(|wrappedKey|) + nonce + wrappedKey + rest;
      { EncodeLayout(Header(nonce, wrappedKey)); }
      Encode(Header(nonce, wrappedKey)) + rest;
    }
  }
}
