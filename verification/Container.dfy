/**
 The sealed container (`crates/zbacs-core/src/container.rs`): layout, seal, open.

 Files and streams are byte sequences. The primitives are function values gathered in a
 `Suite`; what is assumed of them is stated where it is used, never built in.
 */
module Container {
  import opened Bytes
  import opened Permissions

  // ---------------------------------------------------------------- results

  datatype Error =
    | Io
    | BadMagic
    | UnsupportedVersion(major: byte, minor: byte)
    | HeaderTooLarge(len: nat)
    | HeaderEncode
    | HeaderDecode
    | HeaderSignature
    | UnsupportedCipher(cipher: byte)
    | BadChunkSize(chunk: nat)
    | EnvelopeSeal
    | EnvelopeOpen
    | NoEnvelope
    | NoOwnerKey
    | NameAuth
    | ChunkAuth(index: nat)
    | Truncated
    | BrokenChain

  datatype Result<+T> = Ok(value: T) | Err(error: Error) {
    predicate IsFailure() { Err? }
    function PropagateFailure<U>(): Result<U>
      requires Err?
    {
      Err(error)
    }
    function Extract(): T
      requires Ok?
    {
      value
    }
  }

  // ---------------------------------------------------------------- header

  datatype Policy = Policy(default: Permission, ttl: u32, max: u16, pin: bool, strict: bool)

  datatype Envelope = Envelope(kid: bytes, alg: bytes, enc: bytes, ct: bytes)

  datatype HeaderBody = HeaderBody(
    fid: bytes32, salt: bytes16, ver: u32, prev: Option<bytes32>, own: bytes, opub: Option<bytes32>,
    pol: Policy, cipher: byte, chunk: u32, plen: u64, np: bytes16, name: bytes, env: seq<Envelope>)

  datatype Header = Header(body: HeaderBody, sigk: bytes, sig: bytes)

  const MAGIC: bytes := [0x5A, 0x42, 0x41, 0x43, 0x53, 0x00]
  const VERSION_MAJOR: byte := 1
  const VERSION_MINOR: byte := 1
  const CIPHER_CHUNKED: byte := 1
  const HDR_SIG_DOMAIN: bytes := [0x5A, 0x42, 0x41, 0x43, 0x53, 0x2D, 0x48, 0x44, 0x52, 0x2D, 0x76, 0x31]
  const NAME_AAD: bytes := [0x6E, 0x61, 0x6D, 0x65]
  const TAG_LEN: nat := 16
  const NAME_INDEX: u64 := U64_MAX
  const MAX_CHUNK: nat := 16 * 1024 * 1024
  const MAX_HEADER_LEN: nat := 1024 * 1024
  const MAX_OWNER_LEN: nat := 64
  const NAME_PAD_BLOCK: nat := 64
  const MAX_NAME_LEN: nat := 1024
  const MAX_NAME_CT_LEN: nat := 1088 + TAG_LEN
  const MAX_ENVELOPES: nat := 32
  const MAX_ENVELOPE_FIELD_LEN: nat := 1024

  /** The primitives and library codecs, as functions. */
  datatype Suite = Suite(
    sha256: bytes -> bytes32,
    blake3: bytes -> bytes32,
    aeadSeal: (bytes32, bytes, bytes, bytes) -> bytes,          // key, nonce, aad, message
    aeadOpen: (bytes32, bytes, bytes, bytes) -> Option<bytes>,  // key, nonce, aad, ciphertext
    encodeHeader: Header -> bytes,
    encodeBody: HeaderBody -> bytes,
    decodeHeader: bytes -> Option<Header>,
    publicOf: bytes -> bytes,
    sign: (bytes, bytes) -> bytes,                              // secret key, message
    verifySig: (bytes, bytes, bytes) -> bool,                   // public key, message, signature
    wrap: (bytes, bytes32, bytes) -> Option<Envelope>,          // recipient key, DEK, aad
    unwrap: (bytes, Envelope, bytes) -> Option<bytes32>,        // recipient secret, envelope, aad
    keyId: bytes -> bytes,
    validUtf8: bytes -> bool)

  /** The primitives do what their names say: a tag adds sixteen bytes, what is encoded decodes,
      what is signed verifies, and a wrapped key fits its field. */
  ghost predicate Sound(s: Suite) {
    && (forall k, n, a, m :: |s.aeadSeal(k, n, a, m)| == |m| + TAG_LEN)
    && (forall h :: s.decodeHeader(s.encodeHeader(h)) == Some(h))
    && (forall sk, m :: s.verifySig(s.publicOf(sk), m, s.sign(sk, m)))
    && (forall pk, dek, aad :: s.wrap(pk, dek, aad).Some? ==>
          && |s.wrap(pk, dek, aad).value.enc| <= MAX_ENVELOPE_FIELD_LEN
          && |s.wrap(pk, dek, aad).value.ct| <= MAX_ENVELOPE_FIELD_LEN)
  }

  /** The AEAD opens whatever it sealed. */
  ghost predicate AeadCorrect(s: Suite) {
    forall k, n, a, m :: s.aeadOpen(k, n, a, s.aeadSeal(k, n, a, m)) == Some(m)
  }

  function SigningMessage(s: Suite, body: HeaderBody): bytes {
    HDR_SIG_DOMAIN + s.encodeBody(body)
  }

  function Encode(s: Suite, h: Header): Result<bytes> {
    var b := s.encodeHeader(h);
    if |b| > MAX_HEADER_LEN then Err(HeaderTooLarge(|b|)) else Ok(b)
  }

  function HeaderHash(s: Suite, h: Header): Result<bytes32> {
    var b :- Encode(s, h);
    Ok(s.sha256(b))
  }

  function DecodeVerified(s: Suite, b: bytes): Result<(Header, bytes32)> {
    if |b| > MAX_HEADER_LEN then Err(HeaderTooLarge(|b|))
    else
      match s.decodeHeader(b)
      case None => Err(HeaderDecode)
      case Some(h) =>
        if s.verifySig(h.sigk, SigningMessage(s, h.body), h.sig) then Ok((h, s.sha256(b))) else Err(HeaderSignature)
  }

  // ---------------------------------------------------------------- nonces, aad, names, chunks

  function Nonce(np: bytes16, index: u64): (n: bytes)
    ensures |n| == 24
  {
    np + Le(index, 8)
  }

  function ChunkAad(hh: bytes32, index: u64, isLast: bool): (a: bytes)
    ensures |a| == 41
  {
    hh + Le(index, 8) + [if isLast then 1 else 0]
  }

  function PadName(name: bytes): Result<bytes> {
    if |name| > MAX_NAME_LEN then Err(HeaderEncode)
    else
      var padded := (2 + |name| + NAME_PAD_BLOCK - 1) / NAME_PAD_BLOCK * NAME_PAD_BLOCK;
      Ok(Le(|name|, 2) + name + Zeros(padded - 2 - |name|))
  }

  function UnpadName(s: Suite, buf: bytes): Result<bytes> {
    if |buf| < NAME_PAD_BLOCK || |buf| % NAME_PAD_BLOCK != 0 || |buf| > MAX_NAME_CT_LEN - TAG_LEN then Err(NameAuth)
    else
      var len := FromLe(buf[..2]);
      if len > MAX_NAME_LEN || 2 + len > |buf| then Err(NameAuth)
      else if exists i :: 2 + len <= i < |buf| && buf[i] != 0 then Err(NameAuth)
      else if s.validUtf8(buf[2..2 + len]) then Ok(buf[2..2 + len]) else Err(NameAuth)
  }

  /** `chunk_count`: at least one, so that the header hash is bound by some chunk even for an
      empty file. */
  function ChunkCount(plen: u64, chunk: nat): (n: u64)
    requires chunk > 0
    ensures n == NumChunks(plen, chunk)
  {
    CeilDivCounts(plen, chunk);
    if plen == 0 then 1 else (plen + chunk - 1) / chunk
  }

  /** How many chunks cutting off one chunk at a time leaves. */
  function NumChunks(plen: nat, chunk: nat): (n: nat)
    requires chunk > 0
    ensures 1 <= n && (plen > 0 ==> n <= plen)
  {
    if plen <= chunk then 1 else 1 + NumChunks(plen - chunk, chunk)
  }

  lemma {:induction false} CeilDivCounts(plen: nat, chunk: nat)
    requires chunk > 0
    ensures NumChunks(plen, chunk) == if plen == 0 then 1 else (plen + chunk - 1) / chunk
  {
    if plen > chunk {
      CeilDivCounts(plen - chunk, chunk);
      assert plen + chunk - 1 == (plen - chunk + chunk - 1) + chunk;
      DivStep(plen - 1, chunk);
    } else if plen > 0 {
      DivStep(plen - 1, chunk);
    }
  }

  lemma DivStep(a: nat, b: nat)
    requires b > 0
    ensures (a + b) / b == a / b + 1
    ensures a < b ==> a / b == 0
  {
    var q, r := a / b, a % b;
    assert (q + 1) * b == q * b + b;
    Quotient(a + b, b, q + 1, r);
    if a < b {
      Quotient(a, b, 0, a);
    }
  }

  lemma Quotient(x: nat, b: nat, q: nat, r: nat)
    requires b > 0 && x == q * b + r && r < b
    ensures x / b == q
  {
    var m := x / b;
    assert m * b <= x < (m + 1) * b;
    assert (q + 1) * b == q * b + b;
    if m > q {
      MulMono(q + 1, m, b);
    } else if m < q {
      MulMono(m + 1, q, b);
    }
  }

  lemma MulMono(a: nat, b: nat, c: nat)
    requires a <= b
    ensures a * c <= b * c
  {
    assert b * c == a * c + (b - a) * c;
  }

  /** The plaintext cut into chunks: all full but the last. */
  function Split(plain: bytes, chunk: nat): (cs: seq<bytes>)
    requires chunk > 0
    ensures |cs| == NumChunks(|plain|, chunk)
  {
    if |plain| <= chunk then [plain] else [plain[..chunk]] + Split(plain[chunk..], chunk)
  }

  function Flat(parts: seq<bytes>): bytes {
    if parts == [] then [] else parts[0] + Flat(parts[1..])
  }

  lemma {:induction false} FlatSnoc(parts: seq<bytes>, last: bytes)
    ensures Flat(parts + [last]) == Flat(parts) + last
  {
    if parts == [] {
      assert parts + [last] == [last];
    } else {
      FlatSnoc(parts[1..], last);
      assert (parts + [last])[1..] == parts[1..] + [last];
    }
  }

  /** What one container encrypts its chunks with. */
  datatype Cipher = Cipher(s: Suite, dek: bytes32, np: bytes16, hh: bytes32, total: u64) {

    function Seal(i: nat, m: bytes): bytes
      requires i < total
    {
      s.aeadSeal(dek, Nonce(np, i), ChunkAad(hh, i, i + 1 == total), m)
    }

    function Open(i: nat, c: bytes): Option<bytes>
      requires i < total
    {
      s.aeadOpen(dek, Nonce(np, i), ChunkAad(hh, i, i + 1 == total), c)
    }

    function Frames(chunks: seq<bytes>): (fs: seq<bytes>)
      requires |chunks| == total
      ensures |fs| == total
      ensures forall i :: 0 <= i < total ==> fs[i] == Seal(i, chunks[i])
    {
      seq(|chunks|, i requires 0 <= i < |chunks| => Seal(i, chunks[i]))
    }

    function Trailer(frames: bytes): bytes {
      hh + Le(total, 8) + s.blake3(frames)
    }
  }

  // ---------------------------------------------------------------- sealing

  datatype PrevVersion = PrevVersion(headerHash: bytes32, version: u32, fileId: bytes32, salt: bytes16)

  function PrevOf(h: Header, hh: bytes32): PrevVersion {
    PrevVersion(hh, h.body.ver, h.body.fid, h.body.salt)
  }

  datatype SealOptions = SealOptions(
    policy: Policy, ownerAccount: bytes, fileName: bytes, chunkSize: nat,
    extraRecipients: seq<bytes>, prev: Option<PrevVersion>)

  /** The random values one seal draws. */
  datatype Fresh = Fresh(dek: bytes32, np: bytes16, salt: bytes16)

  function WrapAll(s: Suite, pks: seq<bytes>, dek: bytes32, fid: bytes32): Result<seq<Envelope>> {
    if pks == [] then Ok([])
    else
      match s.wrap(pks[0], dek, fid)
      case None => Err(EnvelopeSeal)
      case Some(e) =>
        var rest :- WrapAll(s, pks[1..], dek, fid);
        Ok([e] + rest)
  }

  /** The header one seal writes, or why it refuses, in the order the code checks. */
  function SealHeader(s: Suite, plain: bytes, ownerPk: bytes32, signer: bytes, opts: SealOptions, rnd: Fresh)
    : Result<Header>
    requires |plain| <= U64_MAX
  {
    if opts.chunkSize == 0 || opts.chunkSize > MAX_CHUNK then Err(BadChunkSize(opts.chunkSize))
    else
      var (fid, salt) :=
        if opts.prev.Some? then (opts.prev.value.fileId, opts.prev.value.salt)
        else (s.sha256(s.sha256(plain) + rnd.salt), rnd.salt);
      var padded :- PadName(opts.fileName);
      var name := s.aeadSeal(rnd.dek, Nonce(rnd.np, NAME_INDEX), NAME_AAD, padded);
      var env :- WrapAll(s, [ownerPk] + opts.extraRecipients, rnd.dek, fid);
      if opts.prev.Some? && opts.prev.value.version == 0xFFFF_FFFF then Err(HeaderEncode)
      else
        var (prev, ver: u32) :=
          if opts.prev.Some? then (Some(opts.prev.value.headerHash), opts.prev.value.version + 1) else (None, 1);
        var body := HeaderBody(fid, salt, ver, prev, opts.ownerAccount, Some(ownerPk), opts.policy,
                               CIPHER_CHUNKED, opts.chunkSize, |plain|, rnd.np, name, env);
        var hdr := Header(body, s.publicOf(signer), s.sign(signer, SigningMessage(s, body)));
        var encoded :- Encode(s, hdr);
        Ok(hdr)
  }

  function CipherOf(s: Suite, hdr: Header, plen: u64, dek: bytes32): (c: Cipher)
    requires hdr.body.chunk > 0
    ensures c.total == NumChunks(plen, hdr.body.chunk)
  {
    Cipher(s, dek, hdr.body.np, s.sha256(s.encodeHeader(hdr)), ChunkCount(plen, hdr.body.chunk))
  }

  function Prelude(encoded: bytes, minor: byte): bytes {
    MAGIC + [VERSION_MAJOR, minor] + Le(|encoded|, 4) + encoded
  }

  /** The frames of a container: each chunk encrypted under its index. */
  function FramesOf(s: Suite, hdr: Header, plain: bytes, dek: bytes32): bytes
    requires hdr.body.chunk > 0 && |plain| <= U64_MAX
  {
    Flat(CipherOf(s, hdr, |plain|, dek).Frames(Split(plain, hdr.body.chunk)))
  }

  /** The bytes of a whole container. */
  function ContainerBytes(s: Suite, hdr: Header, plain: bytes, dek: bytes32, minor: byte): bytes
    requires hdr.body.chunk > 0 && |plain| <= U64_MAX
  {
    var frames := FramesOf(s, hdr, plain, dek);
    Prelude(s.encodeHeader(hdr), minor) + frames + CipherOf(s, hdr, |plain|, dek).Trailer(frames)
  }

  lemma SplitStep(plain: bytes, chunk: nat)
    requires chunk > 0
    ensures var want := Min(|plain|, chunk);
            && Split(plain, chunk)[0] == plain[..want]
            && (|Split(plain, chunk)| > 1 ==> Split(plain, chunk)[1..] == Split(plain[want..], chunk))
            && (|Split(plain, chunk)| == 1 ==> plain[want..] == [])
  {
  }

  lemma SplitFrom(chunks: seq<bytes>, i: nat, input: bytes, chunk: nat)
    requires chunk > 0 && i < |chunks| && chunks[i..] == Split(input, chunk)
    ensures var want := Min(|input|, chunk);
            && chunks[i] == input[..want]
            && (if i + 1 == |chunks| then input[want..] == [] else chunks[i + 1..] == Split(input[want..], chunk))
  {
    SplitStep(input, chunk);
    assert chunks[i] == chunks[i..][0] && chunks[i..][1..] == chunks[i + 1..];
  }

  lemma FlatUpTo(parts: seq<bytes>, i: nat)
    requires i < |parts|
    ensures Flat(parts[..i + 1]) == Flat(parts[..i]) + parts[i]
  {
    FlatSnoc(parts[..i], parts[i]);
    assert parts[..i] + [parts[i]] == parts[..i + 1];
  }

  /** The writing loop of `seal_signed`. Every intermediate value of `index` and `remaining` is a
      u64, and the flag the loop stops on marks exactly the chunk that ends the plaintext. */
  method WriteFrames(c: Cipher, plain: bytes, chunk: nat) returns (out: bytes)
    requires chunk > 0 && |plain| <= U64_MAX && c.total == NumChunks(|plain|, chunk)
    ensures out == Flat(c.Frames(Split(plain, chunk)))
  {
    ghost var chunks := Split(plain, chunk);
    ghost var frames := c.Frames(chunks);
    out := [];
    var input := plain;
    var index: u64 := 0;
    var remaining: u64 := |plain|;
    var done := false;
    while !done
      invariant index <= c.total && remaining == |input|
      invariant if done then index == c.total && input == []
                else index < c.total && chunks[index..] == Split(input, chunk)
      invariant out == Flat(frames[..index])
      decreases c.total - index
    {
      hide Split, Flat;
      SplitFrom(chunks, index, input, chunk);
      var want := Min(remaining, chunk);
      var isLast := index + 1 == c.total;
      var frame := c.Seal(index, input[..want]);
      FlatUpTo(frames, index);
      out := out + frame;
      input := input[want..];
      remaining := remaining - want;
      index := index + 1;
      done := isLast;
    }
    assert frames[..index] == frames;
  }

  /** `seal_signed`. */
  method SealSigned(s: Suite, plain: bytes, ownerPk: bytes32, signer: bytes, opts: SealOptions, rnd: Fresh)
    returns (r: Result<Header>, out: bytes)
    requires |plain| <= U64_MAX
    ensures r == SealHeader(s, plain, ownerPk, signer, opts, rnd)
    ensures r.Err? ==> out == []
    ensures r.Ok? ==> r.value.body.chunk > 0
    ensures r.Ok? ==> out == ContainerBytes(s, r.value, plain, rnd.dek, VERSION_MINOR)
  {
    out := [];
    r := SealHeader(s, plain, ownerPk, signer, opts, rnd);
    if r.Err? {
      return;
    }
    var headerBytes := s.encodeHeader(r.value);
    var c := CipherOf(s, r.value, |plain|, rnd.dek);
    var frames := WriteFrames(c, plain, opts.chunkSize);
    out := MAGIC + [VERSION_MAJOR, VERSION_MINOR] + Le(|headerBytes|, 4) + headerBytes;
    out := out + frames + c.Trailer(frames);
  }

  // ---------------------------------------------------------------- opening

  function ValidateHeader(h: Header): Result<()> {
    var b := h.body;
    if b.cipher != CIPHER_CHUNKED then Err(UnsupportedCipher(b.cipher))
    else if b.chunk == 0 || b.chunk > MAX_CHUNK then Err(BadChunkSize(b.chunk))
    else if b.ver == 0 then Err(HeaderDecode)
    else if (b.ver == 1) != b.prev.None? then Err(HeaderDecode)
    else if b.own == [] || |b.own| > MAX_OWNER_LEN then Err(HeaderDecode)
    else if |b.name| > MAX_NAME_CT_LEN || |b.name| < NAME_PAD_BLOCK + TAG_LEN then Err(HeaderDecode)
    else if b.env == [] || |b.env| > MAX_ENVELOPES then Err(HeaderDecode)
    else if exists e :: e in b.env && (|e.enc| > MAX_ENVELOPE_FIELD_LEN || |e.ct| > MAX_ENVELOPE_FIELD_LEN)
      then Err(HeaderDecode)
    else Ok(())
  }

  /** `read_header`: header, its hash, and the bytes that follow it. */
  function ReadHeader(s: Suite, input: bytes): Result<(Header, bytes32, bytes)> {
    if |input| < 8 || input[..6] != MAGIC then Err(BadMagic)
    else if input[6] != VERSION_MAJOR then Err(UnsupportedVersion(input[6], input[7]))
    else if |input| < 12 then Err(Io)
    else
      var len := FromLe(input[8..12]);
      if len > MAX_HEADER_LEN then Err(HeaderTooLarge(len))
      else if |input| < 12 + len then Err(Truncated)
      else
        var decoded :- DecodeVerified(s, input[12..12 + len]);
        var _ :- ValidateHeader(decoded.0);
        Ok((decoded.0, decoded.1, input[12 + len..]))
  }

  function DecryptName(s: Suite, h: Header, dek: bytes32): Result<bytes> {
    match s.aeadOpen(dek, Nonce(h.body.np, NAME_INDEX), NAME_AAD, h.body.name)
    case None => Err(NameAuth)
    case Some(padded) => UnpadName(s, padded)
  }

  datatype Opened = Opened(header: Header, headerHash: bytes32, fileName: bytes)

  /** What a run of the opener leaves: its result and everything it wrote. */
  datatype Run<+T> = Run(result: Result<T>, written: bytes)

  function CheckTrailer(c: Cipher, frames: bytes, input: bytes): Result<()> {
    if |input| != 72 || input[..32] != c.hh || FromLe(input[32..40]) != c.total || input[40..72] != c.s.blake3(frames)
      then Err(Truncated)
    else Ok(())
  }

  /** The chunk stream from chunk `index` on, `seen` being the frames already read. */
  function ReadFrom(c: Cipher, chunk: nat, index: nat, remaining: nat, seen: bytes, input: bytes): Run<()>
    requires index <= c.total
    decreases c.total - index
  {
    if index == c.total then Run(CheckTrailer(c, seen, input), [])
    else
      var want := Min(remaining, chunk) + TAG_LEN;
      if |input| < want then Run(Err(Truncated), [])
      else
        match c.Open(index, input[..want])
        case None => Run(Err(ChunkAuth(index)), [])
        case Some(pt) =>
          var rest := ReadFrom(c, chunk, index + 1, remaining - (want - TAG_LEN), seen + input[..want], input[want..]);
          Run(rest.result, pt + rest.written)
  }

  function ReaderOf(s: Suite, h: Header, hh: bytes32, dek: bytes32): Cipher
    requires h.body.chunk > 0
  {
    Cipher(s, dek, h.body.np, hh, ChunkCount(h.body.plen, h.body.chunk))
  }

  function OpenWithDek(s: Suite, h: Header, hh: bytes32, input: bytes, dek: bytes32): Run<Opened>
    requires h.body.chunk > 0
  {
    match DecryptName(s, h, dek)
    case Err(e) => Run(Err(e), [])
    case Ok(name) =>
      var run := ReadFrom(ReaderOf(s, h, hh, dek), h.body.chunk, 0, h.body.plen, [], input);
      match run.result
      case Err(e) => Run(Err(e), run.written)
      case Ok(_) => Run(Ok(Opened(h, hh, name)), run.written)
  }

  /** Reading a byte string as a container and opening it with a DEK. */
  function OpenBytes(s: Suite, input: bytes, dek: bytes32): Run<Opened> {
    match ReadHeader(s, input)
    case Err(e) => Run(Err(e), [])
    case Ok((h, hh, rest)) => OpenWithDek(s, h, hh, rest, dek)
  }

  /** The loop of `open_with_dek`: reads, authenticates and writes chunk by chunk, then checks
      the trailer. */
  method ReadFrames(c: Cipher, chunk: nat, plen: u64, input: bytes) returns (r: Result<()>, out: bytes)
    ensures Run(r, out) == ReadFrom(c, chunk, 0, plen, [], input)
  {
    out := [];
    var rest, frames, remaining: u64, index: u64 := input, [], plen, 0;
    while index < c.total
      invariant index <= c.total
      invariant
        var todo := ReadFrom(c, chunk, index, remaining, frames, rest);
        ReadFrom(c, chunk, 0, plen, [], input) == Run(todo.result, out + todo.written)
    {
      var want := Min(remaining, chunk) + TAG_LEN;
      if |rest| < want {
        return Err(Truncated), out;
      }
      var frame := rest[..want];
      var pt := c.Open(index, frame);
      if pt.None? {
        return Err(ChunkAuth(index)), out;
      }
      ghost var todo := ReadFrom(c, chunk, index + 1, remaining - (want - TAG_LEN), frames + frame, rest[want..]);
      assert out + (pt.value + todo.written) == out + pt.value + todo.written;
      frames := frames + frame;
      out := out + pt.value;
      remaining := remaining - (want - TAG_LEN);
      rest := rest[want..];
      index := index + 1;
    }
    r := CheckTrailer(c, frames, rest);
  }

  /** `open_with_dek`. */
  method OpenChunks(s: Suite, h: Header, hh: bytes32, input: bytes, dek: bytes32)
    returns (r: Result<Opened>, out: bytes)
    requires h.body.chunk > 0
    ensures Run(r, out) == OpenWithDek(s, h, hh, input, dek)
  {
    var name := DecryptName(s, h, dek);
    if name.Err? {
      return Err(name.error), [];
    }
    var stream;
    stream, out := ReadFrames(ReaderOf(s, h, hh, dek), h.body.chunk, h.body.plen, input);
    r := if stream.Err? then Err(stream.error) else Ok(Opened(h, hh, name.value));
  }

  // ---------------------------------------------------------------- opening with a device's keys

  /** The first envelope addressed to this key. */
  function FindEnvelope(env: seq<Envelope>, kid: bytes): Option<Envelope> {
    if env == [] then None else if env[0].kid == kid then Some(env[0]) else FindEnvelope(env[1..], kid)
  }

  /** The file key a device finds in a header. */
  function DekFor(s: Suite, h: Header, kid: bytes, secret: bytes): Result<bytes32> {
    match FindEnvelope(h.body.env, kid)
    case None => Err(NoEnvelope)
    case Some(e) =>
      match s.unwrap(secret, e, h.body.fid)
      case None => Err(EnvelopeOpen)
      case Some(dek) => Ok(dek)
  }

  /** `open`: read the header, open the envelope addressed to this device, and go on with its key. */
  method Open(s: Suite, input: bytes, kid: bytes, secret: bytes) returns (r: Result<Opened>, out: bytes)
    ensures Run(r, out) == OpenFor(s, input, kid, secret)
  {
    var header := ReadHeader(s, input);
    if header.Err? {
      return Err(header.error), [];
    }
    var (h, hh, rest) := header.value;
    var dek := DekFor(s, h, kid, secret);
    if dek.Err? {
      return Err(dek.error), [];
    }
    r, out := OpenChunks(s, h, hh, rest, dek.value);
  }

  function OpenFor(s: Suite, input: bytes, kid: bytes, secret: bytes): Run<Opened> {
    match ReadHeader(s, input)
    case Err(e) => Run(Err(e), [])
    case Ok((h, hh, rest)) =>
      match DekFor(s, h, kid, secret)
      case Err(e) => Run(Err(e), [])
      case Ok(dek) => OpenWithDek(s, h, hh, rest, dek)
  }
}
