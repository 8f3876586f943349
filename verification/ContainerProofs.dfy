/** What sealing and opening guarantee, for every plaintext and every input byte string. */
module ContainerProofs {
  import opened Bytes
  import opened Container

  // ---------------------------------------------------------------- names

  /** A name field opens to n exactly when it is the padding of n, followed by whole zero blocks
      within the length limit. */
  lemma UnpadExact(s: Suite, buf: bytes, n: bytes)
    ensures UnpadName(s, buf) == Ok(n) <==>
            && |n| <= MAX_NAME_LEN && s.validUtf8(n) && |buf| <= 1088
            && exists k: nat :: buf == PadName(n).value + Zeros(64 * k)
  {
    if UnpadName(s, buf) == Ok(n) {
      PaddedIsPrefix(s, buf, n);
    }
    if |n| <= MAX_NAME_LEN && s.validUtf8(n) && |buf| <= 1088
       && exists k: nat :: buf == PadName(n).value + Zeros(64 * k) {
      var k: nat :| buf == PadName(n).value + Zeros(64 * k);
      PaddedUnpads(s, n, k);
    }
  }

  lemma PaddedIsPrefix(s: Suite, buf: bytes, n: bytes)
    requires UnpadName(s, buf) == Ok(n)
    ensures |n| <= MAX_NAME_LEN && s.validUtf8(n) && |buf| <= 1088
    ensures exists k: nat :: buf == PadName(n).value + Zeros(64 * k)
  {
    var pad := PadName(n).value;
    FromLeBound(buf[..2]);
    var k := (|buf| - |pad|) / 64;
    assert |buf| == |pad| + 64 * k by {
      PadLength(n);
    }
    assert buf == pad + Zeros(64 * k);
  }

  lemma PaddedUnpads(s: Suite, n: bytes, k: nat)
    requires |n| <= MAX_NAME_LEN && s.validUtf8(n)
    requires |PadName(n).value| + 64 * k <= 1088
    ensures UnpadName(s, PadName(n).value + Zeros(64 * k)) == Ok(n)
  {
    var buf := PadName(n).value + Zeros(64 * k);
    Pow256Widths();
    LeRoundTrip(|n|, 2);
    assert buf[..2] == Le(|n|, 2);
    assert buf[2..2 + |n|] == n;
  }

  lemma PadLength(n: bytes)
    requires |n| <= MAX_NAME_LEN
    ensures 64 <= |PadName(n).value| <= 1088 && |PadName(n).value| % 64 == 0
  {
  }

  // ---------------------------------------------------------------- nonces

  lemma NonceInjective(np: bytes16, mp: bytes16, i: u64, j: u64)
    ensures Nonce(np, i) == Nonce(mp, j) ==> np == mp && i == j
  {
    Pow256Widths();
    LeInjective(i, j, 8);
    if Nonce(np, i) == Nonce(mp, j) {
      ConcatSplit(np, Le(i, 8), mp, Le(j, 8));
    }
  }

  lemma ChunkAadInjective(hh: bytes32, gg: bytes32, i: u64, j: u64, a: bool, b: bool)
    ensures ChunkAad(hh, i, a) == ChunkAad(gg, j, b) ==> hh == gg && i == j && a == b
  {
    Pow256Widths();
    LeInjective(i, j, 8);
    if ChunkAad(hh, i, a) == ChunkAad(gg, j, b) {
      ConcatSplit(hh + Le(i, 8), [if a then 1 else 0 as byte], gg + Le(j, 8), [if b then 1 else 0 as byte]);
      ConcatSplit(hh, Le(i, 8), gg, Le(j, 8));
    }
  }

  /** One encryption under a DEK. */
  datatype Encryption = Encryption(nonce: bytes, aad: bytes, ct: bytes)

  /** Encryption k of one seal: the name first, then the chunks. */
  ghost function EncryptionAt(c: Cipher, name: bytes, frames: seq<bytes>, k: nat): Encryption
    requires |frames| == c.total && k <= c.total
  {
    if k == 0 then Encryption(Nonce(c.np, NAME_INDEX), NAME_AAD, name)
    else Encryption(Nonce(c.np, k - 1), ChunkAad(c.hh, k - 1, k == c.total), frames[k - 1])
  }

  /** No two encryptions under one DEK share a nonce, up to the largest plaintext a u64 length
      admits with one-byte chunks. */
  lemma NoNonceReuse(c: Cipher, name: bytes, frames: seq<bytes>, k: nat, l: nat)
    requires |frames| == c.total && k < l <= c.total
    ensures EncryptionAt(c, name, frames, k).nonce != EncryptionAt(c, name, frames, l).nonce
  {
    var i: u64 := if k == 0 then NAME_INDEX else k - 1;
    NonceInjective(c.np, c.np, i, l - 1);
  }

  // ---------------------------------------------------------------- the chunk stream

  ghost predicate Decrypts(c: Cipher, e: Encryption) {
    c.s.aeadOpen(c.dek, e.nonce, e.aad, e.ct).Some?
  }

  ghost predicate Logged(c: Cipher, name: bytes, frames: seq<bytes>, e: Encryption)
    requires |frames| == c.total
  {
    exists k :: 0 <= k <= c.total && e == EncryptionAt(c, name, frames, k)
  }

  /** The ideal AEAD: under this DEK nothing decrypts except what this one seal encrypted. */
  ghost predicate OnlyLogged(c: Cipher, name: bytes, frames: seq<bytes>)
    requires |frames| == c.total
  {
    forall e :: Decrypts(c, e) ==> Logged(c, name, frames, e)
  }

  /** A chunk that authenticates, under whatever header, is the sealed chunk of that index under
      the sealed header. */
  lemma AuthenticChunk(c: Cipher, name: bytes, frames: seq<bytes>, np: bytes16, hh: bytes32, i: u64, last: bool,
                       ct: bytes)
    requires |frames| == c.total && OnlyLogged(c, name, frames)
    requires c.s.aeadOpen(c.dek, Nonce(np, i), ChunkAad(hh, i, last), ct).Some?
    ensures np == c.np && hh == c.hh && i < c.total && last == (i + 1 == c.total) && ct == frames[i]
  {
    var e := Encryption(Nonce(np, i), ChunkAad(hh, i, last), ct);
    assert Decrypts(c, e);
    var k :| 0 <= k <= c.total && e == EncryptionAt(c, name, frames, k);
    ChunkEntry(c, name, frames, np, hh, i, last, ct, k);
  }

  lemma ChunkEntry(c: Cipher, name: bytes, frames: seq<bytes>, np: bytes16, hh: bytes32, i: u64, last: bool, ct: bytes,
                   k: nat)
    requires |frames| == c.total && k <= c.total
    requires Encryption(Nonce(np, i), ChunkAad(hh, i, last), ct) == EncryptionAt(c, name, frames, k)
    ensures np == c.np && hh == c.hh && k == i + 1 && last == (k == c.total) && ct == frames[i]
  {
    assert |ChunkAad(hh, i, last)| == 41 && |NAME_AAD| == 4;
    var j: u64 := k - 1;
    NonceInjective(np, c.np, i, j);
    ChunkAadInjective(hh, c.hh, i, j, last, k == c.total);
  }

  /** The chunks, their frames and the cipher fit together. */
  ghost predicate Fits(c: Cipher, chunk: nat, chunks: seq<bytes>, frames: seq<bytes>) {
    && |chunks| == |frames| == c.total
    && forall i :: 0 <= i < c.total ==>
         && c.Open(i, frames[i]) == Some(chunks[i])
         && |frames[i]| == |chunks[i]| + TAG_LEN
         && |chunks[i]| == Min(|Flat(chunks[i..])|, chunk)
  }

  /** Nothing but the frame of an index opens under that index. */
  ghost predicate Exclusive(c: Cipher, frames: seq<bytes>)
    requires |frames| == c.total
  {
    forall i, ct :: 0 <= i < c.total && c.Open(i, ct).Some? ==> ct == frames[i]
  }

  lemma TrailerExact(c: Cipher, frames: bytes, input: bytes)
    ensures CheckTrailer(c, frames, input).Ok? <==> input == c.Trailer(frames)
  {
    Pow256Widths();
    LeRoundTrip(c.total, 8);
    if |input| == 72 {
      FromLeBound(input[32..40]);
      assert input == input[..32] + input[32..40] + input[40..72];
    }
    var t := c.Trailer(frames);
    assert t[..32] == c.hh && t[32..40] == Le(c.total, 8) && t[40..72] == c.s.blake3(frames);
  }

  /** One turn of the reader on a stream that starts with a frame that opens. */
  lemma ReadStep(c: Cipher, chunk: nat, i: nat, remaining: nat, m: bytes, frame: bytes, seen: bytes, tail: bytes)
    requires i < c.total && c.Open(i, frame) == Some(m)
    requires |frame| == |m| + TAG_LEN && |m| == Min(remaining, chunk)
    ensures var rest := ReadFrom(c, chunk, i + 1, remaining - |m|, seen + frame, tail);
            ReadFrom(c, chunk, i, remaining, seen, frame + tail) == Run(rest.result, m + rest.written)
  {
    FrontAndRest(frame, tail);
  }

  lemma FrontAndRest(frame: bytes, tail: bytes)
    ensures (frame + tail)[..|frame|] == frame && (frame + tail)[|frame|..] == tail
  {
  }

  lemma FlatFrom(parts: seq<bytes>, i: nat, end: bytes)
    requires i < |parts|
    ensures Flat(parts[i..]) == parts[i] + Flat(parts[i + 1..])
    ensures Flat(parts[i..]) + end == parts[i] + (Flat(parts[i + 1..]) + end)
    ensures Flat(parts[..i + 1]) == Flat(parts[..i]) + parts[i]
  {
    assert parts[i..][1..] == parts[i + 1..];
    FlatSnoc(parts[..i], parts[i]);
    assert parts[..i] + [parts[i]] == parts[..i + 1];
  }

  /** The honest stream opens, from any chunk on. */
  lemma {:induction false} StreamOpens(c: Cipher, chunk: nat, chunks: seq<bytes>, frames: seq<bytes>, i: nat)
    requires Fits(c, chunk, chunks, frames) && i <= c.total
    ensures ReadFrom(c, chunk, i, |Flat(chunks[i..])|, Flat(frames[..i]), Flat(frames[i..]) + c.Trailer(Flat(frames)))
         == Run(Ok(()), Flat(chunks[i..]))
    decreases c.total - i
  {
    var trailer := c.Trailer(Flat(frames));
    if i == c.total {
      assert frames[..i] == frames && Flat(frames[i..]) + trailer == trailer;
      TrailerExact(c, Flat(frames), trailer);
    } else {
      StreamOpens(c, chunk, chunks, frames, i + 1);
      FlatFrom(frames, i, trailer);
      FlatFrom(chunks, i, []);
      ReadStep(c, chunk, i, |Flat(chunks[i..])|, chunks[i], frames[i], Flat(frames[..i]),
               Flat(frames[i + 1..]) + trailer);
    }
  }

  /** What reading from chunk i on may come to, having written the chunks up to k. */
  ghost predicate Authentic(c: Cipher, chunks: seq<bytes>, frames: seq<bytes>, i: nat, k: nat, input: bytes,
                            run: Run<()>)
    requires i <= k <= |chunks| && i <= |frames|
  {
    && (run.result.Ok? ==> input == Flat(frames[i..]) + c.Trailer(Flat(frames)))
    && run.written == Flat(chunks[i..k])
  }

  lemma ReadStops(c: Cipher, chunk: nat, i: nat, remaining: nat, seen: bytes, input: bytes)
    requires i < c.total
    requires var want := Min(remaining, chunk) + TAG_LEN; |input| < want || c.Open(i, input[..want]).None?
    ensures var run := ReadFrom(c, chunk, i, remaining, seen, input); run.result.Err? && run.written == []
  {
  }

  /** Any other stream fails, having written only whole sealed chunks. */
  lemma {:induction false} StreamAuthentic(c: Cipher, chunk: nat, chunks: seq<bytes>, frames: seq<bytes>, i: nat,
                                           input: bytes) returns (k: nat)
    requires Fits(c, chunk, chunks, frames) && Exclusive(c, frames) && i <= c.total
    ensures i <= k <= c.total
    ensures Authentic(c, chunks, frames, i, k, input,
                      ReadFrom(c, chunk, i, |Flat(chunks[i..])|, Flat(frames[..i]), input))
    decreases c.total - i
  {
    assert |chunks| == |frames| == c.total;
    hide *;
    k := i;
    var remaining, seen := |Flat(chunks[i..])|, Flat(frames[..i]);
    if i == c.total {
      AuthenticEnd(c, chunk, chunks, frames, input, remaining);
    } else {
      var want := Min(remaining, chunk) + TAG_LEN;
      FitsAt(c, chunk, chunks, frames, i);
      if |input| >= want && c.Open(i, input[..want]).Some? {
        var tail := input[want..];
        SealedHead(c, frames, i, input, want);
        k := StreamAuthentic(c, chunk, chunks, frames, i + 1, tail);
        AuthenticTurn(c, chunk, chunks, frames, i, k, tail);
      } else {
        ReadStops(c, chunk, i, remaining, seen, input);
        NothingWritten(c, chunks, frames, i, input, ReadFrom(c, chunk, i, remaining, seen, input));
      }
    }
  }

  lemma FitsAt(c: Cipher, chunk: nat, chunks: seq<bytes>, frames: seq<bytes>, i: nat)
    requires Fits(c, chunk, chunks, frames) && i < c.total
    ensures |chunks| == |frames| == c.total && c.Open(i, frames[i]) == Some(chunks[i])
    ensures |frames[i]| == |chunks[i]| + TAG_LEN && |chunks[i]| == Min(|Flat(chunks[i..])|, chunk)
  {
  }

  lemma SealedHead(c: Cipher, frames: seq<bytes>, i: nat, input: bytes, want: nat)
    requires |frames| == c.total && Exclusive(c, frames) && i < c.total && want <= |input|
    requires c.Open(i, input[..want]).Some?
    ensures input == frames[i] + input[want..]
  {
    assert input == input[..want] + input[want..];
  }

  lemma AuthenticEnd(c: Cipher, chunk: nat, chunks: seq<bytes>, frames: seq<bytes>, input: bytes, remaining: nat)
    requires |chunks| == |frames| == c.total
    ensures Authentic(c, chunks, frames, c.total, c.total, input,
                      ReadFrom(c, chunk, c.total, remaining, Flat(frames[..c.total]), input))
  {
    hide CheckTrailer;
    assert frames[..c.total] == frames && frames[c.total..] == [] && chunks[c.total..c.total] == [];
    TrailerExact(c, Flat(frames), input);
    assert [] + c.Trailer(Flat(frames)) == c.Trailer(Flat(frames));
  }

  lemma NothingWritten(c: Cipher, chunks: seq<bytes>, frames: seq<bytes>, i: nat, input: bytes, run: Run<()>)
    requires i <= |chunks| && i <= |frames| && run.result.Err? && run.written == []
    ensures Authentic(c, chunks, frames, i, i, input, run)
  {
    assert chunks[i..i] == [];
  }

  lemma AuthenticTurn(c: Cipher, chunk: nat, chunks: seq<bytes>, frames: seq<bytes>, i: nat, k: nat, tail: bytes)
    requires |chunks| == |frames| == c.total && i < k <= c.total
    requires c.Open(i, frames[i]) == Some(chunks[i])
    requires |frames[i]| == |chunks[i]| + TAG_LEN && |chunks[i]| == Min(|Flat(chunks[i..])|, chunk)
    requires Authentic(c, chunks, frames, i + 1, k, tail,
                       ReadFrom(c, chunk, i + 1, |Flat(chunks[i + 1..])|, Flat(frames[..i + 1]), tail))
    ensures Authentic(c, chunks, frames, i, k, frames[i] + tail,
                      ReadFrom(c, chunk, i, |Flat(chunks[i..])|, Flat(frames[..i]), frames[i] + tail))
  {
    FlatFrom(frames, i, []);
    FlatFrom(chunks, i, []);
    ReadStep(c, chunk, i, |Flat(chunks[i..])|, chunks[i], frames[i], Flat(frames[..i]), tail);
    AuthenticStep(c, chunks, frames, i, k, tail,
                  ReadFrom(c, chunk, i + 1, |Flat(chunks[i + 1..])|, Flat(frames[..i + 1]), tail));
  }

  lemma AuthenticStep(c: Cipher, chunks: seq<bytes>, frames: seq<bytes>, i: nat, k: nat, tail: bytes, rest: Run<()>)
    requires i < k <= |chunks| && i < |frames|
    requires Authentic(c, chunks, frames, i + 1, k, tail, rest)
    ensures Authentic(c, chunks, frames, i, k, frames[i] + tail, Run(rest.result, chunks[i] + rest.written))
  {
    FlatFrom(frames, i, c.Trailer(Flat(frames)));
    assert chunks[i..k][1..] == chunks[i + 1..k];
  }

  lemma {:induction false} SplitShape(plain: bytes, chunk: nat, i: nat)
    requires chunk > 0 && i < |Split(plain, chunk)|
    ensures Flat(Split(plain, chunk)) == plain
    ensures |Split(plain, chunk)[i]| == Min(|Flat(Split(plain, chunk)[i..])|, chunk)
  {
    var cs := Split(plain, chunk);
    if |plain| <= chunk {
      assert cs[1..] == [] && cs[0..] == cs;
    } else {
      SplitShape(plain[chunk..], chunk, if i == 0 then 0 else i - 1);
      assert cs[1..] == Split(plain[chunk..], chunk);
      assert i > 0 ==> cs[i..] == cs[1..][i - 1..];
      assert cs[0..] == cs;
    }
  }

  /** The frames a seal writes fit its cipher. */
  lemma SealedFits(c: Cipher, chunk: nat, plain: bytes)
    requires Sound(c.s) && chunk > 0 && c.total == NumChunks(|plain|, chunk)
    requires OpensOwn(c, Split(plain, chunk))
    ensures Fits(c, chunk, Split(plain, chunk), c.Frames(Split(plain, chunk)))
    ensures Flat(Split(plain, chunk)) == plain
  {
    var chunks := Split(plain, chunk);
    forall i | 0 <= i < c.total
      ensures |chunks[i]| == Min(|Flat(chunks[i..])|, chunk)
    {
      SplitShape(plain, chunk, i);
    }
    SplitShape(plain, chunk, 0);
  }

  /** The frames of these chunks open again. */
  ghost predicate OpensOwn(c: Cipher, chunks: seq<bytes>)
    requires |chunks| == c.total
  {
    forall i :: 0 <= i < c.total ==> c.Open(i, c.Frames(chunks)[i]) == Some(chunks[i])
  }

  lemma LoggedExclusive(c: Cipher, name: bytes, frames: seq<bytes>)
    requires |frames| == c.total && OnlyLogged(c, name, frames)
    ensures Exclusive(c, frames)
  {
    forall i, ct | 0 <= i < c.total && c.Open(i, ct).Some?
      ensures ct == frames[i]
    {
      AuthenticChunk(c, name, frames, c.np, c.hh, i, i + 1 == c.total, ct);
    }
  }

  lemma {:induction false} FramesLength(chunks: seq<bytes>, frames: seq<bytes>)
    requires |chunks| == |frames| && forall i :: 0 <= i < |frames| ==> |frames[i]| == |chunks[i]| + TAG_LEN
    ensures |Flat(frames)| == |Flat(chunks)| + TAG_LEN * |frames|
  {
    if frames != [] {
      FramesLength(chunks[1..], frames[1..]);
    }
  }

  // ---------------------------------------------------------------- the header

  /** What a seal has to be given for its own output to be readable: seal checks none of it. */
  predicate Readable(opts: SealOptions) {
    && 1 <= |opts.ownerAccount| <= 64
    && |opts.extraRecipients| <= 31
    && (opts.prev.Some? ==> opts.prev.value.version >= 1)
  }

  /** One successful seal: what it was given and the header it returned. */
  datatype Sealing = Sealing(s: Suite, plain: bytes, ownerPk: bytes32, signer: bytes, opts: SealOptions, rnd: Fresh,
                             hdr: Header) {
    ghost predicate Valid() {
      && Sound(s) && |plain| <= U64_MAX
      && SealHeader(s, plain, ownerPk, signer, opts, rnd) == Ok(hdr)
    }

    function Encoded(): bytes {
      s.encodeHeader(hdr)
    }

    function Hash(): bytes32 {
      s.sha256(Encoded())
    }

    lemma ChunkPositive()
      requires Valid()
      ensures hdr.body.chunk > 0
    {
    }

    function Chunks(): seq<bytes>
      requires Valid()
    {
      ChunkPositive();
      Split(plain, hdr.body.chunk)
    }

    function Cipher(): Cipher
      requires Valid()
    {
      ChunkPositive();
      CipherOf(s, hdr, |plain|, rnd.dek)
    }

    function Frames(): (fs: seq<bytes>)
      requires Valid()
      ensures |fs| == Cipher().total
    {
      Cipher().Frames(Chunks())
    }

    function Bytes(minor: byte): bytes
      requires Valid()
    {
      ChunkPositive();
      ContainerBytes(s, hdr, plain, rnd.dek, minor)
    }

    ghost predicate DecryptableName() {
      PadName(opts.fileName).Ok?
    }

    /** The AEAD opens what this seal encrypted. */
    ghost predicate DecryptsOwn()
      requires Valid()
    {
      && DecryptableName()
      && s.aeadOpen(rnd.dek, Nonce(rnd.np, NAME_INDEX), NAME_AAD, hdr.body.name) == Some(PadName(opts.fileName).value)
      && OpensOwn(Cipher(), Chunks())
    }

    /** The DEK's ideal: it decrypts only what this seal encrypted, and the header hash has no
        second preimage. */
    ghost predicate Ideal()
      requires Valid()
    {
      && OnlyLogged(Cipher(), hdr.body.name, Frames())
      && forall x :: s.sha256(x) == Hash() ==> x == Encoded()
    }
  }

  lemma {:induction false} WrapAllShape(s: Suite, pks: seq<bytes>, dek: bytes32, fid: bytes32)
    requires Sound(s) && WrapAll(s, pks, dek, fid).Ok?
    ensures var env := WrapAll(s, pks, dek, fid).value;
            && |env| == |pks|
            && forall e :: e in env ==> |e.enc| <= MAX_ENVELOPE_FIELD_LEN && |e.ct| <= MAX_ENVELOPE_FIELD_LEN
  {
    if pks != [] {
      WrapAllShape(s, pks[1..], dek, fid);
    }
  }

  /** The fields of a sealed header that the reader looks at. */
  lemma SealedBody(z: Sealing)
    requires z.Valid()
    ensures z.hdr.body.plen == |z.plain| && z.hdr.body.np == z.rnd.np && z.hdr.body.chunk == z.opts.chunkSize
    ensures 0 < z.hdr.body.chunk <= MAX_CHUNK && z.hdr.body.cipher == CIPHER_CHUNKED
    ensures z.hdr.body.own == z.opts.ownerAccount
    ensures |z.hdr.body.env| == 1 + |z.opts.extraRecipients|
    ensures forall e :: e in z.hdr.body.env ==> |e.enc| <= MAX_ENVELOPE_FIELD_LEN && |e.ct| <= MAX_ENVELOPE_FIELD_LEN
    ensures if z.opts.prev.Some?
            then && z.hdr.body.ver == z.opts.prev.value.version + 1
                 && z.hdr.body.prev == Some(z.opts.prev.value.headerHash)
                 && z.hdr.body.fid == z.opts.prev.value.fileId
                 && z.hdr.body.salt == z.opts.prev.value.salt
            else z.hdr.body.ver == 1 && z.hdr.body.prev == None
  {
    var fid := if z.opts.prev.Some? then z.opts.prev.value.fileId else z.s.sha256(z.s.sha256(z.plain) + z.rnd.salt);
    WrapAllShape(z.s, [z.ownerPk] + z.opts.extraRecipients, z.rnd.dek, fid);
  }

  lemma SealedName(z: Sealing)
    requires z.Valid()
    ensures |z.opts.fileName| <= MAX_NAME_LEN
    ensures z.hdr.body.name
         == z.s.aeadSeal(z.rnd.dek, Nonce(z.rnd.np, NAME_INDEX), NAME_AAD, PadName(z.opts.fileName).value)
    ensures NAME_PAD_BLOCK + TAG_LEN <= |z.hdr.body.name| <= MAX_NAME_CT_LEN
    ensures z.s.validUtf8(z.opts.fileName) && z.DecryptsOwn()
            ==> DecryptName(z.s, z.hdr, z.rnd.dek) == Ok(z.opts.fileName)
  {
    var padded := PadName(z.opts.fileName).value;
    PadLength(z.opts.fileName);
    assert padded + Zeros(0) == padded;
    if z.s.validUtf8(z.opts.fileName) {
      PaddedUnpads(z.s, z.opts.fileName, 0);
    }
  }

  lemma SealedEncoding(z: Sealing)
    requires z.Valid()
    ensures |z.Encoded()| <= MAX_HEADER_LEN
    ensures DecodeVerified(z.s, z.Encoded()) == Ok((z.hdr, z.Hash()))
  {
  }

  lemma ValidateIff(z: Sealing)
    requires z.Valid()
    ensures ValidateHeader(z.hdr).Ok? <==> Readable(z.opts)
  {
    SealedBody(z);
    SealedName(z);
  }

  /** Reading what starts with a prelude gives the header that was put there, whatever the minor
      version byte says. */
  lemma ReadPrelude(s: Suite, hdr: Header, minor: byte, rest: bytes)
    requires |s.encodeHeader(hdr)| <= MAX_HEADER_LEN
    requires DecodeVerified(s, s.encodeHeader(hdr)) == Ok((hdr, s.sha256(s.encodeHeader(hdr))))
    ensures var r := ReadHeader(s, Prelude(s.encodeHeader(hdr), minor) + rest);
            && (r.Ok? <==> ValidateHeader(hdr).Ok?)
            && (r.Ok? ==> r.value == (hdr, s.sha256(s.encodeHeader(hdr)), rest))
  {
    var hb := s.encodeHeader(hdr);
    var input := Prelude(hb, minor) + rest;
    Pow256Widths();
    LeRoundTrip(|hb|, 4);
    assert input[..6] == MAGIC && input[6] == VERSION_MAJOR;
    assert input[8..12] == Le(|hb|, 4);
    assert input[12..12 + |hb|] == hb;
    assert input[12 + |hb|..] == rest;
  }

  /** Conversely, whatever reads as a header starts with the prelude of the bytes that were read. */
  lemma ReadShape(s: Suite, input: bytes) returns (hb: bytes)
    requires ReadHeader(s, input).Ok?
    ensures DecodeVerified(s, hb) == Ok((ReadHeader(s, input).value.0, ReadHeader(s, input).value.1))
    ensures ReadHeader(s, input).value.1 == s.sha256(hb)
    ensures |input| >= 12 && input == Prelude(hb, input[7]) + ReadHeader(s, input).value.2
  {
    var len := FromLe(input[8..12]);
    hb := input[12..12 + len];
    FromLeBound(input[8..12]);
    assert input == input[..6] + [input[6], input[7]] + input[8..12] + input[12..12 + len] + input[12 + len..];
  }

  /** The sealed bytes as prelude and rest. */
  lemma BytesShape(z: Sealing, minor: byte)
    requires z.Valid()
    ensures z.Bytes(minor) == Prelude(z.Encoded(), minor) + (Flat(z.Frames()) + z.Cipher().Trailer(Flat(z.Frames())))
  {
  }

  // ---------------------------------------------------------------- main results

  /** A container read back by its own reader: accepted exactly when the options were in range. */
  lemma SealReadableIff(z: Sealing, minor: byte)
    requires z.Valid()
    ensures ReadHeader(z.s, z.Bytes(minor)).Ok? <==> Readable(z.opts)
  {
    SealedEncoding(z);
    ValidateIff(z);
    BytesShape(z, minor);
    ReadPrelude(z.s, z.hdr, minor, Flat(z.Frames()) + z.Cipher().Trailer(Flat(z.Frames())));
  }

  /** Opening a sealed container gives back the plaintext and the name; its size is exact. */
  lemma SealOpenRoundTrip(z: Sealing, minor: byte)
    requires z.Valid() && z.DecryptsOwn() && z.s.validUtf8(z.opts.fileName) && Readable(z.opts)
    ensures OpenBytes(z.s, z.Bytes(minor), z.rnd.dek) == Run(Ok(Opened(z.hdr, z.Hash(), z.opts.fileName)), z.plain)
    ensures |z.Bytes(minor)| == 12 + |z.Encoded()| + |z.plain| + 16 * z.Cipher().total + 72
    ensures ChunkPrefix(z.Chunks(), z.plain)
  {
    var rest := Flat(z.Frames()) + z.Cipher().Trailer(Flat(z.Frames()));
    SealedEncoding(z);
    SealedBody(z);
    SealedName(z);
    ValidateIff(z);
    BytesShape(z, minor);
    ReadPrelude(z.s, z.hdr, minor, rest);
    RestOpens(z);
  }

  lemma RestOpens(z: Sealing)
    requires z.Valid() && z.DecryptsOwn()
    ensures ReadFrom(z.Cipher(), z.hdr.body.chunk, 0, |z.plain|, [],
                     Flat(z.Frames()) + z.Cipher().Trailer(Flat(z.Frames())))
         == Run(Ok(()), z.plain)
    ensures |Flat(z.Frames())| == |z.plain| + 16 * z.Cipher().total
    ensures ChunkPrefix(z.Chunks(), z.plain)
  {
    var c, chunks, frames := z.Cipher(), z.Chunks(), z.Frames();
    z.ChunkPositive();
    SealedFits(c, z.hdr.body.chunk, z.plain);
    StreamOpens(c, z.hdr.body.chunk, chunks, frames, 0);
    assert chunks[0..] == chunks && frames[0..] == frames && frames[..0] == [] && chunks[..|chunks|] == chunks;
    FramesLength(chunks, frames);
  }

  /** The theorem the fuzz target samples, for every input. Opening with the DEK of one seal
      succeeds exactly on that seal's bytes, up to the minor version byte that nothing checks;
      the output and the name are then the sealed ones. In every case what was written is a
      prefix of the sealed plaintext made of whole chunks. */
  lemma OpenAuthentic(z: Sealing, input: bytes)
    requires z.Valid() && z.DecryptsOwn() && z.Ideal() && z.s.validUtf8(z.opts.fileName) && Readable(z.opts)
    ensures var run := OpenBytes(z.s, input, z.rnd.dek);
            && (run.result.Ok? <==> exists minor :: input == z.Bytes(minor))
            && (run.result.Ok? ==> run == Run(Ok(Opened(z.hdr, z.Hash(), z.opts.fileName)), z.plain))
            && ChunkPrefix(z.Chunks(), run.written)
  {
    if minor :| input == z.Bytes(minor) {
      SealOpenRoundTrip(z, minor);
    } else {
      var k := MutantRejected(z, input);
    }
  }

  /** Seals made with one suite, of which the main theorem's hypotheses hold. */
  ghost predicate Seals(s: Suite, log: seq<Sealing>) {
    forall z :: z in log ==>
      z.s == s && z.Valid() && z.DecryptsOwn() && z.Ideal() && s.validUtf8(z.opts.fileName) && Readable(z.opts)
  }

  /** Whatever this device unwraps is the file key of a logged seal. */
  ghost predicate OnlyTheirKeys(s: Suite, log: seq<Sealing>, secret: bytes) {
    forall e, aad :: s.unwrap(secret, e, aad).Some? ==>
      exists z :: z in log && s.unwrap(secret, e, aad) == Some(z.rnd.dek)
  }

  /** The input is this seal, and its header gives the device the file key. */
  ghost predicate SealedFor(z: Sealing, input: bytes, kid: bytes, secret: bytes)
    requires z.Valid()
  {
    DekFor(z.s, z.hdr, kid, secret) == Ok(z.rnd.dek) && exists minor :: input == z.Bytes(minor)
  }

  /** The same for a device that finds the file key in the container it is given and may hold many files:
      over a log of seals whose keys are all it can unwrap, opening any input succeeds exactly if it is one
      of them that names the device, with that seal's output and name; and what was written is always a
      prefix of whole chunks of one of them. */
  lemma OpenForDeviceAuthentic(s: Suite, log: seq<Sealing>, input: bytes, kid: bytes, secret: bytes)
    requires Seals(s, log) && OnlyTheirKeys(s, log, secret)
    ensures var run := OpenFor(s, input, kid, secret);
            && (run.result.Ok? <==> exists z :: z in log && SealedFor(z, input, kid, secret))
            && (forall z :: z in log && SealedFor(z, input, kid, secret) ==>
                  run == Run(Ok(Opened(z.hdr, z.Hash(), z.opts.fileName)), z.plain))
            && (run.written == [] || exists z :: z in log && ChunkPrefix(z.Chunks(), run.written))
  {
    hide ReadHeader, OpenWithDek, DekFor, OpenFor, Sealing.Valid, Sealing.Ideal, Sealing.DecryptsOwn, ChunkPrefix;
    forall z | z in log && SealedFor(z, input, kid, secret)
      ensures OpenFor(s, input, kid, secret) == Run(Ok(Opened(z.hdr, z.Hash(), z.opts.fileName)), z.plain)
    {
      OpensSealed(z, input, kid, secret);
    }
    if OpenFor(s, input, kid, secret).result.Ok? || OpenFor(s, input, kid, secret).written != [] {
      var z := OpenedByKeyOf(s, log, input, kid, secret);
    }
  }

  lemma OpensSealed(z: Sealing, input: bytes, kid: bytes, secret: bytes)
    requires z.Valid() && z.DecryptsOwn() && z.Ideal() && z.s.validUtf8(z.opts.fileName) && Readable(z.opts)
    requires SealedFor(z, input, kid, secret)
    ensures OpenFor(z.s, input, kid, secret) == Run(Ok(Opened(z.hdr, z.Hash(), z.opts.fileName)), z.plain)
  {
    hide ReadHeader, OpenWithDek, DekFor;
    var minor :| input == z.Bytes(minor);
    ReadsSealedHeader(z, minor);
    OpenAuthentic(z, input);
  }

  /** What was opened, or written on the way, was read with the key of a logged seal. */
  lemma OpenedByKeyOf(s: Suite, log: seq<Sealing>, input: bytes, kid: bytes, secret: bytes) returns (z: Sealing)
    requires Seals(s, log) && OnlyTheirKeys(s, log, secret)
    requires OpenFor(s, input, kid, secret).result.Ok? || OpenFor(s, input, kid, secret).written != []
    ensures z in log && ChunkPrefix(z.Chunks(), OpenFor(s, input, kid, secret).written)
    ensures OpenFor(s, input, kid, secret).result.Ok? ==> SealedFor(z, input, kid, secret)
  {
    hide ReadHeader, OpenWithDek, DekFor, Sealing.Valid, Sealing.Ideal, Sealing.DecryptsOwn, ChunkPrefix;
    var h := ReadHeader(s, input).value.0;
    z := KeyFound(s, log, h, kid, secret);
    OpenAuthentic(z, input);
    if minor :| input == z.Bytes(minor) {
      ReadsSealedHeader(z, minor);
    }
  }

  lemma KeyFound(s: Suite, log: seq<Sealing>, h: Header, kid: bytes, secret: bytes) returns (z: Sealing)
    requires OnlyTheirKeys(s, log, secret) && DekFor(s, h, kid, secret).Ok?
    ensures z in log && DekFor(s, h, kid, secret) == Ok(z.rnd.dek)
  {
    z :| z in log && DekFor(s, h, kid, secret) == Ok(z.rnd.dek);
  }

  lemma ReadsSealedHeader(z: Sealing, minor: byte)
    requires z.Valid() && Readable(z.opts)
    ensures ReadHeader(z.s, z.Bytes(minor)).Ok? && ReadHeader(z.s, z.Bytes(minor)).value.0 == z.hdr
  {
    hide ReadHeader, DecodeVerified, ValidateHeader;
    SealedEncoding(z);
    ValidateIff(z);
    BytesShape(z, minor);
    ReadPrelude(z.s, z.hdr, minor, Flat(z.Frames()) + z.Cipher().Trailer(Flat(z.Frames())));
  }

  /** w is what some number of whole chunks adds up to. */
  ghost predicate ChunkPrefix(chunks: seq<bytes>, w: bytes) {
    exists k :: 0 <= k <= |chunks| && w == Flat(chunks[..k])
  }

  /** The other direction: an input that is not the sealed container. */
  lemma MutantRejected(z: Sealing, input: bytes) returns (k: nat)
    requires z.Valid() && z.DecryptsOwn() && z.Ideal()
    requires forall minor :: input != z.Bytes(minor)
    ensures k <= |z.Chunks()|
    ensures OpenBytes(z.s, input, z.rnd.dek).result.Err?
    ensures OpenBytes(z.s, input, z.rnd.dek).written == Flat(z.Chunks()[..k])
  {
    k := 0;
    assert Flat(z.Chunks()[..0]) == [];
    if ReadHeader(z.s, input).Ok? {
      var (h, hh, rest) := ReadHeader(z.s, input).value;
      ReadHeaderPositive(z.s, input);
      var want := Min(h.body.plen, h.body.chunk) + TAG_LEN;
      var c := ReaderOf(z.s, h, hh, z.rnd.dek);
      if DecryptName(z.s, h, z.rnd.dek).Ok? {
        if |rest| >= want && c.Open(0, rest[..want]).Some? {
          k := SealedPrefixRead(z, input);
        } else {
          ReadStops(c, h.body.chunk, 0, h.body.plen, [], rest);
        }
      }
    }
  }

  lemma ReadHeaderPositive(s: Suite, input: bytes)
    requires ReadHeader(s, input).Ok?
    ensures ReadHeader(s, input).value.0.body.chunk > 0
  {
  }

  /** An input whose header is accepted and whose first chunk opens has the sealed header. */
  lemma SealedPrefixRead(z: Sealing, input: bytes) returns (k: nat)
    requires z.Valid() && z.DecryptsOwn() && z.Ideal()
    requires forall minor :: input != z.Bytes(minor)
    requires ReadHeader(z.s, input).Ok? && ReadHeader(z.s, input).value.0.body.chunk > 0
    requires var (h, hh, rest) := ReadHeader(z.s, input).value;
             var want := Min(h.body.plen, h.body.chunk) + TAG_LEN;
             |rest| >= want && ReaderOf(z.s, h, hh, z.rnd.dek).Open(0, rest[..want]).Some?
    ensures k <= |z.Chunks()|
    ensures OpenBytes(z.s, input, z.rnd.dek).result.Err?
    ensures DecryptName(z.s, ReadHeader(z.s, input).value.0, z.rnd.dek).Ok?
            ==> OpenBytes(z.s, input, z.rnd.dek).written == Flat(z.Chunks()[..k])
  {
    hide ReadHeader, ReadFrom, Flat;
    var (h, hh, rest) := ReadHeader(z.s, input).value;
    var want := Min(h.body.plen, h.body.chunk) + TAG_LEN;
    var hb := ReadShape(z.s, input);
    SameHeader(z, h, hh, hb, ReaderOf(z.s, h, hh, z.rnd.dek).total, rest[..want]);
    k := SameHeaderRun(z, rest);
    BytesShape(z, input[7]);
  }

  /** One authentic first chunk pins the whole header: there always is a first chunk. */
  lemma SameHeader(z: Sealing, h: Header, hh: bytes32, hb: bytes, total: u64, frame: bytes)
    requires z.Valid() && z.DecryptsOwn() && z.Ideal()
    requires DecodeVerified(z.s, hb) == Ok((h, hh)) && hh == z.s.sha256(hb)
    requires z.s.aeadOpen(z.rnd.dek, Nonce(h.body.np, 0), ChunkAad(hh, 0, 1 == total), frame).Some?
    ensures hb == z.Encoded() && h == z.hdr && hh == z.Hash()
  {
    AuthenticChunk(z.Cipher(), z.hdr.body.name, z.Frames(), h.body.np, hh, 0, 1 == total, frame);
    SealedEncoding(z);
  }

  lemma SameHeaderRun(z: Sealing, rest: bytes) returns (k: nat)
    requires z.Valid() && z.DecryptsOwn() && z.Ideal()
    ensures k <= |z.Chunks()| && z.hdr.body.chunk > 0
    ensures var run := ReadFrom(ReaderOf(z.s, z.hdr, z.Hash(), z.rnd.dek), z.hdr.body.chunk, 0, z.hdr.body.plen, [],
                                rest);
            && run.written == Flat(z.Chunks()[..k])
            && (run.result.Ok? ==> rest == Flat(z.Frames()) + z.Cipher().Trailer(Flat(z.Frames())))
  {
    var c, chunks, frames := z.Cipher(), z.Chunks(), z.Frames();
    SealedBody(z);
    SealedFits(c, z.hdr.body.chunk, z.plain);
    LoggedExclusive(c, z.hdr.body.name, frames);
    k := StreamAuthentic(c, z.hdr.body.chunk, chunks, frames, 0, rest);
    assert chunks[0..] == chunks && frames[0..] == frames && frames[..0] == [] && chunks[0..k] == chunks[..k];
  }

  // ---------------------------------------------------------------- the assumptions hold together

  /** A correct AEAD opens what any seal encrypted. */
  lemma CorrectDecryptsOwn(z: Sealing)
    requires z.Valid() && AeadCorrect(z.s)
    ensures z.DecryptsOwn()
  {
    SealedName(z);
  }

  /** A table of encryptions and their messages. */
  ghost function Lookup(es: seq<Encryption>, ms: seq<bytes>, e: Encryption): Option<bytes>
    requires |es| == |ms|
  {
    if es == [] then None else if es[0] == e then Some(ms[0]) else Lookup(es[1..], ms[1..], e)
  }

  lemma {:induction false} LookupFinds(es: seq<Encryption>, ms: seq<bytes>, k: nat)
    requires |es| == |ms| && k < |es|
    requires forall i, j :: 0 <= i < j < |es| ==> es[i].nonce != es[j].nonce
    ensures Lookup(es, ms, es[k]) == Some(ms[k])
  {
    if k > 0 {
      LookupFinds(es[1..], ms[1..], k - 1);
    }
  }

  lemma {:induction false} LookupOnly(es: seq<Encryption>, ms: seq<bytes>, e: Encryption) returns (k: nat)
    requires |es| == |ms| && Lookup(es, ms, e).Some?
    ensures k < |es| && es[k] == e
  {
    if es[0] == e {
      k := 0;
    } else {
      k := LookupOnly(es[1..], ms[1..], e);
      k := k + 1;
    }
  }

  ghost function LogOf(c: Cipher, name: bytes, frames: seq<bytes>): (es: seq<Encryption>)
    requires |frames| == c.total
    ensures |es| == c.total + 1
    ensures forall k :: 0 <= k <= c.total ==> es[k] == EncryptionAt(c, name, frames, k)
  {
    seq(|frames| + 1, k requires 0 <= k <= |frames| => EncryptionAt(c, name, frames, k))
  }

  lemma LogDistinct(c: Cipher, name: bytes, frames: seq<bytes>)
    requires |frames| == c.total
    ensures var es := LogOf(c, name, frames); forall i, j :: 0 <= i < j < |es| ==> es[i].nonce != es[j].nonce
  {
    forall i, j | 0 <= i < j <= c.total
      ensures EncryptionAt(c, name, frames, i).nonce != EncryptionAt(c, name, frames, j).nonce
    {
      NoNonceReuse(c, name, frames, i, j);
    }
  }

  ghost function Table(dek: bytes32, es: seq<Encryption>, ms: seq<bytes>)
    : (bytes32, bytes, bytes, bytes) -> Option<bytes>
    requires |es| == |ms|
  {
    (k, n, a, ct) => if k == dek then Lookup(es, ms, Encryption(n, a, ct)) else None
  }

  /** The suite whose AEAD is a table of what this seal encrypted. */
  ghost function TableSuite(z: Sealing): Suite
    requires z.Valid() && z.DecryptableName()
  {
    z.s.(aeadOpen := Table(z.rnd.dek, LogOf(z.Cipher(), z.hdr.body.name, z.Frames()),
                           [PadName(z.opts.fileName).value] + z.Chunks()))
  }

  /** For every seal there is an AEAD for which the hypotheses of the main theorem hold together:
      the table of its own encryptions, well defined because no nonce repeats. */
  lemma IdealAeadExists(z: Sealing) returns (t: Sealing)
    requires z.Valid()
    ensures t == z.(s := z.s.(aeadOpen := t.s.aeadOpen)) && t.Valid() && t.DecryptsOwn()
    ensures OnlyLogged(t.Cipher(), t.hdr.body.name, t.Frames())
    ensures forall minor :: t.Bytes(minor) == z.Bytes(minor)
  {
    SealedName(z);
    t := z.(s := TableSuite(z));
    SameHeaderFor(z, t.s);
    TableOpensOwn(z, t);
    TableOnlyLogged(z, t);
    SameFrames(z, t);
  }

  lemma SameFrames(z: Sealing, t: Sealing)
    requires z.Valid() && t.Valid() && t == z.(s := z.s.(aeadOpen := t.s.aeadOpen))
    ensures t.Frames() == z.Frames() && t.Chunks() == z.Chunks()
    ensures forall minor :: t.Bytes(minor) == z.Bytes(minor)
  {
  }

  lemma TableOpens(c: Cipher, name: bytes, frames: seq<bytes>, ms: seq<bytes>, k: nat)
    requires |frames| == c.total && |ms| == c.total + 1 && k <= c.total
    ensures var e := EncryptionAt(c, name, frames, k);
            Table(c.dek, LogOf(c, name, frames), ms)(c.dek, e.nonce, e.aad, e.ct) == Some(ms[k])
  {
    hide EncryptionAt;
    LogDistinct(c, name, frames);
    LookupFinds(LogOf(c, name, frames), ms, k);
  }

  lemma TableOpensChunk(z: Sealing, t: Sealing, i: nat)
    requires z.Valid() && z.DecryptableName() && t.Valid() && t == z.(s := TableSuite(z))
    requires t.Frames() == z.Frames() && t.Chunks() == z.Chunks() && i < t.Cipher().total
    ensures t.Cipher().Open(i, t.Frames()[i]) == Some(t.Chunks()[i])
  {
    hide SealHeader, Split, LogOf, Table, Nonce, ChunkAad, PadName;
    TableOpens(z.Cipher(), z.hdr.body.name, z.Frames(), [PadName(z.opts.fileName).value] + z.Chunks(), i + 1);
  }

  lemma TableOpensOwn(z: Sealing, t: Sealing)
    requires z.Valid() && z.DecryptableName() && t.Valid() && t == z.(s := TableSuite(z))
    ensures t.DecryptsOwn()
  {
    hide SealHeader, Split, LogOf, Table, Nonce, ChunkAad, PadName;
    SameFrames(z, t);
    SealedBody(z);
    TableOpens(z.Cipher(), z.hdr.body.name, z.Frames(), [PadName(z.opts.fileName).value] + z.Chunks(), 0);
    forall i | 0 <= i < t.Cipher().total
      ensures t.Cipher().Open(i, t.Frames()[i]) == Some(t.Chunks()[i])
    {
      TableOpensChunk(z, t, i);
    }
  }

  lemma TableOnlyLogged(z: Sealing, t: Sealing)
    requires z.Valid() && z.DecryptableName() && t.Valid() && t == z.(s := TableSuite(z))
    ensures OnlyLogged(t.Cipher(), t.hdr.body.name, t.Frames())
  {
    var es := LogOf(z.Cipher(), z.hdr.body.name, z.Frames());
    var ms := [PadName(z.opts.fileName).value] + z.Chunks();
    SameFrames(z, t);
    forall e | Decrypts(t.Cipher(), e)
      ensures Logged(t.Cipher(), t.hdr.body.name, t.Frames(), e)
    {
      var k := LookupOnly(es, ms, e);
      assert e == EncryptionAt(t.Cipher(), t.hdr.body.name, t.Frames(), k);
    }
  }

  function FileIdOf(z: Sealing, s: Suite): bytes32 {
    if z.opts.prev.Some? then z.opts.prev.value.fileId else s.sha256(s.sha256(z.plain) + z.rnd.salt)
  }

  /** Sealing never opens anything, and hashes only for the file id. */
  lemma SameHeaderFor(z: Sealing, s: Suite)
    requires z.Valid() && s == z.s.(aeadOpen := s.aeadOpen, sha256 := s.sha256) && FileIdOf(z, s) == FileIdOf(z, z.s)
    ensures z.(s := s).Valid()
  {
    SameWraps(z.s, s, [z.ownerPk] + z.opts.extraRecipients, z.rnd.dek, FileIdOf(z, z.s));
  }

  lemma {:induction false} SameWraps(s: Suite, t: Suite, pks: seq<bytes>, dek: bytes32, fid: bytes32)
    requires s.wrap == t.wrap
    ensures WrapAll(s, pks, dek, fid) == WrapAll(t, pks, dek, fid)
  {
    if pks != [] {
      SameWraps(s, t, pks[1..], dek, fid);
    }
  }

  // ---------------------------------------------------------------- and so does the hash

  function Fill(k: byte): (b: bytes32)
    ensures forall i :: 0 <= i < 32 ==> b[i] == k
  {
    seq(32, _ => k)
  }

  lemma FillsDiffer(j: byte, k: byte, tail: bytes)
    ensures j != k ==> Fill(j) != Fill(k) && Fill(j) + tail != Fill(k) + tail
  {
    assert Fill(j)[0] == j && Fill(k)[0] == k;
    assert (Fill(j) + tail)[0] == j && (Fill(k) + tail)[0] == k;
  }

  /** Of three values one, with the tail behind it, is neither of two others. */
  lemma PickAway(u: bytes, v: bytes, tail: bytes) returns (a: bytes32)
    ensures a + tail != u && a + tail != v
  {
    FillsDiffer(0, 1, tail);
    FillsDiffer(0, 2, tail);
    FillsDiffer(1, 2, tail);
    a := if Fill(0) + tail != u && Fill(0) + tail != v then Fill(0)
         else if Fill(1) + tail != u && Fill(1) + tail != v then Fill(1) else Fill(2);
  }

  lemma PickOther(u: bytes32, v: bytes32, w: bytes32) returns (c: bytes32)
    ensures c != u && c != v && c != w
  {
    FillsDiffer(0, 1, []);
    FillsDiffer(0, 2, []);
    FillsDiffer(0, 3, []);
    FillsDiffer(1, 2, []);
    FillsDiffer(1, 3, []);
    FillsDiffer(2, 3, []);
    c :| c in {Fill(0), Fill(1), Fill(2), Fill(3)} && c != u && c != v && c != w;
  }

  /** A hash that tells the encoded header from everything else and still gives the same file id. */
  lemma HashAway(z: Sealing) returns (sha: bytes -> bytes32)
    requires z.Valid()
    ensures FileIdOf(z, z.s.(sha256 := sha)) == FileIdOf(z, z.s)
    ensures forall x :: sha(x) == sha(z.Encoded()) ==> x == z.Encoded()
  {
    var header, fid := z.Encoded(), FileIdOf(z, z.s);
    var a := PickAway(header, z.plain, z.rnd.salt);
    if z.plain == header {
      var c := AwayFrom(fid, header, z.rnd.salt);
      sha := x => if x == header then c else fid;
    } else {
      var c := PickOther(a, fid, fid);
      sha := x => if x == header then c else if x == z.plain then a else fid;
    }
  }

  lemma AwayFrom(fid: bytes32, u: bytes, tail: bytes) returns (c: bytes32)
    ensures c != fid && c + tail != u
  {
    c := PickAway(u, fid + tail, tail);
  }

  /** For every seal all the hypotheses of the main theorem hold together, for some AEAD and some hash:
      the same header is then sealed, it has no second preimage, and nothing else decrypts. */
  lemma IdealExists(z: Sealing) returns (t: Sealing)
    requires z.Valid()
    ensures t == z.(s := z.s.(aeadOpen := t.s.aeadOpen, sha256 := t.s.sha256))
    ensures t.Valid() && t.DecryptsOwn() && t.Ideal()
  {
    var sha := HashAway(z);
    var y := z.(s := z.s.(sha256 := sha));
    SameHeaderFor(z, y.s);
    t := IdealAeadExists(y);
  }

  // ---------------------------------------------------------------- and for many seals at once

  /** What is assumed of the AEAD under a seal's key looks at that key alone. */
  lemma OneKeyMatters(z: Sealing, t: Sealing, u: Sealing)
    requires z.Valid() && t.Valid() && u.Valid()
    requires t == z.(s := z.s.(aeadOpen := t.s.aeadOpen)) && u == z.(s := z.s.(aeadOpen := u.s.aeadOpen))
    requires forall n, a, ct :: t.s.aeadOpen(z.rnd.dek, n, a, ct) == u.s.aeadOpen(z.rnd.dek, n, a, ct)
    requires t.DecryptsOwn() && OnlyLogged(t.Cipher(), t.hdr.body.name, t.Frames())
    ensures u.DecryptsOwn() && OnlyLogged(u.Cipher(), u.hdr.body.name, u.Frames())
  {
    hide SealHeader, Split, Nonce, ChunkAad, PadName;
    SameFrames(z, t);
    SameFrames(z, u);
    forall i | 0 <= i < u.Cipher().total
      ensures u.Cipher().Open(i, u.Frames()[i]) == Some(u.Chunks()[i])
    {
      assert t.Cipher().Open(i, t.Frames()[i]) == Some(t.Chunks()[i]);
    }
    forall e | Decrypts(u.Cipher(), e)
      ensures Logged(u.Cipher(), u.hdr.body.name, u.Frames(), e)
    {
      assert Decrypts(t.Cipher(), e);
      assert Logged(t.Cipher(), t.hdr.body.name, t.Frames(), e);
      var k: nat :| k <= t.Cipher().total && e == EncryptionAt(t.Cipher(), t.hdr.body.name, t.Frames(), k);
      assert e == EncryptionAt(u.Cipher(), u.hdr.body.name, u.Frames(), k);
    }
  }

  type Opening = (bytes32, bytes, bytes, bytes) -> Option<bytes>

  ghost function KeyedOpening(dek: bytes32, own: Opening, rest: Opening): Opening {
    (k: bytes32, n: bytes, a: bytes, ct: bytes) => if k == dek then own(k, n, a, ct) else rest(k, n, a, ct)
  }

  ghost predicate SameSuite(s: Suite, log: seq<Sealing>) {
    forall z :: z in log ==> z.s == s && z.Valid()
  }

  ghost predicate DifferentKeys(log: seq<Sealing>) {
    forall i, j :: 0 <= i < j < |log| ==> log[i].rnd.dek != log[j].rnd.dek
  }

  /** One AEAD serves a whole log of seals with different file keys: under each key it opens what that seal
      encrypted and nothing else. */
  lemma {:induction false} LogAeadExists(s: Suite, log: seq<Sealing>) returns (t: Suite)
    requires SameSuite(s, log) && DifferentKeys(log)
    ensures t == s.(aeadOpen := t.aeadOpen)
    ensures forall z :: z in log ==> Served(z, t)
  {
    if log == [] {
      t := s;
    } else {
      hide Served, Sealing.Valid, OnlyLogged, Sealing.DecryptsOwn;
      var first := log[0];
      var rest := LogAeadExists(s, log[1..]);
      assert first.s == s && first.Valid();
      var own := IdealAeadExists(first);
      t := s.(aeadOpen := KeyedOpening(first.rnd.dek, own.s.aeadOpen, rest.aeadOpen));
      forall z | z in log
        ensures Served(z, t)
      {
        var i :| 0 <= i < |log| && log[i] == z;
        if i == 0 {
          ServedByOwn(z, own);
          ServedAlike(z, own.s, t);
        } else {
          assert z == log[1..][i - 1];
          ServedAlike(z, rest, t);
        }
      }
    }
  }

  /** Under this suite the seal opens, and its key opens nothing else. */
  ghost predicate Served(z: Sealing, s: Suite) {
    var t := z.(s := s);
    && z.Valid() && s == z.s.(aeadOpen := s.aeadOpen) && t.Valid() && t.DecryptsOwn()
    && OnlyLogged(t.Cipher(), t.hdr.body.name, t.Frames())
    && ((forall x :: s.sha256(x) == z.Hash() ==> x == z.Encoded()) ==> t.Ideal())
  }

  lemma ServedByOwn(z: Sealing, own: Sealing)
    requires z.Valid() && own == z.(s := z.s.(aeadOpen := own.s.aeadOpen)) && own.Valid() && own.DecryptsOwn()
    requires OnlyLogged(own.Cipher(), own.hdr.body.name, own.Frames())
    ensures Served(z, own.s)
  {
    hide SealHeader, OnlyLogged, Sealing.DecryptsOwn;
    assert own == z.(s := own.s);
  }

  lemma ServedAlike(z: Sealing, s: Suite, t: Suite)
    requires Served(z, s) && t == z.s.(aeadOpen := t.aeadOpen)
    requires forall n, a, ct :: s.aeadOpen(z.rnd.dek, n, a, ct) == t.aeadOpen(z.rnd.dek, n, a, ct)
    ensures Served(z, t)
  {
    hide SealHeader, OnlyLogged, Sealing.DecryptsOwn;
    SameHeaderFor(z, t);
    OneKeyMatters(z, z.(s := s), z.(s := t));
  }
}
