/** A sealed container as another implementation reads it: every field at its offset, and what the header says
    to somebody without a key (`crates/zbacs-core/src/container.rs`). */
module Layout {
  import opened Bytes
  import opened Container
  import opened ContainerProofs

  // ---------------------------------------------------------------- nonces and associated data

  /** The nonce of chunk i: the prefix, then i in eight bytes, lowest first. */
  lemma NonceSays(np: bytes16, i: u64)
    ensures var n := Nonce(np, i);
            |n| == 24 && n[..16] == np && forall k :: 0 <= k < 8 ==> n[16 + k] as nat == Digit(i, k)
  {
    forall k | 0 <= k < 8
      ensures Nonce(np, i)[16 + k] as nat == Digit(i, k)
    {
      LeDigit(i, 8, k);
    }
  }

  /** The associated data of chunk i: the header's hash, then i in eight bytes, lowest first, then 1 for the last
      chunk and 0 for any other. */
  lemma AadSays(hh: bytes32, i: u64, last: bool)
    ensures var a := ChunkAad(hh, i, last);
            && |a| == 41 && a[..32] == hh && (forall k :: 0 <= k < 8 ==> a[32 + k] as nat == Digit(i, k))
            && (a[40] == 1 <==> last) && (a[40] == 0 <==> !last)
  {
    forall k | 0 <= k < 8
      ensures ChunkAad(hh, i, last)[32 + k] as nat == Digit(i, k)
    {
      LeDigit(i, 8, k);
    }
  }

  // ---------------------------------------------------------------- offsets

  /** Where the i-th of pieces of this length begins. */
  function Start(len: nat, i: nat): nat {
    i * len
  }

  lemma StartStep(len: nat, i: nat)
    ensures Start(len, 0) == 0 && (i > 0 ==> Start(len, i) == len + Start(len, i - 1))
  {
  }

  /** Chunk i of a plaintext. */
  function PieceOf(plain: bytes, chunk: nat, i: nat): bytes {
    if Start(chunk, i) <= |plain| then plain[Start(chunk, i)..Min(|plain|, Start(chunk, i) + chunk)] else []
  }

  /** If everything before part i has the same length, part i stands at that multiple. */
  lemma {:induction false} FlatAt(parts: seq<bytes>, len: nat, i: nat)
    requires i < |parts| && forall k :: 0 <= k < i ==> |parts[k]| == len
    ensures Start(len, i) + |parts[i]| <= |Flat(parts)|
    ensures Flat(parts)[Start(len, i)..Start(len, i) + |parts[i]|] == parts[i]
  {
    hide Start;
    StartStep(len, i);
    var flat := Flat(parts);
    if i > 0 {
      FlatAt(parts[1..], len, i - 1);
      SliceBehind(parts[0], Flat(parts[1..]), Start(len, i - 1), |parts[i]|);
    }
  }

  lemma SliceBehind(a: bytes, b: bytes, from: nat, len: nat)
    requires from + len <= |b|
    ensures (a + b)[|a| + from..|a| + from + len] == b[from..from + len]
  {
  }

  /** Chunk i of the plaintext begins at i times the chunk size; all but the last are full. */
  lemma {:induction false} SplitAt(plain: bytes, chunk: nat, i: nat)
    requires chunk > 0 && i < NumChunks(|plain|, chunk)
    ensures Start(chunk, i) <= |plain| && Split(plain, chunk)[i] == PieceOf(plain, chunk, i)
    ensures i + 1 < NumChunks(|plain|, chunk) ==> |PieceOf(plain, chunk, i)| == chunk
  {
    hide Start;
    StartStep(chunk, i);
    if i > 0 {
      SplitAt(plain[chunk..], chunk, i - 1);
      PieceBehind(plain, chunk, i);
    }
  }

  lemma PieceBehind(plain: bytes, chunk: nat, i: nat)
    requires i > 0 && chunk <= |plain| && Start(chunk, i - 1) <= |plain| - chunk
    ensures Start(chunk, i) <= |plain| && PieceOf(plain, chunk, i) == PieceOf(plain[chunk..], chunk, i - 1)
  {
    hide Start;
    StartStep(chunk, i);
    var from, to := Start(chunk, i - 1), Min(|plain| - chunk, Start(chunk, i - 1) + chunk);
    assert plain[chunk..][from..to] == plain[chunk + from..chunk + to];
  }

  /** Where frame i of a sealed container begins. */
  function FrameAt(z: Sealing, i: nat): nat {
    12 + |z.Encoded()| + Start(z.hdr.body.chunk + TAG_LEN, i)
  }

  /** The bytes of a container, field by field: magic, version 1.1, the length of the header, the header; each
      chunk of the plaintext encrypted under its own nonce and associated data, one frame behind the other; and
      the trailer, which is the header's hash, the number of chunks and the hash of the frames. */
  lemma ContainerLayout(z: Sealing)
    requires z.Valid()
    ensures var c, h, frames := z.Bytes(VERSION_MINOR), |z.Encoded()|, Flat(z.Frames());
            && |c| == 12 + h + |frames| + 72
            && c[..6] == [0x5A, 0x42, 0x41, 0x43, 0x53, 0x00] && c[6] == 1 && c[7] == 1
            && (forall k :: 0 <= k < 4 ==> c[8 + k] as nat == Digit(h, k)) && c[12..12 + h] == z.Encoded()
            && c[12 + h..12 + h + |frames|] == frames
            && c[|c| - 72..|c| - 40] == z.Hash()
            && (forall k :: 0 <= k < 8 ==>
                  c[|c| - 40 + k] as nat == Digit(NumChunks(|z.plain|, z.hdr.body.chunk), k))
            && c[|c| - 32..] == z.s.blake3(frames)
  {
    var h, frames := |z.Encoded()|, Flat(z.Frames());
    var trailer := z.Cipher().Trailer(frames);
    var prelude := Prelude(z.Encoded(), VERSION_MINOR);
    BytesShape(z, VERSION_MINOR);
    var c := z.Bytes(VERSION_MINOR);
    assert c == prelude + (frames + trailer);
    forall k | 0 <= k < 4
      ensures c[8 + k] as nat == Digit(h, k)
    {
      LeDigit(h, 4, k);
      assert c[8 + k] == prelude[8 + k] == Le(h, 4)[k];
    }
    assert prelude[..6] == MAGIC && c[..6] == prelude[..6];
    assert prelude[12..] == z.Encoded() && c[12..12 + h] == prelude[12..];
    TrailerAt(z, c, prelude, frames);
  }

  lemma TrailerAt(z: Sealing, c: bytes, prelude: bytes, frames: bytes)
    requires z.Valid() && c == prelude + (frames + z.Cipher().Trailer(frames))
    ensures var n := |c| - 72;
            && n == |prelude| + |frames| && c[|prelude|..n] == frames && z.hdr.body.chunk > 0
            && c[n..n + 32] == z.Hash() && c[n + 40..] == z.s.blake3(frames)
            && forall k :: 0 <= k < 8 ==> c[n + 32 + k] as nat == Digit(NumChunks(|z.plain|, z.hdr.body.chunk), k)
  {
    hide SealHeader, Split;
    z.ChunkPositive();
    var n := |c| - 72;
    var trailer := z.Cipher().Trailer(frames);
    assert c[n..] == trailer;
    assert c[n..n + 32] == trailer[..32] && c[n + 40..] == trailer[40..];
    forall k | 0 <= k < 8
      ensures c[n + 32 + k] as nat == Digit(NumChunks(|z.plain|, z.hdr.body.chunk), k)
    {
      LeDigit(z.Cipher().total, 8, k);
      assert c[n + 32 + k] == trailer[32 + k] == Le(z.Cipher().total, 8)[k];
    }
  }

  /** Frame i: the bytes of the plaintext from i times the chunk size on, encrypted with the file key under nonce i,
      bound to the header, to the index and to being the last. */
  lemma FrameLayout(z: Sealing, i: nat)
    requires z.Valid() && z.hdr.body.chunk > 0 && i < NumChunks(|z.plain|, z.hdr.body.chunk)
    ensures i <= U64_MAX && Start(z.hdr.body.chunk, i) <= |z.plain|
    ensures var c, piece, at := z.Bytes(VERSION_MINOR), PieceOf(z.plain, z.hdr.body.chunk, i), FrameAt(z, i);
            && at + |piece| + TAG_LEN <= |c| - 72
            && c[at..at + |piece| + TAG_LEN]
               == z.s.aeadSeal(z.rnd.dek, Nonce(z.rnd.np, i),
                               ChunkAad(z.Hash(), i, i + 1 == NumChunks(|z.plain|, z.hdr.body.chunk)), piece)
  {
    hide SealHeader, Split, Flat, Start, PieceOf, Sealing.Frames, Sealing.Bytes, Nonce, ChunkAad;
    var frames, piece := z.Frames(), PieceOf(z.plain, z.hdr.body.chunk, i);
    FramesAre(z, i);
    FlatAt(frames, z.hdr.body.chunk + TAG_LEN, i);
    ContainerLayout(z);
    SliceOfSlice(z.Bytes(VERSION_MINOR), 12 + |z.Encoded()|, Flat(frames), Start(z.hdr.body.chunk + TAG_LEN, i),
                 |frames[i]|);
  }

  lemma SliceOfSlice(c: bytes, base: nat, flat: bytes, from: nat, len: nat)
    requires base + |flat| <= |c| && c[base..base + |flat|] == flat && from + len <= |flat|
    ensures c[base + from..base + from + len] == flat[from..from + len]
  {
    var x, y := c[base + from..base + from + len], flat[from..from + len];
    forall k | 0 <= k < len
      ensures x[k] == y[k]
    {
      assert c[base..base + |flat|][from + k] == flat[from + k];
    }
  }

  lemma FramesAre(z: Sealing, i: nat)
    requires z.Valid() && z.hdr.body.chunk > 0 && i < NumChunks(|z.plain|, z.hdr.body.chunk)
    ensures |z.Frames()| == NumChunks(|z.plain|, z.hdr.body.chunk) <= U64_MAX
    ensures Start(z.hdr.body.chunk, i) <= |z.plain|
    ensures var piece := PieceOf(z.plain, z.hdr.body.chunk, i);
            && z.Frames()[i] == z.s.aeadSeal(z.rnd.dek, Nonce(z.rnd.np, i),
                 ChunkAad(z.Hash(), i, i + 1 == NumChunks(|z.plain|, z.hdr.body.chunk)), piece)
            && |z.Frames()[i]| == |piece| + TAG_LEN
    ensures forall k :: 0 <= k < i ==> |z.Frames()[k]| == z.hdr.body.chunk + TAG_LEN
  {
    hide Split, Start, PieceOf, Nonce, ChunkAad, NumChunks, SealHeader;
    SealedBody(z);
    SplitAt(z.plain, z.hdr.body.chunk, i);
    FrameIs(z, i);
    forall k | 0 <= k < i
      ensures |z.Frames()[k]| == z.hdr.body.chunk + TAG_LEN
    {
      SplitAt(z.plain, z.hdr.body.chunk, k);
      FrameIs(z, k);
    }
  }

  lemma FrameIs(z: Sealing, i: nat)
    requires z.Valid() && z.hdr.body.chunk > 0 && i < NumChunks(|z.plain|, z.hdr.body.chunk)
    ensures |z.Frames()| == NumChunks(|z.plain|, z.hdr.body.chunk) <= U64_MAX
    ensures z.Frames()[i] == z.s.aeadSeal(z.rnd.dek, Nonce(z.rnd.np, i),
              ChunkAad(z.Hash(), i, i + 1 == NumChunks(|z.plain|, z.hdr.body.chunk)),
              Split(z.plain, z.hdr.body.chunk)[i])
    ensures |z.Frames()[i]| == |Split(z.plain, z.hdr.body.chunk)[i]| + TAG_LEN
  {
    hide Split, Nonce, ChunkAad, NumChunks;
    SealedBody(z);
  }

  // ---------------------------------------------------------------- the name

  /** The name in the header: its length in two bytes, lowest first, the name, and zeros to the next multiple of 64,
      encrypted with the file key under the largest index, with the word "name" beside it. */
  lemma NameLayout(z: Sealing) returns (padded: bytes, n: bytes)
    requires z.Valid()
    ensures z.hdr.body.name == z.s.aeadSeal(z.rnd.dek, n, [0x6E, 0x61, 0x6D, 0x65], padded)
    ensures |n| == 24 && n[..16] == z.rnd.np && forall k :: 16 <= k < 24 ==> n[k] == 255
    ensures |padded| % 64 == 0 && |z.opts.fileName| + 2 <= |padded| < |z.opts.fileName| + 66
    ensures padded[0] as nat == |z.opts.fileName| % 256 && padded[1] as nat == |z.opts.fileName| / 256
    ensures padded[2..2 + |z.opts.fileName|] == z.opts.fileName
    ensures forall k :: 2 + |z.opts.fileName| <= k < |padded| ==> padded[k] == 0
  {
    hide SealHeader;
    SealedName(z);
    padded, n := PadName(z.opts.fileName).value, Nonce(z.rnd.np, NAME_INDEX);
    NonceSays(z.rnd.np, NAME_INDEX);
    forall k | 0 <= k < 8
      ensures Digit(NAME_INDEX, k) == 255
    {
      AllOnes(8, k);
    }
    assert forall k :: 16 <= k < 24 ==> n[k] == n[16 + (k - 16)];
    LeDigit(|z.opts.fileName|, 2, 0);
    LeDigit(|z.opts.fileName|, 2, 1);
    PadLength(z.opts.fileName);
  }

  /** The largest number of n bytes has only digits 255. */
  lemma {:induction false} AllOnes(n: nat, k: nat)
    requires k < n
    ensures Digit(Pow256(n) - 1, k) == 255
    ensures n == 8 ==> Pow256(8) - 1 == U64_MAX
  {
    Pow256Widths();
    if k > 0 {
      AllOnes(n - 1, k - 1);
      assert (Pow256(n) - 1) / 256 == Pow256(n - 1) - 1;
    }
  }

  // ---------------------------------------------------------------- what the header says

  /** The text the header's signature is taken over begins with these words. */
  const DOMAIN_TEXT: string := "ZBACS-HDR-v1"

  /** Reading a sealed container without a key shows what the owner chose and what was sealed: the policy, the
      account and the sealing key of the owner, the chunk size, the length, the identity and the place in the
      version chain; under a signature of the signer over all of it, with as many envelopes as recipients. */
  lemma InspectSays(z: Sealing, minor: byte)
    requires z.Valid() && Readable(z.opts)
    ensures ReadHeader(z.s, z.Bytes(minor)).Ok?
    ensures var (h, hh, _) := ReadHeader(z.s, z.Bytes(minor)).value;
            var b := h.body;
            && hh == z.s.sha256(z.s.encodeHeader(h))
            && b.pol == z.opts.policy && b.own == z.opts.ownerAccount && b.opub == Some(z.ownerPk)
            && b.chunk == z.opts.chunkSize && b.plen == |z.plain| && b.np == z.rnd.np && b.cipher == 1
            && |b.env| == 1 + |z.opts.extraRecipients|
            && (match z.opts.prev
                case None =>
                  && b.ver == 1 && b.prev == None && b.salt == z.rnd.salt
                  && b.fid == z.s.sha256(z.s.sha256(z.plain) + z.rnd.salt)
                case Some(p) =>
                  && b.ver == p.version + 1 && b.prev == Some(p.headerHash) && b.salt == p.salt && b.fid == p.fileId)
            && h.sigk == z.s.publicOf(z.signer)
            && |HDR_SIG_DOMAIN| == |DOMAIN_TEXT|
            && (forall i :: 0 <= i < |DOMAIN_TEXT| ==> HDR_SIG_DOMAIN[i] as int == DOMAIN_TEXT[i] as int)
            && z.s.verifySig(h.sigk, HDR_SIG_DOMAIN + z.s.encodeBody(b), h.sig)
  {
    hide ReadHeader;
    ReadsSealedHeader(z, minor);
    SealReads(z, minor);
    HeaderFields(z);
    SealedBody(z);
  }

  lemma SealReads(z: Sealing, minor: byte)
    requires z.Valid() && Readable(z.opts)
    ensures ReadHeader(z.s, z.Bytes(minor)).Ok? && ReadHeader(z.s, z.Bytes(minor)).value.1 == z.Hash()
  {
    hide ReadHeader, DecodeVerified, ValidateHeader;
    SealedEncoding(z);
    ValidateIff(z);
    BytesShape(z, minor);
    ReadPrelude(z.s, z.hdr, minor, Flat(z.Frames()) + z.Cipher().Trailer(Flat(z.Frames())));
  }

  lemma HeaderFields(z: Sealing)
    requires z.Valid()
    ensures var b := z.hdr.body;
            && b.pol == z.opts.policy && b.opub == Some(z.ownerPk) && b.cipher == 1
            && (z.opts.prev.None? ==> b.salt == z.rnd.salt && b.fid == z.s.sha256(z.s.sha256(z.plain) + z.rnd.salt))
            && z.hdr.sigk == z.s.publicOf(z.signer)
            && z.s.verifySig(z.hdr.sigk, HDR_SIG_DOMAIN + z.s.encodeBody(b), z.hdr.sig)
  {
  }
}
