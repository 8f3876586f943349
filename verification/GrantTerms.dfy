/** The approval's terms and their two encodings: the EIP-712 struct hash the owner signs
    (`crates/zbacs-proto/src/grant.rs`) and the calldata the contract decodes
    (`crates/zbacs-chain/src/calls.rs`). */
module GrantTerms {
  import opened Bytes

  type u8 = x: nat | x < 0x100

  /** The fields in the order of the Solidity struct; `GrantArgs` carries the same nine. */
  datatype Terms = Terms(
    fileId: bytes32, headerHash: bytes32, deviceKeyHash: bytes32, permission: u8, notBefore: u64, expiry: u64,
    maxOpens: u16, requestNonce: bytes16, grantNonce: u64)

  /** keccak-256, with the type hashes and the two hashed domain strings it gives. */
  datatype Hashing = Hashing(
    keccak: bytes -> bytes32, typeHash: bytes32, domainType: bytes32, name: bytes32, version: bytes32) {

    /** EIP-712 `hashStruct`. */
    function StructHash(t: Terms): bytes32 {
      keccak(typeHash + Words(t))
    }

    function DomainPreimage(chainId: u64, verifyingContract: bytes20): bytes {
      domainType + name + version + WordU64(chainId) + (Zeros(12) + verifyingContract)
    }

    function DigestPreimage(t: Terms, chainId: u64, verifyingContract: bytes20): bytes {
      [0x19, 0x01] + keccak(DomainPreimage(chainId, verifyingContract)) + StructHash(t)
    }

    /** What the owner signs. */
    function Digest(t: Terms, chainId: u64, verifyingContract: bytes20): bytes32 {
      keccak(DigestPreimage(t, chainId, verifyingContract))
    }

    ghost predicate Collision(x: bytes, y: bytes) {
      x != y && keccak(x) == keccak(y)
    }
  }

  /** A number right-aligned in its 32-byte word. */
  function WordU64(v: u64): (w: bytes)
    ensures |w| == 32
  {
    Zeros(24) + Be(v, 8)
  }

  /** `bytes16` left-aligned in its 32-byte word. */
  function WordBytes16(v: bytes16): (w: bytes)
    ensures |w| == 32
  {
    v + Zeros(16)
  }

  function Numbers(t: Terms): (w: bytes)
    ensures |w| == 128
  {
    WordU64(t.permission) + WordU64(t.notBefore) + WordU64(t.expiry) + WordU64(t.maxOpens)
  }

  /** The nine words, 288 bytes. */
  function Words(t: Terms): (w: bytes)
    ensures |w| == 288
  {
    t.fileId + t.headerHash + t.deviceKeyHash + Numbers(t) + WordBytes16(t.requestNonce) + WordU64(t.grantNonce)
  }

  lemma WordU64Injective(v: u64, w: u64)
    ensures WordU64(v) == WordU64(w) ==> v == w
  {
    Pow256Widths();
    if WordU64(v) == WordU64(w) {
      ConcatSplit(Zeros(24), Be(v, 8), Zeros(24), Be(w, 8));
      BeInjective(v, w, 8);
    }
  }

  lemma WordBytes16Injective(v: bytes16, w: bytes16)
    ensures WordBytes16(v) == WordBytes16(w) ==> v == w
  {
    if WordBytes16(v) == WordBytes16(w) {
      ConcatSplit(v, Zeros(16), w, Zeros(16));
    }
  }

  lemma NumbersInjective(t: Terms, u: Terms)
    requires Numbers(t) == Numbers(u)
    ensures t.permission == u.permission && t.notBefore == u.notBefore && t.expiry == u.expiry
            && t.maxOpens == u.maxOpens
  {
    var a, a' := WordU64(t.permission), WordU64(u.permission);
    var b, b' := WordU64(t.notBefore), WordU64(u.notBefore);
    var c, c' := WordU64(t.expiry), WordU64(u.expiry);
    var d, d' := WordU64(t.maxOpens), WordU64(u.maxOpens);
    ConcatSplit(a + b + c, d, a' + b' + c', d');
    ConcatSplit(a + b, c, a' + b', c');
    ConcatSplit(a, b, a', b');
    WordU64Injective(t.permission, u.permission);
    WordU64Injective(t.notBefore, u.notBefore);
    WordU64Injective(t.expiry, u.expiry);
    WordU64Injective(t.maxOpens, u.maxOpens);
  }

  /** Different terms never share their nine words. */
  lemma WordsInjective(t: Terms, u: Terms)
    requires Words(t) == Words(u)
    ensures t == u
  {
    hide Numbers, WordU64, WordBytes16;
    var a, a' := t.fileId + t.headerHash + t.deviceKeyHash, u.fileId + u.headerHash + u.deviceKeyHash;
    var n, n' := Numbers(t), Numbers(u);
    var r, r' := WordBytes16(t.requestNonce), WordBytes16(u.requestNonce);
    ConcatSplit(a + n + r, WordU64(t.grantNonce), a' + n' + r', WordU64(u.grantNonce));
    ConcatSplit(a + n, r, a' + n', r');
    ConcatSplit(a, n, a', n');
    ConcatSplit(t.fileId + t.headerHash, t.deviceKeyHash, u.fileId + u.headerHash, u.deviceKeyHash);
    ConcatSplit(t.fileId, t.headerHash, u.fileId, u.headerHash);
    NumbersInjective(t, u);
    WordU64Injective(t.grantNonce, u.grantNonce);
    WordBytes16Injective(t.requestNonce, u.requestNonce);
  }

  /** One struct hash names one set of terms, unless keccak itself collides on the two preimages. */
  lemma StructHashBinds(h: Hashing, t: Terms, u: Terms)
    requires h.StructHash(t) == h.StructHash(u)
    ensures t == u || h.Collision(h.typeHash + Words(t), h.typeHash + Words(u))
  {
    if h.typeHash + Words(t) == h.typeHash + Words(u) {
      ConcatSplit(h.typeHash, Words(t), h.typeHash, Words(u));
      WordsInjective(t, u);
    }
  }

  /** One signed digest names one set of terms, one chain and one contract, unless keccak collides
      on one of the three pairs of preimages: a signature cannot be replayed across either. */
  lemma DigestBinds(h: Hashing, t: Terms, chainId: u64, contract: bytes20, t': Terms, chainId': u64, contract': bytes20)
    requires h.Digest(t, chainId, contract) == h.Digest(t', chainId', contract')
    ensures
      || (t == t' && chainId == chainId' && contract == contract')
      || h.Collision(h.DigestPreimage(t, chainId, contract), h.DigestPreimage(t', chainId', contract'))
      || h.Collision(h.DomainPreimage(chainId, contract), h.DomainPreimage(chainId', contract'))
      || h.Collision(h.typeHash + Words(t), h.typeHash + Words(t'))
  {
    hide Words, WordU64;
    var d, d' := h.DomainPreimage(chainId, contract), h.DomainPreimage(chainId', contract');
    if h.DigestPreimage(t, chainId, contract) == h.DigestPreimage(t', chainId', contract') {
      var prefix: bytes := [0x19, 0x01];
      ConcatSplit(prefix + h.keccak(d), h.StructHash(t), prefix + h.keccak(d'), h.StructHash(t'));
      ConcatSplit(prefix, h.keccak(d), prefix, h.keccak(d'));
      StructHashBinds(h, t, t');
      if d == d' {
        var fixed := h.domainType + h.name + h.version;
        ConcatSplit(fixed + WordU64(chainId), Zeros(12) + contract, fixed + WordU64(chainId'), Zeros(12) + contract');
        ConcatSplit(fixed, WordU64(chainId), fixed, WordU64(chainId'));
        ConcatSplit(Zeros(12), contract, Zeros(12), contract');
        WordU64Injective(chainId, chainId');
      }
    }
  }

  // ---------------------------------------------------------------- calldata

  function Padding(n: nat): nat {
    (32 - n % 32) % 32
  }

  /** `AccessPolicy.grant(g, ownerSig)`: selector, the tuple in place, the offset of the signature
      counted from the end of the selector, its length, and the signature padded to whole words. */
  function GrantCalldata(selector: bytes, t: Terms, sig: bytes): bytes
    requires |selector| == 4 && |sig| <= U64_MAX
  {
    selector + Words(t) + WordU64(320) + WordU64(|sig|) + (sig + Zeros(Padding(|sig|)))
  }

  lemma {:induction false} LeadingZeros(k: nat, b: bytes)
    ensures FromBe(Zeros(k) + b) == FromBe(b)
    decreases |b|, k
  {
    if b != [] {
      assert (Zeros(k) + b)[..k + |b| - 1] == Zeros(k) + b[..|b| - 1];
      LeadingZeros(k, b[..|b| - 1]);
    } else if k > 0 {
      assert (Zeros(k) + b)[..k - 1] == Zeros(k - 1) + b;
      LeadingZeros(k - 1, b);
    } else {
      assert Zeros(k) + b == [];
    }
  }

  lemma WordU64Value(v: u64)
    ensures FromBe(WordU64(v)) == v
  {
    Pow256Widths();
    LeadingZeros(24, Be(v, 8));
    BeRoundTrip(v, 8);
  }

  lemma CalldataParts(selector: bytes, t: Terms, sig: bytes)
    requires |selector| == 4 && |sig| <= U64_MAX
    ensures var c := GrantCalldata(selector, t, sig);
            && |c| == 356 + |sig| + Padding(|sig|)
            && c[4..292] == Words(t) && c[292..324] == WordU64(320) && c[324..356] == WordU64(|sig|)
            && c[356..356 + |sig|] == sig
  {
    hide Words, WordU64, Padding, Zeros;
    var c := GrantCalldata(selector, t, sig);
    var tail := sig + Zeros(Padding(|sig|));
    var a := selector + Words(t);
    var b := a + WordU64(320);
    assert c == b + WordU64(|sig|) + tail;
    assert c[356..356 + |sig|] == tail[..|sig|] == sig;
    assert c[324..356] == (b + WordU64(|sig|))[324..] == WordU64(|sig|);
    assert c[292..324] == b[292..] == WordU64(320);
    assert c[4..292] == a[4..] == Words(t);
  }

  /** The words the contract reads are the words that were hashed: hashing what follows the
      selector gives the grant id, the offset (counted from the selector's end) points at the
      length word, and the length word is followed by that many signature bytes and padding to a
      word boundary. */
  lemma CalldataCarriesHashedWords(h: Hashing, selector: bytes, t: Terms, sig: bytes)
    requires |selector| == 4 && |sig| <= U64_MAX
    ensures var c := GrantCalldata(selector, t, sig);
            && |c| % 32 == 4 && |c| >= 356 + |sig|
            && h.keccak(h.typeHash + c[4..292]) == h.StructHash(t)
            && var offset := FromBe(c[292..324]);
               offset == 320 && FromBe(c[4 + offset..36 + offset]) == |sig|
               && c[36 + offset..36 + offset + |sig|] == sig
  {
    hide GrantCalldata, Words, WordU64, FromBe;
    CalldataParts(selector, t, sig);
    WordU64Value(320);
    WordU64Value(|sig|);
  }

  // ---------------------------------------------------------------- what a decoder reads

  /** A decoder of the Solidity struct, starting at this offset, reads these terms: each field in its own word,
      numbers as big-endian words, the nonce of the request in the front half of its word. */
  ghost predicate ReadsTerms(b: bytes, at: nat, t: Terms)
    requires at + 288 <= |b|
  {
    && b[at..at + 32] == t.fileId
    && b[at + 32..at + 64] == t.headerHash
    && b[at + 64..at + 96] == t.deviceKeyHash
    && FromBe(b[at + 96..at + 128]) == t.permission
    && FromBe(b[at + 128..at + 160]) == t.notBefore
    && FromBe(b[at + 160..at + 192]) == t.expiry
    && FromBe(b[at + 192..at + 224]) == t.maxOpens
    && b[at + 224..at + 240] == t.requestNonce && b[at + 240..at + 256] == Zeros(16)
    && FromBe(b[at + 256..at + 288]) == t.grantNonce
  }

  lemma NumbersRead(t: Terms)
    ensures FromBe(Numbers(t)[..32]) == t.permission && FromBe(Numbers(t)[32..64]) == t.notBefore
    ensures FromBe(Numbers(t)[64..96]) == t.expiry && FromBe(Numbers(t)[96..128]) == t.maxOpens
  {
    hide WordU64, FromBe;
    WordU64Value(t.permission);
    WordU64Value(t.notBefore);
    WordU64Value(t.expiry);
    WordU64Value(t.maxOpens);
    var n := Numbers(t);
    assert n[..32] == WordU64(t.permission) && n[32..64] == WordU64(t.notBefore);
    assert n[64..96] == WordU64(t.expiry) && n[96..128] == WordU64(t.maxOpens);
  }

  lemma WordsRead(t: Terms)
    ensures ReadsTerms(Words(t), 0, t)
  {
    hide Numbers, WordU64, FromBe;
    var w, n := Words(t), Numbers(t);
    NumbersRead(t);
    WordU64Value(t.grantNonce);
    assert w[96..224] == n;
    assert w[96..128] == n[..32] && w[128..160] == n[32..64] && w[160..192] == n[64..96] && w[192..224] == n[96..128];
    assert w[224..256] == WordBytes16(t.requestNonce);
    assert w[224..240] == w[224..256][..16] && w[240..256] == w[224..256][16..];
    assert w[256..288] == WordU64(t.grantNonce);
  }

  /** Reading at an offset is reading what stands there. */
  lemma ReadsInside(b: bytes, at: nat, w: bytes, t: Terms)
    requires |w| == 288 && at + 288 <= |b| && b[at..at + 288] == w && ReadsTerms(w, 0, t)
    ensures ReadsTerms(b, at, t)
  {
    hide FromBe;
    InsideSlice(b, at, w, 0, 32);
    InsideSlice(b, at, w, 32, 64);
    InsideSlice(b, at, w, 64, 96);
    InsideSlice(b, at, w, 96, 128);
    InsideSlice(b, at, w, 128, 160);
    InsideSlice(b, at, w, 160, 192);
    InsideSlice(b, at, w, 192, 224);
    InsideSlice(b, at, w, 224, 240);
    InsideSlice(b, at, w, 240, 256);
    InsideSlice(b, at, w, 256, 288);
  }

  lemma InsideSlice(b: bytes, at: nat, w: bytes, i: nat, j: nat)
    requires i <= j <= |w| && at + |w| <= |b| && b[at..at + |w|] == w
    ensures b[at + i..at + j] == w[i..j]
  {
    forall k | 0 <= k < j - i
      ensures b[at + i..at + j][k] == w[i..j][k]
    {
      assert b[at..at + |w|][i + k] == w[i + k];
    }
  }

  /** The contract reads from the calldata the file, the header, the device, the permission, the window, the
      budget and the two nonces that the owner chose, each in its place; and the struct hash, which is the grant
      id and what the owner's signature covers, is taken of the type hash followed by the same. */
  lemma ContractReadsTerms(h: Hashing, selector: bytes, t: Terms, sig: bytes)
    requires |selector| == 4 && |sig| <= U64_MAX
    ensures |GrantCalldata(selector, t, sig)| >= 356 && GrantCalldata(selector, t, sig)[..4] == selector
    ensures ReadsTerms(GrantCalldata(selector, t, sig), 4, t)
    ensures exists p :: |p| == 320 && h.StructHash(t) == h.keccak(p) && p[..32] == h.typeHash && ReadsTerms(p, 32, t)
  {
    hide Words, FromBe;
    WordsRead(t);
    CalldataParts(selector, t, sig);
    ReadsInside(GrantCalldata(selector, t, sig), 4, Words(t), t);
    var p := h.typeHash + Words(t);
    assert p[32..32 + 288] == Words(t);
    ReadsInside(p, 32, Words(t), t);
    assert GrantCalldata(selector, t, sig)[..4] == selector;
  }

  /** What the owner signs: the EIP-712 prefix, the hash of the domain, the struct hash; and in the domain, behind
      its type, name and version, the chain and the contract, each in its word. */
  lemma DigestReads(h: Hashing, t: Terms, chainId: u64, contract: bytes20)
    ensures exists p, d ::
              && h.Digest(t, chainId, contract) == h.keccak(p)
              && |p| == 66 && p[..2] == [0x19, 0x01] && p[2..34] == h.keccak(d) && p[34..66] == h.StructHash(t)
              && |d| == 160 && d[..32] == h.domainType && d[32..64] == h.name && d[64..96] == h.version
              && FromBe(d[96..128]) == chainId && d[128..140] == Zeros(12) && d[140..160] == contract
  {
    hide WordU64, FromBe, Words;
    WordU64Value(chainId);
    var d, p := h.DomainPreimage(chainId, contract), h.DigestPreimage(t, chainId, contract);
    assert d[96..128] == WordU64(chainId);
    assert d[128..140] == Zeros(12) && d[140..160] == contract;
    assert d[..32] == h.domainType && d[32..64] == h.name && d[64..96] == h.version;
    assert p[..2] == [0x19, 0x01] && p[2..34] == h.keccak(d) && p[34..66] == h.StructHash(t);
  }

  /** One calldata carries one set of terms and one signature. */
  lemma CalldataInjective(selector: bytes, t: Terms, sig: bytes, u: Terms, sig': bytes)
    requires |selector| == 4 && |sig| <= U64_MAX && |sig'| <= U64_MAX
    requires GrantCalldata(selector, t, sig) == GrantCalldata(selector, u, sig')
    ensures t == u && sig == sig'
  {
    hide GrantCalldata, Words, WordU64;
    CalldataParts(selector, t, sig);
    CalldataParts(selector, u, sig');
    WordsInjective(t, u);
    WordU64Injective(|sig|, |sig'|);
  }
}
