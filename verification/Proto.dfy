/** The signed envelope relay messages travel in (`crates/zbacs-proto/src/signed.rs`). */
module Proto {
  import opened Bytes

  type Kid = bytes16
  type MsgNonce = bytes16
  type FileId = bytes32

  datatype Kind = Announce | Req | Grant | Revoke | Sub | Ack | Version

  datatype ErrorCode =
    | Unauthenticated | UnknownDevice | Stale | Replayed | Malformed | TooLarge | RateLimited | NotFound | Internal

  datatype Result<+T> = Ok(value: T) | Err(code: ErrorCode)

  const RELAY_SIG_DOMAIN: string := "ZBACS-RLY-v1"
  const MAX_BODY_LEN: nat := 64 * 1024
  const MAX_SKEW_SECS: nat := 120

  function KindName(k: Kind): string {
    match k
    case Announce => "announce"
    case Req => "req"
    case Grant => "grant"
    case Revoke => "revoke"
    case Sub => "sub"
    case Ack => "ack"
    case Version => "version"
  }

  function Text(s: string): (b: bytes)
    ensures |b| == |s|
    ensures forall i :: 0 <= i < |s| ==> b[i] == (s[i] as int % 256) as byte
  {
    seq(|s|, i requires 0 <= i < |s| => (s[i] as int % 256) as byte)
  }

  /** `signing_bytes`: domain, kind, time, nonce and payload digest. The kind has no length in
      front of it; everything after it has a fixed width. */
  function SigningBytes(kind: Kind, ts: u64, nonce: MsgNonce, digest: bytes32): bytes {
    Text(RELAY_SIG_DOMAIN) + Text(KindName(kind)) + Le(ts, 8) + nonce + digest
  }

  /** What is signed, from the front: the domain, the name of the kind, the time in eight bytes, lowest first, the
      nonce and the digest of the payload. */
  lemma SigningBytesSay(kind: Kind, ts: u64, nonce: MsgNonce, digest: bytes32)
    ensures var b, n := SigningBytes(kind, ts, nonce, digest), |KindName(kind)|;
            && |b| == 12 + n + 56 && b[..12] == Text("ZBACS-RLY-v1") && b[12..12 + n] == Text(KindName(kind))
            && (forall k :: 0 <= k < 8 ==> b[12 + n + k] as nat == Digit(ts, k))
            && b[20 + n..36 + n] == nonce && b[36 + n..] == digest
    ensures KindName(Announce) == "announce" && KindName(Req) == "req" && KindName(Grant) == "grant"
    ensures KindName(Revoke) == "revoke" && KindName(Version) == "version"
  {
    var b, n := SigningBytes(kind, ts, nonce, digest), |KindName(kind)|;
    var front := Text(RELAY_SIG_DOMAIN) + Text(KindName(kind));
    assert b == front + (Le(ts, 8) + nonce + digest);
    assert b[..12] == front[..12] && b[12..12 + n] == front[12..];
    forall k | 0 <= k < 8
      ensures b[12 + n + k] as nat == Digit(ts, k)
    {
      LeDigit(ts, 8, k);
      assert b[12 + n + k] == Le(ts, 8)[k];
    }
  }

  /** No two different messages have the same signed bytes, up to the digest of the payload. */
  lemma SigningBytesInjective(k: Kind, ts: u64, n: MsgNonce, d: bytes32, k': Kind, ts': u64, n': MsgNonce, d': bytes32)
    requires SigningBytes(k, ts, n, d) == SigningBytes(k', ts', n', d')
    ensures k == k' && ts == ts' && n == n' && d == d'
  {
    var x, x' := Text(KindName(k)), Text(KindName(k'));
    var m, m' := Text(RELAY_SIG_DOMAIN) + x, Text(RELAY_SIG_DOMAIN) + x';
    Pow256Widths();
    LeInjective(ts, ts', 8);
    ConcatSplit(m + Le(ts, 8) + n, d, m' + Le(ts', 8) + n', d');
    ConcatSplit(m + Le(ts, 8), n, m' + Le(ts', 8), n');
    ConcatSplit(m, Le(ts, 8), m', Le(ts', 8));
    ConcatSplit(Text(RELAY_SIG_DOMAIN), x, Text(RELAY_SIG_DOMAIN), x');
    KindNamesDistinct(k, k');
  }

  lemma KindNamesDistinct(k: Kind, k': Kind)
    requires Text(KindName(k)) == Text(KindName(k'))
    ensures k == k'
  {
    assert |KindName(k)| == |KindName(k')|;
    assert Text(KindName(k))[0] == Text(KindName(k'))[0];
  }

  datatype Signed = Signed(payload: bytes, kid: Kid, kind: Kind, ts: u64, nonce: MsgNonce, sig: bytes)

  /** The payload fields the relay looks at. */
  datatype Payload =
    | AnnounceMsg(ed25519: bytes32, x25519: bytes32, tag: Option<bytes>)
    | RequestMsg(deviceKid: Kid, ed25519: bytes32, owner: bytes, fid: FileId, nonce: MsgNonce)
    | GrantMsg(requestNonce: MsgNonce)
    | RevokeMsg(fid: FileId)
    | VersionMsg(ed25519: bytes32, owner: bytes)

  predicate OfKind(k: Kind, p: Payload) {
    match p
    case AnnounceMsg(_, _, _) => k == Announce
    case RequestMsg(_, _, _, _, _) => k == Req
    case GrantMsg(_) => k == Grant
    case RevokeMsg(_) => k == Revoke
    case VersionMsg(_, _) => k == Version
  }

  /** CBOR, SHA-256 and Ed25519 as functions. */
  datatype Wire = Wire(
    decode: bytes -> Option<Signed>,
    decodePayload: bytes -> Option<Payload>,
    sha256: bytes -> bytes32,
    verifySig: (bytes32, bytes, bytes) -> bool,
    kidOf: bytes32 -> Kid) {

    function PayloadOf(kind: Kind, b: bytes): Option<Payload> {
      match decodePayload(b)
      case Some(p) => if OfKind(kind, p) then Some(p) else None
      case None => None
    }

    /** `Signed::verify` against a key and a clock, in the order of its checks. */
    function Verify(kind: Kind, signed: Signed, key: bytes32, now: nat): Result<Payload> {
      if signed.kind != kind then Err(Malformed)
      else if |signed.payload| > MAX_BODY_LEN then Err(TooLarge)
      else if now > signed.ts + MAX_SKEW_SECS || signed.ts > now + MAX_SKEW_SECS then Err(Stale)
      else if kidOf(key) != signed.kid then Err(Unauthenticated)
      else if !verifySig(key, SigningBytes(signed.kind, signed.ts, signed.nonce, sha256(signed.payload)), signed.sig)
        then Err(Unauthenticated)
      else
        match PayloadOf(kind, signed.payload)
        case None => Err(Malformed)
        case Some(p) => Ok(p)
    }
  }

  // ---------------------------------------------------------------- what an accepted message was signed as

  /** What a device once signed. */
  datatype Record = Record(kind: Kind, ts: u64, nonce: MsgNonce, payload: bytes)

  /** Signatures under this key exist only for what its holder signed. */
  ghost predicate SignedOnly(w: Wire, key: bytes32, log: seq<Record>) {
    forall m, sig :: w.verifySig(key, m, sig) ==> InLog(w, m, log)
  }

  ghost predicate InLog(w: Wire, m: bytes, log: seq<Record>) {
    exists i :: 0 <= i < |log| && m == SigningBytes(log[i].kind, log[i].ts, log[i].nonce, w.sha256(log[i].payload))
  }

  /** A message that verifies was signed by the holder of the key as this kind, at this time, with this
      nonce and a payload of this digest. */
  lemma VerifiedWasSigned(w: Wire, kind: Kind, s: Signed, key: bytes32, now: nat, log: seq<Record>) returns (i: nat)
    requires w.Verify(kind, s, key, now).Ok? && SignedOnly(w, key, log)
    ensures i < |log| && log[i].kind == kind == s.kind && log[i].ts == s.ts && log[i].nonce == s.nonce
    ensures w.sha256(log[i].payload) == w.sha256(s.payload)
  {
    hide SigningBytes;
    var m := SigningBytes(s.kind, s.ts, s.nonce, w.sha256(s.payload));
    assert InLog(w, m, log);
    i :| 0 <= i < |log| && m == SigningBytes(log[i].kind, log[i].ts, log[i].nonce, w.sha256(log[i].payload));
    SigningBytesInjective(s.kind, s.ts, s.nonce, w.sha256(s.payload),
                          log[i].kind, log[i].ts, log[i].nonce, w.sha256(log[i].payload));
  }
}
