/** Why something is refused: what each error of the relay (`apps/relay/src/routes.rs`,
    `crates/zbacs-proto/src/signed.rs`) and of the container's reader and writer
    (`crates/zbacs-core/src/container.rs`) means, and when there is none. */
module Refusals {
  import opened Bytes
  import opened Proto
  import opened RelaySpec
  import opened RelayRuns
  import Client
  import opened Answers
  import Container
  import ContainerProofs

  // ---------------------------------------------------------------- the relay

  /** The key a post is verified against: the one it carries if it announces a device, or else the one on record. */
  function KeyFor(w: Wire, h: History, post: Post): Option<bytes32> {
    match w.decode(post.body)
    case None => None
    case Some(s) =>
      if post.path == Devices then
        (match w.decodePayload(s.payload)
         case Some(AnnounceMsg(key, _, _)) => Some(key)
         case _ => None)
      else
        match DeviceOf(h, s.kid)
        case Some(device) => Some(device.ed25519)
        case None => None
  }

  /** The message is the device's own: its key id is that of the key, and the signature is over this kind, time,
      nonce and payload. */
  ghost predicate Authentic(w: Wire, s: Signed, key: bytes32) {
    && w.kidOf(key) == s.kid
    && w.verifySig(key, SigningBytes(s.kind, s.ts, s.nonce, w.sha256(s.payload)), s.sig)
  }

  ghost predicate InSkew(s: Signed, now: Time) {
    now / SECOND <= s.ts + 120 && s.ts <= now / SECOND + 120
  }

  /** The device has calls left in the minute and in the hour. */
  ghost predicate UnderQuota(h: History, kid: Kid, now: Time) {
    CountWithin(Calls(h, kid), now, 60 * SECOND) < 30 && CountWithin(Calls(h, kid), now, 3600 * SECOND) < 300
  }

  /** The nonce was not taken within the last five minutes. */
  ghost predicate Unused(h: History, nonce: MsgNonce, now: Time) {
    LastTaken(h, nonce).None? || now - LastTaken(h, nonce).value >= 300 * SECOND
  }

  /** A message of the path's kind, of sizes that are allowed. */
  ghost predicate WellShaped(w: Wire, post: Post) {
    && |post.body| <= 65_536 && w.decode(post.body).Some?
    && var s := w.decode(post.body).value;
    && s.kind == KindOf(post.path) && |s.payload| <= 65_536
    && w.decodePayload(s.payload).Some? && OfKind(s.kind, w.decodePayload(s.payload).value)
    && var p := w.decodePayload(s.payload).value;
    (p.AnnounceMsg? && p.tag.Some? ==> |p.tag.value| <= 32)
  }

  lemma AdmittedExactly(w: Wire, h: History, post: Post)
    ensures Admitted(w, h, post).1.Ok? <==>
            && WellShaped(w, post) && KeyFor(w, h, post).Some?
            && var s := w.decode(post.body).value;
            && Authentic(w, s, KeyFor(w, h, post).value) && InSkew(s, post.verify)
            && UnderQuota(h, s.kid, post.take) && Unused(h, s.nonce, post.take)
  {
    hide SigningBytes, CountWithin, Calls, LastTaken, DeviceOf;
    if w.decode(post.body).Some? {
      var s := w.decode(post.body).value;
      CallTakesNothing(h, s.kid, post.take, s.nonce);
    }
  }

  lemma CallTakesNothing(h: History, kid: Kid, at: Time, nonce: MsgNonce)
    ensures LastTaken(h + [Called(kid, at)], nonce) == LastTaken(h, nonce)
  {
    assert Before(h + [Called(kid, at)]) == h;
  }

  /** A post is accepted exactly if it is a message of the path's kind and of allowed size, made by the device that it
      names within two minutes of the relay's clock, under quota and with a fresh nonce, and can be routed. */
  lemma AcceptedExactly(w: Wire, h: History, post: Post)
    ensures Handle(w, h, post).1.Accepted? <==>
            && WellShaped(w, post) && KeyFor(w, h, post).Some?
            && var s := w.decode(post.body).value;
            && Authentic(w, s, KeyFor(w, h, post).value) && InSkew(s, post.verify)
            && UnderQuota(h, s.kid, post.take) && Unused(h, s.nonce, post.take)
            && Client.Routable(w, h, s, w.decodePayload(s.payload).value, post)
  {
    hide Dispatch, WellShaped, Authentic, InSkew, UnderQuota, Unused, KeyFor, Admitted, Client.Routable;
    AdmittedExactly(w, h, post);
    if Admitted(w, h, post).1.Ok? {
      var (mid, r) := Admitted(w, h, post);
      var head := AdmitTail(w, h, post);
      Client.AdmittedPayload(w, h, post);
      Client.AcceptsRoutable(w, mid, r.value.0, r.value.1, post);
      Client.RoutableBefore(w, h, head, r.value.0, r.value.1, post);
      PayloadDecodes(w, KindOf(post.path), r.value.0.payload);
    }
  }

  lemma PayloadDecodes(w: Wire, kind: Kind, payload: bytes)
    ensures w.PayloadOf(kind, payload).Some? ==> w.PayloadOf(kind, payload) == w.decodePayload(payload)
  {
  }

  /** What each refusal before routing says. */
  ghost predicate Blames(w: Wire, h: History, post: Post, code: ErrorCode) {
    var s := w.decode(post.body);
    match code
    case TooLarge => |post.body| > 65_536 || (s.Some? && |s.value.payload| > 65_536)
    case Malformed => s.None? || !WellShaped(w, post)
    case UnknownDevice => post.path != Devices && s.Some? && DeviceOf(h, s.value.kid).None?
    case Stale => post.path != Devices && s.Some? && !InSkew(s.value, post.verify)
    case Unauthenticated =>
      && s.Some? && KeyFor(w, h, post).Some?
      && (!Authentic(w, s.value, KeyFor(w, h, post).value)
          || (post.path == Devices && (!WellShaped(w, post) || !InSkew(s.value, post.verify))))
    case RateLimited => s.Some? && !UnderQuota(h, s.value.kid, post.take)
    case Replayed => s.Some? && !Unused(h, s.value.nonce, post.take)
    case NotFound => false
    case Internal => false
  }

  lemma VerifyBlames(w: Wire, kind: Kind, s: Signed, key: bytes32, verify: Time)
    ensures match w.Verify(kind, s, key, Unix(verify))
            case Ok(p) => true
            case Err(code) =>
              && (code == Malformed ==> s.kind != kind || w.PayloadOf(kind, s.payload).None?)
              && (code == TooLarge ==> |s.payload| > 65_536)
              && (code == Stale ==> !InSkew(s, verify))
              && (code == Unauthenticated ==> !Authentic(w, s, key))
              && code in {Malformed, TooLarge, Stale, Unauthenticated}
  {
    hide SigningBytes;
  }

  lemma VerifyFails(w: Wire, s: Signed, key: bytes32, verify: Time, claim: Payload)
    requires w.Verify(Announce, s, key, Unix(verify)).Err? && w.PayloadOf(Announce, s.payload) == Some(claim)
    ensures s.kind != Announce || |s.payload| > 65_536 || !InSkew(s, verify) || !Authentic(w, s, key)
  {
    hide SigningBytes;
  }

  /** A refusal before routing names what was wrong. */
  lemma RefusalBeforeRouting(w: Wire, h: History, post: Post)
    requires Admitted(w, h, post).1.Err?
    ensures Handle(w, h, post).1 == Refused(Admitted(w, h, post).1.code)
    ensures Blames(w, h, post, Admitted(w, h, post).1.code)
  {
    hide SigningBytes, CountWithin, Calls, LastTaken, DeviceOf, Authentic, InSkew, Wire.Verify;
    if w.decode(post.body).Some? {
      var s := w.decode(post.body).value;
      CallTakesNothing(h, s.kid, post.take, s.nonce);
      var key := KeyFor(w, h, post);
      if key.Some? {
        VerifyBlames(w, KindOf(post.path), s, key.value, post.verify);
        if post.path == Devices && w.PayloadOf(Announce, s.payload).Some?
           && w.Verify(Announce, s, key.value, Unix(post.verify)).Err? {
          VerifyFails(w, s, key.value, post.verify, w.PayloadOf(Announce, s.payload).value);
        }
        KidDiffers(w, s, key.value);
      }
    }
  }

  lemma KidDiffers(w: Wire, s: Signed, key: bytes32)
    ensures w.kidOf(key) != s.kid ==> !Authentic(w, s, key)
  {
  }

  /** A refusal after admission: a request or a notice that is not about the device that sent it, or names no owner,
      and an answer to no request under a day old. */
  lemma RefusalInRouting(w: Wire, h: History, post: Post)
    requires Admitted(w, h, post).1.Ok? && Handle(w, h, post).1.Refused?
    ensures var (signed, p) := Admitted(w, h, post).1.value;
            var code := Handle(w, h, post).1.code;
            && code in {Unauthenticated, Malformed, NotFound}
            && (code == Unauthenticated <==>
                  || (p.RequestMsg? && (p.deviceKid != signed.kid || w.kidOf(p.ed25519) != signed.kid))
                  || (p.VersionMsg? && w.kidOf(p.ed25519) != signed.kid))
            && (code == Malformed ==> (p.RequestMsg? || p.VersionMsg?) && !(1 <= |p.owner| <= 64))
            && (code == NotFound <==> p.GrantMsg?)
  {
    hide Admitted, DeviceOf, Interested, RouteFor;
  }

  // ---------------------------------------------------------------- reading a container

  /** Whose fault it is that a header cannot be read. */
  lemma HeaderRefused(s: Container.Suite, input: bytes)
    ensures var r := Container.ReadHeader(s, input);
            var magic := |input| >= 8 && input[..6] == [0x5A, 0x42, 0x41, 0x43, 0x53, 0x00];
            var len := if |input| >= 12 then FromLe(input[8..12]) else 0;
            && (r == Container.Err(Container.BadMagic) <==> !magic)
            && (r.Err? && r.error.UnsupportedVersion? <==> magic && input[6] != 1)
            && (r == Container.Err(Container.Io) <==> magic && input[6] == 1 && |input| < 12)
            && (r.Err? && r.error.HeaderTooLarge? <==> magic && input[6] == 1 && |input| >= 12 && len > 1_048_576)
            && (r == Container.Err(Container.Truncated) <==>
                  magic && input[6] == 1 && |input| >= 12 && len <= 1_048_576 && |input| < 12 + len)
  {
    hide Container.ValidateHeader;
    if |input| >= 12 && |input| >= 12 + FromLe(input[8..12]) && FromLe(input[8..12]) <= 1_048_576 {
      var decoded := Container.DecodeVerified(s, input[12..12 + FromLe(input[8..12])]);
      if decoded.Ok? {
        FieldsRefused(decoded.value.0);
      }
    }
  }

  /** What is wrong with the fields of a header whose signature holds. */
  lemma FieldsRefused(h: Container.Header)
    ensures var r, b := Container.ValidateHeader(h), h.body;
            && (r == Container.Err(Container.UnsupportedCipher(b.cipher)) <==> b.cipher != 1)
            && (r == Container.Err(Container.BadChunkSize(b.chunk)) <==>
                  b.cipher == 1 && !(1 <= b.chunk <= 16_777_216))
            && (r.Ok? <==>
                  && b.cipher == 1 && 1 <= b.chunk <= 16_777_216 && b.ver >= 1 && (b.ver == 1 <==> b.prev.None?)
                  && 1 <= |b.own| <= 64 && 80 <= |b.name| <= 1104 && 1 <= |b.env| <= 32
                  && forall e :: e in b.env ==> |e.enc| <= 1024 && |e.ct| <= 1024)
            && (r.Err? ==> r.error.UnsupportedCipher? || r.error.BadChunkSize? || r.error == Container.HeaderDecode)
  {
  }

  /** Where the frame of chunk `to` stands, counted from that of chunk `from`, and how much plaintext is left there. */
  function FrameStart(chunk: nat, from: nat, remaining: nat, to: nat): (nat, nat)
    decreases to - from
  {
    if to <= from then (0, remaining)
    else
      var len := Min(remaining, chunk);
      var (at, left) := FrameStart(chunk, from + 1, remaining - len, to);
      (len + 16 + at, left)
  }

  /** Frame i of what is left of a stream, if it is there as a whole. */
  function FrameIn(chunk: nat, index: nat, remaining: nat, input: bytes, i: nat): Option<bytes> {
    var (at, left) := FrameStart(chunk, index, remaining, i);
    var len := Min(left, chunk) + 16;
    if 0 <= at <= at + len <= |input| then Some(input[at..at + len]) else None
  }

  /** Frame i is there and opens. */
  ghost predicate OpensAt(c: Container.Cipher, chunk: nat, index: nat, remaining: nat, input: bytes, i: nat)
    requires i < c.total
  {
    var f := FrameIn(chunk, index, remaining, input, i);
    f.Some? && c.Open(i, f.value).Some?
  }

  /** Frame i is the first that does not open, and it is there as a whole. */
  ghost predicate FailsAt(c: Container.Cipher, chunk: nat, index: nat, remaining: nat, input: bytes, i: nat) {
    && index <= i < c.total && FrameIn(chunk, index, remaining, input, i).Some?
    && (forall k :: index <= k < i ==> OpensAt(c, chunk, index, remaining, input, k))
    && !OpensAt(c, chunk, index, remaining, input, i)
  }

  /** Behind the first frame the others stand where they stand in the rest. */
  lemma FrameBehind(chunk: nat, index: nat, remaining: nat, input: bytes, i: nat)
    requires index < i && Min(remaining, chunk) + 16 <= |input|
    ensures var want := Min(remaining, chunk) + 16;
            FrameIn(chunk, index, remaining, input, i)
            == FrameIn(chunk, index + 1, remaining - (want - 16), input[want..], i)
  {
    var want := Min(remaining, chunk) + 16;
    var (at, left) := FrameStart(chunk, index + 1, remaining - (want - 16), i);
    var len := Min(left, chunk) + 16;
    assert FrameStart(chunk, index, remaining, i) == (want + at, left);
    if at + len <= |input| - want {
      assert input[want..][at..at + len] == input[want + at..want + at + len];
    }
  }

  lemma FirstFrame(chunk: nat, index: nat, remaining: nat, input: bytes)
    ensures var want := Min(remaining, chunk) + 16;
            FrameIn(chunk, index, remaining, input, index) == if want <= |input| then Some(input[..want]) else None
  {
  }

  lemma FailsLater(c: Container.Cipher, chunk: nat, index: nat, remaining: nat, input: bytes, i: nat)
    requires index < c.total && Min(remaining, chunk) + 16 <= |input|
    requires c.Open(index, input[..Min(remaining, chunk) + 16]).Some?
    ensures var want := Min(remaining, chunk) + 16;
            FailsAt(c, chunk, index, remaining, input, i)
            <==> FailsAt(c, chunk, index + 1, remaining - (want - 16), input[want..], i)
  {
    hide FrameIn;
    FirstFrame(chunk, index, remaining, input);
    var want := Min(remaining, chunk) + 16;
    var next, left, rest := index + 1, remaining - (want - 16), input[want..];
    forall k: nat | index < k < c.total
      ensures FrameIn(chunk, index, remaining, input, k) == FrameIn(chunk, next, left, rest, k)
      ensures OpensAt(c, chunk, index, remaining, input, k) <==> OpensAt(c, chunk, next, left, rest, k)
    {
      FrameBehind(chunk, index, remaining, input, k);
    }
    assert OpensAt(c, chunk, index, remaining, input, index);
    if FailsAt(c, chunk, index, remaining, input, i) {
      forall k | index < k < i
        ensures OpensAt(c, chunk, next, left, rest, k)
      {
        assert OpensAt(c, chunk, index, remaining, input, k);
      }
    }
    if FailsAt(c, chunk, next, left, rest, i) {
      forall k | index <= k < i
        ensures OpensAt(c, chunk, index, remaining, input, k)
      {
        assert k > index ==> OpensAt(c, chunk, next, left, rest, k);
      }
    }
  }

  lemma FailsFirst(c: Container.Cipher, chunk: nat, index: nat, remaining: nat, input: bytes, i: nat)
    requires index < c.total
    ensures Min(remaining, chunk) + 16 > |input| ==> !FailsAt(c, chunk, index, remaining, input, i)
    ensures Min(remaining, chunk) + 16 <= |input| && c.Open(index, input[..Min(remaining, chunk) + 16]).None? ==>
              (FailsAt(c, chunk, index, remaining, input, i) <==> i == index)
  {
    hide FrameIn;
    FirstFrame(chunk, index, remaining, input);
    if FailsAt(c, chunk, index, remaining, input, i) && i > index {
      assert OpensAt(c, chunk, index, remaining, input, index);
    }
  }

  /** A stream fails as ChunkAuth(i) exactly if frame i is there as a whole and is the first that does not open; any
      other failure, by length or by trailer, is called truncated. */
  lemma {:induction false} StreamRefused(c: Container.Cipher, chunk: nat, index: nat, remaining: nat, seen: bytes,
                                         input: bytes, i: nat)
    requires index <= c.total
    ensures var r := Container.ReadFrom(c, chunk, index, remaining, seen, input).result;
            && (r.Err? ==> r.error == Container.Truncated || r.error.ChunkAuth?)
            && (r == Container.Err(Container.ChunkAuth(i)) <==> FailsAt(c, chunk, index, remaining, input, i))
    decreases c.total - index
  {
    hide FailsAt;
    var want := Min(remaining, chunk) + 16;
    if index < c.total {
      FailsFirst(c, chunk, index, remaining, input, i);
      if |input| >= want && c.Open(index, input[..want]).Some? {
        StreamRefused(c, chunk, index + 1, remaining - (want - 16), seen + input[..want], input[want..], i);
        FailsLater(c, chunk, index, remaining, input, i);
      }
    } else {
      NoFrames(c, chunk, index, remaining, input, i);
    }
  }

  lemma NoFrames(c: Container.Cipher, chunk: nat, index: nat, remaining: nat, input: bytes, i: nat)
    requires index == c.total
    ensures !FailsAt(c, chunk, index, remaining, input, i)
  {
  }

  // ---------------------------------------------------------------- sealing

  /** Why sealing refuses: a chunk size out of range, a name that is too long or no version number left, a recipient
      the file key cannot be wrapped for, or a header that comes out too large. */
  lemma SealRefused(s: Container.Suite, plain: bytes, ownerPk: bytes32, signer: bytes, opts: Container.SealOptions,
                    rnd: Container.Fresh)
    requires |plain| <= U64_MAX
    ensures var r := Container.SealHeader(s, plain, ownerPk, signer, opts, rnd);
            var sized := 1 <= opts.chunkSize <= 16_777_216;
            var fid := if opts.prev.Some? then opts.prev.value.fileId else s.sha256(s.sha256(plain) + rnd.salt);
            var wrapped := Container.WrapAll(s, [ownerPk] + opts.extraRecipients, rnd.dek, fid).Ok?;
            && (r == Container.Err(Container.BadChunkSize(opts.chunkSize)) <==> !sized)
            && (r == Container.Err(Container.HeaderEncode) <==>
                  sized && (|opts.fileName| > 1024
                            || (wrapped && opts.prev.Some? && opts.prev.value.version == 0xFFFF_FFFF)))
            && (r == Container.Err(Container.EnvelopeSeal) <==> sized && |opts.fileName| <= 1024 && !wrapped)
            && (r.Err? ==> r.error.BadChunkSize? || r.error == Container.HeaderEncode
                           || r.error == Container.EnvelopeSeal || r.error.HeaderTooLarge?)
  {
    WrapFails(s, [ownerPk] + opts.extraRecipients, rnd.dek,
              if opts.prev.Some? then opts.prev.value.fileId else s.sha256(s.sha256(plain) + rnd.salt));
  }

  lemma {:induction false} WrapFails(s: Container.Suite, pks: seq<bytes>, dek: bytes32, fid: bytes32)
    ensures var r := Container.WrapAll(s, pks, dek, fid);
            && (r.Err? ==> r.error == Container.EnvelopeSeal)
            && (r.Ok? <==> forall pk :: pk in pks ==> s.wrap(pk, dek, fid).Some?)
  {
    if pks != [] {
      WrapFails(s, pks[1..], dek, fid);
      assert forall pk :: pk in pks <==> pk == pks[0] || pk in pks[1..];
    }
  }
}
