/** Who can open what is sealed: the devices it was sealed for, with their own keys, over any number of saves
    (`seal`, `open` and the reseals in `crates/zbacs-core/src/container.rs`). */
module Recipients {
  import opened Bytes
  import opened Container
  import opened ContainerProofs
  import opened VersionChain
  import Layout

  /** A wrapped key names its recipient. */
  ghost predicate Addressed(s: Suite) {
    forall pk, key, aad :: s.wrap(pk, key, aad).Some? ==> s.wrap(pk, key, aad).value.kid == s.keyId(pk)
  }

  /** What is wrapped for this public key this secret unwraps, in the same context. */
  ghost predicate Opens(s: Suite, pk: bytes, secret: bytes) {
    forall key, aad :: s.wrap(pk, key, aad).Some? ==> s.unwrap(secret, s.wrap(pk, key, aad).value, aad) == Some(key)
  }

  function RecipientsOf(z: Sealing): seq<bytes> {
    [z.ownerPk] + z.opts.extraRecipients
  }

  /** No other recipient shares this one's key id. */
  ghost predicate OwnId(s: Suite, pks: seq<bytes>, pk: bytes) {
    forall q :: q in pks && s.keyId(q) == s.keyId(pk) ==> q == pk
  }

  // ---------------------------------------------------------------- one seal

  lemma {:induction false} EnvelopeFound(s: Suite, pks: seq<bytes>, dek: bytes32, fid: bytes32, pk: bytes)
    requires Addressed(s) && WrapAll(s, pks, dek, fid).Ok? && pk in pks && OwnId(s, pks, pk)
    ensures s.wrap(pk, dek, fid).Some?
    ensures FindEnvelope(WrapAll(s, pks, dek, fid).value, s.keyId(pk)) == Some(s.wrap(pk, dek, fid).value)
  {
    var rest := WrapAll(s, pks[1..], dek, fid).value;
    assert WrapAll(s, pks, dek, fid).value[1..] == rest;
    assert pks[0] in pks;
    if pks[0] != pk {
      assert forall q :: q in pks[1..] ==> q in pks;
      EnvelopeFound(s, pks[1..], dek, fid, pk);
    }
  }

  lemma {:induction false} NoEnvelopeFound(s: Suite, pks: seq<bytes>, dek: bytes32, fid: bytes32, kid: bytes)
    requires Addressed(s) && WrapAll(s, pks, dek, fid).Ok? && forall q :: q in pks ==> s.keyId(q) != kid
    ensures FindEnvelope(WrapAll(s, pks, dek, fid).value, kid) == None
  {
    if pks != [] {
      var rest := WrapAll(s, pks[1..], dek, fid).value;
      assert WrapAll(s, pks, dek, fid).value[1..] == rest;
      NoEnvelopeFound(s, pks[1..], dek, fid, kid);
    }
  }

  lemma SealedEnvelopes(z: Sealing)
    requires z.Valid()
    ensures WrapAll(z.s, RecipientsOf(z), z.rnd.dek, z.hdr.body.fid) == Result.Ok(z.hdr.body.env)
  {
  }

  /** The envelopes of a sealed file carry its key: each recipient finds it, and nobody else an envelope. */
  lemma SealedKeyFor(z: Sealing, kid: bytes, secret: bytes)
    requires z.Valid() && Addressed(z.s)
    ensures forall pk :: pk in RecipientsOf(z) && OwnId(z.s, RecipientsOf(z), pk) && Opens(z.s, pk, secret) ==>
              DekFor(z.s, z.hdr, z.s.keyId(pk), secret) == Result.Ok(z.rnd.dek)
    ensures (forall pk :: pk in RecipientsOf(z) ==> z.s.keyId(pk) != kid) ==>
              DekFor(z.s, z.hdr, kid, secret) == Err(NoEnvelope)
  {
    hide SealHeader, WrapAll, FindEnvelope;
    SealedEnvelopes(z);
    forall pk | pk in RecipientsOf(z) && OwnId(z.s, RecipientsOf(z), pk) && Opens(z.s, pk, secret)
      ensures DekFor(z.s, z.hdr, z.s.keyId(pk), secret) == Result.Ok(z.rnd.dek)
    {
      EnvelopeFound(z.s, RecipientsOf(z), z.rnd.dek, z.hdr.body.fid, pk);
    }
    if forall pk :: pk in RecipientsOf(z) ==> z.s.keyId(pk) != kid {
      NoEnvelopeFound(z.s, RecipientsOf(z), z.rnd.dek, z.hdr.body.fid, kid);
    }
  }

  /** With their own keys the owner and every extra recipient open a sealed file to its plaintext and name. */
  lemma RecipientOpens(z: Sealing, minor: byte, pk: bytes, secret: bytes)
    requires z.Valid() && Readable(z.opts) && z.s.validUtf8(z.opts.fileName) && AeadCorrect(z.s) && Addressed(z.s)
    requires pk in RecipientsOf(z) && OwnId(z.s, RecipientsOf(z), pk) && Opens(z.s, pk, secret)
    ensures OpenFor(z.s, z.Bytes(minor), z.s.keyId(pk), secret)
         == Run(Result.Ok(Opened(z.hdr, z.Hash(), z.opts.fileName)), z.plain)
  {
    hide ReadHeader, OpenWithDek, DekFor, Opens, OwnId, Addressed;
    CorrectDecryptsOwn(z);
    SealedKeyFor(z, [], secret);
    ReadsSealedHeader(z, minor);
    SealOpenRoundTrip(z, minor);
  }

  /** A device that was not named finds no envelope, and nothing is written. */
  lemma StrangerFindsNoEnvelope(z: Sealing, minor: byte, kid: bytes, secret: bytes)
    requires z.Valid() && Readable(z.opts) && Addressed(z.s)
    requires forall pk :: pk in RecipientsOf(z) ==> z.s.keyId(pk) != kid
    ensures OpenFor(z.s, z.Bytes(minor), kid, secret) == Run(Err(NoEnvelope), [])
  {
    hide ReadHeader, OpenWithDek, DekFor, Addressed;
    SealedKeyFor(z, kid, secret);
    ReadsSealedHeader(z, minor);
  }

  /** The key of one seal opens no container with another header, so a key that was handed out stops working
      with the next version. */
  lemma OldKeyStopsWorking(z: Sealing, later: bytes)
    requires z.Valid() && z.DecryptsOwn() && z.Ideal() && Readable(z.opts)
    requires ReadHeader(z.s, later).Ok? && ReadHeader(z.s, later).value.0 != z.hdr
    ensures OpenBytes(z.s, later, z.rnd.dek).result.Err?
    ensures ChunkPrefix(z.Chunks(), OpenBytes(z.s, later, z.rnd.dek).written)
  {
    hide ReadHeader, OpenBytes, Flat;
    forall minor
      ensures later != z.Bytes(minor)
    {
      ReadsSealedHeader(z, minor);
    }
    var k := MutantRejected(z, later);
  }

  // ---------------------------------------------------------------- any number of saves

  /** A save by the owner with the owner's keys, or by a recipient who holds the current file key. */
  ghost predicate MayResave(save: Save, pk: bytes32, secret: bytes, current: bytes32) {
    match save.author
    case ByOwner(_, sealingSecret, sealingPk) => sealingSecret == secret && sealingPk == pk
    case ByRecipient(_, prevDek) => prevDek == current
  }

  /** This container opens for the owner to this plaintext and name; its header names the owner's key, which
      finds this file key. */
  ghost predicate OpensFor(s: Suite, container: bytes, pk: bytes32, secret: bytes, plain: bytes, name: bytes,
                           dek: bytes32) {
    var run := OpenFor(s, container, s.keyId(pk), secret);
    && run.result.Ok? && run.written == plain && run.result.value.fileName == name
    && ReadHeader(s, container).Ok? && var h := ReadHeader(s, container).value.0;
    && h.body.opub == Some(pk) && DekFor(s, h, s.keyId(pk), secret) == Result.Ok(dek)
    && DecryptName(s, h, dek) == Result.Ok(name)
  }

  lemma SealOpensForOwner(z: Sealing, secret: bytes)
    requires z.Valid() && Readable(z.opts) && z.s.validUtf8(z.opts.fileName) && AeadCorrect(z.s) && Addressed(z.s)
    requires OwnId(z.s, RecipientsOf(z), z.ownerPk) && Opens(z.s, z.ownerPk, secret)
    ensures OpensFor(z.s, z.Bytes(VERSION_MINOR), z.ownerPk, secret, z.plain, z.opts.fileName, z.rnd.dek)
  {
    hide ReadHeader, OpenFor, DekFor, Opens, OwnId, Addressed, DecryptName, SealHeader;
    assert z.ownerPk in RecipientsOf(z);
    CorrectDecryptsOwn(z);
    RecipientOpens(z, VERSION_MINOR, z.ownerPk, secret);
    SealedKeyFor(z, [], secret);
    ReadsSealedHeader(z, VERSION_MINOR);
    SealedName(z);
    SealedForOwner(z);
  }

  lemma SealedForOwner(z: Sealing)
    requires z.Valid()
    ensures z.hdr.body.opub == Some(z.ownerPk)
  {
  }

  lemma ResaveOpensForOwner(s: Suite, container: bytes, save: Save, pk: bytes32, secret: bytes, plain: bytes,
                            name: bytes, dek: bytes32)
    requires Sound(s) && AeadCorrect(s) && Addressed(s) && Opens(s, pk, secret)
    requires OpensFor(s, container, pk, secret, plain, name, dek) && MayResave(save, pk, secret, dek)
    requires |save.plain| <= U64_MAX && Reseal(s, container, save).Ok?
    ensures OpensFor(s, Reseal(s, container, save).value.1, pk, secret, save.plain, name, save.rnd.dek)
  {
    hide ReadHeader, OpenFor, DekFor, Opens, Addressed, DecryptName, Sound, Reseal;
    var (h, hh, _) := ReadHeader(s, container).value;
    var z := ResealIsSeal(s, container, save, (h, hh));
    assert RecipientsOf(z) == [pk];
    SealOpensForOwner(z, secret);
  }

  /** The header of the next version says: by whom it was written, the policy of this save, the length of what was
      saved; and, as before, the owner's account and the chunk size. */
  lemma ResaveSays(s: Suite, container: bytes, save: Save)
    requires Sound(s) && ReadHeader(s, container).Ok? && |save.plain| <= U64_MAX && Reseal(s, container, save).Ok?
    ensures var before, after := ReadHeader(s, container).value.0, Reseal(s, container, save).value.0;
            && after.sigk == s.publicOf(save.author.signer)
            && after.body.pol == save.policy && after.body.plen == |save.plain|
            && after.body.own == before.body.own && after.body.chunk == before.body.chunk
            && after.body.opub == (match save.author
                                   case ByOwner(_, _, pk) => Some(pk)
                                   case ByRecipient(_, _) => before.body.opub)
  {
    hide ReadHeader, Sound, Reseal;
    var (h, hh, _) := ReadHeader(s, container).value;
    var z := ResealIsSeal(s, container, save, (h, hh));
    SealedBody(z);
    Layout.HeaderFields(z);
  }

  function PlainAt(first: bytes, saves: seq<Save>, i: nat): bytes
    requires i <= |saves|
  {
    if i == 0 then first else saves[i - 1].plain
  }

  function DekAt(first: bytes32, saves: seq<Save>, i: nat): bytes32
    requires i <= |saves|
  {
    if i == 0 then first else saves[i - 1].rnd.dek
  }

  /** Through any run of saves, by the owner and by recipients who never saw the owner's secret, the owner
      opens every version to exactly what was saved in it, under the first name. */
  lemma {:induction false} EveryVersionOpensForOwner(z: Sealing, containers: seq<bytes>, saves: seq<Save>,
                                                     secret: bytes, i: nat)
    requires z.Valid() && Readable(z.opts) && z.s.validUtf8(z.opts.fileName) && AeadCorrect(z.s) && Addressed(z.s)
    requires OwnId(z.s, RecipientsOf(z), z.ownerPk) && Opens(z.s, z.ownerPk, secret)
    requires Saved(z.s, containers, saves) && containers[0] == z.Bytes(VERSION_MINOR) && i <= |saves|
    requires forall k :: 0 <= k < |saves| ==> MayResave(saves[k], z.ownerPk, secret, DekAt(z.rnd.dek, saves, k))
    ensures OpensFor(z.s, containers[i], z.ownerPk, secret, PlainAt(z.plain, saves, i), z.opts.fileName,
                     DekAt(z.rnd.dek, saves, i))
    decreases i
  {
    hide OpensFor, Opens, Addressed, Reseal, MayResave, Sealing.Bytes;
    if i == 0 {
      SealOpensForOwner(z, secret);
    } else {
      EveryVersionOpensForOwner(z, containers, saves, secret, i - 1);
      assert Written(z.s, containers[i - 1], saves[i - 1], containers[i]);
      ResaveOpensForOwner(z.s, containers[i - 1], saves[i - 1], z.ownerPk, secret, PlainAt(z.plain, saves, i - 1),
                          z.opts.fileName, DekAt(z.rnd.dek, saves, i - 1));
    }
  }
}
