/** Resealing and the version chain (`crates/zbacs-core/src/container.rs`). */
module VersionChain {
  import opened Bytes
  import opened Container
  import opened ContainerProofs

  /** Who writes the next version: the owner with their own keys, or a recipient who holds the
      current DEK and wraps for the owner key found in the header. */
  datatype Author =
    | ByOwner(signer: bytes, sealingSecret: bytes, sealingPk: bytes32)
    | ByRecipient(signer: bytes, prevDek: bytes32)

  datatype Save = Save(author: Author, plain: bytes, policy: Policy, rnd: Fresh)

  /** The key the new owner envelope is wrapped to and the DEK the old name is read with. */
  function ResealKeys(s: Suite, h: Header, author: Author): Result<(bytes32, bytes32)> {
    match author
    case ByOwner(_, secret, pk) =>
      var dek :- DekFor(s, h, s.keyId(pk), secret);
      Ok((pk, dek))
    case ByRecipient(_, dek) =>
      match h.body.opub
      case None => Err(NoOwnerKey)
      case Some(pk) => Ok((pk, dek))
  }

  function NextOptions(h: Header, hh: bytes32, policy: Policy, name: bytes): SealOptions {
    SealOptions(policy, h.body.own, name, h.body.chunk, [], Some(PrevOf(h, hh)))
  }

  /** `reseal_to_path` and `reseal_as_recipient_to_path`: the header and bytes of the next version. */
  function Reseal(s: Suite, container: bytes, save: Save): Result<(Header, bytes)>
    requires |save.plain| <= U64_MAX
  {
    var (h, hh, _) :- ReadHeader(s, container);
    var keys :- ResealKeys(s, h, save.author);
    var name :- DecryptName(s, h, keys.1);
    var next :- SealHeader(s, save.plain, keys.0, save.author.signer, NextOptions(h, hh, save.policy, name), save.rnd);
    Ok((next, ContainerBytes(s, next, save.plain, save.rnd.dek, VERSION_MINOR)))
  }

  type Link = (Header, bytes32)

  /** One entry continues another. */
  ghost predicate Continues(s: Suite, a: Link, b: Link) {
    && b.0.body.ver == (a.0.body.ver + 1) % 0x1_0000_0000
    && b.0.body.prev == Some(a.1)
    && b.0.body.fid == a.0.body.fid && b.0.body.salt == a.0.body.salt
    && HeaderHash(s, b.0) == Ok(b.1)
  }

  ghost predicate WellFormed(s: Suite, chain: seq<Link>) {
    && chain != []
    && chain[0].0.body.ver == 1 && chain[0].0.body.prev == None
    && forall i :: 1 <= i < |chain| ==> Continues(s, chain[i - 1], chain[i])
  }

  /** `verify_version_chain`: accepts exactly the well-formed chains. */
  method VerifyVersionChain(s: Suite, chain: seq<Link>) returns (r: Result<()>)
    ensures r.Ok? <==> WellFormed(s, chain)
  {
    if chain == [] {
      return Err(BrokenChain);
    }
    var first := chain[0].0;
    if first.body.ver != 1 || first.body.prev.Some? {
      return Err(BrokenChain);
    }
    var prev, prevHash := first, chain[0].1;
    var i := 1;
    while i < |chain|
      invariant 1 <= i <= |chain|
      invariant (prev, prevHash) == chain[i - 1]
      invariant forall j :: 1 <= j < i ==> Continues(s, chain[j - 1], chain[j])
    {
      var (hdr, hash) := chain[i];
      var expected: u32 := (prev.body.ver + 1) % 0x1_0000_0000;
      if hdr.body.ver != expected || hdr.body.prev != Some(prevHash)
         || hdr.body.fid != prev.body.fid || hdr.body.salt != prev.body.salt {
        assert !Continues(s, chain[i - 1], chain[i]);
        return Err(BrokenChain);
      }
      var computed := HeaderHash(s, hdr);
      if computed.Err? || computed.value != hash {
        assert !Continues(s, chain[i - 1], chain[i]);
        return Err(if computed.Err? then computed.error else BrokenChain);
      }
      prev, prevHash := hdr, hash;
      i := i + 1;
    }
    r := Ok(());
  }

  /** What acceptance forces about every entry: version i + 1 (a `u32`) at place i and one identity
      throughout; and about every later entry: `prev` is the hash before it and its own hash is
      the hash of its header. The first hash is taken as given. */
  lemma {:induction false} AcceptedChain(s: Suite, chain: seq<Link>, i: nat)
    requires WellFormed(s, chain) && i < |chain|
    ensures chain[i].0.body.ver == (i + 1) % 0x1_0000_0000
    ensures chain[i].0.body.fid == chain[0].0.body.fid && chain[i].0.body.salt == chain[0].0.body.salt
    ensures i > 0 ==> chain[i].0.body.prev == Some(chain[i - 1].1) && HeaderHash(s, chain[i].0) == Ok(chain[i].1)
  {
    if i > 0 {
      hide HeaderHash;
      AcceptedChain(s, chain, i - 1);
      assert Continues(s, chain[i - 1], chain[i]);
      NextVersion(i);
    }
  }

  lemma NextVersion(i: nat)
    ensures (i % 0x1_0000_0000 + 1) % 0x1_0000_0000 == (i + 1) % 0x1_0000_0000
  {
  }

  /** The header and hash a container reads as. */
  ghost predicate ReadsAs(s: Suite, container: bytes, link: Link) {
    ReadHeader(s, container).Ok? && ReadHeader(s, container).value.0 == link.0
        && ReadHeader(s, container).value.1 == link.1
  }

  ghost predicate Written(s: Suite, before: bytes, save: Save, after: bytes) {
    && |save.plain| <= U64_MAX
    && Reseal(s, before, save).Ok?
    && Reseal(s, before, save).value.1 == after
  }

  /** A run of saves from a first container: every container written, oldest first. */
  ghost predicate Saved(s: Suite, containers: seq<bytes>, saves: seq<Save>) {
    && |containers| == |saves| + 1
    && forall i :: 0 <= i < |saves| ==> Written(s, containers[i], saves[i], containers[i + 1])
  }

  /** A reseal is a seal: to the key that was found, with the old name, identity and chunk size. */
  lemma ResealIsSeal(s: Suite, container: bytes, save: Save, last: Link) returns (z: Sealing)
    requires Sound(s) && ReadsAs(s, container, last) && |save.plain| <= U64_MAX
    requires Reseal(s, container, save).Ok?
    ensures ResealKeys(s, last.0, save.author).Ok?
    ensures var keys := ResealKeys(s, last.0, save.author).value;
            && DecryptName(s, last.0, keys.1).Ok?
            && z.opts == NextOptions(last.0, last.1, save.policy, DecryptName(s, last.0, keys.1).value)
            && z.ownerPk == keys.0 && z.signer == save.author.signer
            && z.s == s && z.plain == save.plain && z.rnd == save.rnd
    ensures z.Valid() && Readable(z.opts) && s.validUtf8(z.opts.fileName)
    ensures Reseal(s, container, save).value == (z.hdr, z.Bytes(VERSION_MINOR))
  {
    var (h, hh) := last;
    var keys := ResealKeys(s, h, save.author).value;
    var name := DecryptName(s, h, keys.1).value;
    z := Sealing(s, save.plain, keys.0, save.author.signer, NextOptions(h, hh, save.policy, name), save.rnd,
                 Reseal(s, container, save).value.0);
    NameIsText(s, h, keys.1);
    ValidHeaderFields(s, container);
  }

  /** One reseal continues the chain: next version, same identity, `prev` the hash just read, the
      name still readable under the new DEK. */
  lemma ResealContinues(s: Suite, container: bytes, save: Save, last: Link) returns (next: Link)
    requires Sound(s) && ReadsAs(s, container, last) && |save.plain| <= U64_MAX
    requires Reseal(s, container, save).Ok?
    ensures ReadsAs(s, Reseal(s, container, save).value.1, next)
    ensures Continues(s, last, next)
    ensures AeadCorrect(s) ==>
            DecryptName(s, next.0, save.rnd.dek) == DecryptName(s, last.0, ResealKeys(s, last.0, save.author).value.1)
  {
    hide Continues, Reseal, ReadsAs, ResealKeys;
    var z := ResealIsSeal(s, container, save, last);
    SealedBody(z);
    SealedName(z);
    if AeadCorrect(s) {
      CorrectDecryptsOwn(z);
    }
    ReadsBack(z);
    next := (z.hdr, z.Hash());
    ContinuesFrom(s, last, next);
  }

  lemma ContinuesFrom(s: Suite, a: Link, b: Link)
    requires b.0.body.ver == a.0.body.ver + 1 && b.0.body.prev == Some(a.1)
    requires b.0.body.fid == a.0.body.fid && b.0.body.salt == a.0.body.salt && HeaderHash(s, b.0) == Ok(b.1)
    ensures Continues(s, a, b)
  {
  }

  lemma NameIsText(s: Suite, h: Header, dek: bytes32)
    requires DecryptName(s, h, dek).Ok?
    ensures s.validUtf8(DecryptName(s, h, dek).value)
  {
  }

  lemma ValidHeaderFields(s: Suite, container: bytes)
    requires ReadHeader(s, container).Ok?
    ensures var b := ReadHeader(s, container).value.0.body; 1 <= b.ver && 1 <= |b.own| <= MAX_OWNER_LEN
  {
  }

  lemma ReadsBack(z: Sealing)
    requires z.Valid() && Readable(z.opts)
    ensures ReadsAs(z.s, z.Bytes(VERSION_MINOR), (z.hdr, z.Hash()))
    ensures HeaderHash(z.s, z.hdr) == Ok(z.Hash())
  {
    SealedEncoding(z);
    ValidateIff(z);
    BytesShape(z, VERSION_MINOR);
    ReadPrelude(z.s, z.hdr, VERSION_MINOR, Flat(z.Frames()) + z.Cipher().Trailer(Flat(z.Frames())));
  }

  lemma SavedPrefix(s: Suite, containers: seq<bytes>, saves: seq<Save>)
    requires Saved(s, containers, saves) && saves != []
    ensures Saved(s, containers[..|saves|], saves[..|saves| - 1])
    ensures Written(s, containers[|saves| - 1], saves[|saves| - 1], containers[|saves|])
  {
    var cs, ss := containers[..|saves|], saves[..|saves| - 1];
    forall i | 0 <= i < |ss|
      ensures Written(s, cs[i], ss[i], cs[i + 1])
    {
      assert Written(s, containers[i], saves[i], containers[i + 1]);
    }
  }

  lemma WellFormedSnoc(s: Suite, chain: seq<Link>, next: Link)
    requires WellFormed(s, chain) && Continues(s, chain[|chain| - 1], next)
    ensures WellFormed(s, chain + [next])
  {
    var longer := chain + [next];
    forall i | 1 <= i < |longer|
      ensures Continues(s, longer[i - 1], longer[i])
    {
      assert i < |chain| ==> Continues(s, chain[i - 1], chain[i]);
    }
  }

  /** Every container reads back as its link. */
  ghost predicate ReadAll(s: Suite, containers: seq<bytes>, chain: seq<Link>) {
    |chain| == |containers| && forall i :: 0 <= i < |chain| ==> ReadsAs(s, containers[i], chain[i])
  }

  lemma ReadAllSnoc(s: Suite, containers: seq<bytes>, n: nat, chain: seq<Link>, next: Link)
    requires |containers| == n + 1 && ReadAll(s, containers[..n], chain) && ReadsAs(s, containers[n], next)
    ensures ReadAll(s, containers, chain + [next])
  {
    hide ReadsAs;
    assert forall i :: 0 <= i < n ==> containers[..n][i] == containers[i];
  }

  /** Any sequence of saves by owner and recipients, starting from a first seal, reads back as a
      chain that verification accepts. */
  lemma {:induction false} SavesFormChain(z: Sealing, containers: seq<bytes>, saves: seq<Save>)
    returns (chain: seq<Link>)
    requires z.Valid() && Readable(z.opts) && z.opts.prev.None?
    requires Saved(z.s, containers, saves) && containers[0] == z.Bytes(VERSION_MINOR)
    ensures ReadAll(z.s, containers, chain)
    ensures WellFormed(z.s, chain)
    decreases |saves|
  {
    assert |containers| == |saves| + 1;
    if saves == [] {
      chain := FirstLink(z, containers);
    } else {
      var n := |saves| - 1;
      SavedPrefix(z.s, containers, saves);
      var before := SavesFormChain(z, containers[..n + 1], saves[..n]);
      chain := LaterLink(z.s, containers, saves[n], n, before);
    }
  }

  lemma FirstLink(z: Sealing, containers: seq<bytes>) returns (chain: seq<Link>)
    requires z.Valid() && Readable(z.opts) && z.opts.prev.None?
    requires |containers| == 1 && containers[0] == z.Bytes(VERSION_MINOR)
    ensures ReadAll(z.s, containers, chain) && WellFormed(z.s, chain)
  {
    hide ReadsAs;
    ReadsBack(z);
    SealedBody(z);
    chain := [(z.hdr, z.Hash())];
  }

  lemma LaterLink(s: Suite, containers: seq<bytes>, save: Save, n: nat, before: seq<Link>) returns (chain: seq<Link>)
    requires Sound(s) && |containers| == n + 2 && Written(s, containers[n], save, containers[n + 1])
    requires ReadAll(s, containers[..n + 1], before) && WellFormed(s, before)
    ensures ReadAll(s, containers, chain) && WellFormed(s, chain)
  {
    hide ReadsAs, WellFormed, Reseal, Sound, Continues;
    assert containers[..n + 1][n] == containers[n];
    var next := ResealContinues(s, containers[n], save, before[n]);
    WellFormedSnoc(s, before, next);
    ReadAllSnoc(s, containers, n + 1, before, next);
    chain := before + [next];
  }
}
