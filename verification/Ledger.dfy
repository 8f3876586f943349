/** The owner's record on this machine (`apps/agent/src-tauri/src/ledger.rs`) and the version notices
    taken into it (`apply_version`, `apps/agent/src-tauri/src/approve.rs`). Every operation loads the
    whole file, changes it and stores it whole; hex keys are the bytes they stand for. */
module Ledger {
  import opened Bytes

  type Fid = bytes32
  type Hash = bytes32
  type GrantId = bytes32

  datatype Entry = Entry(
    headerHash: Hash, ver: u32, ownerEnvelope: Option<bytes>, name: string, ttl: u64, maxOpens: u16)

  datatype Grant = Grant(fid: Fid, expiry: u64, grantedAt: u64, revokedAt: Option<u64>, revokeTx: Option<bytes32>)

  datatype Bump = Bump(fid: Fid, headerHash: Hash)

  /** The stored file. */
  datatype File = File(
    grantNonce: u64, files: map<Fid, Entry>, grants: map<GrantId, Grant>, chainCursor: Option<nat>,
    deferredBumps: seq<Bump>)

  const EMPTY := File(0, map[], map[], None, [])

  /** Whether the disk lets this operation read the file and replace it. */
  datatype Io = Io(loads: bool, stores: bool)

  datatype Error = Unreadable | Unwritable | UnknownFile | NotTheNextVersion | UnknownGrant

  datatype Reply = Done | EntryIs(entry: Entry) | GrantIs(grant: Grant) | NonceIs(nonce: u64) | Refused(error: Error)

  /** A recipient's notice that it wrote a new version, as far as the record uses it. */
  datatype Notice = Notice(grantId: GrantId, fid: Fid, prev: Hash, headerHash: Hash, ver: u32, ownerEnvelope: bytes)

  datatype Op =
    | Lock(fid: Fid, entry: Entry)
    | Give(id: GrantId, grant: Grant)
    | PullBack(id: GrantId, now: u64, tx: Option<bytes32>)
    | Take(notice: Notice)
    | SetCursor(nextBlock: nat)
    | Defer(bump: Bump)
    | Clear(landed: seq<Bump>)
    | TakeNonce

  /** Drop from the queue what the predicate does not keep (`retain`). */
  function Retain(bumps: seq<Bump>, keep: Bump -> bool): (r: seq<Bump>)
    ensures forall b :: b in r <==> b in bumps && keep(b)
    ensures |r| <= |bumps|
  {
    if bumps == [] then []
    else (if keep(bumps[0]) then [bumps[0]] else []) + Retain(bumps[1..], keep)
  }

  /** A notice is taken only for a grant recorded for its file, and only as the next version of
      what the record knows. */
  function Next(file: File, n: Notice): Reply {
    if n.grantId !in file.grants || file.grants[n.grantId].fid != n.fid then Refused(UnknownGrant)
    else if n.fid !in file.files then Refused(UnknownFile)
    else
      var entry := file.files[n.fid];
      if entry.headerHash != n.prev || n.ver != (entry.ver + 1) % 0x1_0000_0000 then Refused(NotTheNextVersion)
      else EntryIs(entry.(headerHash := n.headerHash, ver := n.ver, ownerEnvelope := Some(n.ownerEnvelope)))
  }

  /** The file an operation wants to store, and its reply. */
  function Change(file: File, op: Op): (File, Reply) {
    match op
    case Lock(fid, entry) => (file.(files := file.files[fid := entry]), Done)
    case Give(id, grant) => (file.(grants := file.grants[id := grant]), Done)
    case PullBack(id, now, tx) =>
      if id !in file.grants then (file, Refused(UnknownGrant))
      else
        var g := file.grants[id];
        var pulled := g.(revokedAt := if g.revokedAt.None? then Some(now) else g.revokedAt,
                         revokeTx := if tx.Some? then tx else g.revokeTx);
        (file.(grants := file.grants[id := pulled]), GrantIs(pulled))
    case Take(n) =>
      var reply := Next(file, n);
      (if reply.EntryIs? then file.(files := file.files[n.fid := reply.entry]) else file, reply)
    case SetCursor(nextBlock) => (file.(chainCursor := Some(nextBlock)), Done)
    case Defer(bump) =>
      (file.(deferredBumps := Retain(file.deferredBumps, (b: Bump) => b.fid != bump.fid) + [bump]), Done)
    case Clear(landed) => (file.(deferredBumps := Retain(file.deferredBumps, (b: Bump) => b !in landed)), Done)
    case TakeNonce =>
      (file.(grantNonce := (file.grantNonce + 1) % 0x1_0000_0000_0000_0000), NonceIs(file.grantNonce))
  }

  /** One operation on a disk that may fail: either all of the change is stored or none of it. */
  function Do(file: File, op: Op, io: Io): (File, Reply) {
    if !io.loads then (file, Refused(if op.Take? then UnknownGrant else Unreadable))
    else
      var (next, reply) := Change(file, op);
      if reply.Refused? then (file, reply)
      else if !io.stores then (file, Refused(Unwritable))
      else (next, reply)
  }

  /** The record on disk. */
  class Ledger {
    var disk: File

    constructor ()
      ensures disk == EMPTY
    {
      disk := EMPTY;
    }

    method Load(io: Io) returns (r: Option<File>)
      ensures r == if io.loads then Some(disk) else None
    {
      r := if io.loads then Some(disk) else None;
    }

    /** Written beside, then renamed. */
    method Store(file: File, io: Io) returns (ok: bool)
      modifies this
      ensures ok == io.stores && disk == if ok then file else old(disk)
    {
      if io.stores {
        disk := file;
      }
      ok := io.stores;
    }

    method Record(fid: Fid, entry: Entry, io: Io) returns (r: Reply)
      modifies this
      ensures (disk, r) == Do(old(disk), Lock(fid, entry), io)
    {
      var loaded := Load(io);
      if loaded.None? {
        return Refused(Unreadable);
      }
      var file := loaded.value;
      file := file.(files := file.files[fid := entry]);
      var ok := Store(file, io);
      r := if ok then Done else Refused(Unwritable);
    }

    method RecordGrant(id: GrantId, grant: Grant, io: Io) returns (r: Reply)
      modifies this
      ensures (disk, r) == Do(old(disk), Give(id, grant), io)
    {
      var loaded := Load(io);
      if loaded.None? {
        return Refused(Unreadable);
      }
      var file := loaded.value;
      file := file.(grants := file.grants[id := grant]);
      var ok := Store(file, io);
      r := if ok then Done else Refused(Unwritable);
    }

    method MarkRevoked(id: GrantId, now: u64, revokeTx: Option<bytes32>, io: Io) returns (r: Reply)
      modifies this
      ensures (disk, r) == Do(old(disk), PullBack(id, now, revokeTx), io)
    {
      var loaded := Load(io);
      if loaded.None? {
        return Refused(Unreadable);
      }
      var file := loaded.value;
      if id !in file.grants {
        return Refused(UnknownGrant);
      }
      var grant := file.grants[id];
      if grant.revokedAt.None? {
        grant := grant.(revokedAt := Some(now));
      }
      if revokeTx.Some? {
        grant := grant.(revokeTx := revokeTx);
      }
      file := file.(grants := file.grants[id := grant]);
      var ok := Store(file, io);
      r := if ok then GrantIs(grant) else Refused(Unwritable);
    }

    /** `apply_version`: the grant is looked up first, then `advance_version` moves the record. Both
        read the file; they meet the same disk. */
    method ApplyVersion(notice: Notice, io: Io) returns (r: Reply)
      modifies this
      ensures (disk, r) == Do(old(disk), Take(notice), io)
    {
      var loaded := Load(io);
      if loaded.None? || notice.grantId !in loaded.value.grants {
        return Refused(UnknownGrant);
      }
      if loaded.value.grants[notice.grantId].fid != notice.fid {
        return Refused(UnknownGrant);
      }
      r := AdvanceVersion(notice.fid, notice.prev, notice.headerHash, notice.ver, notice.ownerEnvelope, io);
    }

    method AdvanceVersion(fid: Fid, prev: Hash, next: Hash, ver: u32, ownerEnvelope: bytes, io: Io) returns (r: Reply)
      modifies this
      ensures r.EntryIs? <==>
              && io.loads && io.stores && fid in old(disk).files
              && old(disk).files[fid].headerHash == prev && ver == (old(disk).files[fid].ver + 1) % 0x1_0000_0000
      ensures r.EntryIs? ==>
              && r.entry == old(disk).files[fid].(headerHash := next, ver := ver, ownerEnvelope := Some(ownerEnvelope))
              && disk == old(disk).(files := old(disk).files[fid := r.entry])
      ensures !r.EntryIs? ==> disk == old(disk)
      ensures !r.EntryIs? ==> r == Refused(
                if !io.loads then Unreadable
                else if fid !in old(disk).files then UnknownFile
                else if old(disk).files[fid].headerHash != prev || ver != (old(disk).files[fid].ver + 1) % 0x1_0000_0000
                  then NotTheNextVersion
                else Unwritable)
    {
      var loaded := Load(io);
      if loaded.None? {
        return Refused(Unreadable);
      }
      var file := loaded.value;
      if fid !in file.files {
        return Refused(UnknownFile);
      }
      var entry := file.files[fid];
      if entry.headerHash != prev || ver != (entry.ver + 1) % 0x1_0000_0000 {
        return Refused(NotTheNextVersion);
      }
      entry := entry.(headerHash := next);
      entry := entry.(ver := ver);
      entry := entry.(ownerEnvelope := Some(ownerEnvelope));
      file := file.(files := file.files[fid := entry]);
      var ok := Store(file, io);
      r := if ok then EntryIs(entry) else Refused(Unwritable);
    }

    /** A record that cannot be read holds nothing. */
    method Find(fid: Fid, io: Io) returns (entry: Option<Entry>)
      ensures entry == if io.loads && fid in disk.files then Some(disk.files[fid]) else None
    {
      var loaded := Load(io);
      entry := if loaded.Some? && fid in loaded.value.files then Some(loaded.value.files[fid]) else None;
    }

    /** A cursor that cannot be read counts as none. */
    method ChainCursor(io: Io) returns (next: Option<nat>)
      ensures next == if io.loads then disk.chainCursor else None
    {
      var loaded := Load(io);
      next := if loaded.Some? then loaded.value.chainCursor else None;
    }

    method SetChainCursor(nextBlock: nat, io: Io) returns (r: Reply)
      modifies this
      ensures (disk, r) == Do(old(disk), SetCursor(nextBlock), io)
    {
      var loaded := Load(io);
      if loaded.None? {
        return Refused(Unreadable);
      }
      var ok := Store(loaded.value.(chainCursor := Some(nextBlock)), io);
      r := if ok then Done else Refused(Unwritable);
    }

    method DeferBump(bump: Bump, io: Io) returns (r: Reply)
      modifies this
      ensures (disk, r) == Do(old(disk), Defer(bump), io)
    {
      var loaded := Load(io);
      if loaded.None? {
        return Refused(Unreadable);
      }
      var file := loaded.value;
      file := file.(deferredBumps := Retain(file.deferredBumps, (b: Bump) => b.fid != bump.fid));
      file := file.(deferredBumps := file.deferredBumps + [bump]);
      var ok := Store(file, io);
      r := if ok then Done else Refused(Unwritable);
    }

    /** A queue that cannot be read counts as empty. */
    method DeferredBumps(io: Io) returns (bumps: seq<Bump>)
      ensures bumps == if io.loads then disk.deferredBumps else []
    {
      var loaded := Load(io);
      bumps := if loaded.Some? then loaded.value.deferredBumps else [];
    }

    method ClearDeferredBumps(landed: seq<Bump>, io: Io) returns (r: Reply)
      modifies this
      ensures (disk, r) == Do(old(disk), Clear(landed), io)
    {
      var loaded := Load(io);
      if loaded.None? {
        return Refused(Unreadable);
      }
      var file := loaded.value;
      file := file.(deferredBumps := Retain(file.deferredBumps, (b: Bump) => b !in landed));
      var ok := Store(file, io);
      r := if ok then Done else Refused(Unwritable);
    }

    method NextGrantNonce(io: Io) returns (r: Reply)
      modifies this
      ensures (disk, r) == Do(old(disk), TakeNonce, io)
    {
      var loaded := Load(io);
      if loaded.None? {
        return Refused(Unreadable);
      }
      var file := loaded.value;
      var n := file.grantNonce;
      file := file.(grantNonce := (file.grantNonce + 1) % 0x1_0000_0000_0000_0000);
      var ok := Store(file, io);
      r := if ok then NonceIs(n) else Refused(Unwritable);
    }
  }

  // ---------------------------------------------------------------- whole runs

  type Ops = seq<(Op, Io)>

  function Run(start: File, ops: Ops): File {
    if ops == [] then start
    else Do(Run(start, ops[..|ops| - 1]), ops[|ops| - 1].0, ops[|ops| - 1].1).0
  }

  function ReplyAt(start: File, ops: Ops, i: nat): Reply
    requires i < |ops|
  {
    Do(Run(start, ops[..i]), ops[i].0, ops[i].1).1
  }

  /** The notices about one file that were taken, in order. */
  function Taken(start: File, ops: Ops, f: Fid): (t: seq<Notice>)
    ensures forall i :: 0 <= i < |t| ==> t[i].fid == f
  {
    if ops == [] then []
    else
      var n := |ops| - 1;
      var before := Taken(start, ops[..n], f);
      if ops[n].0.Take? && ops[n].0.notice.fid == f && ReplyAt(start, ops, n).EntryIs? then before + [ops[n].0.notice]
      else before
  }

  predicate NotRelocked(ops: Ops, f: Fid) {
    forall i :: 0 <= i < |ops| ==> !(ops[i].0.Lock? && ops[i].0.fid == f)
  }

  /** The owner gave this grant for this file at some point. */
  ghost predicate GivenFor(start: File, ops: Ops, id: GrantId, f: Fid) {
    || (id in start.grants && start.grants[id].fid == f)
    || exists i :: 0 <= i < |ops| && ops[i].0.Give? && ops[i].0.id == id && ops[i].0.grant.fid == f
  }

  function EntryAfter(first: Entry, taken: seq<Notice>): Entry {
    if taken == [] then first
    else
      var last := taken[|taken| - 1];
      first.(headerHash := last.headerHash, ver := last.ver, ownerEnvelope := Some(last.ownerEnvelope))
  }

  /** Each notice continues from the one before it, one version later. */
  ghost predicate Links(first: Entry, taken: seq<Notice>) {
    forall i :: 0 <= i < |taken| ==> LinkAt(first, taken, i)
  }

  ghost predicate LinkAt(first: Entry, taken: seq<Notice>, i: nat)
    requires i < |taken|
  {
    && taken[i].prev == (if i == 0 then first.headerHash else taken[i - 1].headerHash)
    && taken[i].ver == (first.ver + 1 + i) % 0x1_0000_0000
  }

  lemma OtherOpsKeepEntry(file: File, op: Op, io: Io, f: Fid)
    requires f in file.files
    requires !(op.Lock? && op.fid == f) && !(op.Take? && op.notice.fid == f)
    ensures f in Do(file, op, io).0.files && Do(file, op, io).0.files[f] == file.files[f]
  {
  }

  lemma VerStep(v: nat, k: nat)
    ensures ((v + k) % 0x1_0000_0000 + 1) % 0x1_0000_0000 == (v + 1 + k) % 0x1_0000_0000
  {
  }

  lemma LinksOneMore(first: Entry, taken: seq<Notice>, n: Notice)
    requires Links(first, taken)
    requires n.prev == EntryAfter(first, taken).headerHash
             && n.ver == (EntryAfter(first, taken).ver + 1) % 0x1_0000_0000
    ensures Links(first, taken + [n])
  {
    var k := |taken|;
    VerStep(first.ver, k);
    assert EntryAfter(first, taken).ver == (first.ver + k) % 0x1_0000_0000 by {
      if k > 0 {
        assert LinkAt(first, taken, k - 1);
      }
    }
    var more := taken + [n];
    forall i | 0 <= i < |more|
      ensures LinkAt(first, more, i)
    {
      assert i < k ==> LinkAt(first, taken, i);
    }
  }

  lemma OneNotice(file: File, n: Notice, io: Io, first: Entry, taken: seq<Notice>)
    requires n.fid in file.files && file.files[n.fid] == EntryAfter(first, taken) && Links(first, taken)
    ensures var (next, reply) := Do(file, Take(n), io);
            var more := if reply.EntryIs? then taken + [n] else taken;
            && n.fid in next.files && next.files[n.fid] == EntryAfter(first, more) && Links(first, more)
            && (reply.EntryIs? ==> n.grantId in file.grants && file.grants[n.grantId].fid == n.fid)
  {
    hide Links;
    if Do(file, Take(n), io).1.EntryIs? {
      LinksOneMore(first, taken, n);
    }
  }

  lemma {:induction false} GrantsWereGiven(start: File, ops: Ops, id: GrantId)
    requires id in Run(start, ops).grants
    ensures GivenFor(start, ops, id, Run(start, ops).grants[id].fid)
  {
    if ops != [] {
      var n := |ops| - 1;
      var before := Run(start, ops[..n]);
      if !(ops[n].0.Give? && ops[n].0.id == id) {
        GrantsWereGiven(start, ops[..n], id);
        GivenLonger(start, ops, n, id, before.grants[id].fid);
      } else if Run(start, ops) == before {
        GrantsWereGiven(start, ops[..n], id);
        GivenLonger(start, ops, n, id, before.grants[id].fid);
      }
    }
  }

  lemma GivenLonger(start: File, ops: Ops, n: nat, id: GrantId, f: Fid)
    requires n <= |ops| && GivenFor(start, ops[..n], id, f)
    ensures GivenFor(start, ops, id, f)
  {
    if !(id in start.grants && start.grants[id].fid == f) {
      var i :| 0 <= i < n && ops[..n][i].0.Give? && ops[..n][i].0.id == id && ops[..n][i].0.grant.fid == f;
      assert ops[i].0.Give?;
    }
  }

  /** For any stream of operations that does not lock the file again, whatever notices it holds,
      replayed, reordered or from another base: the record of the file moves along the notices that
      were taken, one version at a time, each continuing from the header before it and each for a
      grant the owner gave for this file. */
  lemma {:induction false} VersionsFollowLinks(start: File, ops: Ops, f: Fid)
    requires f in start.files && NotRelocked(ops, f)
    ensures var taken := Taken(start, ops, f);
            && f in Run(start, ops).files && Run(start, ops).files[f] == EntryAfter(start.files[f], taken)
            && Links(start.files[f], taken)
            && forall i :: 0 <= i < |taken| ==> GivenFor(start, ops, taken[i].grantId, f)
  {
    if ops != [] {
      hide Do, Links, GivenFor;
      var n := |ops| - 1;
      VersionsFollowLinks(start, ops[..n], f);
      var before := Taken(start, ops[..n], f);
      forall i | 0 <= i < |before|
        ensures GivenFor(start, ops, before[i].grantId, f)
      {
        GivenLonger(start, ops, n, before[i].grantId, f);
      }
      if ops[n].0.Take? && ops[n].0.notice.fid == f {
        OneNotice(Run(start, ops[..n]), ops[n].0.notice, ops[n].1, start.files[f], before);
        if ReplyAt(start, ops, n).EntryIs? {
          GrantsWereGiven(start, ops[..n], ops[n].0.notice.grantId);
          GivenLonger(start, ops, n, ops[n].0.notice.grantId, f);
        }
      } else {
        OtherOpsKeepEntry(Run(start, ops[..n]), ops[n].0, ops[n].1, f);
      }
    }
  }

  lemma SameResidue(a: nat, b: nat)
    requires a < b && a % 0x1_0000_0000 == b % 0x1_0000_0000
    ensures (b - a) % 0x1_0000_0000 == 0 && b - a >= 0x1_0000_0000
  {
  }

  /** No notice is taken twice: two takings of the same notice are a whole cycle of the 32-bit
      version number apart. */
  lemma NoticeTakenOnce(start: File, ops: Ops, f: Fid, i: nat, j: nat)
    requires f in start.files && NotRelocked(ops, f)
    requires i < j < |Taken(start, ops, f)| && Taken(start, ops, f)[i] == Taken(start, ops, f)[j]
    ensures (j - i) % 0x1_0000_0000 == 0 && j - i >= 0x1_0000_0000
  {
    hide Run, Taken, GivenFor;
    VersionsFollowLinks(start, ops, f);
    var v := start.files[f].ver + 1;
    assert LinkAt(start.files[f], Taken(start, ops, f), i) && LinkAt(start.files[f], Taken(start, ops, f), j);
    SameResidue(v + i, v + j);
  }

  // ---------------------------------------------------------------- nonces and revocations

  /** The approval nonces handed out, in order. */
  function Nonces(start: File, ops: Ops): seq<u64> {
    if ops == [] then []
    else
      var n := |ops| - 1;
      Nonces(start, ops[..n])
      + if ops[n].0.TakeNonce? && ReplyAt(start, ops, n).NonceIs? then [ReplyAt(start, ops, n).nonce] else []
  }

  lemma WrapStep(x: nat)
    ensures (x % 0x1_0000_0000_0000_0000 + 1) % 0x1_0000_0000_0000_0000 == (x + 1) % 0x1_0000_0000_0000_0000
  {
  }

  lemma NonceStep(file: File, op: Op, io: Io)
    ensures var (next, reply) := Do(file, op, io);
            if op.TakeNonce? && reply.NonceIs? then
              reply.nonce == file.grantNonce && next.grantNonce == (file.grantNonce + 1) % 0x1_0000_0000_0000_0000
            else next.grantNonce == file.grantNonce
  {
  }

  /** In any run, failures included, the nonces handed out are consecutive from the stored one, and
      the stored one is already past them: no restart hands one out again. */
  lemma {:induction false} NoncesConsecutive(start: File, ops: Ops)
    ensures var ns := Nonces(start, ops);
            && Run(start, ops).grantNonce == (start.grantNonce + |ns|) % 0x1_0000_0000_0000_0000
            && forall i :: 0 <= i < |ns| ==> ns[i] == (start.grantNonce + i) % 0x1_0000_0000_0000_0000
  {
    if ops != [] {
      var n := |ops| - 1;
      NoncesConsecutive(start, ops[..n]);
      NonceStep(Run(start, ops[..n]), ops[n].0, ops[n].1);
      WrapStep(start.grantNonce + |Nonces(start, ops[..n])|);
      hide Do;
    }
  }

  /** Once pulled back, a grant keeps the first time it was pulled back, unless a grant is recorded
      anew under the same id. */
  lemma {:induction false} FirstRevocationStays(start: File, ops: Ops, id: GrantId)
    requires id in start.grants && start.grants[id].revokedAt.Some?
    requires forall i :: 0 <= i < |ops| ==> !(ops[i].0.Give? && ops[i].0.id == id)
    ensures id in Run(start, ops).grants && Run(start, ops).grants[id].revokedAt == start.grants[id].revokedAt
  {
    if ops != [] {
      FirstRevocationStays(start, ops[..|ops| - 1], id);
    }
  }
}
