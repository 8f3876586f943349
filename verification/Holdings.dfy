/** What the owner's record holds, by the operations that were stored (`apps/agent/src-tauri/src/ledger.rs`). */
module Holdings {
  import opened Bytes
  import opened Ledger

  /** The disk let operation i read the record and replace it. */
  predicate Works(ops: Ops, i: nat) {
    i < |ops| && ops[i].1.loads && ops[i].1.stores
  }

  /** An operation is refused exactly if the disk fails, or it pulls back a grant that is not on record, or takes a
      notice that does not continue the record; and then it changes nothing. */
  lemma RefusedExactly(file: File, op: Op, io: Io)
    ensures var (next, reply) := Do(file, op, io);
            && (reply.Refused? <==>
                  || !io.loads || !io.stores
                  || (op.PullBack? && op.id !in file.grants)
                  || (op.Take? && !(
                        && op.notice.grantId in file.grants && file.grants[op.notice.grantId].fid == op.notice.fid
                        && op.notice.fid in file.files && file.files[op.notice.fid].headerHash == op.notice.prev
                        && op.notice.ver == (file.files[op.notice.fid].ver + 1) % 0x1_0000_0000)))
            && (reply.Refused? ==> next == file)
  {
  }

  // ---------------------------------------------------------------- grants

  /** Operation i recorded this grant. */
  predicate GaveAt(ops: Ops, i: nat, id: GrantId) {
    Works(ops, i) && ops[i].0.Give? && ops[i].0.id == id
  }

  /** Operation i pulled this grant back, if it was on record then. */
  predicate PulledAt(ops: Ops, i: nat, id: GrantId) {
    Works(ops, i) && ops[i].0.PullBack? && ops[i].0.id == id
  }

  ghost predicate EverGave(ops: Ops, id: GrantId) {
    exists i :: GaveAt(ops, i, id)
  }

  ghost predicate LastGave(ops: Ops, g: nat, id: GrantId) {
    GaveAt(ops, g, id) && forall i :: g < i ==> !GaveAt(ops, i, id)
  }

  /** When the grant given by operation g was pulled back: the first time since. */
  ghost predicate PulledFirst(ops: Ops, g: nat, id: GrantId, at: Option<u64>) {
    match at
    case None => forall i :: g < i ==> !PulledAt(ops, i, id)
    case Some(now) => exists i: nat :: FirstPull(ops, g, i, id) && ops[i].0.now == now
  }

  predicate FirstPull(ops: Ops, g: nat, i: nat, id: GrantId) {
    g < i && PulledAt(ops, i, id) && forall k :: g < k < i ==> !PulledAt(ops, k, id)
  }

  /** The transaction that goes with it: the last one that was given since. */
  ghost predicate LastTx(ops: Ops, g: nat, id: GrantId, tx: Option<bytes32>) {
    match tx
    case None => forall i :: g < i && PulledAt(ops, i, id) ==> ops[i].0.tx.None?
    case Some(_) => exists i: nat :: TxAt(ops, g, i, id, tx)
  }

  ghost predicate TxAt(ops: Ops, g: nat, i: nat, id: GrantId, tx: Option<bytes32>) {
    && g < i && PulledAt(ops, i, id) && ops[i].0.tx == tx
    && forall k :: i < k && PulledAt(ops, k, id) ==> ops[k].0.tx.None?
  }

  /** What the record says of a grant after these operations. */
  ghost predicate GrantHeld(ops: Ops, g: nat, id: GrantId, held: Grant) {
    && LastGave(ops, g, id)
    && held == ops[g].0.grant.(revokedAt := held.revokedAt, revokeTx := held.revokeTx)
    && PulledFirst(ops, g, id, held.revokedAt) && LastTx(ops, g, id, held.revokeTx)
  }

  lemma GaveNow(ops: Ops, id: GrantId, held: Grant)
    requires ops != [] && GaveAt(ops, |ops| - 1, id) && held == ops[|ops| - 1].0.grant
    requires held.revokedAt.None? && held.revokeTx.None?
    ensures GrantHeld(ops, |ops| - 1, id, held)
  {
  }

  lemma PulledNow(ops: Ops, g: nat, id: GrantId, held: Grant, now: Grant)
    requires ops != [] && GrantHeld(ops[..|ops| - 1], g, id, held) && PulledAt(ops, |ops| - 1, id)
    requires var op := ops[|ops| - 1].0;
             now == held.(revokedAt := if held.revokedAt.None? then Some(op.now) else held.revokedAt,
                          revokeTx := if op.tx.Some? then op.tx else held.revokeTx)
    ensures GrantHeld(ops, g, id, now)
  {
    var n := |ops| - 1;
    var before := ops[..n];
    PrefixAt(ops, id);
    if held.revokedAt.Some? {
      var i: nat :| FirstPull(before, g, i, id) && before[i].0.now == held.revokedAt.value;
      assert FirstPull(ops, g, i, id);
    } else {
      assert FirstPull(ops, g, n, id);
    }
    if ops[n].0.tx.Some? {
      assert TxAt(ops, g, n, id, now.revokeTx);
    } else if held.revokeTx.Some? {
      var i: nat :| TxAt(before, g, i, id, held.revokeTx);
      assert TxAt(ops, g, i, id, held.revokeTx);
    }
  }

  lemma HeldOn(ops: Ops, g: nat, id: GrantId, held: Grant)
    requires ops != [] && GrantHeld(ops[..|ops| - 1], g, id, held)
    requires !GaveAt(ops, |ops| - 1, id) && !PulledAt(ops, |ops| - 1, id)
    ensures GrantHeld(ops, g, id, held)
  {
    var n := |ops| - 1;
    var before := ops[..n];
    PrefixAt(ops, id);
    if held.revokedAt.Some? {
      var i: nat :| FirstPull(before, g, i, id) && before[i].0.now == held.revokedAt.value;
      assert FirstPull(ops, g, i, id);
    }
    if held.revokeTx.Some? {
      var i: nat :| TxAt(before, g, i, id, held.revokeTx);
      assert TxAt(ops, g, i, id, held.revokeTx);
    }
  }

  lemma PrefixAt(ops: Ops, id: GrantId)
    requires ops != []
    ensures var n := |ops| - 1;
            && (forall i: nat :: i < n ==>
                  && ops[..n][i] == ops[i]
                  && (GaveAt(ops[..n], i, id) <==> GaveAt(ops, i, id))
                  && (PulledAt(ops[..n], i, id) <==> PulledAt(ops, i, id)))
            && (forall i: nat :: GaveAt(ops[..n], i, id) || PulledAt(ops[..n], i, id) ==> i < n)
            && (forall i: nat :: GaveAt(ops, i, id) || PulledAt(ops, i, id) ==> i <= n)
  {
  }

  lemma StepGrants(file: File, op: Op, io: Io, id: GrantId)
    ensures var next := Do(file, op, io).0;
            var works := io.loads && io.stores;
            if works && op.Give? && op.id == id then id in next.grants && next.grants[id] == op.grant
            else if works && op.PullBack? && op.id == id && id in file.grants then
              && id in next.grants
              && next.grants[id]
                 == file.grants[id].(revokedAt := if file.grants[id].revokedAt.None? then Some(op.now)
                                                  else file.grants[id].revokedAt,
                                     revokeTx := if op.tx.Some? then op.tx else file.grants[id].revokeTx)
            else
              (id in next.grants <==> id in file.grants) && (id in next.grants ==> next.grants[id] == file.grants[id])
  {
  }

  lemma GaveLater(ops: Ops, id: GrantId)
    requires ops != []
    ensures EverGave(ops, id) <==> EverGave(ops[..|ops| - 1], id) || GaveAt(ops, |ops| - 1, id)
  {
    PrefixAt(ops, id);
  }

  /** A grant is on record exactly if it was recorded, as it was last recorded; it counts as revoked exactly if it
      was pulled back since, from the first time it was, and with the last transaction that was given. */
  lemma {:induction false} RevokedExactly(start: File, ops: Ops, id: GrantId) returns (g: nat)
    requires id !in start.grants
    requires forall i :: 0 <= i < |ops| && ops[i].0.Give? && ops[i].0.id == id ==>
               ops[i].0.grant.revokedAt.None? && ops[i].0.grant.revokeTx.None?
    ensures var file := Run(start, ops);
            && (id in file.grants <==> EverGave(ops, id))
            && (id in file.grants ==> GrantHeld(ops, g, id, file.grants[id]))
  {
    g := 0;
    if ops != [] {
      hide Do, GrantHeld, EverGave;
      var n := |ops| - 1;
      g := RevokedExactly(start, ops[..n], id);
      var file := Run(start, ops[..n]);
      StepGrants(file, ops[n].0, ops[n].1, id);
      GaveLater(ops, id);
      if GaveAt(ops, n, id) {
        GaveNow(ops, id, ops[n].0.grant);
        g := n;
      } else if id in file.grants {
        if PulledAt(ops, n, id) {
          PulledNow(ops, g, id, file.grants[id], Run(start, ops).grants[id]);
        } else {
          HeldOn(ops, g, id, file.grants[id]);
        }
      }
    } else {
      assert !EverGave(ops, id);
    }
  }

  // ---------------------------------------------------------------- files

  /** Operation i recorded a locked file. */
  predicate LockedAt(ops: Ops, i: nat, f: Fid) {
    Works(ops, i) && ops[i].0.Lock? && ops[i].0.fid == f
  }

  ghost predicate EverLocked(ops: Ops, f: Fid) {
    exists i :: LockedAt(ops, i, f)
  }

  lemma LockedLater(ops: Ops, f: Fid)
    requires ops != []
    ensures EverLocked(ops, f) <==> EverLocked(ops[..|ops| - 1], f) || LockedAt(ops, |ops| - 1, f)
  {
    var n := |ops| - 1;
    assert forall i: nat :: i < n ==> (LockedAt(ops[..n], i, f) <==> LockedAt(ops, i, f));
  }

  /** A file is on record exactly if it was, or was recorded since. */
  lemma {:induction false} KnownExactly(start: File, ops: Ops, f: Fid)
    ensures f in Run(start, ops).files <==> f in start.files || EverLocked(ops, f)
  {
    if ops != [] {
      hide EverLocked;
      KnownExactly(start, ops[..|ops| - 1], f);
      LockedLater(ops, f);
    } else {
      assert !EverLocked(ops, f);
    }
  }

  lemma {:induction false} RunJoin(start: File, a: Ops, b: Ops)
    ensures Run(start, a + b) == Run(Run(start, a), b)
  {
    if b == [] {
      assert a + b == a;
    } else {
      hide Do;
      RunJoin(start, a, b[..|b| - 1]);
      assert (a + b)[..|a + b| - 1] == a + b[..|b| - 1];
    }
  }

  /** What the record says of a file is how it was last locked, moved on by the notices taken since then, one version
      at a time along their links. */
  lemma EntryExactly(start: File, ops: Ops, f: Fid, k: nat)
    requires LockedAt(ops, k, f) && NotRelocked(ops[k + 1..], f)
    ensures var since := Taken(Run(start, ops[..k + 1]), ops[k + 1..], f);
            && f in Run(start, ops).files && Run(start, ops).files[f] == EntryAfter(ops[k].0.entry, since)
            && Links(ops[k].0.entry, since)
  {
    hide Links;
    assert ops == ops[..k + 1] + ops[k + 1..] && ops[..k + 1][..k] == ops[..k];
    RunJoin(start, ops[..k + 1], ops[k + 1..]);
    VersionsFollowLinks(Run(start, ops[..k + 1]), ops[k + 1..], f);
  }

  // ---------------------------------------------------------------- the queue

  /** Operation k queued a bump of this file. */
  predicate QueuedAt(ops: Ops, k: nat, f: Fid) {
    Works(ops, k) && ops[k].0.Defer? && ops[k].0.bump.fid == f
  }

  /** Operation k queued this bump, and none of the file was queued since. */
  ghost predicate LastQueued(ops: Ops, k: nat, b: Bump) {
    QueuedAt(ops, k, b.fid) && ops[k].0.bump == b && forall l :: k < l ==> !QueuedAt(ops, l, b.fid)
  }

  ghost predicate EachQueued(ops: Ops, q: seq<Bump>) {
    forall b :: b in q ==> exists k: nat :: LastQueued(ops, k, b)
  }

  /** What was queued first stands first. */
  ghost predicate InOrder(ops: Ops, q: seq<Bump>) {
    forall i, j, k: nat, l: nat :: 0 <= i < j < |q| && LastQueued(ops, k, q[i]) && LastQueued(ops, l, q[j]) ==> k < l
  }

  /** Two kept bumps stand in the order they stood in. */
  lemma {:induction false} RetainOrder(q: seq<Bump>, keep: Bump -> bool, i: nat, j: nat) returns (a: nat, b: nat)
    requires i < j < |Retain(q, keep)|
    ensures a < b < |q| && q[a] == Retain(q, keep)[i] && q[b] == Retain(q, keep)[j]
  {
    hide Retain;
    RetainHead(q, keep);
    if keep(q[0]) {
      if i > 0 {
        a, b := RetainOrder(q[1..], keep, i - 1, j - 1);
        a, b := a + 1, b + 1;
      } else {
        b := RetainAt(q[1..], keep, j - 1);
        a, b := 0, b + 1;
      }
    } else {
      a, b := RetainOrder(q[1..], keep, i, j);
      a, b := a + 1, b + 1;
    }
  }

  lemma RetainHead(q: seq<Bump>, keep: Bump -> bool)
    ensures q == [] ==> Retain(q, keep) == []
    ensures q != [] && keep(q[0]) ==> Retain(q, keep) == [q[0]] + Retain(q[1..], keep)
    ensures q != [] && !keep(q[0]) ==> Retain(q, keep) == Retain(q[1..], keep)
  {
  }

  lemma RetainAt(q: seq<Bump>, keep: Bump -> bool, j: nat) returns (b: nat)
    requires j < |Retain(q, keep)|
    ensures b < |q| && q[b] == Retain(q, keep)[j]
  {
    assert Retain(q, keep)[j] in q;
    b :| 0 <= b < |q| && q[b] == Retain(q, keep)[j];
  }

  lemma RetainKeepsOrder(ops: Ops, q: seq<Bump>, keep: Bump -> bool)
    requires EachQueued(ops, q) && InOrder(ops, q)
    ensures EachQueued(ops, Retain(q, keep)) && InOrder(ops, Retain(q, keep))
  {
    hide LastQueued, Retain;
    var r := Retain(q, keep);
    forall i, j, k: nat, l: nat | 0 <= i < j < |r| && LastQueued(ops, k, r[i]) && LastQueued(ops, l, r[j])
      ensures k < l
    {
      var a, b := RetainOrder(q, keep, i, j);
    }
  }

  /** Another operation leaves what was queued last as it was. */
  lemma QueuedBefore(ops: Ops, b: Bump)
    requires ops != [] && !QueuedAt(ops, |ops| - 1, b.fid)
    ensures forall k: nat :: LastQueued(ops[..|ops| - 1], k, b) <==> LastQueued(ops, k, b)
  {
    var n := |ops| - 1;
    assert forall i: nat :: i < n ==> (QueuedAt(ops[..n], i, b.fid) <==> QueuedAt(ops, i, b.fid));
    assert forall i: nat :: QueuedAt(ops[..n], i, b.fid) ==> i < n;
    assert forall i: nat :: QueuedAt(ops, i, b.fid) ==> i <= n;
  }

  lemma OrderStays(ops: Ops, q: seq<Bump>)
    requires ops != [] && EachQueued(ops[..|ops| - 1], q) && InOrder(ops[..|ops| - 1], q)
    requires forall b :: b in q ==> !QueuedAt(ops, |ops| - 1, b.fid)
    ensures EachQueued(ops, q) && InOrder(ops, q)
  {
    hide LastQueued;
    var before := ops[..|ops| - 1];
    forall b | b in q
      ensures exists k: nat :: LastQueued(ops, k, b)
    {
      QueuedBefore(ops, b);
      var k: nat :| LastQueued(before, k, b);
      assert LastQueued(ops, k, b);
    }
    forall i, j, k: nat, l: nat | 0 <= i < j < |q| && LastQueued(ops, k, q[i]) && LastQueued(ops, l, q[j])
      ensures k < l
    {
      QueuedBefore(ops, q[i]);
      QueuedBefore(ops, q[j]);
      assert LastQueued(before, k, q[i]) && LastQueued(before, l, q[j]);
    }
  }

  lemma OneMoreQueued(ops: Ops, q: seq<Bump>, b: Bump)
    requires ops != [] && QueuedAt(ops, |ops| - 1, b.fid) && ops[|ops| - 1].0.bump == b
    requires EachQueued(ops, q) && InOrder(ops, q) && forall c :: c in q ==> c.fid != b.fid
    ensures EachQueued(ops, q + [b]) && InOrder(ops, q + [b])
  {
    var n := |ops| - 1;
    assert LastQueued(ops, n, b);
    var more := q + [b];
    forall i, j, k: nat, l: nat | 0 <= i < j < |more| && LastQueued(ops, k, more[i]) && LastQueued(ops, l, more[j])
      ensures k < l
    {
      assert more[i] == q[i] && q[i] in q;
      if j == |q| {
        BeforeLast(ops, k, q[i], l, b);
      }
    }
  }

  lemma BeforeLast(ops: Ops, k: nat, c: Bump, l: nat, b: Bump)
    requires ops != [] && QueuedAt(ops, |ops| - 1, b.fid) && c.fid != b.fid
    requires LastQueued(ops, k, c) && LastQueued(ops, l, b)
    ensures k < l
  {
  }

  /** In any run the queue holds bumps in the order in which they were last queued, oldest first. */
  lemma {:induction false} QueueInOrder(start: File, ops: Ops)
    requires start.deferredBumps == []
    ensures EachQueued(ops, Run(start, ops).deferredBumps) && InOrder(ops, Run(start, ops).deferredBumps)
  {
    if ops != [] {
      hide Retain, EachQueued, InOrder;
      var n := |ops| - 1;
      var file, op, io := Run(start, ops[..n]), ops[n].0, ops[n].1;
      var q := file.deferredBumps;
      QueueInOrder(start, ops[..n]);
      if io.loads && io.stores && op.Defer? {
        var keep := (b: Bump) => b.fid != op.bump.fid;
        RetainKeepsOrder(ops[..n], q, keep);
        OrderStays(ops, Retain(q, keep));
        OneMoreQueued(ops, Retain(q, keep), op.bump);
      } else {
        OrderStays(ops, q);
        if op.Clear? {
          RetainKeepsOrder(ops, q, (b: Bump) => b !in op.landed);
        }
        OtherQueue(file, op, io);
      }
    }
  }

  lemma OtherQueue(file: File, op: Op, io: Io)
    requires !(io.loads && io.stores && op.Defer?)
    ensures var q := Do(file, op, io).0.deferredBumps;
            q == file.deferredBumps
            || (op.Clear? && q == Retain(file.deferredBumps, (b: Bump) => b !in op.landed))
  {
  }
}
