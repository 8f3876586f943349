/** Version bumps that wait for the next tap (`ChainLink::write` and `ChainLink::bump_version` in
    `apps/agent/src-tauri/src/chain.rs`). Writing reads the queue, submits one batch and clears what
    landed; bumps may be deferred, and other writes may run, in between. A batch lands whole or not
    at all. */
module DeferredBumps {
  import opened Bytes
  import opened Ledger

  datatype Step =
    | DeferOne(bump: Bump, io: Io)
    | ReadQueue(writer: nat, io: Io)
    | Land(writer: nat)
    | Fail(writer: nat)
    | ClearLanded(writer: nat, io: Io)

  /** The ledger; the batches that are out, by the write they belong to; those that landed and are
      still to be cleared; and, for the statements, every batch that landed and the newest hash
      deferred for each file. */
  datatype State = State(
    file: File, out: map<nat, seq<Bump>>, toClear: map<nat, seq<Bump>>, landed: seq<seq<Bump>>, newest: map<Fid, Hash>)

  function Start(file: File): State {
    State(file, map[], map[], [], map[])
  }

  /** One step; a step that is out of turn does nothing. */
  function After(s: State, step: Step): State {
    match step
    case DeferOne(bump, io) =>
      var (file, reply) := Do(s.file, Defer(bump), io);
      s.(file := file, newest := if reply.Done? then s.newest[bump.fid := bump.headerHash] else s.newest)
    case ReadQueue(w, io) =>
      if w in s.out || w in s.toClear then s
      else s.(out := s.out[w := if io.loads then s.file.deferredBumps else []])
    case Land(w) =>
      if w !in s.out then s
      else s.(out := s.out - {w}, toClear := s.toClear[w := s.out[w]], landed := s.landed + [s.out[w]])
    case Fail(w) =>
      if w !in s.out then s else s.(out := s.out - {w})
    case ClearLanded(w, io) =>
      if w !in s.toClear then s
      else
        s.(file := if s.toClear[w] == [] then s.file else Do(s.file, Clear(s.toClear[w]), io).0,
           toClear := s.toClear - {w})
  }

  function RunSteps(s: State, steps: seq<Step>): State {
    if steps == [] then s else After(RunSteps(s, steps[..|steps| - 1]), steps[|steps| - 1])
  }

  ghost predicate InLanded(s: State, b: Bump) {
    exists i :: 0 <= i < |s.landed| && b in s.landed[i]
  }

  ghost predicate OneEach(q: seq<Bump>) {
    forall i, j :: 0 <= i < j < |q| ==> q[i].fid != q[j].fid
  }

  /** The queue holds at most one bump of a file, the newest deferred. */
  ghost predicate QueueIsNewest(s: State) {
    var q := s.file.deferredBumps;
    && OneEach(q)
    && forall b :: b in q ==> b.fid in s.newest && s.newest[b.fid] == b.headerHash
  }

  /** No newest bump is lost: it is still queued or it was in a batch that landed. */
  ghost predicate NothingLost(s: State) {
    forall f :: f in s.newest ==> Accounted(s, f)
  }

  ghost predicate Accounted(s: State, f: Fid)
    requires f in s.newest
  {
    Bump(f, s.newest[f]) in s.file.deferredBumps || InLanded(s, Bump(f, s.newest[f]))
  }

  ghost predicate ToClearLanded(s: State) {
    forall w :: w in s.toClear ==> s.toClear[w] in s.landed
  }

  ghost predicate Holds(s: State) {
    QueueIsNewest(s) && NothingLost(s) && ToClearLanded(s)
  }

  lemma OneEachFront(b: Bump, q: seq<Bump>)
    requires OneEach(q) && forall c :: c in q ==> c.fid != b.fid
    ensures OneEach([b] + q) && OneEach(q + [b])
  {
    assert forall i :: 0 <= i < |q| ==> q[i] in q;
  }

  lemma {:induction false} RetainDistinct(q: seq<Bump>, keep: Bump -> bool)
    requires OneEach(q)
    ensures OneEach(Retain(q, keep))
  {
    if q != [] {
      RetainDistinct(q[1..], keep);
      var rest := Retain(q[1..], keep);
      forall c | c in rest
        ensures c.fid != q[0].fid
      {
        assert c in q[1..];
        var i :| 0 <= i < |q[1..]| && q[1..][i] == c;
        assert q[i + 1] == c;
      }
      if keep(q[0]) {
        OneEachFront(q[0], rest);
      } else {
        assert [] + rest == rest;
      }
    }
  }

  lemma DeferHolds(s: State, bump: Bump, io: Io)
    requires Holds(s)
    ensures Holds(After(s, DeferOne(bump, io)))
  {
    var t := After(s, DeferOne(bump, io));
    if Do(s.file, Defer(bump), io).1.Done? {
      var keep := (b: Bump) => b.fid != bump.fid;
      RetainDistinct(s.file.deferredBumps, keep);
      var kept := Retain(s.file.deferredBumps, keep);
      assert t.file.deferredBumps == kept + [bump];
      OneEachFront(bump, kept);
      forall f | f in t.newest
        ensures Accounted(t, f)
      {
        if f != bump.fid {
          assert Accounted(s, f);
          if InLanded(s, Bump(f, s.newest[f])) {
            assert t.landed == s.landed;
          }
        } else {
          assert t.file.deferredBumps[|kept|] == bump;
        }
      }
    }
  }

  lemma LandHolds(s: State, w: nat)
    requires Holds(s)
    ensures Holds(After(s, Land(w)))
  {
    var t := After(s, Land(w));
    if w in s.out {
      assert t.landed[|s.landed|] == s.out[w];
      forall f | f in t.newest
        ensures Accounted(t, f)
      {
        assert Accounted(s, f);
        var b := Bump(f, s.newest[f]);
        if InLanded(s, b) {
          var i :| 0 <= i < |s.landed| && b in s.landed[i];
          assert t.landed[i] == s.landed[i];
        }
      }
    }
  }

  lemma ClearHolds(s: State, w: nat, io: Io)
    requires Holds(s)
    ensures Holds(After(s, ClearLanded(w, io)))
  {
    var t := After(s, ClearLanded(w, io));
    if w in s.toClear && t.file != s.file {
      var batch := s.toClear[w];
      var keep := (b: Bump) => b !in batch;
      RetainDistinct(s.file.deferredBumps, keep);
      assert t.file.deferredBumps == Retain(s.file.deferredBumps, keep);
      var i :| 0 <= i < |s.landed| && s.landed[i] == batch;
      forall f | f in t.newest
        ensures Accounted(t, f)
      {
        assert Accounted(s, f);
        var b := Bump(f, s.newest[f]);
        if b in batch {
          assert b in t.landed[i];
        } else if InLanded(s, b) {
          assert InLanded(t, b);
        }
      }
    } else {
      assert forall f :: f in t.newest ==> Accounted(s, f) ==> Accounted(t, f);
    }
  }

  lemma StepHolds(s: State, step: Step)
    requires Holds(s)
    ensures Holds(After(s, step))
  {
    match step
    case DeferOne(bump, io) => DeferHolds(s, bump, io);
    case Land(w) => LandHolds(s, w);
    case ClearLanded(w, io) => ClearHolds(s, w, io);
    case _ =>
      assert forall f :: f in s.newest ==> Accounted(s, f) ==> Accounted(After(s, step), f);
  }

  /** In every interleaving of deferrals with any number of writes, on a disk that may fail at any
      operation: each file has at most one queued bump, the newest, and the newest hash deferred for
      a file is still queued or was in a batch that landed. */
  lemma {:induction false} BumpsNeverLost(file: File, steps: seq<Step>)
    requires file.deferredBumps == []
    ensures var s := RunSteps(Start(file), steps); QueueIsNewest(s) && NothingLost(s)
    ensures Holds(RunSteps(Start(file), steps))
  {
    if steps != [] {
      hide Holds, After;
      BumpsNeverLost(file, steps[..|steps| - 1]);
      StepHolds(RunSteps(Start(file), steps[..|steps| - 1]), steps[|steps| - 1]);
    }
  }

  lemma {:induction false} RetainNone(q: seq<Bump>, keep: Bump -> bool)
    requires forall b :: b in q ==> !keep(b)
    ensures Retain(q, keep) == []
  {
    if q != [] {
      RetainNone(q[1..], keep);
      assert q[0] in q;
    }
  }

  /** A write that nothing interrupts, on a disk that works, sends the whole queue and leaves none
      of it. */
  lemma QuietWriteEmptiesQueue(s: State, w: nat, io: Io)
    requires w !in s.out && w !in s.toClear && io == Io(true, true)
    ensures var t := After(After(After(s, ReadQueue(w, io)), Land(w)), ClearLanded(w, io));
            t.file == s.file.(deferredBumps := []) && t.landed == s.landed + [s.file.deferredBumps]
  {
    var q := s.file.deferredBumps;
    var keep := (b: Bump) => b !in q;
    RetainNone(q, keep);
    var t := After(After(s, ReadQueue(w, io)), Land(w));
    assert t.toClear[w] == q && t.file == s.file;
    if q == [] {
      assert s.file == s.file.(deferredBumps := []);
    }
  }

  // ---------------------------------------------------------------- what the chain ends with

  function HashIn(batch: seq<Bump>, f: Fid): Option<Hash> {
    if batch == [] then None
    else
      var last := batch[|batch| - 1];
      if last.fid == f then Some(last.headerHash) else HashIn(batch[..|batch| - 1], f)
  }

  /** The header the chain holds for a file: that of the last bump of it that landed. */
  function LastLanded(landed: seq<seq<Bump>>, f: Fid): Option<Hash> {
    if landed == [] then None
    else
      match HashIn(landed[|landed| - 1], f)
      case Some(hash) => Some(hash)
      case None => LastLanded(landed[..|landed| - 1], f)
  }

  lemma {:induction false} HashInBatch(batch: seq<Bump>, f: Fid)
    ensures HashIn(batch, f).Some? ==> Bump(f, HashIn(batch, f).value) in batch
    ensures HashIn(batch, f).None? ==> forall b :: b in batch ==> b.fid != f
    ensures OneEach(batch) ==> forall b :: b in batch && b.fid == f ==> HashIn(batch, f) == Some(b.headerHash)
  {
    if batch != [] {
      var n := |batch| - 1;
      HashInBatch(batch[..n], f);
      assert forall b :: b in batch ==> b == batch[n] || b in batch[..n];
      if batch[n].fid == f && OneEach(batch) {
        forall b | b in batch[..n]
          ensures b.fid != f
        {
          var i :| 0 <= i < n && batch[i] == b;
        }
      }
    }
  }

  lemma LastLandedSnoc(landed: seq<seq<Bump>>, batch: seq<Bump>, f: Fid)
    ensures LastLanded(landed + [batch], f)
         == if HashIn(batch, f).Some? then HashIn(batch, f) else LastLanded(landed, f)
  {
    assert (landed + [batch])[..|landed|] == landed;
  }

  function Before(file: File, steps: seq<Step>, i: nat): State
    requires i <= |steps|
  {
    RunSteps(Start(file), steps[..i])
  }

  /** Step r is where this write read the queue, and what it read. */
  ghost predicate ReadsAt(file: File, steps: seq<Step>, r: nat, w: nat, batch: seq<Bump>) {
    && r < |steps| && steps[r].ReadQueue? && steps[r].writer == w
    && batch == if steps[r].io.loads then Before(file, steps, r).file.deferredBumps else []
  }

  /** In step k a batch with a bump of this file lands. */
  ghost predicate LandsAt(file: File, steps: seq<Step>, k: nat, f: Fid) {
    && k < |steps| && steps[k].Land? && var out := Before(file, steps, k).out;
    steps[k].writer in out && HashIn(out[steps[k].writer], f).Some?
  }

  /** In step j a bump of this file is taken into the queue. */
  ghost predicate DefersAt(file: File, steps: seq<Step>, j: nat, f: Fid) {
    && j < |steps| && steps[j].DeferOne? && steps[j].bump.fid == f
    && Do(Before(file, steps, j).file, Defer(steps[j].bump), steps[j].io).1.Done?
  }

  lemma BeforePrefix(file: File, steps: seq<Step>, n: nat)
    requires n <= |steps|
    ensures forall i :: 0 <= i <= n ==> Before(file, steps[..n], i) == Before(file, steps, i)
  {
    assert forall i :: 0 <= i <= n ==> steps[..n][..i] == steps[..i];
  }

  lemma LastPrefix(file: File, steps: seq<Step>)
    requires steps != []
    ensures RunSteps(Start(file), steps[..|steps| - 1]) == Before(file, steps, |steps| - 1)
  {
  }

  lemma LastStep(file: File, steps: seq<Step>)
    requires steps != []
    ensures Before(file, steps, |steps|) == After(Before(file, steps, |steps| - 1), steps[|steps| - 1])
    ensures RunSteps(Start(file), steps) == Before(file, steps, |steps|)
  {
    assert steps[..|steps|] == steps;
  }

  lemma DefersInPrefix(file: File, steps: seq<Step>, n: nat, f: Fid)
    requires n <= |steps|
    ensures forall i: nat :: i < n ==> (DefersAt(file, steps, i, f) <==> DefersAt(file, steps[..n], i, f))
    ensures forall i: nat :: DefersAt(file, steps[..n], i, f) ==> i < n
  {
    hide Do, Before;
    BeforePrefix(file, steps, n);
  }

  lemma LandsInPrefix(file: File, steps: seq<Step>, n: nat, f: Fid)
    requires n <= |steps|
    ensures forall i: nat :: i < n ==> (LandsAt(file, steps, i, f) <==> LandsAt(file, steps[..n], i, f))
    ensures forall i: nat :: LandsAt(file, steps[..n], i, f) ==> i < n
  {
    hide HashIn, Before;
    BeforePrefix(file, steps, n);
  }

  /** A batch that is out is what its write read from the queue. */
  lemma {:induction false} BatchWasRead(file: File, steps: seq<Step>, w: nat) returns (r: nat)
    requires w in RunSteps(Start(file), steps).out
    ensures ReadsAt(file, steps, r, w, RunSteps(Start(file), steps).out[w])
  {
    hide Do, Before;
    var n := |steps| - 1;
    LastStep(file, steps);
    var s := Before(file, steps, n);
    BeforePrefix(file, steps, n);
    LastPrefix(file, steps);
    if w in s.out {
      r := BatchWasRead(file, steps[..n], w);
    } else {
      r := n;
    }
  }

  /** The newest hash of a file is that of the last bump of it that was taken. */
  lemma {:induction false} NewestWasLast(file: File, steps: seq<Step>, f: Fid) returns (j: nat)
    requires f in RunSteps(Start(file), steps).newest
    ensures DefersAt(file, steps, j, f) && forall i :: j < i ==> !DefersAt(file, steps, i, f)
    ensures RunSteps(Start(file), steps).newest[f] == steps[j].bump.headerHash
  {
    hide Do, Before;
    var n := |steps| - 1;
    LastStep(file, steps);
    LastPrefix(file, steps);
    if DefersAt(file, steps, n, f) {
      j := n;
    } else {
      j := NewestWasLast(file, steps[..n], f);
      DefersInPrefix(file, steps, n, f);
    }
  }

  /** The last landing of a file's bump brought what its write had read. */
  lemma {:induction false} LandedWasRead(file: File, steps: seq<Step>, f: Fid) returns (k: nat, r: nat)
    requires file.deferredBumps == [] && LastLanded(RunSteps(Start(file), steps).landed, f).Some?
    ensures LandsAt(file, steps, k, f) && forall i :: k < i ==> !LandsAt(file, steps, i, f)
    ensures r < k && ReadsAt(file, steps, r, steps[k].writer, Before(file, steps, k).out[steps[k].writer])
    ensures HashIn(Before(file, steps, k).out[steps[k].writer], f) == LastLanded(RunSteps(Start(file), steps).landed, f)
  {
    hide Do, HashIn, ReadsAt, LastLanded, Before, RunSteps;
    if steps == [] {
      NothingRun(file);
    }
    var n := |steps| - 1;
    NothingLanded(f);
    LastStep(file, steps);
    LastPrefix(file, steps);
    var s := Before(file, steps, n);
    if steps[n].Land? && steps[n].writer in s.out {
      LastLandedSnoc(s.landed, s.out[steps[n].writer], f);
    }
    if LandsAt(file, steps, n, f) {
      k := n;
      r := BatchWasRead(file, steps[..n], steps[n].writer);
      ReadsInPrefix(file, steps, n, r, steps[n].writer, s.out[steps[n].writer]);
    } else {
      k, r := LandedWasRead(file, steps[..n], f);
      BeforePrefix(file, steps, n);
      ReadsInPrefix(file, steps, n, r, steps[k].writer, Before(file, steps, k).out[steps[k].writer]);
      LandsInPrefix(file, steps, n, f);
    }
  }

  lemma NothingRun(file: File)
    ensures RunSteps(Start(file), []) == Start(file)
  {
  }

  lemma NothingLanded(f: Fid)
    ensures LastLanded([], f).None?
  {
  }

  lemma ReadsInPrefix(file: File, steps: seq<Step>, n: nat, r: nat, w: nat, batch: seq<Bump>)
    requires n <= |steps| && ReadsAt(file, steps[..n], r, w, batch)
    ensures r < n && ReadsAt(file, steps, r, w, batch)
  {
    BeforePrefix(file, steps, n);
  }

  /** Bump i of the file was the newest when step r came. */
  ghost predicate NewestAt(file: File, steps: seq<Step>, i: nat, r: nat, f: Fid) {
    && i < r && DefersAt(file, steps, i, f)
    && forall l :: i < l < r ==> !DefersAt(file, steps, l, f)
  }

  /** In every interleaving the chain ends with what was newest when the write whose batch landed last for the
      file had read the queue: with the newest hash exactly if it read after that was deferred, or if it read
      the same hash from an earlier deferral. */
  lemma EndsNewestExactly(file: File, steps: seq<Step>, f: Fid) returns (k: nat, r: nat, i: nat, j: nat)
    requires file.deferredBumps == [] && LastLanded(RunSteps(Start(file), steps).landed, f).Some?
    ensures LandsAt(file, steps, k, f) && forall l :: k < l ==> !LandsAt(file, steps, l, f)
    ensures r < k && ReadsAt(file, steps, r, steps[k].writer, Before(file, steps, k).out[steps[k].writer])
    ensures NewestAt(file, steps, i, r, f) && NewestAt(file, steps, j, |steps|, f) && (i == j <==> j < r)
    ensures f in RunSteps(Start(file), steps).newest
    ensures var s := RunSteps(Start(file), steps);
            LastLanded(s.landed, f) == Some(s.newest[f]) <==> steps[i].bump.headerHash == steps[j].bump.headerHash
  {
    hide Do, HashIn, LastLanded, RunSteps, DefersAt, LandsAt;
    k, r := LandedWasRead(file, steps, f);
    LandsInBatch(file, steps, k, f);
    var batch := Before(file, steps, k).out[steps[k].writer];
    HashInBatch(batch, f);
    i := ReadWasNewest(file, steps, r, steps[k].writer, batch, f);
    NewestStays(file, steps, r, f);
    j := NewestWasLast(file, steps, f);
    assert NewestAt(file, steps, j, |steps|, f) by {
      InRange(file, steps, j, f);
    }
  }

  lemma InRange(file: File, steps: seq<Step>, j: nat, f: Fid)
    requires DefersAt(file, steps, j, f)
    ensures j < |steps|
  {
  }

  lemma LandsInBatch(file: File, steps: seq<Step>, k: nat, f: Fid)
    requires LandsAt(file, steps, k, f)
    ensures k < |steps| && steps[k].Land? && steps[k].writer in Before(file, steps, k).out
    ensures HashIn(Before(file, steps, k).out[steps[k].writer], f).Some?
  {
  }

  /** A bump that was read from the queue was the newest of its file then. */
  lemma ReadWasNewest(file: File, steps: seq<Step>, r: nat, w: nat, batch: seq<Bump>, f: Fid) returns (i: nat)
    requires file.deferredBumps == [] && ReadsAt(file, steps, r, w, batch)
    requires HashIn(batch, f).Some? && Bump(f, HashIn(batch, f).value) in batch
    ensures NewestAt(file, steps, i, r, f) && steps[i].bump.headerHash == HashIn(batch, f).value
    ensures f in Before(file, steps, r).newest
  {
    hide Do, HashIn, RunSteps, DefersAt;
    BumpsNeverLost(file, steps[..r]);
    i := NewestWasLast(file, steps[..r], f);
    DefersInPrefix(file, steps, r, f);
  }

  lemma {:induction false} NewestStays(file: File, steps: seq<Step>, r: nat, f: Fid)
    requires r <= |steps| && f in Before(file, steps, r).newest
    ensures f in RunSteps(Start(file), steps).newest
    decreases |steps|
  {
    if r == |steps| {
      assert steps[..r] == steps;
    } else {
      LastStep(file, steps);
      BeforePrefix(file, steps, |steps| - 1);
      NewestStays(file, steps[..|steps| - 1], r, f);
    }
  }

  /** A write reads the queue only when no other is on its way. */
  ghost predicate OneAtATime(file: File, steps: seq<Step>) {
    forall i :: 0 <= i < |steps| && steps[i].ReadQueue? ==>
      Before(file, steps, i).out == map[] && Before(file, steps, i).toClear == map[]
  }

  /** Nothing newer than this bump of the file can be overtaken by a batch that is out. */
  ghost predicate UpToDate(s: State, f: Fid)
    requires f in s.newest
  {
    || Bump(f, s.newest[f]) in s.file.deferredBumps
    || (LastLanded(s.landed, f) == Some(s.newest[f])
        && forall w, b :: w in s.out && b in s.out[w] && b.fid == f ==> b.headerHash == s.newest[f])
  }

  ghost predicate InTurn(s: State) {
    && QueueIsNewest(s)
    && (forall v, w :: v in s.out && w in s.out ==> v == w)
    && (s.out != map[] ==> s.toClear == map[])
    && (forall v, w :: v in s.toClear && w in s.toClear ==> v == w)
    && (forall w :: w in s.out ==> OneEach(s.out[w]))
    && (forall w :: w in s.toClear ==>
          s.landed != [] && s.landed[|s.landed| - 1] == s.toClear[w] && OneEach(s.toClear[w]))
    && forall f :: f in s.newest ==> UpToDate(s, f)
  }

  lemma TurnDefers(s: State, bump: Bump, io: Io)
    requires InTurn(s) && QueueIsNewest(After(s, DeferOne(bump, io)))
    ensures InTurn(After(s, DeferOne(bump, io)))
  {
    hide LastLanded;
    var t := After(s, DeferOne(bump, io));
    forall f | f in t.newest
      ensures UpToDate(t, f)
    {
      if Do(s.file, Defer(bump), io).1.Done? {
        var kept := Retain(s.file.deferredBumps, (b: Bump) => b.fid != bump.fid);
        assert t.file.deferredBumps == kept + [bump];
        if f == bump.fid {
          assert t.file.deferredBumps[|kept|] == bump;
        } else {
          assert UpToDate(s, f);
        }
      } else {
        assert UpToDate(s, f);
      }
    }
  }

  lemma TurnLands(s: State, w: nat)
    requires InTurn(s)
    ensures InTurn(After(s, Land(w)))
  {
    hide LastLanded, HashIn, OneEach;
    var t := After(s, Land(w));
    if w in s.out {
      forall f | f in t.newest
        ensures UpToDate(t, f)
      {
        assert UpToDate(s, f);
        LastLandedSnoc(s.landed, s.out[w], f);
        HashInBatch(s.out[w], f);
      }
    }
  }

  lemma TurnClears(s: State, w: nat, io: Io)
    requires InTurn(s) && QueueIsNewest(After(s, ClearLanded(w, io)))
    ensures InTurn(After(s, ClearLanded(w, io)))
  {
    hide HashIn, OneEach;
    var t := After(s, ClearLanded(w, io));
    if w in s.toClear {
      var batch := s.toClear[w];
      forall f | f in t.newest
        ensures UpToDate(t, f)
      {
        assert UpToDate(s, f);
        HashInBatch(batch, f);
      }
    }
  }

  lemma TurnReads(s: State, w: nat, io: Io)
    requires InTurn(s) && s.out == map[] && s.toClear == map[]
    ensures InTurn(After(s, ReadQueue(w, io)))
  {
    hide LastLanded;
    var t := After(s, ReadQueue(w, io));
    forall f | f in t.newest
      ensures UpToDate(t, f)
    {
      assert UpToDate(s, f);
    }
  }

  lemma TurnFails(s: State, w: nat)
    requires InTurn(s)
    ensures InTurn(After(s, Fail(w)))
  {
    hide LastLanded;
    forall f | f in s.newest
      ensures UpToDate(After(s, Fail(w)), f)
    {
      assert UpToDate(s, f);
    }
  }

  lemma {:induction false} TurnsHold(file: File, steps: seq<Step>)
    requires file.deferredBumps == [] && OneAtATime(file, steps)
    ensures InTurn(RunSteps(Start(file), steps))
  {
    if steps != [] {
      hide InTurn, After, QueueIsNewest, NothingLost;
      var n := |steps| - 1;
      LastStep(file, steps);
      BeforePrefix(file, steps, n);
      TurnsHold(file, steps[..n]);
      BumpsNeverLost(file, steps);
      var s := Before(file, steps, n);
      match steps[n]
      case DeferOne(bump, io) => TurnDefers(s, bump, io);
      case ReadQueue(w, io) => TurnReads(s, w, io);
      case Land(w) => TurnLands(s, w);
      case Fail(w) => TurnFails(s, w);
      case ClearLanded(w, io) => TurnClears(s, w, io);
    } else {
      StartsInTurn(file);
    }
  }

  /** If writes take turns, the newest hash of each file is still queued or is what the chain ends with. */
  lemma NewestLandsLast(file: File, steps: seq<Step>)
    requires file.deferredBumps == [] && OneAtATime(file, steps)
    ensures var s := RunSteps(Start(file), steps);
            forall f :: f in s.newest ==>
              Bump(f, s.newest[f]) in s.file.deferredBumps || LastLanded(s.landed, f) == Some(s.newest[f])
  {
    hide RunSteps, LastLanded, OneAtATime;
    TurnsHold(file, steps);
    var s := RunSteps(Start(file), steps);
    assert forall f :: f in s.newest ==> UpToDate(s, f);
  }

  lemma StartsInTurn(file: File)
    requires file.deferredBumps == []
    ensures InTurn(Start(file))
  {
  }

  /** Two writes that overlap: the first reads the older bump and lands last. The newer one has landed and
      has left the queue, and the chain ends with the older. */
  lemma OlderLandsLast(file: File, f: Fid, x: Hash, y: Hash)
    requires file.deferredBumps == [] && x != y
    ensures var ok := Io(true, true);
            var s := RunSteps(Start(file), [DeferOne(Bump(f, x), ok), ReadQueue(1, ok), DeferOne(Bump(f, y), ok)]
                                           + [ReadQueue(2, ok), Land(2), ClearLanded(2, ok)]
                                           + [Land(1), ClearLanded(1, ok)]);
            && s.newest == map[f := y] && s.file.deferredBumps == []
            && s.landed == [[Bump(f, y)], [Bump(f, x)]] && LastLanded(s.landed, f) == Some(x)
  {
    hide RunSteps, After, LastLanded;
    var ok := Io(true, true);
    var s := Start(file);
    RunAppend(s, [DeferOne(Bump(f, x), ok), ReadQueue(1, ok), DeferOne(Bump(f, y), ok)]
                 + [ReadQueue(2, ok), Land(2), ClearLanded(2, ok)], [Land(1), ClearLanded(1, ok)]);
    RunAppend(s, [DeferOne(Bump(f, x), ok), ReadQueue(1, ok), DeferOne(Bump(f, y), ok)],
              [ReadQueue(2, ok), Land(2), ClearLanded(2, ok)]);
    RunThree(s, DeferOne(Bump(f, x), ok), ReadQueue(1, ok), DeferOne(Bump(f, y), ok));
    var a := TwoDeferred(s, f, x, y);
    RunThree(a, ReadQueue(2, ok), Land(2), ClearLanded(2, ok));
    var b := After(After(After(a, ReadQueue(2, ok)), Land(2)), ClearLanded(2, ok));
    QuietWriteDone(a, 2, ok);
    RunTwo(b, Land(1), ClearLanded(1, ok));
    LateLanding(b, 1, Bump(f, x), ok);
  }

  lemma QuietWriteDone(s: State, w: nat, io: Io)
    requires w !in s.out && s.toClear == map[] && io == Io(true, true)
    ensures var t := After(After(After(s, ReadQueue(w, io)), Land(w)), ClearLanded(w, io));
            && t.file.deferredBumps == [] && t.landed == s.landed + [s.file.deferredBumps]
            && t.out == s.out && t.toClear == map[] && t.newest == s.newest
  {
    hide Do;
    QuietWriteEmptiesQueue(s, w, io);
  }

  lemma LateLanding(s: State, w: nat, late: Bump, io: Io)
    requires s.file.deferredBumps == [] && s.out == map[w := [late]] && s.toClear == map[]
    ensures var t := After(After(s, Land(w)), ClearLanded(w, io));
            && t.file.deferredBumps == [] && t.landed == s.landed + [[late]] && t.newest == s.newest
            && LastLanded(t.landed, late.fid) == Some(late.headerHash)
  {
    LastLandedSnoc(s.landed, [late], late.fid);
  }

  lemma RunThree(s: State, a: Step, b: Step, c: Step)
    ensures RunSteps(s, [a, b, c]) == After(After(After(s, a), b), c)
  {
    assert [a, b, c] == [a, b] + [c];
    RunAppend(s, [a, b], [c]);
    RunTwo(s, a, b);
    RunOne(After(After(s, a), b), c);
  }

  lemma TwoDeferred(s: State, f: Fid, x: Hash, y: Hash) returns (t: State)
    requires s.file.deferredBumps == [] && s.out == map[] && s.toClear == map[] && s.newest == map[] && x != y
    ensures var ok := Io(true, true);
            t == After(After(After(s, DeferOne(Bump(f, x), ok)), ReadQueue(1, ok)), DeferOne(Bump(f, y), ok))
    ensures t.file.deferredBumps == [Bump(f, y)] && t.out == map[1 := [Bump(f, x)]] && t.toClear == map[]
    ensures t.landed == s.landed && t.newest == map[f := y]
  {
    var ok := Io(true, true);
    var a := After(After(s, DeferOne(Bump(f, x), ok)), ReadQueue(1, ok));
    assert a.file.deferredBumps == [Bump(f, x)];
    RetainNone(a.file.deferredBumps, (b: Bump) => b.fid != f);
    t := After(a, DeferOne(Bump(f, y), ok));
  }

  /** The registry refuses a bump to the header it already has, and a batch lands whole or not at all. */
  ghost predicate RegistryTakes(landed: seq<seq<Bump>>, batch: seq<Bump>) {
    forall b :: b in batch ==> LastLanded(landed, b.fid) != Some(b.headerHash)
  }

  /** When a batch landed but clearing it fails, the next write that reads the queue carries the same bumps,
      and the registry refuses the whole of it. */
  lemma FailedClearBlocksWrite(s: State, v: nat, w: nat, io: Io)
    requires v !in s.out && v !in s.toClear && w !in s.out && w !in s.toClear
    requires QueueIsNewest(s) && s.file.deferredBumps != [] && !(io.loads && io.stores)
    ensures var ok := Io(true, true);
            var t := After(After(After(s, ReadQueue(v, ok)), Land(v)), ClearLanded(v, io));
            var batch := After(t, ReadQueue(w, ok)).out[w];
            batch == s.file.deferredBumps && !RegistryTakes(t.landed, batch)
  {
    var q := s.file.deferredBumps;
    var b := q[0];
    HashInBatch(q, b.fid);
    LastLandedSnoc(s.landed, q, b.fid);
    assert b in q;
  }

  // ---------------------------------------------------------------- the link

  datatype Call = BumpVersion(fid: Fid, headerHash: Hash) | Asked(about: nat)

  datatype WriteError = NoWriter | NotTaken | Unqueued(error: Error)

  datatype Sent = SentNow | Queued | NotSent(error: WriteError)

  function Calls(bumps: seq<Bump>): (c: seq<Call>)
    ensures |c| == |bumps|
    ensures forall i :: 0 <= i < |c| ==> c[i] == BumpVersion(bumps[i].fid, bumps[i].headerHash)
  {
    seq(|bumps|, i requires 0 <= i < |bumps| => BumpVersion(bumps[i].fid, bumps[i].headerHash))
  }

  function Deferrals(meanwhile: seq<(Bump, Io)>): (steps: seq<Step>)
    ensures |steps| == |meanwhile|
  {
    seq(|meanwhile|, i requires 0 <= i < |meanwhile| => DeferOne(meanwhile[i].0, meanwhile[i].1))
  }

  lemma {:induction false} RunAppend(s: State, a: seq<Step>, b: seq<Step>)
    ensures RunSteps(s, a + b) == RunSteps(RunSteps(s, a), b)
    decreases |b|
  {
    if b == [] {
      assert a + b == a;
    } else {
      RunAppend(s, a, b[..|b| - 1]);
      assert (a + b)[..|a + b| - 1] == a + b[..|b| - 1];
    }
  }

  lemma RunNone(s: State)
    ensures RunSteps(s, []) == s
  {
  }

  lemma RunOne(s: State, step: Step)
    ensures RunSteps(s, [step]) == After(s, step)
  {
    assert [step][..0] == [];
  }

  lemma RunTwo(s: State, a: Step, b: Step)
    ensures RunSteps(s, [a, b]) == After(After(s, a), b)
  {
    assert [a, b] == [a] + [b];
    RunAppend(s, [a], [b]);
    RunOne(s, a);
    RunOne(After(s, a), b);
  }

  class ChainLink {
    const hasWriter: bool
    const defersSilentWrites: bool

    constructor (hasWriter: bool, defersSilentWrites: bool)
      ensures this.hasWriter == hasWriter && this.defersSilentWrites == defersSilentWrites
    {
      this.hasWriter, this.defersSilentWrites := hasWriter, defersSilentWrites;
    }

    /** `write`: what was waiting goes out in front of the call, as one batch. While it is out, other
        bumps may be deferred. The ledger ends as the steps above say it does. */
    method Write(ledger: Ledger, call: Call, lands: bool, meanwhile: seq<(Bump, Io)>, reading: Io, clearing: Io)
      returns (batch: seq<Call>, error: Option<WriteError>)
      modifies ledger
      ensures !hasWriter ==> error == Some(NoWriter) && batch == [] && ledger.disk == old(ledger.disk)
      ensures hasWriter ==>
                && batch == Calls(if reading.loads then old(ledger.disk).deferredBumps else []) + [call]
                && (forall i :: 0 <= i < |batch| - 1 ==>
                      var bump := old(ledger.disk).deferredBumps[i]; batch[i] == BumpVersion(bump.fid, bump.headerHash))
                && batch[|batch| - 1] == call
                && error == (if lands then None else Some(NotTaken))
                && ledger.disk
                   == RunSteps(Start(old(ledger.disk)), [ReadQueue(0, reading)] + Deferrals(meanwhile)
                          + if lands then [Land(0), ClearLanded(0, clearing)] else [Fail(0)]).file
    {
      hide Change, Retain;
      if !hasWriter {
        return [], Some(NoWriter);
      }
      var waiting := ledger.DeferredBumps(reading);
      batch := Calls(waiting);
      batch := batch + [call];
      ghost var s := After(Start(ledger.disk), ReadQueue(0, reading));
      ghost var last := if lands then [Land(0), ClearLanded(0, clearing)] else [Fail(0)];
      RunOne(Start(ledger.disk), ReadQueue(0, reading));
      RunAppend(Start(ledger.disk), [ReadQueue(0, reading)], Deferrals(meanwhile));
      RunAppend(Start(ledger.disk), [ReadQueue(0, reading)] + Deferrals(meanwhile), last);
      OthersDefer(ledger, meanwhile, s);
      s := RunSteps(s, Deferrals(meanwhile));
      hide RunSteps, Do;
      if !lands {
        RunOne(s, Fail(0));
        return batch, Some(NotTaken);
      }
      RunTwo(s, Land(0), ClearLanded(0, clearing));
      if waiting != [] {
        var r := ledger.ClearDeferredBumps(waiting, clearing);
      }
      error := None;
    }

    /** What other tasks defer while a batch is out. */
    method OthersDefer(ledger: Ledger, meanwhile: seq<(Bump, Io)>, ghost s: State)
      requires s.file == ledger.disk
      modifies ledger
      ensures var t := RunSteps(s, Deferrals(meanwhile));
              t.file == ledger.disk && t.out == s.out && t.toClear == s.toClear
    {
      hide RunSteps, Do;
      ghost var t := s;
      RunNone(s);
      var i := 0;
      while i < |meanwhile|
        invariant 0 <= i <= |meanwhile|
        invariant t == RunSteps(s, Deferrals(meanwhile)[..i])
        invariant t.file == ledger.disk && t.out == s.out && t.toClear == s.toClear
      {
        var r := ledger.DeferBump(meanwhile[i].0, meanwhile[i].1);
        var step := DeferOne(meanwhile[i].0, meanwhile[i].1);
        RunAppend(s, Deferrals(meanwhile)[..i], [step]);
        RunOne(t, step);
        assert Deferrals(meanwhile)[..i + 1] == Deferrals(meanwhile)[..i] + [step];
        t := After(t, step);
        i := i + 1;
      }
      assert Deferrals(meanwhile)[..i] == Deferrals(meanwhile);
    }

    /** `bump_version`: sent now, or queued when every signature on this device shows a prompt. */
    method BumpNow(ledger: Ledger, bump: Bump, lands: bool, io: Io) returns (sent: Sent)
      modifies ledger
      ensures sent.Queued? <==> hasWriter && defersSilentWrites && io.loads && io.stores
      ensures sent.SentNow? <==> hasWriter && !defersSilentWrites && lands
      ensures ledger.disk
              == if hasWriter && defersSilentWrites then Do(old(ledger.disk), Defer(bump), io).0 else old(ledger.disk)
    {
      if !hasWriter {
        return NotSent(NoWriter);
      }
      if defersSilentWrites {
        var r := ledger.DeferBump(bump, io);
        return if r.Refused? then NotSent(Unqueued(r.error)) else Queued;
      }
      sent := if lands then SentNow else NotSent(NotTaken);
    }
  }
}
