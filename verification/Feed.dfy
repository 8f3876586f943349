/** What the chain says about this machine's files, read in block ranges behind a stored cursor: the
    watcher (`crates/zbacs-chain/src/watcher.rs`) and `merge_events`
    (`apps/agent/src-tauri/src/chain.rs`). */
module Feed {
  import opened Bytes
  import opened Ledger
  import AuditLog

  datatype ChainEvent =
    | Granted(grantId: GrantId, fid: Fid, permission: nat, expiry: u64)
    | Revoked(grantId: GrantId, fid: Fid)
    | VersionBumped(fid: Fid, version: u32, headerHash: Hash)

  /** A log of the two contracts; noise is an unknown topic or one that does not decode. */
  datatype Log = Noise | Event(event: ChainEvent)

  /** The logs of each block, once and for all. */
  type Chain = nat -> seq<Log>

  /** The logs of the blocks from `from` up to but not including `until`. */
  function LogsIn(chain: Chain, from: nat, until: nat): seq<Log>
    decreases until
  {
    if until <= from then [] else LogsIn(chain, from, until - 1) + chain(until - 1)
  }

  function Decoded(logs: seq<Log>): seq<ChainEvent> {
    if logs == [] then []
    else Decoded(logs[..|logs| - 1]) + if logs[|logs| - 1].Event? then [logs[|logs| - 1].event] else []
  }

  function EventsIn(chain: Chain, from: nat, until: nat): seq<ChainEvent> {
    Decoded(LogsIn(chain, from, until))
  }

  lemma {:induction false} DecodedAppend(a: seq<Log>, b: seq<Log>)
    ensures Decoded(a + b) == Decoded(a) + Decoded(b)
  {
    if b == [] {
      assert a + b == a;
    } else {
      DecodedAppend(a, b[..|b| - 1]);
      assert (a + b)[..|a + b| - 1] == a + b[..|b| - 1];
    }
  }

  lemma {:induction false} LogsJoin(chain: Chain, from: nat, mid: nat, until: nat)
    requires from <= mid <= until
    ensures LogsIn(chain, from, until) == LogsIn(chain, from, mid) + LogsIn(chain, mid, until)
    decreases until
  {
    if mid < until {
      LogsJoin(chain, from, mid, until - 1);
    }
  }

  /** Consecutive ranges hold the events of the whole range. */
  lemma EventsJoin(chain: Chain, from: nat, mid: nat, until: nat)
    requires from <= mid <= until
    ensures EventsIn(chain, from, until) == EventsIn(chain, from, mid) + EventsIn(chain, mid, until)
  {
    LogsJoin(chain, from, mid, until);
    DecodedAppend(LogsIn(chain, from, mid), LogsIn(chain, mid, until));
  }

  class EventWatcher {
    const chain: Chain
    var nextBlock: nat

    constructor (chain: Chain, fromBlock: nat)
      ensures this.chain == chain && nextBlock == fromBlock
    {
      this.chain, nextBlock := chain, fromBlock;
    }

    /** `poll`: `head` is what the node says the newest block is, if it answers; `logsOk` whether it
        then hands out the logs. A failed poll reads the same range again next time. */
    method Poll(head: Option<nat>, logsOk: bool) returns (events: Option<seq<ChainEvent>>)
      modifies this
      ensures (nextBlock, events) == Polled(chain, old(nextBlock), head, logsOk)
    {
      if head.None? {
        return None;
      }
      if head.value < nextBlock {
        return Some([]);
      }
      if !logsOk {
        return None;
      }
      var logs := LogsIn(chain, nextBlock, head.value + 1);
      var found := [];
      for i := 0 to |logs|
        invariant found == Decoded(logs[..i])
      {
        assert logs[..i + 1][..i] == logs[..i];
        if logs[i].Event? {
          found := found + [logs[i].event];
        }
      }
      assert logs[..|logs|] == logs;
      nextBlock := head.value + 1;
      events := Some(found);
    }
  }

  function Polled(chain: Chain, next: nat, head: Option<nat>, logsOk: bool): (nat, Option<seq<ChainEvent>>) {
    if head.None? then (next, None)
    else if head.value < next then (next, Some([]))
    else if !logsOk then (next, None)
    else (head.value + 1, Some(EventsIn(chain, next, head.value + 1)))
  }

  // ---------------------------------------------------------------- merging into the record

  /** An entry of the record that came from the chain, without the time it was written. */
  datatype Line = Line(kind: AuditLog.Kind, fid: Fid, fileName: string, detail: AuditLog.Detail)

  function LineOf(e: ChainEvent, name: string): Line {
    match e
    case Granted(_, fid, permission, _) =>
      Line(AuditLog.Granted, fid, name, if permission == 2 then AuditLog.EditWord else AuditLog.ReadOnlyWord)
    case Revoked(_, fid) => Line(AuditLog.Revoked, fid, name, AuditLog.NoDetail)
    case VersionBumped(fid, version, _) => Line(AuditLog.Sealed, fid, name, AuditLog.VersionNumber(version))
  }

  /** What one merge meets: whether the cursor can be read, what the node answers, whether each
      look-up and each entry of the record succeeds, whether the process dies after so many events,
      and whether the cursor can be stored. */
  datatype Attempt = Attempt(
    cursorRead: bool, headFirst: Option<nat>, head: Option<nat>, logsOk: bool,
    finds: nat -> bool, appends: nat -> bool, diesAfter: Option<nat>, cursorIo: Io)

  datatype Merged = Added(n: nat) | Failed | Died

  /** What the first events leave in the record: a line for each whose file is known, found and
      written. */
  function Kept(files: map<Fid, Entry>, events: seq<ChainEvent>, a: Attempt): (lines: seq<Line>)
    ensures |lines| <= |events|
  {
    if events == [] then []
    else
      var n := |events| - 1;
      var e := events[n];
      Kept(files, events[..n], a)
      + if e.fid in files && a.finds(n) && a.appends(n) then [LineOf(e, files[e.fid].name)] else []
  }

  /** The block a merge reads from. */
  function From(file: File, a: Attempt): Option<nat> {
    if a.cursorRead && file.chainCursor.Some? then file.chainCursor else a.headFirst
  }

  function Merge(chain: Chain, file: File, lines: seq<Line>, a: Attempt): (File, seq<Line>, Merged) {
    match From(file, a)
    case None => (file, lines, Failed)
    case Some(from) =>
      match Polled(chain, from, a.head, a.logsOk)
      case (_, None) => (file, lines, Failed)
      case (next, Some(events)) =>
        if a.diesAfter.Some? && a.diesAfter.value <= |events| then
          (file, lines + Kept(file.files, events[..a.diesAfter.value], a), Died)
        else
          var (stored, reply) := Do(file, SetCursor(next), a.cursorIo);
          var kept := Kept(file.files, events, a);
          (stored, lines + kept, if reply.Done? then Added(Looked(file.files, events, a)) else Failed)
  }

  /** How many events were of a file that was found: what the merge reports as added. */
  function Looked(files: map<Fid, Entry>, events: seq<ChainEvent>, a: Attempt): nat {
    if events == [] then 0
    else
      var n := |events| - 1;
      Looked(files, events[..n], a) + if events[n].fid in files && a.finds(n) then 1 else 0
  }

  lemma KeptNone(files: map<Fid, Entry>, events: seq<ChainEvent>, a: Attempt)
    ensures Kept(files, events[..0], a) == [] && Looked(files, events[..0], a) == 0
  {
  }

  lemma KeptMore(files: map<Fid, Entry>, events: seq<ChainEvent>, a: Attempt, i: nat)
    requires i < |events|
    ensures var e := events[i];
            && Looked(files, events[..i + 1], a)
               == Looked(files, events[..i], a) + (if e.fid in files && a.finds(i) then 1 else 0)
            && Kept(files, events[..i + 1], a)
               == if e.fid in files && a.finds(i) && a.appends(i)
                  then Kept(files, events[..i], a) + [LineOf(e, files[e.fid].name)] else Kept(files, events[..i], a)
  {
    assert events[..i + 1][..i] == events[..i];
    assert Kept(files, events[..i], a) + [] == Kept(files, events[..i], a);
  }

  /** The chain's half of the record. */
  class Merger {
    const chain: Chain
    var lines: seq<Line>

    constructor (chain: Chain)
      ensures this.chain == chain && lines == []
    {
      this.chain, lines := chain, [];
    }

    /** `merge_events`. */
    method MergeEvents(ledger: Ledger, a: Attempt) returns (merged: Merged)
      modifies this, ledger
      ensures (ledger.disk, lines, merged) == Merge(chain, old(ledger.disk), old(lines), a)
    {
      var cursor := ledger.ChainCursor(Io(a.cursorRead, true));
      var from;
      if cursor.Some? {
        from := cursor.value;
      } else {
        if a.headFirst.None? {
          return Failed;
        }
        from := a.headFirst.value;
      }
      var watcher := new EventWatcher(chain, from);
      var polled := watcher.Poll(a.head, a.logsOk);
      if polled.None? {
        return Failed;
      }
      var died, added := RecordAll(ledger, polled.value, a);
      if died {
        return Died;
      }
      var r := ledger.SetChainCursor(watcher.nextBlock, a.cursorIo);
      merged := if r.Done? then Added(added) else Failed;
    }

    method RecordAll(ledger: Ledger, events: seq<ChainEvent>, a: Attempt) returns (died: bool, added: nat)
      modifies this
      ensures died <==> a.diesAfter.Some? && a.diesAfter.value <= |events|
      ensures lines == old(lines) + Kept(ledger.disk.files, if died then events[..a.diesAfter.value] else events, a)
      ensures !died ==> added == Looked(ledger.disk.files, events, a)
    {
      KeptNone(ledger.disk.files, events, a);
      hide Kept, Looked;
      added := 0;
      for i := 0 to |events|
        invariant lines == old(lines) + Kept(ledger.disk.files, events[..i], a)
        invariant added == Looked(ledger.disk.files, events[..i], a)
        invariant a.diesAfter.Some? ==> i <= a.diesAfter.value
      {
        if a.diesAfter == Some(i) {
          return true, added;
        }
        KeptMore(ledger.disk.files, events, a, i);
        var e := events[i];
        var entry := ledger.Find(e.fid, Io(a.finds(i), true));
        if entry.Some? {
          if a.appends(i) {
            lines := lines + [LineOf(e, entry.value.name)];
          }
          added := added + 1;
        }
      }
      assert events[..|events|] == events;
      died := a.diesAfter == Some(|events|);
    }
  }

  // ---------------------------------------------------------------- whole runs

  /** One thing that happens to the ledger: a merge, or any other operation on it. */
  datatype Act = Look(a: Attempt) | Meanwhile(op: Op, io: Io)

  function RunActs(chain: Chain, file: File, lines: seq<Line>, acts: seq<Act>): (File, seq<Line>) {
    if acts == [] then (file, lines)
    else
      var (f, l) := RunActs(chain, file, lines, acts[..|acts| - 1]);
      match acts[|acts| - 1]
      case Look(a) => (Merge(chain, f, l, a).0, Merge(chain, f, l, a).1)
      case Meanwhile(op, io) => (Do(f, op, io).0, l)
  }

  /** What a line says, apart from the name the file had when it was written. */
  datatype Fact = Fact(kind: AuditLog.Kind, detail: AuditLog.Detail)

  function FactOf(line: Line): Fact {
    Fact(line.kind, line.detail)
  }

  /** What the record says about one file. */
  function About(lines: seq<Line>, f: Fid): seq<Fact> {
    if lines == [] then []
    else About(lines[..|lines| - 1], f) + if lines[|lines| - 1].fid == f then [FactOf(lines[|lines| - 1])] else []
  }

  /** What the events of one file should leave in the record. */
  function FactsFor(f: Fid, events: seq<ChainEvent>): seq<Fact> {
    if events == [] then []
    else
      var e := events[|events| - 1];
      FactsFor(f, events[..|events| - 1]) + if e.fid == f then [FactOf(LineOf(e, ""))] else []
  }

  /** What a merge added to the record. */
  function Piece(chain: Chain, file: File, lines: seq<Line>, a: Attempt): seq<Line> {
    var after := Merge(chain, file, lines, a).1;
    if |after| >= |lines| then after[|lines|..] else []
  }

  /** What was said about one file by merges that did not get their cursor stored. */
  function Repeats(chain: Chain, file: File, lines: seq<Line>, acts: seq<Act>, f: Fid): seq<Fact> {
    if acts == [] then []
    else
      var n := |acts| - 1;
      var (file', lines') := RunActs(chain, file, lines, acts[..n]);
      Repeats(chain, file, lines, acts[..n], f)
      + if acts[n].Look? && !Merge(chain, file', lines', acts[n].a).2.Added?
        then About(Piece(chain, file', lines', acts[n].a), f) else []
  }

  /** The cursor, the look-ups and the record's file work whenever they are used; nothing else moves the
      cursor. */
  ghost predicate Works(act: Act) {
    match act
    case Look(a) => a.cursorRead && forall i :: a.finds(i) && a.appends(i)
    case Meanwhile(op, io) => !op.SetCursor?
  }

  function Cursor(file: File): nat {
    if file.chainCursor.Some? then file.chainCursor.value else 0
  }

  ghost predicate Tracks(file: File, f: Fid) {
    f in file.files && file.chainCursor.Some?
  }

  lemma {:induction false} AboutAppend(a: seq<Line>, b: seq<Line>, f: Fid)
    ensures About(a + b, f) == About(a, f) + About(b, f)
  {
    if b == [] {
      assert a + b == a;
    } else {
      AboutAppend(a, b[..|b| - 1], f);
      assert (a + b)[..|a + b| - 1] == a + b[..|b| - 1];
    }
  }

  lemma {:induction false} FactsForAppend(f: Fid, a: seq<ChainEvent>, b: seq<ChainEvent>)
    ensures FactsFor(f, a + b) == FactsFor(f, a) + FactsFor(f, b)
  {
    if b == [] {
      assert a + b == a;
    } else {
      FactsForAppend(f, a, b[..|b| - 1]);
      assert (a + b)[..|a + b| - 1] == a + b[..|b| - 1];
    }
  }

  lemma {:induction false} KeptAbout(files: map<Fid, Entry>, events: seq<ChainEvent>, a: Attempt, f: Fid)
    requires f in files && Works(Look(a))
    ensures About(Kept(files, events, a), f) == FactsFor(f, events)
  {
    if events != [] {
      var n := |events| - 1;
      KeptAbout(files, events[..n], a, f);
      var last := if events[n].fid in files then [LineOf(events[n], files[events[n].fid].name)] else [];
      AboutAppend(Kept(files, events[..n], a), last, f);
      AboutOne(last, f);
    }
  }

  lemma AboutOne(last: seq<Line>, f: Fid)
    requires |last| <= 1
    ensures About(last, f) == if |last| == 1 && last[0].fid == f then [FactOf(last[0])] else []
  {
    if |last| == 1 {
      assert last[..0] == [];
    }
  }

  lemma MeanwhileKeeps(file: File, op: Op, io: Io, f: Fid)
    requires Tracks(file, f) && Works(Meanwhile(op, io))
    ensures Tracks(Do(file, op, io).0, f) && Do(file, op, io).0.chainCursor == file.chainCursor
  {
  }

  lemma MergeWrites(chain: Chain, file: File, lines: seq<Line>, a: Attempt)
    ensures var (after, more, merged) := Merge(chain, file, lines, a);
            && more == lines + Piece(chain, file, lines, a)
            && (merged.Added? ==>
                  && From(file, a).Some? && Polled(chain, From(file, a).value, a.head, a.logsOk).1.Some?
                  && Piece(chain, file, lines, a)
                     == Kept(file.files, Polled(chain, From(file, a).value, a.head, a.logsOk).1.value, a))
  {
    hide Kept, EventsIn, Looked;
  }

  /** One merge that works: it starts at the cursor; if it ends well the cursor has moved to the end
      of the range it read and the record has the lines of that range; otherwise the cursor stands
      and the record has a first part of those lines. */
  lemma MergeStep(chain: Chain, file: File, lines: seq<Line>, a: Attempt, f: Fid)
    requires Tracks(file, f) && Works(Look(a))
    ensures var (after, more, merged) := Merge(chain, file, lines, a);
            var from := file.chainCursor.value;
            && Tracks(after, f) && more == lines + Piece(chain, file, lines, a)
            && (merged.Added? ==>
                  && from <= after.chainCursor.value
                  && About(Piece(chain, file, lines, a), f)
                     == FactsFor(f, EventsIn(chain, from, after.chainCursor.value)))
            && (!merged.Added? ==> after.chainCursor == file.chainCursor)
  {
    hide Kept, Piece, EventsIn, About, FactsFor;
    var (after, more, merged) := Merge(chain, file, lines, a);
    var from := file.chainCursor.value;
    MergeWrites(chain, file, lines, a);
    if merged.Added? {
      KeptAbout(file.files, Polled(chain, from, a.head, a.logsOk).1.value, a, f);
      EventsEmpty(chain, from);
    }
  }

  lemma EventsEmpty(chain: Chain, from: nat)
    ensures EventsIn(chain, from, from) == []
  {
  }

  lemma LookRecorded(chain: Chain, file: File, lines: seq<Line>, a: Attempt, f: Fid, first: nat)
    requires Tracks(file, f) && Works(Look(a)) && first <= Cursor(file)
    ensures var (after, more, merged) := Merge(chain, file, lines, a);
            var piece := About(Piece(chain, file, lines, a), f);
            && Tracks(after, f) && Cursor(file) <= Cursor(after)
            && About(more, f) == About(lines, f) + piece
            && (if merged.Added? then
                  FactsFor(f, EventsIn(chain, first, Cursor(after)))
                  == FactsFor(f, EventsIn(chain, first, Cursor(file))) + piece
                else after.chainCursor == file.chainCursor)
  {
    hide Merge, Piece, About, FactsFor, EventsIn;
    var (after, more, merged) := Merge(chain, file, lines, a);
    MergeStep(chain, file, lines, a, f);
    AboutAppend(lines, Piece(chain, file, lines, a), f);
    if merged.Added? {
      var mid, end := Cursor(file), Cursor(after);
      EventsJoin(chain, first, mid, end);
      FactsForAppend(f, EventsIn(chain, first, mid), EventsIn(chain, mid, end));
    }
  }

  /** Now the lines are those from before, each due line once more, and the repeats; with no
      repeats, the due lines follow the old ones in order. */
  ghost predicate DueOnce(now: seq<Fact>, before: seq<Fact>, due: seq<Fact>, again: seq<Fact>) {
    && multiset(now) == multiset(before) + multiset(due) + multiset(again)
    && (again == [] ==> now == before + due)
  }

  lemma DueOnceMore(now: seq<Fact>, before: seq<Fact>, due: seq<Fact>, again: seq<Fact>, piece: seq<Fact>)
    requires DueOnce(now, before, due, again)
    ensures DueOnce(now + piece, before, due + piece, again) && DueOnce(now + piece, before, due, again + piece)
  {
    if again == [] {
      assert before + due + piece == before + (due + piece);
      if piece == [] {
        assert now + piece == now;
      }
    }
  }

  lemma LastLook(chain: Chain, file: File, lines: seq<Line>, acts: seq<Act>, a: Attempt, f: Fid)
    requires acts != [] && acts[|acts| - 1] == Look(a)
    ensures var n := |acts| - 1;
            var (mid, soFar) := RunActs(chain, file, lines, acts[..n]);
            var (after, more, merged) := Merge(chain, mid, soFar, a);
            var again := Repeats(chain, file, lines, acts[..n], f);
            && RunActs(chain, file, lines, acts) == (after, more)
            && Repeats(chain, file, lines, acts, f)
               == if merged.Added? then again else again + About(Piece(chain, mid, soFar, a), f)
  {
    hide Merge, Piece, About;
    assert forall s: seq<Fact> :: s + [] == s;
  }

  lemma LastMeanwhile(chain: Chain, file: File, lines: seq<Line>, acts: seq<Act>, op: Op, io: Io, f: Fid)
    requires acts != [] && acts[|acts| - 1] == Meanwhile(op, io)
    ensures var n := |acts| - 1;
            var (mid, soFar) := RunActs(chain, file, lines, acts[..n]);
            && RunActs(chain, file, lines, acts) == (Do(mid, op, io).0, soFar)
            && Repeats(chain, file, lines, acts, f) == Repeats(chain, file, lines, acts[..n], f)
  {
    hide Merge, Piece, About, Do;
    assert forall s: seq<Fact> :: s + [] == s;
  }

  /** From a stored cursor on, through any mix of failed, empty and cut-off merges and restarts, the
      record holds the event lines of a file exactly once for every event between that cursor and
      the present one, in order, plus what merges wrote that did not get their cursor stored: those
      repeat lines, and nothing is skipped. */
  lemma {:induction false} EventsRecorded(chain: Chain, file: File, lines: seq<Line>, acts: seq<Act>, f: Fid)
    requires Tracks(file, f)
    requires forall i :: 0 <= i < |acts| ==> Works(acts[i])
    ensures var (after, more) := RunActs(chain, file, lines, acts);
            && Tracks(after, f) && Cursor(file) <= Cursor(after)
            && DueOnce(About(more, f), About(lines, f),
                       FactsFor(f, EventsIn(chain, Cursor(file), Cursor(after))),
                       Repeats(chain, file, lines, acts, f))
  {
    var from := Cursor(file);
    if acts == [] {
      EventsEmpty(chain, from);
      assert About(lines, f) + [] == About(lines, f);
    } else {
      hide Merge, Do, About, FactsFor, EventsIn, Piece, DueOnce, Works, RunActs, Repeats, Tracks;
      var n := |acts| - 1;
      EventsRecorded(chain, file, lines, acts[..n], f);
      assert Works(acts[n]);
      var (mid, soFar) := RunActs(chain, file, lines, acts[..n]);
      match acts[n]
      case Meanwhile(op, io) =>
        MeanwhileKeeps(mid, op, io, f);
        LastMeanwhile(chain, file, lines, acts, op, io, f);
      case Look(a) =>
        LookRecorded(chain, mid, soFar, a, f, from);
        LastLook(chain, file, lines, acts, a, f);
        DueOnceMore(About(soFar, f), About(lines, f), FactsFor(f, EventsIn(chain, from, Cursor(mid))),
                    Repeats(chain, file, lines, acts[..n], f), About(Piece(chain, mid, soFar, a), f));
    }
  }

  // ---------------------------------------------------------------- which events are lost

  /** The place of a log on the chain: its block and its index there. */
  type Place = (nat, nat)

  predicate EventAt(chain: Chain, p: Place) {
    p.1 < |chain(p.0)| && chain(p.0)[p.1].Event?
  }

  predicate EventOf(chain: Chain, p: Place, f: Fid) {
    EventAt(chain, p) && chain(p.0)[p.1].event.fid == f
  }

  /** Where the events of one block stand. */
  function Indices(block: nat, logs: seq<Log>): seq<Place> {
    if logs == [] then []
    else
      var n := |logs| - 1;
      Indices(block, logs[..n]) + if logs[n].Event? then [(block, n)] else []
  }

  /** Where the events of a range stand, in order. */
  function PlacesIn(chain: Chain, from: nat, until: nat): seq<Place>
    decreases until
  {
    if until <= from then [] else PlacesIn(chain, from, until - 1) + Indices(until - 1, chain(until - 1))
  }

  lemma {:induction false} IndicesFit(block: nat, logs: seq<Log>)
    ensures var ps := Indices(block, logs);
            && |ps| == |Decoded(logs)|
            && (forall i :: 0 <= i < |ps| ==>
                  ps[i].0 == block && ps[i].1 < |logs| && logs[ps[i].1].Event?
                  && Decoded(logs)[i] == logs[ps[i].1].event)
            && (forall i, j :: 0 <= i < j < |ps| ==> ps[i].1 < ps[j].1)
            && forall k :: 0 <= k < |logs| && logs[k].Event? ==> (block, k) in ps
  {
    if logs != [] {
      var n := |logs| - 1;
      IndicesFit(block, logs[..n]);
      var ps, before := Indices(block, logs), Indices(block, logs[..n]);
      assert forall k :: 0 <= k < n ==> logs[..n][k] == logs[k];
      forall k | 0 <= k < |logs| && logs[k].Event?
        ensures (block, k) in ps
      {
        if k < n {
          assert (block, k) in before;
        } else {
          assert ps[|before|] == (block, k);
        }
      }
    }
  }

  /** These are the places of these events, each once, and all there are in the range. */
  ghost predicate Fit(chain: Chain, ps: seq<Place>, events: seq<ChainEvent>, from: nat, until: nat) {
    && |ps| == |events|
    && (forall i :: 0 <= i < |ps| ==> FitsAt(chain, ps[i], events[i], from, until))
    && (forall i, j :: 0 <= i < j < |ps| ==> ps[i] != ps[j])
    && forall p: Place :: from <= p.0 < until && EventAt(chain, p) ==> p in ps
  }

  ghost predicate FitsAt(chain: Chain, p: Place, e: ChainEvent, from: nat, until: nat) {
    from <= p.0 < until && EventAt(chain, p) && e == chain(p.0)[p.1].event
  }

  ghost predicate PlacesFit(chain: Chain, from: nat, until: nat) {
    Fit(chain, PlacesIn(chain, from, until), EventsIn(chain, from, until), from, until)
  }

  lemma FitJoin(chain: Chain, ps: seq<Place>, es: seq<ChainEvent>, qs: seq<Place>, fs: seq<ChainEvent>,
                from: nat, mid: nat, until: nat)
    requires from <= mid <= until && Fit(chain, ps, es, from, mid) && Fit(chain, qs, fs, mid, until)
    ensures Fit(chain, ps + qs, es + fs, from, until)
  {
    hide EventAt;
    var rs, gs := ps + qs, es + fs;
    forall i | 0 <= i < |rs|
      ensures FitsAt(chain, rs[i], gs[i], from, until)
    {
      if i < |ps| {
        assert FitsAt(chain, ps[i], es[i], from, mid);
      } else {
        assert FitsAt(chain, qs[i - |ps|], fs[i - |ps|], mid, until);
      }
    }
    forall i, j | 0 <= i < j < |rs|
      ensures rs[i] != rs[j]
    {
      if i < |ps| <= j {
        assert FitsAt(chain, ps[i], es[i], from, mid) && FitsAt(chain, qs[j - |ps|], fs[j - |ps|], mid, until);
      }
    }
  }

  lemma BlockFits(chain: Chain, block: nat)
    ensures Fit(chain, Indices(block, chain(block)), Decoded(chain(block)), block, block + 1)
  {
    hide Indices, Decoded;
    IndicesFit(block, chain(block));
    var ps := Indices(block, chain(block));
    forall p: Place | block <= p.0 < block + 1 && EventAt(chain, p)
      ensures p in ps
    {
      assert p == (block, p.1);
    }
  }

  /** The places of a range are those of its events, each once, in the order they are read. */
  lemma {:induction false} PlacesHold(chain: Chain, from: nat, until: nat)
    ensures PlacesFit(chain, from, until)
    decreases until
  {
    if until > from {
      hide Fit, Indices, Decoded;
      PlacesHold(chain, from, until - 1);
      BlockFits(chain, until - 1);
      DecodedAppend(LogsIn(chain, from, until - 1), chain(until - 1));
      FitJoin(chain, PlacesIn(chain, from, until - 1), EventsIn(chain, from, until - 1),
              Indices(until - 1, chain(until - 1)), Decoded(chain(until - 1)), from, until - 1, until);
    }
  }

  /** The places whose events a merge that read them writes down. */
  function KeptPlaces(files: map<Fid, Entry>, events: seq<ChainEvent>, places: seq<Place>, a: Attempt)
    : (kept: seq<Place>)
    requires |places| == |events|
    ensures |kept| <= |places|
  {
    if events == [] then []
    else
      var n := |events| - 1;
      KeptPlaces(files, events[..n], places[..n], a)
      + if events[n].fid in files && a.finds(n) && a.appends(n) then [places[n]] else []
  }

  /** A line is written for an event exactly if its file is known and its look-up and its append work. */
  lemma {:induction false} KeptExactly(files: map<Fid, Entry>, events: seq<ChainEvent>, places: seq<Place>, a: Attempt,
                                       p: Place)
    requires |places| == |events| && forall i, j :: 0 <= i < j < |places| ==> places[i] != places[j]
    ensures p in KeptPlaces(files, events, places, a) <==>
            exists i :: 0 <= i < |places| && places[i] == p && events[i].fid in files && a.finds(i) && a.appends(i)
  {
    if events != [] {
      var n := |events| - 1;
      KeptExactly(files, events[..n], places[..n], a, p);
      assert forall i :: 0 <= i < n ==> places[..n][i] == places[i] && events[..n][i] == events[i];
    }
  }

  /** The lines a merge writes are the lines of those places, one for one. */
  lemma {:induction false} KeptLines(chain: Chain, files: map<Fid, Entry>, events: seq<ChainEvent>, places: seq<Place>,
                                     a: Attempt)
    requires |places| == |events|
    requires forall i :: 0 <= i < |places| ==>
               EventAt(chain, places[i]) && events[i] == chain(places[i].0)[places[i].1].event
    ensures var kept, ps := Kept(files, events, a), KeptPlaces(files, events, places, a);
            && |kept| == |ps|
            && forall i :: 0 <= i < |ps| ==>
                 && EventAt(chain, ps[i]) && var e := chain(ps[i].0)[ps[i].1].event;
                 e.fid in files && kept[i] == LineOf(e, files[e.fid].name)
  {
    if events != [] {
      var n := |events| - 1;
      KeptLines(chain, files, events[..n], places[..n], a);
    }
  }

  /** Where the events stand that a merge ending well has written down. */
  function WrittenAt(chain: Chain, file: File, a: Attempt): seq<Place> {
    match From(file, a)
    case None => []
    case Some(from) =>
      var next := Polled(chain, from, a.head, a.logsOk).0;
      if |PlacesIn(chain, from, next)| != |EventsIn(chain, from, next)| then []
      else KeptPlaces(file.files, EventsIn(chain, from, next), PlacesIn(chain, from, next), a)
  }

  lemma MergeReads(chain: Chain, file: File, lines: seq<Line>, a: Attempt)
    requires Merge(chain, file, lines, a).2.Added?
    ensures From(file, a).Some?
    ensures var from := From(file, a).value;
            var next := Polled(chain, from, a.head, a.logsOk).0;
            && from <= next && Merge(chain, file, lines, a).0 == file.(chainCursor := Some(next))
            && Piece(chain, file, lines, a) == Kept(file.files, EventsIn(chain, from, next), a)
  {
    hide Kept, Piece, EventsIn, Looked;
    MergeWrites(chain, file, lines, a);
    EventsEmpty(chain, From(file, a).value);
  }

  lemma FitMeans(chain: Chain, ps: seq<Place>, events: seq<ChainEvent>, from: nat, until: nat)
    requires Fit(chain, ps, events, from, until)
    ensures |ps| == |events|
    ensures forall i :: 0 <= i < |ps| ==> EventAt(chain, ps[i]) && events[i] == chain(ps[i].0)[ps[i].1].event
  {
    assert forall i :: 0 <= i < |ps| ==> FitsAt(chain, ps[i], events[i], from, until);
  }

  /** What a merge that ends well adds to the record is one line for each place it has written. */
  lemma PieceIsWritten(chain: Chain, file: File, lines: seq<Line>, a: Attempt)
    requires Merge(chain, file, lines, a).2.Added?
    ensures var piece, ps := Piece(chain, file, lines, a), WrittenAt(chain, file, a);
            && |piece| == |ps|
            && forall i :: 0 <= i < |ps| ==>
                 && EventAt(chain, ps[i]) && var e := chain(ps[i].0)[ps[i].1].event;
                 e.fid in file.files && piece[i] == LineOf(e, file.files[e.fid].name)
  {
    hide Merge, Piece, Kept, KeptPlaces, PlacesIn, EventsIn, Polled;
    MergeReads(chain, file, lines, a);
    var from := From(file, a).value;
    var next := Polled(chain, from, a.head, a.logsOk).0;
    PlacesHold(chain, from, next);
    FitMeans(chain, PlacesIn(chain, from, next), EventsIn(chain, from, next), from, next);
    KeptLines(chain, file.files, EventsIn(chain, from, next), PlacesIn(chain, from, next), a);
  }

  /** A merge loses an event of a file: the cursor passes it and no line is written for it. */
  ghost predicate Loses(chain: Chain, file: File, lines: seq<Line>, a: Attempt, f: Fid, p: Place) {
    && EventOf(chain, p, f) && p !in WrittenAt(chain, file, a)
    && Cursor(file) <= p.0 < Cursor(Merge(chain, file, lines, a).0)
  }

  /** The event stands before the block that was taken for a first look's, the cursor being unreadable. */
  ghost predicate Overlooked(file: File, a: Attempt, p: Place) {
    !a.cursorRead && a.headFirst.Some? && Cursor(file) <= p.0 < a.headFirst.value
  }

  /** The event was read, but its look-up or its append failed. */
  ghost predicate Dropped(chain: Chain, file: File, a: Attempt, p: Place) {
    && From(file, a).Some? && var from := From(file, a).value;
    var places := PlacesIn(chain, from, Polled(chain, from, a.head, a.logsOk).0);
    exists i :: 0 <= i < |places| && places[i] == p && !(a.finds(i) && a.appends(i))
  }

  /** A merge that ends well loses an event of a recorded file, which no later merge then reads, exactly if
      the cursor could not be read and the event stands between it and the node's newest block, or the
      event's look-up or append failed. */
  lemma LosesExactly(chain: Chain, file: File, lines: seq<Line>, a: Attempt, f: Fid, p: Place)
    requires Tracks(file, f) && Merge(chain, file, lines, a).2.Added?
    requires EventOf(chain, p, f) && Cursor(file) <= p.0
    ensures Loses(chain, file, lines, a, f, p) <==> Overlooked(file, a, p) || Dropped(chain, file, a, p)
  {
    hide Merge, Kept, KeptPlaces, PlacesIn, EventsIn, Polled;
    MergeReads(chain, file, lines, a);
    var from := From(file, a).value;
    var next := Polled(chain, from, a.head, a.logsOk).0;
    PlacesHold(chain, from, next);
    FitMeans(chain, PlacesIn(chain, from, next), EventsIn(chain, from, next), from, next);
    assert forall i :: 0 <= i < |PlacesIn(chain, from, next)| ==>
      FitsAt(chain, PlacesIn(chain, from, next)[i], EventsIn(chain, from, next)[i], from, next);
    KeptExactly(file.files, EventsIn(chain, from, next), PlacesIn(chain, from, next), a, p);
    var places := PlacesIn(chain, from, next);
    if from <= p.0 < next {
      assert p in places;
    }
  }

  /** Act k is a merge that ended well. */
  ghost predicate EndedWell(chain: Chain, file: File, lines: seq<Line>, acts: seq<Act>, k: nat) {
    && k < |acts| && acts[k].Look?
    && var (f, l) := RunActs(chain, file, lines, acts[..k]);
    Merge(chain, f, l, acts[k].a).2.Added?
  }

  /** Act k wrote this place down. */
  ghost predicate WrittenBy(chain: Chain, file: File, lines: seq<Line>, acts: seq<Act>, k: nat, p: Place) {
    && EndedWell(chain, file, lines, acts, k)
    && p in WrittenAt(chain, RunActs(chain, file, lines, acts[..k]).0, acts[k].a)
  }

  ghost predicate LostBy(chain: Chain, file: File, lines: seq<Line>, acts: seq<Act>, k: nat, f: Fid, p: Place) {
    && EndedWell(chain, file, lines, acts, k)
    && var (file', lines') := RunActs(chain, file, lines, acts[..k]);
    Loses(chain, file', lines', acts[k].a, f, p)
  }

  lemma OneActTracks(chain: Chain, file: File, lines: seq<Line>, act: Act, f: Fid)
    requires Tracks(file, f) && (act.Meanwhile? ==> !act.op.SetCursor?)
    ensures var after := match act
                         case Look(a) => Merge(chain, file, lines, a).0
                         case Meanwhile(op, io) => Do(file, op, io).0;
            && Tracks(after, f)
            && (after.chainCursor != file.chainCursor ==> act.Look? && Merge(chain, file, lines, act.a).2.Added?)
  {
    hide Kept, EventsIn, Looked;
  }

  /** In any run whatever, if no merge that ended well loses an event, then every event of a recorded file
      between the first cursor and the present one has been written down: nothing is skipped. */
  lemma {:induction false} NothingSkipped(chain: Chain, file: File, lines: seq<Line>, acts: seq<Act>, f: Fid, p: Place)
    requires Tracks(file, f) && EventOf(chain, p, f)
    requires forall i :: 0 <= i < |acts| && acts[i].Meanwhile? ==> !acts[i].op.SetCursor?
    requires forall k :: !LostBy(chain, file, lines, acts, k, f, p)
    requires Cursor(file) <= p.0
    ensures var after := RunActs(chain, file, lines, acts).0;
            Tracks(after, f) && (p.0 < Cursor(after) ==> exists k :: WrittenBy(chain, file, lines, acts, k, p))
  {
    if acts != [] {
      hide Merge, Do, WrittenAt, Tracks, EventOf, LostBy, WrittenBy, EndedWell;
      var n := |acts| - 1;
      ActsBefore(chain, file, lines, acts, f, p);
      NothingSkipped(chain, file, lines, acts[..n], f, p);
      var (mid, soFar) := RunActs(chain, file, lines, acts[..n]);
      OneActTracks(chain, mid, soFar, acts[n], f);
      if Cursor(mid) <= p.0 < Cursor(RunActs(chain, file, lines, acts).0) {
        LastWrites(chain, file, lines, acts, f, p);
      } else if p.0 < Cursor(mid) {
        var k: nat :| WrittenBy(chain, file, lines, acts[..n], k, p);
        assert WrittenBy(chain, file, lines, acts, k, p);
      }
    }
  }

  /** If the last act moves the cursor past an event and does not lose it, it writes it down. */
  lemma LastWrites(chain: Chain, file: File, lines: seq<Line>, acts: seq<Act>, f: Fid, p: Place)
    requires acts != [] && EventOf(chain, p, f) && !LostBy(chain, file, lines, acts, |acts| - 1, f, p)
    requires var (mid, soFar) := RunActs(chain, file, lines, acts[..|acts| - 1]);
             && Tracks(mid, f) && Cursor(mid) <= p.0 < Cursor(RunActs(chain, file, lines, acts).0)
             && (acts[|acts| - 1].Meanwhile? ==> !acts[|acts| - 1].op.SetCursor?)
    ensures WrittenBy(chain, file, lines, acts, |acts| - 1, p)
  {
    hide Merge, Do, WrittenAt, EventOf;
    var (mid, soFar) := RunActs(chain, file, lines, acts[..|acts| - 1]);
    OneActTracks(chain, mid, soFar, acts[|acts| - 1], f);
  }

  lemma ActsBefore(chain: Chain, file: File, lines: seq<Line>, acts: seq<Act>, f: Fid, p: Place)
    requires acts != []
    ensures var before := acts[..|acts| - 1];
            && (forall k: nat ::
                  WrittenBy(chain, file, lines, before, k, p) ==> WrittenBy(chain, file, lines, acts, k, p))
            && (forall k: nat ::
                  LostBy(chain, file, lines, before, k, f, p) ==> LostBy(chain, file, lines, acts, k, f, p))
  {
    hide Merge, WrittenAt, Loses, RunActs;
    assert forall k :: 0 <= k < |acts| - 1 ==> acts[..|acts| - 1][..k] == acts[..k];
  }

  /** Every merge can read the cursor, and nothing but merges moves it. */
  ghost predicate CursorWorks(acts: seq<Act>) {
    forall i :: 0 <= i < |acts| ==> if acts[i].Look? then acts[i].a.cursorRead else !acts[i].op.SetCursor?
  }

  /** A merge that read the cursor writes what stands from it on, and before where it moves it. */
  lemma WritesInRange(chain: Chain, file: File, lines: seq<Line>, a: Attempt, p: Place)
    requires file.chainCursor.Some? && a.cursorRead
    ensures var (after, more, merged) := Merge(chain, file, lines, a);
            && after.chainCursor.Some? && Cursor(file) <= Cursor(after)
            && (merged.Added? && p in WrittenAt(chain, file, a) ==> Cursor(file) <= p.0 < Cursor(after))
  {
    hide Kept, Looked, KeptPlaces, PlacesIn, EventsIn, Polled;
    if Merge(chain, file, lines, a).2.Added? {
      MergeReads(chain, file, lines, a);
      var from := From(file, a).value;
      var next := Polled(chain, from, a.head, a.logsOk).0;
      PlacesHold(chain, from, next);
      FitMeans(chain, PlacesIn(chain, from, next), EventsIn(chain, from, next), from, next);
      KeptExactly(file.files, EventsIn(chain, from, next), PlacesIn(chain, from, next), a, p);
      assert forall i :: 0 <= i < |PlacesIn(chain, from, next)| ==>
        FitsAt(chain, PlacesIn(chain, from, next)[i], EventsIn(chain, from, next)[i], from, next);
    }
  }

  lemma {:induction false} CursorGrows(chain: Chain, file: File, lines: seq<Line>, acts: seq<Act>, k: nat)
    requires file.chainCursor.Some? && CursorWorks(acts) && k <= |acts|
    ensures RunActs(chain, file, lines, acts[..k]).0.chainCursor.Some?
    ensures RunActs(chain, file, lines, acts).0.chainCursor.Some?
    ensures Cursor(RunActs(chain, file, lines, acts[..k]).0) <= Cursor(RunActs(chain, file, lines, acts).0)
    decreases |acts|, k
  {
    if k == |acts| {
      assert acts[..k] == acts;
      if acts != [] {
        CursorGrows(chain, file, lines, acts, |acts| - 1);
      }
    } else {
      hide Merge, Do, Cursor;
      var n := |acts| - 1;
      assert acts[..n][..k] == acts[..k];
      CursorGrows(chain, file, lines, acts[..n], k);
      var (mid, soFar) := RunActs(chain, file, lines, acts[..n]);
      match acts[n]
      case Look(a) => WritesInRange(chain, mid, soFar, a, (0, 0));
      case Meanwhile(op, io) => OthersKeepCursor(mid, op, io);
    }
  }

  lemma OthersKeepCursor(file: File, op: Op, io: Io)
    requires !op.SetCursor?
    ensures Do(file, op, io).0.chainCursor == file.chainCursor
  {
  }

  /** As long as the cursor can be read, nothing is written twice by merges that ended well, whatever
      look-ups and appends did. */
  lemma WrittenOnce(chain: Chain, file: File, lines: seq<Line>, acts: seq<Act>, j: nat, k: nat, p: Place)
    requires file.chainCursor.Some? && CursorWorks(acts)
    requires WrittenBy(chain, file, lines, acts, j, p) && WrittenBy(chain, file, lines, acts, k, p)
    ensures j == k
  {
    hide Merge, WrittenAt, Cursor;
    if j < k {
      WrittenLater(chain, file, lines, acts, j, k, p);
    } else if k < j {
      WrittenLater(chain, file, lines, acts, k, j, p);
    }
  }

  lemma WrittenLater(chain: Chain, file: File, lines: seq<Line>, acts: seq<Act>, j: nat, k: nat, p: Place)
    requires file.chainCursor.Some? && CursorWorks(acts) && j < k
    requires WrittenBy(chain, file, lines, acts, j, p)
    ensures !WrittenBy(chain, file, lines, acts, k, p)
  {
    hide Merge, WrittenAt, Cursor;
    if WrittenBy(chain, file, lines, acts, k, p) {
      var (f, l) := RunActs(chain, file, lines, acts[..j]);
      var (f', l') := RunActs(chain, file, lines, acts[..k]);
      assert acts[..k][..j + 1] == acts[..j + 1] && acts[..k][..j] == acts[..j] && acts[..j + 1][..j] == acts[..j];
      CursorGrows(chain, file, lines, acts[..k], j);
      CursorGrows(chain, file, lines, acts[..k], j + 1);
      assert RunActs(chain, file, lines, acts[..j + 1]).0 == Merge(chain, f, l, acts[j].a).0;
      WritesInRange(chain, f, l, acts[j].a, p);
      WritesInRange(chain, f', l', acts[k].a, p);
    }
  }

  /** A cursor that cannot be read once is taken for a first look: here blocks 5 to 8 are never read,
      and the revocation in block 7 never reaches the record, although the merge succeeds. */
  lemma UnreadCursorSkips(f: Fid, name: string)
    ensures var chain: Chain := b => if b == 7 then [Event(Revoked(f, f))] else [];
            var file := EMPTY.(files := map[f := Entry(f, 1, None, name, 0, 0)], chainCursor := Some(5));
            var a := Attempt(false, Some(9), Some(9), true, _ => true, _ => true, None, Io(true, true));
            && Merge(chain, file, [], a) == (file.(chainCursor := Some(10)), [], Added(0))
            && Revoked(f, f) in EventsIn(chain, 5, 10)
  {
    var chain: Chain := b => if b == 7 then [Event(Revoked(f, f))] else [];
    assert LogsIn(chain, 9, 10) == [] by {
      assert LogsIn(chain, 9, 9) == [];
    }
    EventsJoin(chain, 5, 7, 10);
    EventsJoin(chain, 7, 8, 10);
    assert LogsIn(chain, 7, 8) == [Event(Revoked(f, f))] by {
      assert LogsIn(chain, 7, 7) == [];
    }
    assert EventsIn(chain, 7, 8) == [Revoked(f, f)];
  }

  /** A look-up that fails once loses the event for good: the merge succeeds, nothing is written for the
      revocation in block 7, and the cursor has passed it. */
  lemma FailedLookupDrops(f: Fid, name: string)
    ensures var chain: Chain := b => if b == 7 then [Event(Revoked(f, f))] else [];
            var file := EMPTY.(files := map[f := Entry(f, 1, None, name, 0, 0)], chainCursor := Some(7));
            var a := Attempt(true, None, Some(7), true, _ => false, _ => true, None, Io(true, true));
            && Merge(chain, file, [], a) == (file.(chainCursor := Some(8)), [], Added(0))
            && Revoked(f, f) in EventsIn(chain, 7, 8)
  {
    var chain: Chain := b => if b == 7 then [Event(Revoked(f, f))] else [];
    assert LogsIn(chain, 7, 8) == [Event(Revoked(f, f))] by {
      assert LogsIn(chain, 7, 7) == [];
    }
    assert EventsIn(chain, 7, 8) == [Revoked(f, f)];
    var file := EMPTY.(files := map[f := Entry(f, 1, None, name, 0, 0)], chainCursor := Some(7));
    var a := Attempt(true, None, Some(7), true, _ => false, _ => true, None, Io(true, true));
    OneUnfound(file.files, Revoked(f, f), a);
    assert Polled(chain, 7, Some(7), true) == (8, Some([Revoked(f, f)]));
    assert Merge(chain, file, [], a).1 == [] + [];
  }

  lemma OneUnfound(files: map<Fid, Entry>, e: ChainEvent, a: Attempt)
    requires !a.finds(0)
    ensures Kept(files, [e], a) == [] && Looked(files, [e], a) == 0
  {
    assert [e][..0] == [];
  }
}
