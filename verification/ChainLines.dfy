/** What the record says about what happened on the chain, event by event (`merge_events` in
    `apps/agent/src-tauri/src/chain.rs`). */
module ChainLines {
  import opened Bytes
  import opened Ledger
  import opened Feed
  import AuditLog

  /** This line tells of this event: what kind of event it was and what there is to know about it. */
  ghost predicate Tells(kind: AuditLog.Kind, detail: AuditLog.Detail, e: ChainEvent) {
    && (kind == AuditLog.Revoked <==> e.Revoked?)
    && (kind == AuditLog.Granted <==> e.Granted?)
    && (kind == AuditLog.Sealed <==> e.VersionBumped?)
    && (e.Revoked? ==> detail == AuditLog.NoDetail)
    && (e.Granted? ==> detail == if e.permission == 2 then AuditLog.EditWord else AuditLog.ReadOnlyWord)
    && (e.VersionBumped? ==> detail == AuditLog.VersionNumber(e.version))
  }

  lemma LineTells(e: ChainEvent, name: string)
    ensures var line := LineOf(e, name);
            Tells(line.kind, line.detail, e) && line.fid == e.fid && line.fileName == name
  {
  }

  /** What a merge that ends well adds is one line for each place it has written, and each line tells of the
      event there, for the event's file under the name this machine has for it. */
  lemma PieceTells(chain: Chain, file: File, lines: seq<Line>, a: Attempt)
    requires Merge(chain, file, lines, a).2.Added?
    ensures var piece, ps := Piece(chain, file, lines, a), WrittenAt(chain, file, a);
            && |piece| == |ps|
            && forall i :: 0 <= i < |ps| ==>
                 && EventAt(chain, ps[i]) && var e := chain(ps[i].0)[ps[i].1].event;
                 && e.fid in file.files && Tells(piece[i].kind, piece[i].detail, e)
                 && piece[i].fid == e.fid && piece[i].fileName == file.files[e.fid].name
  {
    hide Piece, WrittenAt, LineOf, Merge;
    PieceIsWritten(chain, file, lines, a);
    var piece, ps := Piece(chain, file, lines, a), WrittenAt(chain, file, a);
    forall i | 0 <= i < |ps|
      ensures var e := chain(ps[i].0)[ps[i].1].event;
              Tells(piece[i].kind, piece[i].detail, e) && piece[i].fid == e.fid
              && piece[i].fileName == file.files[e.fid].name
    {
      var e := chain(ps[i].0)[ps[i].1].event;
      LineTells(e, file.files[e.fid].name);
    }
  }

  /** A merge that ends well has read up to the newest block the node named, from the stored cursor if there was
      one to read and from the newest block otherwise. */
  lemma ReadsToTheHead(chain: Chain, file: File, lines: seq<Line>, a: Attempt)
    requires Merge(chain, file, lines, a).2.Added?
    ensures From(file, a).Some? && a.head.Some?
    ensures var from := if a.cursorRead && file.chainCursor.Some? then file.chainCursor else a.headFirst;
            && From(file, a) == from
            && Merge(chain, file, lines, a).0.chainCursor
               == Some(if a.head.value < from.value then from.value else a.head.value + 1)
  {
    hide Kept, Looked, EventsIn;
  }

  // ---------------------------------------------------------------- over whole runs

  /** How many of these events of the file are told by a line of this kind with this detail. */
  ghost function Told(events: seq<ChainEvent>, f: Fid, kind: AuditLog.Kind, detail: AuditLog.Detail): nat {
    if events == [] then 0
    else
      var e := events[|events| - 1];
      Told(events[..|events| - 1], f, kind, detail) + if e.fid == f && Tells(kind, detail, e) then 1 else 0
  }

  /** How many lines of the record about the file are of this kind with this detail. */
  ghost function Count(facts: seq<Fact>, kind: AuditLog.Kind, detail: AuditLog.Detail): nat {
    multiset(facts)[Fact(kind, detail)]
  }

  lemma OneFact(e: ChainEvent, kind: AuditLog.Kind, detail: AuditLog.Detail)
    ensures FactOf(LineOf(e, "")) == Fact(kind, detail) <==> Tells(kind, detail, e)
  {
  }

  lemma {:induction false} FactsTold(f: Fid, events: seq<ChainEvent>, kind: AuditLog.Kind, detail: AuditLog.Detail)
    ensures Count(FactsFor(f, events), kind, detail) == Told(events, f, kind, detail)
  {
    if events != [] {
      hide LineOf, FactOf, Tells;
      var e := events[|events| - 1];
      FactsTold(f, events[..|events| - 1], kind, detail);
      OneFact(e, kind, detail);
    }
  }

  /** From a stored cursor on, through failures, crashes and restarts, the record has as many lines of each kind
      about a file as it had, as there were such events of the file on the chain between the cursors, and as
      were repeated by merges whose cursor was not stored: as many revocations as revocations, as many grants for
      editing as grants with permission 2, and so on. */
  lemma LinesMatchEvents(chain: Chain, file: File, lines: seq<Line>, acts: seq<Act>, f: Fid,
                         kind: AuditLog.Kind, detail: AuditLog.Detail)
    requires Tracks(file, f) && forall i :: 0 <= i < |acts| ==> Works(acts[i])
    ensures var (after, more) := RunActs(chain, file, lines, acts);
            && Cursor(file) <= Cursor(after)
            && Count(About(more, f), kind, detail)
               == Count(About(lines, f), kind, detail)
                  + Told(EventsIn(chain, Cursor(file), Cursor(after)), f, kind, detail)
                  + Count(Repeats(chain, file, lines, acts, f), kind, detail)
  {
    hide RunActs, About, FactsFor, Repeats, EventsIn, Works, Tracks;
    EventsRecorded(chain, file, lines, acts, f);
    var (after, more) := RunActs(chain, file, lines, acts);
    FactsTold(f, EventsIn(chain, Cursor(file), Cursor(after)), kind, detail);
  }

  ghost function Revocations(events: seq<ChainEvent>, f: Fid): nat {
    if events == [] then 0
    else
      var e := events[|events| - 1];
      Revocations(events[..|events| - 1], f) + if e.Revoked? && e.fid == f then 1 else 0
  }

  lemma {:induction false} RevocationsTold(events: seq<ChainEvent>, f: Fid)
    ensures Told(events, f, AuditLog.Revoked, AuditLog.NoDetail) == Revocations(events, f)
  {
    if events != [] {
      RevocationsTold(events[..|events| - 1], f);
    }
  }

  /** So no revocation is missed or made up: if no merge had to be repeated, the record has exactly one
      "revoked" for each revocation of the file on the chain since the first cursor, besides the old ones. */
  lemma RevocationsRecorded(chain: Chain, file: File, lines: seq<Line>, acts: seq<Act>, f: Fid)
    requires Tracks(file, f) && forall i :: 0 <= i < |acts| ==> Works(acts[i])
    requires Repeats(chain, file, lines, acts, f) == []
    ensures var (after, more) := RunActs(chain, file, lines, acts);
            Count(About(more, f), AuditLog.Revoked, AuditLog.NoDetail)
            == Count(About(lines, f), AuditLog.Revoked, AuditLog.NoDetail)
               + Revocations(EventsIn(chain, Cursor(file), Cursor(after)), f)
  {
    hide RunActs, About, Repeats, EventsIn, Works, Tracks, Told;
    LinesMatchEvents(chain, file, lines, acts, f, AuditLog.Revoked, AuditLog.NoDetail);
    var (after, more) := RunActs(chain, file, lines, acts);
    RevocationsTold(EventsIn(chain, Cursor(file), Cursor(after)), f);
  }

  /** A merge that works writes a revocation down as a revocation. */
  lemma RevocationIsWritten(g: GrantId, f: Fid, name: string)
    ensures var chain: Chain := b => if b == 7 then [Event(Revoked(g, f))] else [];
            var file := EMPTY.(files := map[f := Entry(f, 1, None, name, 0, 0)], chainCursor := Some(7));
            var a := Attempt(true, None, Some(7), true, _ => true, _ => true, None, Io(true, true));
            Merge(chain, file, [], a)
            == (file.(chainCursor := Some(8)), [Line(AuditLog.Revoked, f, name, AuditLog.NoDetail)], Added(1))
  {
    var chain: Chain := b => if b == 7 then [Event(Revoked(g, f))] else [];
    var file := EMPTY.(files := map[f := Entry(f, 1, None, name, 0, 0)], chainCursor := Some(7));
    var a := Attempt(true, None, Some(7), true, _ => true, _ => true, None, Io(true, true));
    assert LogsIn(chain, 7, 8) == [Event(Revoked(g, f))] by {
      assert LogsIn(chain, 7, 7) == [];
    }
    OneDecoded(Revoked(g, f));
    OneKept(file.files, Revoked(g, f), a);
    assert Polled(chain, 7, Some(7), true) == (8, Some([Revoked(g, f)]));
    assert Merge(chain, file, [], a).1 == [] + [LineOf(Revoked(g, f), name)];
  }

  lemma OneDecoded(e: ChainEvent)
    ensures Decoded([Event(e)]) == [e]
  {
    assert [Event(e)][..0] == [];
  }

  lemma OneKept(files: map<Fid, Entry>, e: ChainEvent, a: Attempt)
    requires e.fid in files && a.finds(0) && a.appends(0)
    ensures Kept(files, [e], a) == [LineOf(e, files[e.fid].name)] && Looked(files, [e], a) == 1
  {
    assert [e][..0] == [];
  }
}
