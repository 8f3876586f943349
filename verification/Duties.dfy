/** What a session owes (`crates/zbacs-session/src/state.rs`): which events it takes, what each effect is due to,
    and that a saved change is sealed. `Session` says what can never happen; here is what must. */
module Duties {
  import opened Bytes
  import opened Permissions
  import opened Session

  // ---------------------------------------------------------------- what is accepted

  /** An event belongs to a state. */
  predicate Belongs(state: State, event: Event) {
    match event
    case Grant(_, _, _, _) => state == Requested
    case Refuse => state == Requested
    case Opened => state == State.Granted
    case Saved => state == Open
    case Resealed(_) => state == Resealing
    case ViewerExited => state == Open
    case Revoke => !state.Terminal()
    case Expire => !state.Terminal()
    case Fail => !state.Terminal()
  }

  /** An event is accepted exactly if it belongs to the state and, for a grant, allows something and arrives
      inside its own window; and each refusal has one reason. */
  lemma AcceptedExactly(s: Snapshot, event: Event, now: u64)
    ensures var r := Step(s, event, now);
            var grants := s.state == Requested && event.Grant?;
            && (r.Ok? <==> Belongs(s.state, event)
                           && (event.Grant? ==> event.permission != Deny && event.notBefore <= now < event.expiry))
            && (r == Err(TerminalState) <==> s.state in {Denied, Closed, Revoked, State.Failed})
            && (r == Err(Unexpected) <==> !s.state.Terminal() && !Belongs(s.state, event))
            && (r == Err(DenyIsNotAGrant) <==> grants && event.permission == Deny)
            && (r == Err(NotYetValid) <==> grants && event.permission != Deny && now < event.notBefore)
            && (r == Err(AlreadyExpired) <==>
                  grants && event.permission != Deny && event.notBefore <= now && event.expiry <= now)
  {
  }

  /** Where an accepted event leads. */
  lemma LeadsExactly(s: Snapshot, event: Event, now: u64)
    requires Step(s, event, now).Ok?
    ensures var next := Step(s, event, now).value.0;
            && (next.state == State.Granted <==> event.Grant?)
            && (next.state == Denied <==> event.Refuse?)
            && (next.state == Revoked <==> event.Revoke?)
            && (next.state == State.Failed <==> event.Fail?)
            && (next.state == Resealing <==> event.Saved? && s.permission == Some(Edit))
            && (next.state == Closed <==>
                  event.ViewerExited? || event.Expire? || (event.Opened? && s.maxOpens != 0 && s.opens >= s.maxOpens))
            && (event.Opened? && next.state == Open ==> next.opens == (s.opens + 1) % 0x1_0000)
            && (next.opens != s.opens ==> event.Opened? && next.state == Open)
  {
  }

  // ---------------------------------------------------------------- what each effect is due to

  /** Event k was accepted. */
  ghost predicate Took(trace: Trace, k: nat) {
    k < |trace| && Step(Run(New(), trace[..k]).0, trace[k].0, trace[k].1).Ok?
  }

  /** The session as event k found it. */
  function Found(trace: Trace, k: nat): Snapshot
    requires k <= |trace|
  {
    Run(New(), trace[..k]).0
  }

  lemma StepDue(s: Snapshot, event: Event, now: u64)
    requires Step(s, event, now).Ok?
    ensures var (next, out) := Step(s, event, now).value;
            var edits := s.permission == Some(Edit);
            && (MaterialisePlaintext in out <==> event.Grant?)
            && (Effect.Reseal in out <==> event.Saved? && edits)
            && (DiscardChanges in out <==> event.Saved? && !edits)
            && (LaunchViewer in out <==> event.Opened? && next.state == Open)
            && (MarkReadOnly in out <==> LaunchViewer in out && s.permission == Some(ReadOnly))
  {
  }

  lemma StepCloses(s: Snapshot, event: Event, now: u64)
    requires Step(s, event, now).Ok?
    ensures var (next, out) := Step(s, event, now).value;
            var outside := event.Revoke? || event.Expire?;
            && (RequestViewerClose in out <==> outside && s.state in {Open, Resealing})
            && (WipeWorkspace in out <==>
                  || event.ViewerExited? || (event.Opened? && next.state == Closed)
                  || ((outside || event.Fail?) && s.state in {Open, Resealing}))
  {
  }

  lemma StepAudits(s: Snapshot, event: Event, now: u64)
    requires Step(s, event, now).Ok?
    ensures var (next, out) := Step(s, event, now).value;
            && (Audit(AuditDenied) in out <==> event.Refuse?)
            && (Audit(AuditOpened) in out <==> event.Opened? && next.state == Open)
            && (Audit(AuditSealed) in out <==> event.Resealed?)
            && (Audit(AuditFailed) in out <==> event.Fail?)
  {
  }

  lemma StepTells(s: Snapshot, event: Event, now: u64)
    requires Step(s, event, now).Ok?
    ensures var (next, out) := Step(s, event, now).value;
            && (Notify(Refused) in out <==> event.Refuse?)
            && (Notify(ChangesDiscarded) in out <==> event.Saved? && s.permission != Some(Edit))
            && (Notify(ResealedNotice) in out <==> event.Resealed?)
            && (Notify(RevokedByOwner) in out <==> event.Revoke?)
            && (Notify(Expired) in out <==> event.Expire?)
            && (Notify(OpensExhausted) in out <==> event.Opened? && next.state == Closed)
            && (Notify(Problem) in out <==> event.Fail?)
  {
  }

  /** In every run each effect is there exactly for the event that calls for it: plaintext for a grant, a
      reseal for a save by an editor and a discard for any other save, a viewer for an opening inside the
      budget, and so on; an event that was rejected causes nothing. */
  lemma DueExactly(trace: Trace, k: nat)
    requires k < |trace|
    ensures var (out, event, s) := (Run(New(), trace).1[k], trace[k].0, Found(trace, k));
            var edits, plain := s.permission == Some(Edit), s.state == Open || s.state == Resealing;
            var spent := s.maxOpens != 0 && s.opens >= s.maxOpens;
            var outside := event.Revoke? || event.Expire?;
            if !Took(trace, k) then out == []
            else
              && (MaterialisePlaintext in out <==> event.Grant?)
              && (Effect.Reseal in out <==> event.Saved? && edits)
              && (DiscardChanges in out <==> event.Saved? && !edits)
              && (RequestViewerClose in out <==> outside && plain)
              && (LaunchViewer in out <==> event.Opened? && !spent)
              && (MarkReadOnly in out <==> event.Opened? && !spent && s.permission == Some(ReadOnly))
              && (WipeWorkspace in out <==>
                    event.ViewerExited? || (event.Opened? && spent) || ((outside || event.Fail?) && plain))
  {
    hide Step;
    OutAt(New(), trace, k);
    var s := Found(trace, k);
    if Took(trace, k) {
      StepDue(s, trace[k].0, trace[k].1);
      StepCloses(s, trace[k].0, trace[k].1);
      LeadsExactly(s, trace[k].0, trace[k].1);
      AcceptedExactly(s, trace[k].0, trace[k].1);
      OpeningLeads(s, trace[k].0, trace[k].1);
    }
  }

  lemma OpeningLeads(s: Snapshot, event: Event, now: u64)
    requires Step(s, event, now).Ok?
    ensures event.Opened? ==> Step(s, event, now).value.0.state in {Open, Closed}
  {
  }

  /** And what is put on record and what the person is told names the event in the same way. */
  lemma ToldExactly(trace: Trace, k: nat)
    requires k < |trace|
    ensures var (out, event, s) := (Run(New(), trace).1[k], trace[k].0, Found(trace, k));
            var spent := s.maxOpens != 0 && s.opens >= s.maxOpens;
            Took(trace, k) ==>
              && (Audit(AuditDenied) in out <==> event.Refuse?) && (Notify(Refused) in out <==> event.Refuse?)
              && (Audit(AuditOpened) in out <==> event.Opened? && !spent)
              && (Notify(OpensExhausted) in out <==> event.Opened? && spent)
              && (Audit(AuditSealed) in out <==> event.Resealed?)
              && (Notify(ResealedNotice) in out <==> event.Resealed?)
              && (Notify(ChangesDiscarded) in out <==> event.Saved? && s.permission != Some(Edit))
              && (Notify(RevokedByOwner) in out <==> event.Revoke?) && (Notify(Expired) in out <==> event.Expire?)
              && (Audit(AuditFailed) in out <==> event.Fail?) && (Notify(Problem) in out <==> event.Fail?)
  {
    hide Step;
    OutAt(New(), trace, k);
    var s := Found(trace, k);
    if Took(trace, k) {
      StepAudits(s, trace[k].0, trace[k].1);
      StepTells(s, trace[k].0, trace[k].1);
      LeadsExactly(s, trace[k].0, trace[k].1);
      OpeningLeads(s, trace[k].0, trace[k].1);
    }
  }

  // ---------------------------------------------------------------- saves

  function Total(outs: seq<seq<Effect>>, e: Effect): nat {
    if outs == [] then 0 else Total(outs[..|outs| - 1], e) + Times(outs[|outs| - 1], e)
  }

  /** How many of the events a session took were saves under Edit, and how many were reseals. */
  function EditSaves(trace: Trace): nat {
    if trace == [] then 0
    else
      var n := |trace| - 1;
      var s := Run(New(), trace[..n]).0;
      EditSaves(trace[..n])
      + if trace[n].0.Saved? && s.state == Open && s.permission == Some(Edit) then 1 else 0
  }

  function Reseals(trace: Trace): nat {
    if trace == [] then 0
    else
      var n := |trace| - 1;
      Reseals(trace[..n]) + if trace[n].0.Resealed? && Run(New(), trace[..n]).0.state == Resealing then 1 else 0
  }

  lemma StepSaves(s: Snapshot, event: Event, now: u64)
    ensures match Step(s, event, now)
            case Ok((next, out)) =>
              && (event.Saved? ==> s.state == Open)
              && (event.Saved? && s.permission == Some(Edit) ==>
                    out == [Effect.Reseal] && next.state == Resealing && next.dirty)
              && (event.Saved? && s.permission != Some(Edit) ==>
                    out == [DiscardChanges, Notify(ChangesDiscarded)] && next == s)
              && (event.Resealed? ==> s.state == Resealing && next.state == Open && !next.dirty)
              && (!event.Saved? ==> Times(out, Effect.Reseal) == 0)
              && (!event.Saved? ==> next.state != Resealing)
            case Err(_) =>
              && !(event.Saved? && s.state == Open) && !(event.Resealed? && s.state == Resealing)
  {
  }

  /** No save is lost while a session lives: every save of an editor asks for one reseal, and every reseal but
      the one under way has come back. When the session is over at most one is missing. */
  lemma {:induction false} EverySaveIsSealed(trace: Trace)
    ensures var (s, outs) := Run(New(), trace);
            && Total(outs, Effect.Reseal) == EditSaves(trace)
            && Reseals(trace) <= EditSaves(trace) <= Reseals(trace) + 1
            && (!s.state.Terminal() ==> EditSaves(trace) == Reseals(trace) + if s.state == Resealing then 1 else 0)
  {
    if trace != [] {
      hide Step, Times;
      var n := |trace| - 1;
      EverySaveIsSealed(trace[..n]);
      LastOfRun(New(), trace);
      var (s, outs) := Run(New(), trace[..n]);
      StepSaves(s, trace[n].0, trace[n].1);
      assert Run(New(), trace).1[..n] == outs;
      NoTimes(Effect.Reseal);
      AfterSave(s, trace[n].0, trace[n].1);
    }
  }

  lemma NoTimes(e: Effect)
    ensures Times([], e) == 0 && Times([e], e) == 1
    ensures e != DiscardChanges && e != Notify(ChangesDiscarded) ==>
              Times([DiscardChanges, Notify(ChangesDiscarded)], e) == 0
  {
    var two := [DiscardChanges, Notify(ChangesDiscarded)];
    assert two[1..] == [Notify(ChangesDiscarded)];
  }

  lemma AfterSave(s: Snapshot, event: Event, now: u64)
    ensures Step(s, event, now).Ok? ==> !s.state.Terminal()
    ensures Step(s, event, now).Ok? && s.state == Resealing && !event.Resealed? ==>
              Step(s, event, now).value.0.state.Terminal()
  {
  }

  /** What an editor saves is never thrown away, and what a reader saves is never sealed. */
  lemma {:induction false} EditorKeepsChanges(trace: Trace)
    ensures var (s, outs) := Run(New(), trace);
            && (s.permission == Some(Edit) ==> Never(outs, DiscardChanges))
            && (s.permission != Some(Edit) ==> Never(outs, Effect.Reseal))
  {
    var (s, outs) := Run(New(), trace);
    forall k | 0 <= k < |outs|
      ensures s.permission == Some(Edit) ==> DiscardChanges !in outs[k]
    {
      DueExactly(trace, k);
      SavesHavePermission(trace, k);
    }
    var launch, end := RunHolds(New(), trace);
  }

  lemma SavesHavePermission(trace: Trace, k: nat)
    requires k < |trace|
    ensures Took(trace, k) && trace[k].0.Saved? ==> Found(trace, k).permission == Run(New(), trace).0.permission
  {
    hide Run, Step;
    if Took(trace, k) && trace[k].0.Saved? {
      AcceptedExactly(Found(trace, k), trace[k].0, trace[k].1);
      GrantedHasPermission(trace[..k]);
      PermissionStays(trace, k);
    }
  }

  // ---------------------------------------------------------------- a whole session

  lemma RunMore(start: Snapshot, trace: Trace, event: Event, now: u64)
    ensures var (s, outs) := Run(start, trace);
            match Step(s, event, now)
            case Ok((next, effects)) => Run(start, trace + [(event, now)]) == (next, outs + [effects])
            case Err(_) => Run(start, trace + [(event, now)]) == (s, outs + [[]])
  {
    var more := trace + [(event, now)];
    assert more[..|trace|] == trace;
    LastOfRun(start, more);
  }

  /** From wherever an editor has the file open, a save and its reseal lead back there with the new version. */
  lemma SaveRoundTrip(start: Snapshot, trace: Trace, v: u32, saved: u64, sealed: u64)
    requires var s := Run(start, trace).0; s.state == Open && s.permission == Some(Edit)
    ensures var (s, outs) := Run(start, trace);
            Run(start, trace + [(Saved, saved)] + [(Resealed(v), sealed)])
            == (s.(version := Some(v), dirty := false),
                outs + [[Effect.Reseal]] + [[Audit(AuditSealed), Notify(ResealedNotice)]])
  {
    RunMore(start, trace, Saved, saved);
    RunMore(start, trace + [(Saved, saved)], Resealed(v), sealed);
  }

  /** A reader's save changes nothing. */
  lemma ReaderSaves(start: Snapshot, trace: Trace, saved: u64)
    requires var s := Run(start, trace).0; s.state == Open && s.permission != Some(Edit)
    ensures var (s, outs) := Run(start, trace);
            Run(start, trace + [(Saved, saved)]) == (s, outs + [[DiscardChanges, Notify(ChangesDiscarded)]])
  {
    RunMore(start, trace, Saved, saved);
  }

  /** A file is granted for editing, opened, saved once for each of these versions, and closed. */
  function Edited(expiry: u64, maxOpens: u16, versions: seq<u32>): Trace {
    if versions == [] then [(Grant(Edit, 0, expiry, maxOpens), 0)] + [(Opened, 0)]
    else
      Edited(expiry, maxOpens, versions[..|versions| - 1])
      + [(Saved, 0)] + [(Resealed(versions[|versions| - 1]), 0)]
  }

  lemma {:induction false} EditingStaysOpen(expiry: u64, maxOpens: u16, versions: seq<u32>)
    requires expiry > 0
    ensures var (s, outs) := Run(New(), Edited(expiry, maxOpens, versions));
            && s == Snapshot(Open, Some(Edit), 0, expiry, maxOpens, 1,
                             if versions == [] then None else Some(versions[|versions| - 1]), false)
            && |outs| == 2 + 2 * |versions| && outs[0] == [MaterialisePlaintext]
            && outs[1] == [LaunchViewer, Audit(AuditOpened)]
            && forall i :: 0 <= i < |versions| ==>
                 outs[2 + 2 * i] == [Effect.Reseal]
                 && outs[3 + 2 * i] == [Audit(AuditSealed), Notify(ResealedNotice)]
  {
    if versions == [] {
      RunMore(New(), [], Grant(Edit, 0, expiry, maxOpens), 0);
      assert [] + [(Grant(Edit, 0, expiry, maxOpens), 0 as u64)] == [(Grant(Edit, 0, expiry, maxOpens), 0)];
      RunMore(New(), [(Grant(Edit, 0, expiry, maxOpens), 0)], Opened, 0);
    } else {
      var n := |versions| - 1;
      EditingStaysOpen(expiry, maxOpens, versions[..n]);
      SaveRoundTrip(New(), Edited(expiry, maxOpens, versions[..n]), versions[n], 0, 0);
    }
  }

  /** The whole of it: however often the editor saves, each save is sealed as its version, in order, and closing
      the viewer ends the session with the workspace wiped and the last version known. */
  lemma EditingSession(expiry: u64, maxOpens: u16, versions: seq<u32>)
    requires expiry > 0
    ensures var trace := Edited(expiry, maxOpens, versions);
            var (s, outs) := Run(New(), trace + [(ViewerExited, 0)]);
            && s.state == Closed && !s.dirty && s.opens == 1
            && s.version == (if versions == [] then None else Some(versions[|versions| - 1]))
            && outs == Run(New(), trace).1 + [[WipeWorkspace]]
            && Total(outs, Effect.Reseal) == |versions|
  {
    hide Total, Edited, Run, Reseals, EditSaves;
    EditingStaysOpen(expiry, maxOpens, versions);
    RunMore(New(), Edited(expiry, maxOpens, versions), ViewerExited, 0);
    EverySaveIsSealed(Edited(expiry, maxOpens, versions));
    EditedSaves(expiry, maxOpens, versions);
    TotalMore(Run(New(), Edited(expiry, maxOpens, versions)).1, [WipeWorkspace], Effect.Reseal);
  }

  lemma TotalMore(outs: seq<seq<Effect>>, out: seq<Effect>, e: Effect)
    ensures Total(outs + [out], e) == Total(outs, e) + Times(out, e)
  {
    assert (outs + [out])[..|outs|] == outs;
  }

  lemma EditSavesMore(trace: Trace, event: Event, now: u64)
    ensures var s := Run(New(), trace).0;
            EditSaves(trace + [(event, now)])
            == EditSaves(trace) + if event.Saved? && s.state == Open && s.permission == Some(Edit) then 1 else 0
  {
    assert (trace + [(event, now)])[..|trace|] == trace;
  }

  lemma {:induction false} EditedSaves(expiry: u64, maxOpens: u16, versions: seq<u32>)
    requires expiry > 0
    ensures EditSaves(Edited(expiry, maxOpens, versions)) == |versions|
  {
    hide EditSaves, Run, Step;
    if versions == [] {
      NothingSaved();
      EditSavesMore([], Grant(Edit, 0, expiry, maxOpens), 0);
      assert [] + [(Grant(Edit, 0, expiry, maxOpens), 0 as u64)] == [(Grant(Edit, 0, expiry, maxOpens), 0)];
      EditSavesMore([(Grant(Edit, 0, expiry, maxOpens), 0)], Opened, 0);
    } else {
      var n := |versions| - 1;
      var before := Edited(expiry, maxOpens, versions[..n]);
      EditedSaves(expiry, maxOpens, versions[..n]);
      EditingStaysOpen(expiry, maxOpens, versions[..n]);
      EditSavesMore(before, Saved, 0);
      EditSavesMore(before + [(Saved, 0)], Resealed(versions[n]), 0);
    }
  }

  lemma NothingSaved()
    ensures EditSaves([]) == 0
  {
  }

  // ---------------------------------------------------------------- the budget can be used

  lemma OpenOnce(s: Snapshot)
    requires s.state == State.Granted
    ensures var (t, outs) := Run(s, [(Opened, 0)]);
            if s.maxOpens != 0 && s.opens >= s.maxOpens then
              t == s.(state := Closed) && outs == [[WipeWorkspace, Notify(OpensExhausted)]]
            else t.opens == (s.opens + 1) % 0x1_0000 && Launches(outs) == 1
  {
    hide Launches;
    var once: Trace := [] + [(Opened, 0)];
    assert once == [(Opened, 0)];
    RunMore(s, [], Opened, 0);
    RunNothing(s);
    OneLaunch();
  }

  lemma RunNothing(s: Snapshot)
    ensures Run(s, []) == (s, [])
  {
  }

  lemma OneLaunch()
    ensures Launches([] + [[MarkReadOnly, LaunchViewer, Audit(AuditOpened)]]) == 1
    ensures Launches([] + [[LaunchViewer, Audit(AuditOpened)]]) == 1
  {
    hide Launches, Times;
    LaunchesOf([MarkReadOnly, LaunchViewer, Audit(AuditOpened)]);
    LaunchesOf([LaunchViewer, Audit(AuditOpened)]);
    CountShort([MarkReadOnly, LaunchViewer, Audit(AuditOpened)], LaunchViewer);
    CountShort([LaunchViewer, Audit(AuditOpened)], LaunchViewer);
  }

  lemma LaunchesOf(out: seq<Effect>)
    ensures Launches([] + [out]) == Times(out, LaunchViewer)
  {
    hide Times;
    var outs: seq<seq<Effect>> := [] + [out];
    assert outs[..0] == [];
  }

  lemma {:induction false} RestartsShow(p: Permission, nb: u64, exp: u64, max: u16, opens: u16, n: nat)
    requires (max == 0 || opens + n <= max) && opens + n < 0x1_0000
    ensures Restarts(p, nb, exp, max, opens, seq(n, _ => [(Opened, 0)])) == (opens + n, n)
    decreases n
  {
    hide Run, Launches, Restarts;
    var once: Trace := [(Opened, 0)];
    if n > 0 {
      RestartsMore(p, nb, exp, max, opens, once, seq(n - 1, _ => once));
      assert seq(n, _ => once) == [once] + seq(n - 1, _ => once);
      OpenOnce(Resume(p, nb, exp, max, opens));
      RestartsShow(p, nb, exp, max, opens + 1, n - 1);
    } else {
      assert seq(n, _ => once) == [];
      NoRestarts(p, nb, exp, max, opens);
    }
  }

  lemma NoRestarts(p: Permission, nb: u64, exp: u64, max: u16, opens: u16)
    ensures Restarts(p, nb, exp, max, opens, []) == (opens, 0)
  {
  }

  lemma RestartsMore(p: Permission, nb: u64, exp: u64, max: u16, opens: u16, first: Trace, rest: seq<Trace>)
    ensures var (s, outs) := Run(Resume(p, nb, exp, max, opens), first);
            var (final, more) := Restarts(p, nb, exp, max, s.opens, rest);
            Restarts(p, nb, exp, max, opens, [first] + rest) == (final, Launches(outs) + more)
  {
    hide Run, Launches;
    assert ([first] + rest)[1..] == rest;
  }

  /** A budget can be used up: that many openings, each after a restart, all show the file, and the next one does
      not. */
  lemma BudgetIsReached(p: Permission, nb: u64, exp: u64, max: u16)
    requires max != 0
    ensures Restarts(p, nb, exp, max, 0, seq(max as nat, _ => [(Opened, 0)])) == (max, max)
    ensures Run(Resume(p, nb, exp, max, max), [(Opened, 0)])
         == (Resume(p, nb, exp, max, max).(state := Closed), [[WipeWorkspace, Notify(OpensExhausted)]])
  {
    hide Run, Restarts;
    RestartsShow(p, nb, exp, max, 0, max);
    OpenOnce(Resume(p, nb, exp, max, max));
  }
}
