/** The session state machine (`crates/zbacs-session/src/state.rs`). */
module Session {
  import opened Bytes
  import opened Permissions

  datatype State = Requested | Denied | Granted | Open | Resealing | Closed | Revoked | Failed {
    predicate PlaintextAllowed() {
      Open? || Resealing?
    }

    predicate Terminal() {
      Denied? || Closed? || Revoked? || Failed?
    }
  }

  datatype Event =
    | Grant(permission: Permission, notBefore: u64, expiry: u64, maxOpens: u16)
    | Refuse | Opened | Saved | Resealed(version: u32) | ViewerExited | Revoke | Expire | Fail

  datatype Notice = Refused | ChangesDiscarded | RevokedByOwner | Expired | OpensExhausted | ResealedNotice | Problem

  datatype AuditKind = AuditDenied | AuditOpened | AuditSealed | AuditFailed

  datatype Effect =
    | MaterialisePlaintext | MarkReadOnly | LaunchViewer | RequestViewerClose | Reseal | DiscardChanges | WipeWorkspace
    | Audit(kind: AuditKind) | Notify(notice: Notice)

  datatype TransitionError = TerminalState | Unexpected | NotYetValid | AlreadyExpired | DenyIsNotAGrant

  datatype Result<+T> = Ok(value: T) | Err(error: TransitionError)

  /** The fields of a session. */
  datatype Snapshot = Snapshot(
    state: State, permission: Option<Permission>, notBefore: u64, expiry: u64,
    maxOpens: u16, opens: u16, version: Option<u32>, dirty: bool)

  function New(): Snapshot {
    Snapshot(Requested, None, 0, 0, 0, 0, None, false)
  }

  function Resume(permission: Permission, notBefore: u64, expiry: u64, maxOpens: u16, opens: u16): Snapshot {
    Snapshot(Granted, Some(permission), notBefore, expiry, maxOpens, opens, None, false)
  }

  /** One transition: the next snapshot and the effects owed, or why the event is not accepted. */
  function Step(s: Snapshot, event: Event, now: u64): Result<(Snapshot, seq<Effect>)> {
    if s.state.Terminal() then Err(TerminalState)
    else
      match event
      case Grant(permission, notBefore, expiry, maxOpens) =>
        if !s.state.Requested? then Err(Unexpected)
        else if permission == Deny then Err(DenyIsNotAGrant)
        else if now < notBefore then Err(NotYetValid)
        else if now >= expiry then Err(AlreadyExpired)
        else
          Ok((s.(permission := Some(permission), notBefore := notBefore, expiry := expiry,
                 maxOpens := maxOpens, state := Granted),
              [MaterialisePlaintext]))
      case Refuse =>
        if !s.state.Requested? then Err(Unexpected)
        else Ok((s.(state := Denied), [Audit(AuditDenied), Notify(Refused)]))
      case Opened =>
        if !s.state.Granted? then Err(Unexpected)
        else if s.maxOpens != 0 && s.opens >= s.maxOpens
          then Ok((s.(state := Closed), [WipeWorkspace, Notify(OpensExhausted)]))
        else
          Ok((s.(opens := (s.opens + 1) % 0x1_0000, state := Open),
              if s.permission == Some(ReadOnly) then [MarkReadOnly, LaunchViewer, Audit(AuditOpened)]
              else [LaunchViewer, Audit(AuditOpened)]))
      case Saved =>
        if !s.state.Open? then Err(Unexpected)
        else if s.permission == Some(Edit) then Ok((s.(dirty := true, state := Resealing), [Reseal]))
        else Ok((s, [DiscardChanges, Notify(ChangesDiscarded)]))
      case Resealed(version) =>
        if !s.state.Resealing? then Err(Unexpected)
        else Ok((s.(version := Some(version), dirty := false, state := Open),
                 [Audit(AuditSealed), Notify(ResealedNotice)]))
      case ViewerExited =>
        if !s.state.Open? then Err(Unexpected) else Ok((s.(state := Closed), [WipeWorkspace]))
      case Revoke =>
        Ok((s.(dirty := false, state := Revoked),
            if s.state.PlaintextAllowed() then [RequestViewerClose, WipeWorkspace, Notify(RevokedByOwner)]
            else [Notify(RevokedByOwner)]))
      case Expire =>
        Ok((s.(dirty := false, state := Closed),
            if s.state.PlaintextAllowed() then [RequestViewerClose, WipeWorkspace, Notify(Expired)]
            else [Notify(Expired)]))
      case Fail =>
        Ok((s.(state := Failed),
            if s.state.PlaintextAllowed() then [WipeWorkspace, Audit(AuditFailed), Notify(Problem)]
            else [Audit(AuditFailed), Notify(Problem)]))
  }

  /** The object the Agent drives. */
  class Session {
    var state: State
    var permission: Option<Permission>
    var notBefore: u64
    var expiry: u64
    var maxOpens: u16
    var opens: u16
    var version: Option<u32>
    var dirty: bool

    function Now(): Snapshot
      reads this
    {
      Snapshot(state, permission, notBefore, expiry, maxOpens, opens, version, dirty)
    }

    constructor ()
      ensures Now() == New()
    {
      state, permission, notBefore, expiry := Requested, None, 0, 0;
      maxOpens, opens, version, dirty := 0, 0, None, false;
    }

    constructor Resumed(permission: Permission, notBefore: u64, expiry: u64, maxOpens: u16, opens: u16)
      ensures Now() == Resume(permission, notBefore, expiry, maxOpens, opens)
    {
      this.state, this.permission, this.notBefore, this.expiry := Granted, Some(permission), notBefore, expiry;
      this.maxOpens, this.opens, this.version, this.dirty := maxOpens, opens, None, false;
    }

    /** `apply`: a rejected event changes nothing. */
    method Apply(event: Event, now: u64) returns (r: Result<seq<Effect>>)
      modifies this
      ensures match Step(old(Now()), event, now)
              case Ok((next, effects)) => Now() == next && r == Ok(effects)
              case Err(e) => Now() == old(Now()) && r == Err(e)
    {
      if state.Terminal() {
        return Err(TerminalState);
      }
      match event {
        case Grant(p, nb, exp, max) =>
          if state != Requested {
            return Err(Unexpected);
          }
          if p == Deny {
            return Err(DenyIsNotAGrant);
          }
          if now < nb {
            return Err(NotYetValid);
          }
          if now >= exp {
            return Err(AlreadyExpired);
          }
          permission, notBefore, expiry, maxOpens := Some(p), nb, exp, max;
          state := Granted;
          r := Ok([MaterialisePlaintext]);
        case Refuse =>
          if state != Requested {
            return Err(Unexpected);
          }
          state := Denied;
          r := Ok([Audit(AuditDenied), Notify(Refused)]);
        case Opened =>
          if state != Granted {
            return Err(Unexpected);
          }
          if maxOpens != 0 && opens >= maxOpens {
            state := Closed;
            return Ok([WipeWorkspace, Notify(OpensExhausted)]);
          }
          opens := (opens + 1) % 0x1_0000;
          state := Open;
          var effects := [];
          if permission == Some(ReadOnly) {
            effects := effects + [MarkReadOnly];
          }
          effects := effects + [LaunchViewer, Audit(AuditOpened)];
          assert effects == if permission == Some(ReadOnly) then [MarkReadOnly, LaunchViewer, Audit(AuditOpened)]
                            else [LaunchViewer, Audit(AuditOpened)];
          r := Ok(effects);
        case Saved =>
          if state != Open {
            return Err(Unexpected);
          }
          if permission == Some(Edit) {
            dirty := true;
            state := Resealing;
            return Ok([Reseal]);
          }
          r := Ok([DiscardChanges, Notify(ChangesDiscarded)]);
        case Resealed(v) =>
          if state != Resealing {
            return Err(Unexpected);
          }
          version := Some(v);
          dirty := false;
          state := Open;
          r := Ok([Audit(AuditSealed), Notify(ResealedNotice)]);
        case ViewerExited =>
          if state != Open {
            return Err(Unexpected);
          }
          state := Closed;
          r := Ok([WipeWorkspace]);
        case Revoke =>
          var effects := if state.PlaintextAllowed() then [RequestViewerClose, WipeWorkspace] else [];
          dirty := false;
          state := Revoked;
          assert effects + [Notify(RevokedByOwner)]
              == if effects == [] then [Notify(RevokedByOwner)]
                  else [RequestViewerClose, WipeWorkspace, Notify(RevokedByOwner)];
          r := Ok(effects + [Notify(RevokedByOwner)]);
        case Expire =>
          var effects := if state.PlaintextAllowed() then [RequestViewerClose, WipeWorkspace] else [];
          dirty := false;
          state := Closed;
          assert effects + [Notify(Expired)]
              == if effects == [] then [Notify(Expired)] else [RequestViewerClose, WipeWorkspace, Notify(Expired)];
          r := Ok(effects + [Notify(Expired)]);
        case Fail =>
          var effects := if state.PlaintextAllowed() then [WipeWorkspace] else [];
          state := Failed;
          assert effects + [Audit(AuditFailed), Notify(Problem)]
              == if effects == [] then [Audit(AuditFailed), Notify(Problem)]
                  else [WipeWorkspace, Audit(AuditFailed), Notify(Problem)];
          r := Ok(effects + [Audit(AuditFailed), Notify(Problem)]);
      }
    }
  }

  // ---------------------------------------------------------------- whole runs

  type Trace = seq<(Event, u64)>

  /** Where a run ends, and what each of its events caused; a rejected event causes nothing. */
  function Run(start: Snapshot, trace: Trace): (r: (Snapshot, seq<seq<Effect>>))
    ensures |r.1| == |trace|
  {
    if trace == [] then (start, [])
    else
      var n := |trace| - 1;
      var (s, outs) := Run(start, trace[..n]);
      match Step(s, trace[n].0, trace[n].1)
      case Ok((next, effects)) => (next, outs + [effects])
      case Err(_) => (s, outs + [[]])
  }

  /** How many times e is among the effects. */
  function Times(effects: seq<Effect>, e: Effect): (n: nat)
    ensures n == 0 <==> e !in effects
  {
    if effects == [] then 0 else (if effects[0] == e then 1 else 0) + Times(effects[1..], e)
  }

  ghost predicate Never(outs: seq<seq<Effect>>, e: Effect) {
    forall i :: 0 <= i < |outs| ==> e !in outs[i]
  }

  /** Event k is the only one that caused e, and caused it once. */
  ghost predicate OnlyAt(outs: seq<seq<Effect>>, e: Effect, k: nat) {
    && k < |outs| && Times(outs[k], e) == 1
    && forall i :: 0 <= i < |outs| && i != k ==> e !in outs[i]
  }

  /** The session was alive before event k and event k ended it. */
  ghost predicate EndedBy(start: Snapshot, trace: Trace, k: nat) {
    && k < |trace|
    && !Run(start, trace[..k]).0.state.Terminal()
    && Run(start, trace[..k + 1]).0.state.Terminal()
  }

  /** What has been launched and wiped by the time a session is in the given state. */
  ghost predicate Phase(state: State, outs: seq<seq<Effect>>, launch: nat, end: nat) {
    if state.PlaintextAllowed() then OnlyAt(outs, LaunchViewer, launch) && Never(outs, WipeWorkspace)
    else if !state.Terminal() then Never(outs, LaunchViewer) && Never(outs, WipeWorkspace)
    else
      || Never(outs, LaunchViewer)
      || (OnlyAt(outs, LaunchViewer, launch) && OnlyAt(outs, WipeWorkspace, end) && launch < end)
  }

  /** What the fields say about each other and about the reseals so far. */
  ghost predicate Fields(s: Snapshot, outs: seq<seq<Effect>>) {
    && (!s.state.Terminal() ==> (s.dirty <==> s.state.Resealing?))
    && (s.state.Requested? ==> s.permission.None?)
    && (s.permission != Some(Edit) ==> Never(outs, Effect.Reseal) && s.version.None? && !s.state.Resealing?)
  }

  /** How often the effects that matter appear in one step, by the states it joins. */
  ghost predicate Emits(from: State, to: State, event: Event, effects: seq<Effect>) {
    && Times(effects, LaunchViewer) == (if from.Granted? && to.Open? then 1 else 0)
    && Times(effects, WipeWorkspace)
       == (if to.Terminal() && (from.PlaintextAllowed() || (from.Granted? && event.Opened?)) then 1 else 0)
    && Times(effects, Effect.Reseal) == (if from.Open? && to.Resealing? then 1 else 0)
  }

  /** The states one accepted event can join. */
  ghost predicate Joins(from: State, to: State) {
    match from
    case Requested => to.Granted? || to.Terminal()
    case Granted => to.Open? || to.Terminal()
    case Open => to.PlaintextAllowed() || to.Terminal()
    case Resealing => to.Open? || to.Terminal()
    case _ => false
  }

  lemma CountShort(es: seq<Effect>, e: Effect)
    requires |es| <= 3
    ensures Times(es, e) == (if |es| > 0 && es[0] == e then 1 else 0) + (if |es| > 1 && es[1] == e then 1 else 0)
                               + (if |es| > 2 && es[2] == e then 1 else 0)
  {
    if |es| > 0 {
      if |es| > 1 {
        assert Times(es[1..], e) == (if es[1] == e then 1 else 0) + Times(es[1..][1..], e);
        if |es| > 2 {
          assert Times(es[1..][1..], e) == (if es[2] == e then 1 else 0) + Times(es[1..][1..][1..], e);
        }
      }
    }
  }

  lemma StepLaunches(s: Snapshot, event: Event, now: u64)
    requires Step(s, event, now).Ok?
    ensures var (next, effects) := Step(s, event, now).value;
            Times(effects, LaunchViewer) == (if s.state.Granted? && next.state.Open? then 1 else 0)
  {
    hide Times;
    CountShort(Step(s, event, now).value.1, LaunchViewer);
  }

  lemma StepWipes(s: Snapshot, event: Event, now: u64)
    requires Step(s, event, now).Ok?
    ensures var (next, effects) := Step(s, event, now).value;
            Times(effects, WipeWorkspace)
            == (if next.state.Terminal() && (s.state.PlaintextAllowed() || (s.state.Granted? && event.Opened?))
                then 1 else 0)
  {
    hide Times;
    CountShort(Step(s, event, now).value.1, WipeWorkspace);
  }

  lemma StepReseals(s: Snapshot, event: Event, now: u64)
    requires Step(s, event, now).Ok?
    ensures var (next, effects) := Step(s, event, now).value;
            Times(effects, Effect.Reseal) == (if s.state.Open? && next.state.Resealing? then 1 else 0)
  {
    hide Times;
    CountShort(Step(s, event, now).value.1, Effect.Reseal);
  }

  lemma StepJoins(s: Snapshot, event: Event, now: u64)
    requires Step(s, event, now).Ok?
    ensures Joins(s.state, Step(s, event, now).value.0.state)
  {
  }

  lemma StepEmits(s: Snapshot, event: Event, now: u64)
    requires Step(s, event, now).Ok?
    ensures var (next, effects) := Step(s, event, now).value;
            Joins(s.state, next.state) && Emits(s.state, next.state, event, effects)
  {
    hide Step, Joins;
    StepJoins(s, event, now);
    StepLaunches(s, event, now);
    StepWipes(s, event, now);
    StepReseals(s, event, now);
  }

  lemma StepFields(s: Snapshot, event: Event, now: u64)
    requires Step(s, event, now).Ok?
    ensures var next := Step(s, event, now).value.0;
            && (next.state.Resealing? ==> s.permission == Some(Edit) && next.dirty)
            && (s.state.Resealing? && !next.state.Terminal() ==> !next.dirty)
            && (!s.state.Resealing? && !next.state.Resealing? ==> next.dirty == s.dirty || next.state.Terminal())
            && (next.permission == s.permission || s.state.Requested?)
            && (next.version == s.version || s.state.Resealing?)
            && !next.state.Requested?
  {
  }

  lemma LastOfRun(start: Snapshot, trace: Trace)
    requires trace != []
    ensures var n := |trace| - 1;
            var (s, outs) := Run(start, trace[..n]);
            match Step(s, trace[n].0, trace[n].1)
            case Ok((next, effects)) => Run(start, trace) == (next, outs + [effects])
            case Err(_) => Run(start, trace) == (s, outs + [[]])
  {
  }

  lemma PhaseKept(from: State, to: State, event: Event, outs: seq<seq<Effect>>, last: seq<Effect>, launch: nat,
                  end: nat)
    requires Phase(from, outs, launch, end) && Joins(from, to) && Emits(from, to, event, last)
    ensures Phase(to, outs + [last], if from.Granted? && to.Open? then |outs| else launch, |outs|)
  {
    KeepsRun(outs, last, LaunchViewer, launch);
    KeepsRun(outs, last, WipeWorkspace, end);
  }

  lemma KeepsRun(outs: seq<seq<Effect>>, last: seq<Effect>, e: Effect, k: nat)
    ensures Never(outs, e) && Times(last, e) == 0 ==> Never(outs + [last], e)
    ensures Never(outs, e) && Times(last, e) == 1 ==> OnlyAt(outs + [last], e, |outs|)
    ensures OnlyAt(outs, e, k) && Times(last, e) == 0 ==> OnlyAt(outs + [last], e, k)
  {
  }

  lemma {:induction false} RunHolds(start: Snapshot, trace: Trace) returns (launch: nat, end: nat)
    requires !start.state.Terminal() && !start.state.PlaintextAllowed() && start.version.None? && !start.dirty
    requires start.state.Requested? ==> start.permission.None?
    ensures var (s, outs) := Run(start, trace);
            && Phase(s.state, outs, launch, end) && Fields(s, outs)
            && (s.state.Terminal() ==> EndedBy(start, trace, end))
  {
    if trace == [] {
      launch, end := 0, 0;
    } else {
      hide Step, Phase, Fields, Emits, Run, Never, OnlyAt;
      var n := |trace| - 1;
      launch, end := RunHolds(start, trace[..n]);
      var (s, outs) := Run(start, trace[..n]);
      assert trace[..n + 1] == trace;
      LastOfRun(start, trace);
      match Step(s, trace[n].0, trace[n].1)
      case Ok((next, effects)) =>
        StepEmits(s, trace[n].0, trace[n].1);
        PhaseKept(s.state, next.state, trace[n].0, outs, effects, launch, end);
        FieldsKept(s, trace[n].0, trace[n].1, outs);
        launch, end := if s.state.Granted? && next.state.Open? then n else launch, n;
      case Err(_) =>
        RejectedKeeps(s, outs, launch, end);
        if s.state.Terminal() {
          assert trace[..n][..end] == trace[..end] && trace[..n][..end + 1] == trace[..end + 1];
        }
    }
  }

  lemma FieldsKept(s: Snapshot, event: Event, now: u64, outs: seq<seq<Effect>>)
    requires Step(s, event, now).Ok? && Fields(s, outs)
    ensures var (next, effects) := Step(s, event, now).value; Fields(next, outs + [effects])
  {
    hide Step;
    StepEmits(s, event, now);
    StepFields(s, event, now);
    KeepsRun(outs, Step(s, event, now).value.1, Effect.Reseal, 0);
  }

  lemma RejectedKeeps(s: Snapshot, outs: seq<seq<Effect>>, launch: nat, end: nat)
    requires Phase(s.state, outs, launch, end) && Fields(s, outs)
    ensures Phase(s.state, outs + [[]], launch, end) && Fields(s, outs + [[]])
  {
    KeepsRun(outs, [], LaunchViewer, launch);
    KeepsRun(outs, [], WipeWorkspace, end);
    KeepsRun(outs, [], Effect.Reseal, 0);
  }

  // ---------------------------------------------------------------- where the fields come from

  /** Event i is the grant whose terms the session holds, taken inside its window. */
  ghost predicate GrantedBy(trace: Trace, i: nat, s: Snapshot) {
    && i < |trace| && trace[i].0.Grant?
    && trace[i].0 == Grant(trace[i].0.permission, s.notBefore, s.expiry, s.maxOpens)
    && s.permission == Some(trace[i].0.permission) && s.permission != Some(Deny)
    && s.notBefore <= trace[i].1 < s.expiry
  }

  /** The version of the last reseal that was accepted. */
  function LastReseal(start: Snapshot, trace: Trace): Option<u32> {
    if trace == [] then start.version
    else
      var n := |trace| - 1;
      if trace[n].0.Resealed? && Step(Run(start, trace[..n]).0, trace[n].0, trace[n].1).Ok?
          then Some(trace[n].0.version)
      else LastReseal(start, trace[..n])
  }

  lemma StepTerms(s: Snapshot, event: Event, now: u64)
    requires Step(s, event, now).Ok?
    ensures var next := Step(s, event, now).value.0;
            && (if event.Grant? then GrantedBy([(event, now)], 0, next)
                else (next.permission, next.notBefore, next.expiry, next.maxOpens)
                     == (s.permission, s.notBefore, s.expiry, s.maxOpens))
            && next.version == (if event.Resealed? then Some(event.version) else s.version)
  {
  }

  /** In every run a session's terms are those of one grant event that arrived inside its own
      window, and its version is that of the last accepted reseal. */
  lemma {:induction false} FieldsComeFromEvents(trace: Trace) returns (grant: nat)
    ensures var s := Run(New(), trace).0;
            && (s.permission.Some? ==> GrantedBy(trace, grant, s))
            && s.version == LastReseal(New(), trace)
  {
    grant := 0;
    if trace != [] {
      hide Step;
      var n := |trace| - 1;
      grant := FieldsComeFromEvents(trace[..n]);
      var s := Run(New(), trace[..n]).0;
      LastOfRun(New(), trace);
      if Step(s, trace[n].0, trace[n].1).Ok? {
        StepTerms(s, trace[n].0, trace[n].1);
        if trace[n].0.Grant? {
          grant := n;
        }
      }
    }
  }

  lemma StepMaterialises(s: Snapshot, event: Event, now: u64)
    requires Step(s, event, now).Ok?
    ensures var (next, effects) := Step(s, event, now).value;
            && (MaterialisePlaintext in effects <==> s.state.Requested? && next.state.Granted?)
            && (next.state.Denied? ==> s.state.Requested?) && !next.state.Requested?
  {
  }

  /** A request that was refused never had plaintext and never had terms. */
  lemma {:induction false} RefusedNeverMaterialises(trace: Trace)
    ensures var (s, outs) := Run(New(), trace);
            s.state.Denied? || s.state.Requested? ==> Never(outs, MaterialisePlaintext) && s.permission.None?
  {
    if trace != [] {
      hide Step;
      var n := |trace| - 1;
      RefusedNeverMaterialises(trace[..n]);
      var (s, outs) := Run(New(), trace[..n]);
      LastOfRun(New(), trace);
      if Step(s, trace[n].0, trace[n].1).Ok? {
        StepMaterialises(s, trace[n].0, trace[n].1);
        StepTerms(s, trace[n].0, trace[n].1);
        RefusalDenies(s, trace[n].0, trace[n].1);
      }
    }
  }

  lemma RefusalDenies(s: Snapshot, event: Event, now: u64)
    requires Step(s, event, now).Ok?
    ensures Step(s, event, now).value.0.state.Denied? <==> event.Refuse?
  {
  }

  // ---------------------------------------------------------------- every session

  /** The state a session ends in and its notice name the event that ended it. */
  ghost predicate SaysWhy(event: Event, state: State, effects: seq<Effect>) {
    && (state.Denied? <==> event.Refuse?) && (state.Revoked? <==> event.Revoke?) && (state.Failed? <==> event.Fail?)
    && (state.Denied? <==> Notify(Refused) in effects) && (state.Revoked? <==> Notify(RevokedByOwner) in effects)
    && (state.Failed? <==> Notify(Problem) in effects)
    && (state.Closed? ==> (Notify(Expired) in effects <==> event.Expire?)
                          && (Notify(OpensExhausted) in effects <==> event.Opened?))
  }

  /** A read-only file is marked before its viewer starts, and no other file is marked. */
  ghost predicate MarkedFirst(permission: Option<Permission>, effects: seq<Effect>) {
    if permission == Some(ReadOnly) then effects == [MarkReadOnly, LaunchViewer, Audit(AuditOpened)]
    else effects == [LaunchViewer, Audit(AuditOpened)]
  }

  /** An open viewer is asked to close before its workspace is wiped from outside. */
  ghost predicate ClosedFirst(event: Event, effects: seq<Effect>) {
    event.Revoke? || event.Expire? ==> |effects| == 3 && effects[..2] == [RequestViewerClose, WipeWorkspace]
  }

  lemma StepOrder(s: Snapshot, event: Event, now: u64)
    requires Step(s, event, now).Ok?
    ensures var (next, effects) := Step(s, event, now).value;
            && (next.state.Terminal() ==> SaysWhy(event, next.state, effects))
            && (LaunchViewer in effects ==> event.Opened? && MarkedFirst(s.permission, effects))
            && (WipeWorkspace in effects && s.state.PlaintextAllowed() ==> ClosedFirst(event, effects))
            && (WipeWorkspace in effects && s.state.Granted? ==> event.Opened?)
  {
  }

  /** What event k caused. */
  lemma {:induction false} OutAt(start: Snapshot, trace: Trace, k: nat)
    requires k < |trace|
    ensures Run(start, trace).1[k]
         == match Step(Run(start, trace[..k]).0, trace[k].0, trace[k].1)
            case Ok((_, effects)) => effects
            case Err(_) => []
    decreases |trace|
  {
    hide Step;
    LastOfRun(start, trace);
    var n := |trace| - 1;
    if k < n {
      OutAt(start, trace[..n], k);
      assert trace[..n][..k] == trace[..k];
    }
  }

  /** Once granted, a permission stays. */
  lemma {:induction false} PermissionStays(trace: Trace, k: nat)
    requires k <= |trace| && Run(New(), trace[..k]).0.permission.Some?
    ensures Run(New(), trace).0.permission == Run(New(), trace[..k]).0.permission
    decreases |trace|
  {
    if k == |trace| {
      assert trace[..k] == trace;
    } else {
      hide Step;
      var n := |trace| - 1;
      assert trace[..n][..k] == trace[..k];
      PermissionStays(trace[..n], k);
      var launch, end := RunHolds(New(), trace[..n]);
      LastOfRun(New(), trace);
      if Step(Run(New(), trace[..n]).0, trace[n].0, trace[n].1).Ok? {
        StepFields(Run(New(), trace[..n]).0, trace[n].0, trace[n].1);
      }
    }
  }

  /** Every session from its request on: the viewer launches at most once; if it launched and the
      session ended, there was exactly one wipe, after the launch, in the step that ended it; a
      read-only session never reseals and never has a new version; unsealed changes exist exactly
      while resealing. A read-only file is marked before its viewer starts, an open viewer is asked to
      close before a wipe from outside, and the end says why. */
  lemma EverySession(trace: Trace) returns (launch: nat, end: nat)
    ensures var (s, outs) := Run(New(), trace);
            && (Never(outs, LaunchViewer) || OnlyAt(outs, LaunchViewer, launch))
            && (s.state.Terminal() ==> EndedBy(New(), trace, end))
            && (s.state.Terminal() && !Never(outs, LaunchViewer) ==> OnlyAt(outs, WipeWorkspace, end) && launch < end)
            && (s.state.PlaintextAllowed() ==> !Never(outs, LaunchViewer) && Never(outs, WipeWorkspace))
            && (s.permission == Some(ReadOnly) ==> Never(outs, Reseal) && s.version.None?)
            && (!s.state.Terminal() ==> (s.dirty <==> s.state.Resealing?))
            && (!Never(outs, LaunchViewer) ==> MarkedFirst(s.permission, outs[launch]))
            && (s.state.Terminal() ==> SaysWhy(trace[end].0, s.state, outs[end]))
            && (s.state.Terminal() && !Never(outs, LaunchViewer) ==> ClosedFirst(trace[end].0, outs[end]))
  {
    launch, end := RunHolds(New(), trace);
    var (s, outs) := Run(New(), trace);
    hide Step, SaysWhy, MarkedFirst, ClosedFirst;
    if s.state.PlaintextAllowed() {
      assert LaunchViewer in outs[launch];
    }
    if !Never(outs, LaunchViewer) {
      LaunchInOrder(trace, launch);
    }
    if s.state.Terminal() {
      EndInOrder(trace, launch, end);
    }
  }

  lemma LaunchInOrder(trace: Trace, launch: nat)
    requires OnlyAt(Run(New(), trace).1, LaunchViewer, launch)
    ensures MarkedFirst(Run(New(), trace).0.permission, Run(New(), trace).1[launch])
  {
    hide Step, MarkedFirst;
    OutAt(New(), trace, launch);
    var s := Run(New(), trace[..launch]).0;
    StepOrder(s, trace[launch].0, trace[launch].1);
    StepLaunches(s, trace[launch].0, trace[launch].1);
    var l, e := RunHolds(New(), trace[..launch]);
    GrantedHasPermission(trace[..launch]);
    PermissionStays(trace, launch);
  }

  lemma {:induction false} GrantedHasPermission(trace: Trace)
    ensures var s := Run(New(), trace).0; s.permission.None? ==> s.state.Requested? || s.state.Terminal()
  {
    if trace != [] {
      hide Step;
      var n := |trace| - 1;
      GrantedHasPermission(trace[..n]);
      LastOfRun(New(), trace);
      var s := Run(New(), trace[..n]).0;
      if Step(s, trace[n].0, trace[n].1).Ok? {
        StepTerms(s, trace[n].0, trace[n].1);
        StepJoins(s, trace[n].0, trace[n].1);
        OnlyGrantsGrant(s, trace[n].0, trace[n].1);
      }
    }
  }

  lemma OnlyGrantsGrant(s: Snapshot, event: Event, now: u64)
    requires Step(s, event, now).Ok?
    ensures s.state.Requested? && !event.Grant? ==> Step(s, event, now).value.0.state.Terminal()
  {
  }

  lemma EndInOrder(trace: Trace, launch: nat, end: nat)
    requires EndedBy(New(), trace, end) && Run(New(), trace).0.state.Terminal()
    requires Never(Run(New(), trace).1, LaunchViewer)
             || (OnlyAt(Run(New(), trace).1, LaunchViewer, launch) && OnlyAt(Run(New(), trace).1, WipeWorkspace, end)
                 && launch < end)
    ensures SaysWhy(trace[end].0, Run(New(), trace).0.state, Run(New(), trace).1[end])
    ensures !Never(Run(New(), trace).1, LaunchViewer) ==> ClosedFirst(trace[end].0, Run(New(), trace).1[end])
  {
    hide Step, SaysWhy, ClosedFirst;
    OutAt(New(), trace, end);
    var s := Run(New(), trace[..end]).0;
    LastOfRun(New(), trace[..end + 1]);
    assert trace[..end + 1][..end] == trace[..end];
    StepOrder(s, trace[end].0, trace[end].1);
    EndStays(trace, end + 1);
    if !Never(Run(New(), trace).1, LaunchViewer) {
      StepWipes(s, trace[end].0, trace[end].1);
      if s.state.Granted? {
        ClosedByOpening(trace[end].0, Run(New(), trace).1[end]);
      }
    }
  }

  lemma ClosedByOpening(event: Event, effects: seq<Effect>)
    requires event.Opened?
    ensures ClosedFirst(event, effects)
  {
  }

  /** A session that has ended stays as it is. */
  lemma {:induction false} EndStays(trace: Trace, k: nat)
    requires k <= |trace| && Run(New(), trace[..k]).0.state.Terminal()
    ensures Run(New(), trace).0 == Run(New(), trace[..k]).0
    decreases |trace|
  {
    if k == |trace| {
      assert trace[..k] == trace;
    } else {
      var n := |trace| - 1;
      assert trace[..n][..k] == trace[..k];
      EndStays(trace[..n], k);
      LastOfRun(New(), trace);
    }
  }


  // ---------------------------------------------------------------- the open budget

  function Launches(outs: seq<seq<Effect>>): nat {
    if outs == [] then 0 else Launches(outs[..|outs| - 1]) + Times(outs[|outs| - 1], LaunchViewer)
  }

  lemma StepOpens(s: Snapshot, event: Event, now: u64)
    requires Step(s, event, now).Ok? && !s.state.Requested? && s.maxOpens != 0
    ensures var next := Step(s, event, now).value.0;
            && next.maxOpens == s.maxOpens && !next.state.Requested?
            && (if s.state.Granted? && next.state.Open? then next.opens == s.opens + 1 <= s.maxOpens
                else next.opens == s.opens)
  {
  }

  /** Within one session the open count moves with the launches and stays inside a budget. */
  lemma {:induction false} OpensCountLaunches(start: Snapshot, trace: Trace)
    requires start.state.Granted? && start.maxOpens != 0
    ensures var (s, outs) := Run(start, trace);
            && s.maxOpens == start.maxOpens && !s.state.Requested?
            && s.opens == start.opens + Launches(outs)
            && (Launches(outs) > 0 ==> s.opens <= start.maxOpens)
  {
    if trace != [] {
      hide Step;
      var n := |trace| - 1;
      OpensCountLaunches(start, trace[..n]);
      var (s, outs) := Run(start, trace[..n]);
      var next := Run(start, trace);
      assert next.1[..n] == outs;
      LastOfRun(start, trace);
      if Step(s, trace[n].0, trace[n].1).Ok? {
        StepEmits(s, trace[n].0, trace[n].1);
        StepOpens(s, trace[n].0, trace[n].1);
      }
    }
  }

  /** Restarts of the Agent: each session resumes the same grant with the open count the one
      before left. Returns the final count and all launches. */
  function Restarts(p: Permission, nb: u64, exp: u64, max: u16, opens: u16, traces: seq<Trace>): (u16, nat)
    decreases |traces|
  {
    if traces == [] then (opens, 0)
    else
      var (s, outs) := Run(Resume(p, nb, exp, max, opens), traces[0]);
      var (final, more) := Restarts(p, nb, exp, max, s.opens, traces[1..]);
      (final, Launches(outs) + more)
  }

  /** Across any chain of restarts the viewer never launches more often than the grant allows. */
  lemma {:induction false} BudgetHolds(p: Permission, nb: u64, exp: u64, max: u16, opens: u16, traces: seq<Trace>)
    requires max != 0
    ensures var (final, launches) := Restarts(p, nb, exp, max, opens, traces);
            && final == opens + launches
            && (launches > 0 ==> opens + launches <= max)
    decreases |traces|
  {
    if traces != [] {
      OpensCountLaunches(Resume(p, nb, exp, max, opens), traces[0]);
      var (s, outs) := Run(Resume(p, nb, exp, max, opens), traces[0]);
      BudgetHolds(p, nb, exp, max, s.opens, traces[1..]);
    }
  }
}
