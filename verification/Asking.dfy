/** A recipient's request: what an inbox message means for it (`classify`), and the loop that waits
    for the answer (`ask`), from `apps/agent/src-tauri/src/request.rs`; with the terms the owner
    answers with (`terms_for`, `apps/agent/src-tauri/src/approve.rs`). */
module Asking {
  import opened Bytes
  import opened Permissions
  import opened GrantTerms
  import Proto
  import RelaySpec
  import Machine = Session

  type Envelope = RelaySpec.Envelope

  /** What a request is about. */
  datatype Target = Target(fid: bytes32, headerHash: bytes32, owner: bytes)

  datatype GrantMsg = GrantMsg(
    requestNonce: bytes16, grant: Option<bytes>, envelope: Option<bytes>, txHash: Option<bytes32>, decision: u8)

  /** The CBOR codecs, as far as a recipient uses them. */
  datatype Codec = Codec(
    signedOf: bytes -> Option<Proto.Signed>, grantOf: bytes -> Option<GrantMsg>, termsOf: bytes -> Option<Terms>)

  datatype Flaw = Decision | NoTerms | BadTerms | File | Version | Device | Nonce | PermissionDiffers

  datatype Answer =
    | NotOurs
    | Refusal
    | Allowed(permission: Permission, terms: Terms, envelope: Option<bytes>, txHash: Option<bytes32>)
    | Mismatch(flaw: Flaw)

  /** The grant message inside an envelope, if it is one. */
  function GrantInside(c: Codec, e: Envelope): Option<GrantMsg> {
    if e.kind != Proto.Kind.Grant || |e.body| > Proto.MAX_BODY_LEN then None
    else
      match c.signedOf(e.body)
      case None => None
      case Some(signed) => if signed.kind != Proto.Kind.Grant then None else c.grantOf(signed.payload)
  }

  /** `classify`. */
  function Classify(c: Codec, e: Envelope, nonce: bytes16, target: Target, ourKeyHash: bytes32): Answer {
    match GrantInside(c, e)
    case None => NotOurs
    case Some(grant) =>
      if grant.requestNonce != nonce then NotOurs
      else if grant.decision == 0 then Refusal
      else if grant.decision > 2 then Mismatch(Decision)
      else
        var permission := if grant.decision == 1 then ReadOnly else Edit;
        match grant.grant
        case None => Mismatch(NoTerms)
        case Some(bytes) =>
          match c.termsOf(bytes)
          case None => Mismatch(BadTerms)
          case Some(terms) =>
            if terms.fileId != target.fid then Mismatch(File)
            else if terms.headerHash != target.headerHash then Mismatch(Version)
            else if terms.deviceKeyHash != ourKeyHash then Mismatch(Device)
            else if terms.requestNonce != nonce then Mismatch(Nonce)
            else if terms.permission != permission.Code() then Mismatch(PermissionDiffers)
            else Allowed(permission, terms, grant.envelope, grant.txHash)
  }

  /** Terms that answer exactly this request. */
  ghost predicate Names(t: Terms, p: Permission, nonce: bytes16, target: Target, ourKeyHash: bytes32) {
    && t.fileId == target.fid && t.headerHash == target.headerHash && t.deviceKeyHash == ourKeyHash
    && t.requestNonce == nonce && t.permission == p.Code() && p != Deny
  }

  /** A message is an approval exactly when it carries terms that name this file, version, device,
      nonce and the permission it announces; and it concerns the request at all exactly when it is a
      grant message with the request's nonce. */
  lemma ApprovalExactly(c: Codec, e: Envelope, nonce: bytes16, target: Target, ourKeyHash: bytes32, p: Permission,
                        t: Terms)
    ensures var a := Classify(c, e, nonce, target, ourKeyHash);
            && (a.Allowed? && a.permission == p && a.terms == t
                <==> match GrantInside(c, e)
                     case None => false
                     case Some(m) =>
                       && m.requestNonce == nonce && m.decision == p.Code() && m.grant.Some?
                       && c.termsOf(m.grant.value) == Some(t) && Names(t, p, nonce, target, ourKeyHash))
            && (a == NotOurs <==> GrantInside(c, e).None? || GrantInside(c, e).value.requestNonce != nonce)
  {
  }

  /** No message approves two different requests: not for another nonce, file, version or device. */
  lemma ApprovesOneRequest(c: Codec, e: Envelope, nonce: bytes16, target: Target, key: bytes32,
                           nonce': bytes16, target': Target, key': bytes32)
    requires Classify(c, e, nonce, target, key).Allowed?
    ensures nonce != nonce' ==> Classify(c, e, nonce', target', key') == NotOurs
    ensures Classify(c, e, nonce', target', key').Allowed?
            ==> nonce == nonce' && target.fid == target'.fid && target.headerHash == target'.headerHash && key == key'
  {
  }

  /** A message refuses exactly if it is a grant message with the request's nonce and decision 0; and a grant
      message with that nonce that does neither has a flaw, the first of these that applies. */
  lemma RefusalExactly(c: Codec, e: Envelope, nonce: bytes16, target: Target, ourKeyHash: bytes32)
    ensures var a := Classify(c, e, nonce, target, ourKeyHash);
            var m := GrantInside(c, e);
            && (a == Refusal <==> m.Some? && m.value.requestNonce == nonce && m.value.decision == 0)
            && (a.Mismatch? ==>
                  m.Some? && m.value.requestNonce == nonce && FlawOf(c, m.value, target, ourKeyHash, a.flaw))
  {
  }

  /** What each flaw says about a message that answers the request. */
  ghost predicate FlawOf(c: Codec, m: GrantMsg, target: Target, ourKeyHash: bytes32, flaw: Flaw) {
    var t := if m.grant.Some? then c.termsOf(m.grant.value) else None;
    match flaw
    case Decision => m.decision > 2
    case NoTerms => m.grant.None?
    case BadTerms => m.grant.Some? && t.None?
    case File => t.Some? && t.value.fileId != target.fid
    case Version => t.Some? && t.value.fileId == target.fid && t.value.headerHash != target.headerHash
    case Device => t.Some? && t.value.deviceKeyHash != ourKeyHash
    case Nonce => t.Some? && t.value.requestNonce != m.requestNonce
    case PermissionDiffers => t.Some? && t.value.permission != m.decision
  }

  /** Which messages are read as grant messages: by the kind on the envelope, by the kind that was signed, and
      by size. */
  lemma InsideExactly(c: Codec, e: Envelope, m: GrantMsg)
    ensures GrantInside(c, e) == Some(m) <==>
            && e.kind == Proto.Kind.Grant && |e.body| <= Proto.MAX_BODY_LEN && c.signedOf(e.body).Some?
            && c.signedOf(e.body).value.kind == Proto.Kind.Grant
            && c.grantOf(c.signedOf(e.body).value.payload) == Some(m)
  {
  }

  // ---------------------------------------------------------------- the owner's terms

  const NOT_BEFORE_SLACK_SECS: nat := 120

  /** `terms_for`: the window is the owner's, from two minutes back; the sum is a `u64` sum. */
  function TermsFor(nonce: bytes16, target: Target, keyHash: bytes32, p: Permission, ttl: u64, maxOpens: u16,
                    grantNonce: u64, now: u64): Terms {
    Terms(target.fid, target.headerHash, keyHash, p.Code(),
          if now < NOT_BEFORE_SLACK_SECS then 0 else now - NOT_BEFORE_SLACK_SECS,
          (now + if ttl < 60 then 60 else ttl) % 0x1_0000_0000_0000_0000, maxOpens, nonce, grantNonce)
  }

  predicate InWindow(t: Terms, now: u64) {
    t.notBefore <= now < t.expiry
  }

  /** The owner's answer to a request is an approval of that request with the same permission, and
      it is usable when it is made exactly if the expiry does not run past the last second; if so it
      is usable from two minutes before until the chosen time (at least a minute) is over. */
  lemma AnswerFitsRequest(c: Codec, e: Envelope, nonce: bytes16, target: Target, keyHash: bytes32, p: Permission,
                          ttl: u64, maxOpens: u16, grantNonce: u64, now: u64, there: u64)
    requires p != Deny
    requires GrantInside(c, e).Some?
    requires var m := GrantInside(c, e).value;
             && m.requestNonce == nonce && m.decision == p.Code() && m.grant.Some?
             && c.termsOf(m.grant.value) == Some(TermsFor(nonce, target, keyHash, p, ttl, maxOpens, grantNonce, now))
    ensures var t := TermsFor(nonce, target, keyHash, p, ttl, maxOpens, grantNonce, now);
            var chosen: nat := if ttl < 60 then 60 else ttl;
            && Classify(c, e, nonce, target, keyHash)
               == Allowed(p, t, GrantInside(c, e).value.envelope, GrantInside(c, e).value.txHash)
            && (InWindow(t, now) <==> now + chosen <= U64_MAX)
            && (InWindow(t, now) ==>
                  (InWindow(t, there) <==> now <= there + 120 && there < now + chosen))
  {
  }

  /** The budget in the owner's answer is the one chosen when the file was locked: over any restarts the file is
      shown at most so many times. */
  lemma AnswerKeepsBudget(nonce: bytes16, target: Target, keyHash: bytes32, p: Permission, ttl: u64, maxOpens: u16,
                          grantNonce: u64, now: u64, traces: seq<Machine.Trace>)
    requires maxOpens != 0
    ensures var t := TermsFor(nonce, target, keyHash, p, ttl, maxOpens, grantNonce, now);
            Machine.Restarts(p, t.notBefore, t.expiry, t.maxOpens, 0, traces).1 <= maxOpens
  {
    var t := TermsFor(nonce, target, keyHash, p, ttl, maxOpens, grantNonce, now);
    Machine.BudgetHolds(p, t.notBefore, t.expiry, t.maxOpens, 0, traces);
  }

  /** Two answers under different nonces of the owner never share a grant id, unless keccak collides on the two
      preimages: a second approval of the same request is a grant of its own. */
  lemma EachAnswerItsOwnGrant(h: Hashing, nonce: bytes16, target: Target, keyHash: bytes32, p: Permission, ttl: u64,
                              maxOpens: u16, now: u64, first: u64, second: u64)
    requires first != second
    ensures var t := TermsFor(nonce, target, keyHash, p, ttl, maxOpens, first, now);
            var u := TermsFor(nonce, target, keyHash, p, ttl, maxOpens, second, now);
            h.StructHash(t) != h.StructHash(u) || h.Collision(h.typeHash + Words(t), h.typeHash + Words(u))
  {
    var t := TermsFor(nonce, target, keyHash, p, ttl, maxOpens, first, now);
    var u := TermsFor(nonce, target, keyHash, p, ttl, maxOpens, second, now);
    assert t.grantNonce == first && u.grantNonce == second;
    if h.StructHash(t) == h.StructHash(u) {
      StructHashBinds(h, t, u);
    }
  }

  // ---------------------------------------------------------------- waiting for the answer

  datatype Problem = RelayUnreachable | RelayRefused | RelayFailed | MismatchedAnswer | WindowClosed

  datatype Outcome =
    Granted(permission: Permission, expiry: u64) | Denied | Expired | Cancelled | Failed(problem: Problem)

  /** A progress report; a grant says whether the owner's signature is still to be checked. */
  datatype Update = Sent | Nudge | GrantedUpdate(decision: Permission, expiry: u64, unchecked: bool)
    | DeniedUpdate | ExpiredUpdate | CancelledUpdate | FailedUpdate(problem: Problem)

  datatype Held = Held(session: Machine.Snapshot, terms: Option<Terms>, envelope: Option<bytes>)

  datatype ChainAnswer = Confirms | NoSuchGrant | CannotTell

  /** What one request meets: the relay's replies to announcing and sending; and for each turn of
      the loop the cancel flag, the time waited, the inbox (none when it could not be read), the wall
      clock and what the chain says about the grant. */
  datatype World = World(
    announced: Option<Problem>, sent: Option<Problem>,
    cancelled: nat -> bool, waited: nat -> nat, inbox: nat -> Option<seq<Envelope>>, now: nat -> u64,
    hasChain: bool, chainSays: nat -> ChainAnswer)

  /** Where progress reports go. */
  class Screen {
    var updates: seq<Update>

    constructor ()
      ensures updates == []
    {
      updates := [];
    }

    method OnUpdate(update: Update)
      modifies this
      ensures updates == old(updates) + [update]
    {
      updates := updates + [update];
    }
  }

  datatype Request = Request(
    codec: Codec, nonce: bytes16, target: Target, ourKeyHash: bytes32, poll: nat, nudgeAfter: nat, giveUpAfter: nat) {
    function Read(e: Envelope): Answer {
      Classify(codec, e, nonce, target, ourKeyHash)
    }

    /** The first message of an inbox that concerns this request. */
    function First(inbox: seq<Envelope>): (r: Option<nat>)
      ensures r.Some? ==> r.value < |inbox| && Read(inbox[r.value]) != NotOurs
      ensures forall i :: 0 <= i < |inbox| && (r.Some? ==> i < r.value) ==> Read(inbox[i]) == NotOurs
    {
      if inbox == [] then None
      else if Read(inbox[0]) != NotOurs then Some(0)
      else
        match First(inbox[1..])
        case None => None
        case Some(i) => assert inbox[1..][i] == inbox[i + 1]; Some(i + 1)
    }

    lemma FirstIs(inbox: seq<Envelope>, j: nat)
      requires j < |inbox| && Read(inbox[j]) != NotOurs
      requires forall i :: 0 <= i < j ==> Read(inbox[i]) == NotOurs
      ensures First(inbox) == Some(j)
    {
    }

    function Messages(w: World, k: nat): seq<Envelope> {
      match w.inbox(k)
      case None => []
      case Some(list) => list
    }

    /** The loop reads its inbox in turn k. */
    predicate Reads(w: World, k: nat) {
      !w.cancelled(k) && w.waited(k) < giveUpAfter
    }

    /** Turn k ends nothing. */
    predicate Quiet(w: World, k: nat) {
      Reads(w, k) && First(Messages(w, k)).None?
    }

    /** How the request ends in turn n, when it does. */
    function Verdict(w: World, n: nat): Outcome
      requires !Quiet(w, n)
    {
      if w.cancelled(n) then Cancelled
      else if w.waited(n) >= giveUpAfter then Expired
      else
        Judge(w, n, Deciding(w, n))
    }

    function Judge(w: World, n: nat, a: Answer): Outcome
      requires a != NotOurs
    {
      match a
      case Refusal => Denied
      case Mismatch(_) => Failed(MismatchedAnswer)
      case Allowed(p, t, _, tx) =>
        if w.hasChain && tx.Some? && w.chainSays(n).NoSuchGrant? then Failed(MismatchedAnswer)
        else if !InWindow(t, w.now(n)) then Failed(WindowClosed)
        else Granted(p, t.expiry)
    }

    /** The message that decided turn n. */
    function Deciding(w: World, n: nat): Answer
      requires Reads(w, n) && !Quiet(w, n)
    {
      Read(Messages(w, n)[First(Messages(w, n)).value])
    }

    /** The report that goes with the outcome; a grant is fully checked only if the chain confirmed it. */
    ghost predicate Reports(w: World, n: nat, a: Answer, outcome: Outcome, u: Update) {
      match outcome
      case Granted(p, expiry) =>
        u == GrantedUpdate(p, expiry, !(a.Allowed? && a.txHash.Some? && w.hasChain && w.chainSays(n).Confirms?))
      case Denied => u == DeniedUpdate
      case Expired => u == ExpiredUpdate
      case Cancelled => u == CancelledUpdate
      case Failed(p) => u == FailedUpdate(p)
    }

    /** What is kept when the request has ended on an answer. */
    ghost predicate Keeps(w: World, n: nat, a: Answer, outcome: Outcome, held: Held) {
      if outcome.Granted? then
        && a.Allowed? && held.terms == Some(a.terms) && held.envelope == a.envelope
        && Names(a.terms, outcome.permission, nonce, target, ourKeyHash)
        && InWindow(a.terms, w.now(n)) && a.terms.expiry == outcome.expiry
        && held.session.state.Granted?
        && held.session == Machine.Resume(outcome.permission, a.terms.notBefore, a.terms.expiry, a.terms.maxOpens, 0)
      else
        held.session.state.Terminal() && held.terms.None? && held.envelope.None?
    }

    /** The answer that decides turn n, or none when the turn ends without reading. */
    function AnswerAt(w: World, n: nat): Answer {
      if Reads(w, n) && !Quiet(w, n) then Deciding(w, n) else NotOurs
    }

    ghost predicate TimeAdvances(w: World) {
      forall k: nat :: w.waited(k) + poll <= w.waited(k + 1)
    }

    /** Some turn before n that read the inbox came after the nudge time. */
    ghost predicate NudgeDue(w: World, n: nat) {
      exists k :: 0 <= k < n && Reads(w, k) && w.waited(k) >= nudgeAfter
    }

    lemma NudgeDueStep(w: World, n: nat)
      ensures NudgeDue(w, n + 1) <==> NudgeDue(w, n) || (Reads(w, n) && w.waited(n) >= nudgeAfter)
    {
    }

    ghost predicate AllQuiet(w: World, n: nat) {
      forall k :: 0 <= k < n ==> Quiet(w, k)
    }

    lemma AllQuietStep(w: World, n: nat)
      requires AllQuiet(w, n) && Quiet(w, n)
      ensures AllQuiet(w, n + 1)
    {
    }

    lemma {:induction false} QuietInTime(w: World, n: nat)
      requires poll > 0 && TimeAdvances(w) && AllQuiet(w, n)
      ensures n * poll <= w.waited(n) && n * poll < giveUpAfter + poll
      decreases n
    {
      hide Classify, First;
      if n > 0 {
        var k := n - 1;
        QuietInTime(w, k);
        assert w.waited(k) + poll <= w.waited(k + 1);
        assert Quiet(w, k);
        assert w.waited(k) < giveUpAfter;
        OneMoreTurn(k);
      }
    }

    lemma OneMoreTurn(k: nat)
      ensures (k + 1) * poll == k * poll + poll
    {
    }

    /** `ask`: announce, send, then poll until the first turn that is not quiet. That turn alone
        decides the outcome; the session that is kept is granted exactly on a granted outcome, with
        terms naming this file, version, device, nonce and permission inside their window, and is
        over with nothing kept on any other. One final report, after at most one nudge; and the
        deadline bounds the number of turns. */
    method Ask(screen: Screen, w: World) returns (outcome: Outcome, held: Held, ghost last: Update, ghost stop: nat)
      requires poll > 0 && TimeAdvances(w)
      modifies screen
      ensures w.announced.Some? ==> outcome == Failed(w.announced.value)
      ensures w.announced.None? && w.sent.Some? ==> outcome == Failed(w.sent.value)
      ensures Keeps(w, stop, if Unsent(w) then NotOurs else AnswerAt(w, stop), outcome, held)
      ensures Unsent(w) ==> screen.updates == old(screen.updates) + [last] && last == FailedUpdate(outcome.problem)
      ensures !Unsent(w) ==>
                && AllQuiet(w, stop) && !Quiet(w, stop) && outcome == Verdict(w, stop)
                && screen.updates == old(screen.updates) + [Sent] + Nudges(w, stop + 1) + [last]
                && Reports(w, stop, AnswerAt(w, stop), outcome, last)
                && stop * poll < giveUpAfter + poll
    {
      hide Classify, First, Judge, Names, InWindow, NudgeDue, Nudges, AllQuiet, Machine.Step;
      var session := new Machine.Session();
      stop := 0;
      if w.announced.Some? {
        held := End(session, screen, Machine.Fail, FailedUpdate(w.announced.value));
        return Failed(w.announced.value), held, FailedUpdate(w.announced.value), 0;
      }
      if w.sent.Some? {
        held := End(session, screen, Machine.Fail, FailedUpdate(w.sent.value));
        return Failed(w.sent.value), held, FailedUpdate(w.sent.value), 0;
      }
      screen.OnUpdate(Sent);
      outcome, held, last, stop := Wait(session, screen, w);
      QuietInTime(w, stop);
    }

    /** The request never left. */
    predicate Unsent(w: World) {
      w.announced.Some? || w.sent.Some?
    }

    /** The nudges due before turn n: one, or none. */
    ghost function Nudges(w: World, n: nat): seq<Update> {
      if NudgeDue(w, n) then [Nudge] else []
    }

    /** The loop, after the request was sent. */
    method Wait(session: Machine.Session, screen: Screen, w: World)
      returns (outcome: Outcome, held: Held, ghost last: Update, ghost stop: nat)
      requires session.Now() == Machine.New() && poll > 0 && TimeAdvances(w)
      modifies session, screen
      ensures AllQuiet(w, stop) && !Quiet(w, stop) && outcome == Verdict(w, stop)
      ensures screen.updates == old(screen.updates) + Nudges(w, stop + 1) + [last]
      ensures Keeps(w, stop, AnswerAt(w, stop), outcome, held) && Reports(w, stop, AnswerAt(w, stop), outcome, last)
    {
      NothingBefore(w);
      NoNudge(w, screen.updates, 0, false);
      hide Classify, First, Judge, Names, InWindow, NudgeDue, Nudges, AllQuiet, Machine.Step;
      var nudged := false;
      var k: nat := 0;
      while true
        invariant session.Now() == Machine.New()
        invariant AllQuiet(w, k) && nudged == NudgeDue(w, k)
        invariant screen.updates == old(screen.updates) + Nudges(w, k)
        decreases giveUpAfter - w.waited(k)
      {
        stop := k;
        NudgeDueStep(w, k);
        NoNudge(w, old(screen.updates), k, nudged);
        if w.cancelled(k) {
          held := End(session, screen, Machine.Fail, CancelledUpdate);
          return Cancelled, held, CancelledUpdate, stop;
        }
        if w.waited(k) >= giveUpAfter {
          held := End(session, screen, Machine.Expire, ExpiredUpdate);
          return Expired, held, ExpiredUpdate, stop;
        }
        if !nudged && w.waited(k) >= nudgeAfter {
          nudged := true;
          screen.OnUpdate(Nudge);
        }
        ghost var told := screen.updates;
        var list := Messages(w, k);
        for j := 0 to |list|
          invariant session.Now() == Machine.New() && screen.updates == told
          invariant forall i :: 0 <= i < j ==> Read(list[i]) == NotOurs
        {
          if Read(list[j]) != NotOurs {
            FirstIs(list, j);
            outcome, held, last := Settle(session, screen, w, k, list[j]);
            return outcome, held, last, stop;
          }
        }
        FirstNone(list);
        AllQuietStep(w, k);
        assert w.waited(k) + poll <= w.waited(k + 1);
        k := k + 1;
      }
    }

    /** A nudge is due in turn n if it was not given before and the time has come. */
    lemma NoNudge(w: World, before: seq<Update>, n: nat, nudged: bool)
      requires nudged == NudgeDue(w, n)
      ensures Nudges(w, n) == if nudged then [Nudge] else []
      ensures NudgeDue(w, n + 1) == nudged ==> before + Nudges(w, n) == before + Nudges(w, n + 1)
      ensures NudgeDue(w, n + 1) && !nudged ==> before + Nudges(w, n) + [Nudge] == before + Nudges(w, n + 1)
      ensures !nudged ==> before + Nudges(w, n) == before
    {
      hide NudgeDue;
      assert before + [] == before;
    }

    lemma NothingBefore(w: World)
      ensures AllQuiet(w, 0) && !NudgeDue(w, 0)
    {
    }

    lemma FirstNone(inbox: seq<Envelope>)
      requires forall i :: 0 <= i < |inbox| ==> Read(inbox[i]) == NotOurs
      ensures First(inbox).None?
    {
    }

    /** The loop's body for the first message that concerns the request. */
    method Settle(session: Machine.Session, screen: Screen, w: World, n: nat, e: Envelope)
      returns (outcome: Outcome, held: Held, ghost update: Update)
      requires session.Now() == Machine.New() && Read(e) != NotOurs
      modifies session, screen
      ensures outcome == Judge(w, n, Read(e)) && Keeps(w, n, Read(e), outcome, held)
      ensures screen.updates == old(screen.updates) + [update] && Reports(w, n, Read(e), outcome, update)
    {
      hide Classify;
      match Read(e) {
        case Refusal =>
          held := End(session, screen, Machine.Refuse, DeniedUpdate);
          return Denied, held, DeniedUpdate;
        case Mismatch(_) =>
          held := End(session, screen, Machine.Fail, FailedUpdate(MismatchedAnswer));
          return Failed(MismatchedAnswer), held, FailedUpdate(MismatchedAnswer);
        case Allowed(permission, terms, envelope, txHash) =>
          var unchecked := true;
          if w.hasChain && txHash.Some? {
            match w.chainSays(n) {
              case Confirms =>
                unchecked := false;
              case NoSuchGrant =>
                held := End(session, screen, Machine.Fail, FailedUpdate(MismatchedAnswer));
                return Failed(MismatchedAnswer), held, FailedUpdate(MismatchedAnswer);
              case CannotTell =>
            }
          }
          ApprovalExactly(codec, e, nonce, target, ourKeyHash, permission, terms);
          var r := session.Apply(Machine.Grant(permission, terms.notBefore, terms.expiry, terms.maxOpens), w.now(n));
          if r.Err? {
            held := End(session, screen, Machine.Fail, FailedUpdate(WindowClosed));
            return Failed(WindowClosed), held, FailedUpdate(WindowClosed);
          }
          screen.OnUpdate(GrantedUpdate(permission, terms.expiry, unchecked));
          held := Held(session.Now(), Some(terms), envelope);
          return Granted(permission, terms.expiry), held, GrantedUpdate(permission, terms.expiry, unchecked);
      }
    }

    /** Drive a session that waits for its answer to an end and say so; nothing is kept with it. */
    method End(session: Machine.Session, screen: Screen, event: Machine.Event, update: Update) returns (held: Held)
      requires session.Now() == Machine.New()
      requires event.Fail? || event.Expire? || event.Refuse?
      modifies session, screen
      ensures held.session == session.Now() && held.session.state.Terminal() && held.terms.None? && held.envelope.None?
      ensures screen.updates == old(screen.updates) + [update]
    {
      var r := session.Apply(event, 0);
      screen.OnUpdate(update);
      held := Held(session.Now(), None, None);
    }
  }

  /** The first message of turn n that is a grant message with the request's nonce. */
  ghost predicate Answered(r: Request, w: World, n: nat, i: nat, m: GrantMsg) {
    && w.inbox(n).Some? && i < |w.inbox(n).value|
    && GrantInside(r.codec, w.inbox(n).value[i]) == Some(m) && m.requestNonce == r.nonce
    && forall j :: 0 <= j < i ==>
         var inside := GrantInside(r.codec, w.inbox(n).value[j]); inside.None? || inside.value.requestNonce != r.nonce
  }

  /** The message carries these terms, they are for this file, version, device and request, and they allow what
      the message says. */
  ghost predicate Carries(r: Request, m: GrantMsg, t: Terms) {
    && (m.decision == 1 || m.decision == 2) && m.grant.Some? && r.codec.termsOf(m.grant.value) == Some(t)
    && t.fileId == r.target.fid && t.headerHash == r.target.headerHash && t.deviceKeyHash == r.ourKeyHash
    && t.requestNonce == r.nonce && t.permission == m.decision
  }

  /** How a turn that ends the wait ends it, said of the messages themselves: cancelling comes first, then the
      deadline, then the first answer in the inbox. A refusal is decision 0. A grant is decision 1 or 2 with terms
      that are for this request, that a chain which was asked does not deny, and whose window is open; whatever
      else answers the request fails it. */
  lemma VerdictExactly(r: Request, w: World, n: nat) returns (i: nat, m: GrantMsg)
    requires !r.Quiet(w, n)
    ensures var o := r.Verdict(w, n);
            var looks := !w.cancelled(n) && w.waited(n) < r.giveUpAfter;
            var denied := w.hasChain && m.txHash.Some? && w.chainSays(n) == NoSuchGrant;
            && (o == Cancelled <==> w.cancelled(n))
            && (o == Expired <==> !w.cancelled(n) && w.waited(n) >= r.giveUpAfter)
            && (looks ==> Answered(r, w, n, i, m))
            && (o == Denied <==> looks && m.decision == 0)
            && (o.Granted? <==> looks && !denied && exists t :: Carries(r, m, t) && t.notBefore <= w.now(n) < t.expiry)
            && (o.Granted? ==> o.permission == (if m.decision == 1 then ReadOnly else Edit)
                               && exists t :: Carries(r, m, t) && o == Granted(o.permission, t.expiry))
            && (o == Failed(WindowClosed) <==>
                  looks && !denied && exists t :: Carries(r, m, t) && !(t.notBefore <= w.now(n) < t.expiry))
            && (o.Failed? ==> o.problem == WindowClosed || o.problem == MismatchedAnswer)
  {
    i, m := 0, GrantMsg(r.nonce, None, None, None, 0);
    if r.Reads(w, n) {
      var list := r.Messages(w, n);
      i := r.First(list).value;
      ConcernsExactly(r, list[i]);
      m := GrantInside(r.codec, list[i]).value;
      forall j | 0 <= j < i
        ensures var inside := GrantInside(r.codec, list[j]); inside.None? || inside.value.requestNonce != r.nonce
      {
        ConcernsExactly(r, list[j]);
      }
      JudgedExactly(r, w, n, list[i], m);
    }
  }

  lemma ConcernsExactly(r: Request, e: Envelope)
    ensures r.Read(e) != NotOurs <==>
            GrantInside(r.codec, e).Some? && GrantInside(r.codec, e).value.requestNonce == r.nonce
  {
    ApprovalExactly(r.codec, e, r.nonce, r.target, r.ourKeyHash, ReadOnly,
                    Terms(r.target.fid, r.target.headerHash, r.ourKeyHash, 1, 0, 0, 0, r.nonce, 0));
  }

  lemma JudgedExactly(r: Request, w: World, n: nat, e: Envelope, m: GrantMsg)
    requires GrantInside(r.codec, e) == Some(m) && m.requestNonce == r.nonce && r.Read(e) != NotOurs
    ensures var o := r.Judge(w, n, r.Read(e));
            var denied := w.hasChain && m.txHash.Some? && w.chainSays(n) == NoSuchGrant;
            && (o == Denied <==> m.decision == 0) && o != Cancelled && o != Expired
            && (o.Granted? <==> !denied && exists t :: Carries(r, m, t) && t.notBefore <= w.now(n) < t.expiry)
            && (o.Granted? ==> o.permission == (if m.decision == 1 then ReadOnly else Edit)
                               && exists t :: Carries(r, m, t) && o == Granted(o.permission, t.expiry))
            && (o == Failed(WindowClosed) <==>
                  !denied && exists t :: Carries(r, m, t) && !(t.notBefore <= w.now(n) < t.expiry))
            && (o.Failed? ==> o.problem == WindowClosed || o.problem == MismatchedAnswer)
  {
    if r.Read(e).Allowed? {
      assert Carries(r, m, r.Read(e).terms);
    }
    assert forall t :: Carries(r, m, t) ==> r.Read(e).Allowed? && r.Read(e).terms == t;
  }

  // ---------------------------------------------------------------- guarding a held grant

  datatype GrantEnd = RevokedEnd | ExpiredEnd | CancelledEnd

  /** What a watch meets turn by turn: the cancel flag, the wall clock, whether the chain was asked and
      says the grant is no longer valid, and the inbox (none when it could not be read). `revokes` says
      which grant a message revokes, if it is a revocation that decodes. */
  datatype Guard = Guard(
    cancelled: nat -> bool, now: nat -> u64, pulledOnChain: nat -> bool, inbox: nat -> Option<seq<Envelope>>,
    revokes: Envelope -> Option<bytes32>) {

    predicate PulledByRelay(k: nat, grantId: bytes32) {
      inbox(k).Some? && exists i :: 0 <= i < |inbox(k).value| && revokes(inbox(k).value[i]) == Some(grantId)
    }

    /** Turn k ends nothing. */
    predicate Calm(k: nat, grantId: bytes32, expiry: u64) {
      !cancelled(k) && now(k) < expiry && !pulledOnChain(k) && !PulledByRelay(k, grantId)
    }

    /** Until the expiry each turn takes at least the poll interval. */
    ghost predicate ClockAdvances(pollSecs: nat, expiry: u64) {
      pollSecs > 0 && forall k: nat :: now(k) < expiry ==> now(k) + pollSecs <= now(k + 1)
    }

    /** `watch_grant`: the first turn that is not calm ends the watch, so a revocation that the chain or
        the relay shows ends the session in the turn that shows it, and the grant's expiry ends it at
        the latest; only cancelling leaves the session as it was. */
    method Watch(session: Machine.Session, grantId: bytes32, expiry: u64, ghost pollSecs: nat)
      returns (end: GrantEnd, ghost stop: nat)
      requires ClockAdvances(pollSecs, expiry) && !session.Now().state.Terminal()
      modifies session
      ensures (forall k :: 0 <= k < stop ==> Calm(k, grantId, expiry)) && !Calm(stop, grantId, expiry)
      ensures end.CancelledEnd? <==> cancelled(stop)
      ensures end.ExpiredEnd? <==> !cancelled(stop) && now(stop) >= expiry
      ensures end.RevokedEnd? <==>
              !cancelled(stop) && now(stop) < expiry && (pulledOnChain(stop) || PulledByRelay(stop, grantId))
      ensures match end
              case CancelledEnd => session.Now() == old(session.Now())
              case ExpiredEnd => session.Now() == old(session.Now()).(state := Machine.Closed, dirty := false)
              case RevokedEnd => session.Now() == old(session.Now()).(state := Machine.Revoked, dirty := false)
    {
      var k: nat := 0;
      stop := 0;
      while true
        invariant stop == k && session.Now() == old(session.Now())
        invariant forall i :: 0 <= i < k ==> Calm(i, grantId, expiry)
        decreases expiry - now(k)
      {
        if cancelled(k) {
          return CancelledEnd, k;
        }
        if now(k) >= expiry {
          var r := session.Apply(Machine.Expire, now(k));
          return ExpiredEnd, k;
        }
        if pulledOnChain(k) {
          var r := session.Apply(Machine.Revoke, now(k));
          return RevokedEnd, k;
        }
        if inbox(k).Some? && exists i :: 0 <= i < |inbox(k).value| && revokes(inbox(k).value[i]) == Some(grantId) {
          var r := session.Apply(Machine.Revoke, now(k));
          return RevokedEnd, k;
        }
        assert now(k) + pollSecs <= now(k + 1);
        k := k + 1;
        stop := k;
      }
    }
  }
}
