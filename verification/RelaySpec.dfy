/**
 What the relay does (`apps/relay/src/routes.rs`), stated over everything that ever happened to
 it. Nothing is forgotten here: every decision looks at the whole history. The store the relay
 really keeps is in `RelayStore`.
 */
module RelaySpec {
  import opened Bytes
  import opened Proto

  /** Nanoseconds of one non-decreasing clock. */
  type Time = nat

  const SECOND: nat := 1_000_000_000
  const QUEUE_TTL: nat := 86_400 * SECOND
  const NONCE_MEMORY: nat := 300 * SECOND
  const MINUTE: nat := 60 * SECOND
  const HOUR: nat := 3600 * SECOND
  const RATE_PER_MINUTE: nat := 30
  const RATE_PER_HOUR: nat := 300

  datatype Inbox = Owner(account: bytes) | Device(kid: Kid)
  datatype Envelope = Envelope(id: bytes16, kind: Kind, body: bytes, queuedAt: nat)
  datatype Queued = Queued(envelope: Envelope, at: Time)
  datatype DeviceInfo = DeviceInfo(ed25519: bytes32, x25519: bytes32, tag: Option<bytes>)

  datatype Event =
    | Registered(kid: Kid, device: DeviceInfo, at: Time)
    | Called(kid: Kid, at: Time)
    | Taken(nonce: MsgNonce, ts: u64, verifiedAt: Time, at: Time)
    | Routed(request: MsgNonce, kid: Kid, at: Time)
    | Asked(fid: FileId, kid: Kid, at: Time)
    | Put(inbox: Inbox, envelope: Envelope, at: Time)
    | Drained(inbox: Inbox, at: Time)

  type History = seq<Event>

  function Unix(t: Time): nat {
    t / SECOND
  }

  // ---------------------------------------------------------------- reading the history

  /** The last event, and what came before it. */
  function Last(h: History): Event
    requires h != []
  {
    h[|h| - 1]
  }

  function Before(h: History): History
    requires h != []
  {
    h[..|h| - 1]
  }

  function DeviceOf(h: History, kid: Kid): Option<DeviceInfo> {
    if h == [] then None
    else if Last(h).Registered? && Last(h).kid == kid then Some(Last(h).device)
    else DeviceOf(Before(h), kid)
  }

  /** When this device's accepted calls came. */
  function Calls(h: History, kid: Kid): seq<Time> {
    if h == [] then []
    else if Last(h).Called? && Last(h).kid == kid then Calls(Before(h), kid) + [Last(h).at]
    else Calls(Before(h), kid)
  }

  /** When this nonce was last taken. */
  function LastTaken(h: History, nonce: MsgNonce): Option<Time> {
    if h == [] then None
    else if Last(h).Taken? && Last(h).nonce == nonce then Some(Last(h).at)
    else LastTaken(Before(h), nonce)
  }

  /** Who last asked with this request nonce, and when. */
  function LastRoute(h: History, request: MsgNonce): Option<(Kid, Time)> {
    if h == [] then None
    else if Last(h).Routed? && Last(h).request == request then Some((Last(h).kid, Last(h).at))
    else LastRoute(Before(h), request)
  }

  function Without(asks: seq<(Kid, Time)>, kid: Kid): seq<(Kid, Time)> {
    if asks == [] then []
    else if asks[0].0 == kid then Without(asks[1..], kid)
    else [asks[0]] + Without(asks[1..], kid)
  }

  /** Every device that ever asked about this file with its latest ask, in the order of those. */
  function Asks(h: History, fid: FileId): seq<(Kid, Time)> {
    if h == [] then []
    else if Last(h).Asked? && Last(h).fid == fid then
      Without(Asks(Before(h), fid), Last(h).kid) + [(Last(h).kid, Last(h).at)]
    else Asks(Before(h), fid)
  }

  /** Everything put in this inbox since it was last drained, in order. */
  function Held(h: History, inbox: Inbox): seq<Queued> {
    if h == [] then []
    else if Last(h).Drained? && Last(h).inbox == inbox then []
    else if Last(h).Put? && Last(h).inbox == inbox then Held(Before(h), inbox) + [Queued(Last(h).envelope, Last(h).at)]
    else Held(Before(h), inbox)
  }

  // ---------------------------------------------------------------- decisions

  /** How many of these times lie at most `span` before `now`. */
  function CountWithin(times: seq<Time>, now: Time, span: nat): (n: nat)
    ensures n <= |times|
  {
    if times == [] then 0
    else CountWithin(times[..|times| - 1], now, span) + if now - times[|times| - 1] <= span then 1 else 0
  }

  predicate QuotaOk(h: History, kid: Kid, now: Time) {
    && CountWithin(Calls(h, kid), now, MINUTE) < RATE_PER_MINUTE
    && CountWithin(Calls(h, kid), now, HOUR) < RATE_PER_HOUR
  }

  predicate NonceFree(h: History, nonce: MsgNonce, now: Time) {
    LastTaken(h, nonce).None? || now - LastTaken(h, nonce).value >= NONCE_MEMORY
  }

  function RouteFor(h: History, request: MsgNonce, now: Time): Option<Kid> {
    match LastRoute(h, request)
    case Some((kid, at)) => if now - at < QUEUE_TTL then Some(kid) else None
    case None => None
  }

  function RecentKids(asks: seq<(Kid, Time)>, now: Time): seq<Kid> {
    if asks == [] then []
    else if now - asks[0].1 < QUEUE_TTL then [asks[0].0] + RecentKids(asks[1..], now)
    else RecentKids(asks[1..], now)
  }

  function Interested(h: History, fid: FileId, now: Time): seq<Kid> {
    RecentKids(Asks(h, fid), now)
  }

  function Deliverable(held: seq<Queued>, now: Time): seq<Envelope> {
    if held == [] then []
    else if now - held[0].at <= QUEUE_TTL then [held[0].envelope] + Deliverable(held[1..], now)
    else Deliverable(held[1..], now)
  }

  function Delivery(h: History, inbox: Inbox, now: Time): seq<Envelope> {
    Deliverable(Held(h, inbox), now)
  }

  // ---------------------------------------------------------------- handling a submission

  datatype Path = Devices | Requests | Grants | Versions | Revocations

  /** One POST: the body, the clock when the envelope is verified, when quota and nonce are
      taken, and when the message is routed; and the queue ids drawn for it. */
  datatype Post = Post(path: Path, body: bytes, verify: Time, take: Time, route: Time, ids: seq<bytes16>) {
    predicate Ordered() {
      verify <= take <= route
    }
  }

  datatype Reply = Accepted(id: bytes16) | Refused(code: ErrorCode)

  function KindOf(p: Path): Kind {
    match p
    case Devices => Announce
    case Requests => Req
    case Grants => Grant
    case Versions => Version
    case Revocations => Revoke
  }

  function Id(ids: seq<bytes16>, i: nat): bytes16 {
    if i < |ids| then ids[i] else Zeros(16)
  }

  /** Quota first, then the nonce: a call over quota leaves nothing behind. */
  function Admit(h: History, kid: Kid, signed: Signed, post: Post): (History, Result<()>) {
    if !QuotaOk(h, kid, post.take) then (h, Err(RateLimited))
    else
      var called := h + [Called(kid, post.take)];
      if !NonceFree(called, signed.nonce, post.take) then (called, Err(Replayed))
      else (called + [Taken(signed.nonce, signed.ts, post.verify, post.take)], Ok(()))
  }

  /** `authenticate`: shape, size, signer, quota, replay. */
  function Authenticate(w: Wire, h: History, post: Post): (History, Result<(Signed, Payload)>) {
    if |post.body| > MAX_BODY_LEN then (h, Err(TooLarge))
    else
      match w.decode(post.body)
      case None => (h, Err(Malformed))
      case Some(signed) =>
        match DeviceOf(h, signed.kid)
        case None => (h, Err(UnknownDevice))
        case Some(device) =>
          match w.Verify(KindOf(post.path), signed, device.ed25519, Unix(post.verify))
          case Err(code) => (h, Err(code))
          case Ok(payload) =>
            var (h', r) := Admit(h, signed.kid, signed, post);
            (h', if r.Err? then Err(r.code) else Ok((signed, payload)))
  }

  /** The announce path: the payload names the key that must have signed it. */
  function AuthenticateAnnounce(w: Wire, h: History, post: Post): (History, Result<(Signed, Payload)>) {
    if |post.body| > MAX_BODY_LEN then (h, Err(TooLarge))
    else
      match w.decode(post.body)
      case None => (h, Err(Malformed))
      case Some(signed) =>
        match w.PayloadOf(Announce, signed.payload)
        case None => (h, Err(Malformed))
        case Some(claim) =>
          if w.Verify(Announce, signed, claim.ed25519, Unix(post.verify)).Err? then (h, Err(Unauthenticated))
          else if w.kidOf(claim.ed25519) != signed.kid then (h, Err(Unauthenticated))
          else if claim.tag.Some? && |claim.tag.value| > 32 then (h, Err(Malformed))
          else
            var (h', r) := Admit(h, signed.kid, signed, post);
            (h', if r.Err? then Err(r.code) else Ok((signed, claim)))
  }

  predicate OwnerOk(owner: bytes) {
    1 <= |owner| <= 64
  }

  function PutOne(h: History, inbox: Inbox, post: Post, i: nat): History {
    h + [Put(inbox, Envelope(Id(post.ids, i), KindOf(post.path), post.body, Unix(post.route)), post.route)]
  }

  /** One copy for each of these devices, in order. */
  function PutEach(h: History, kids: seq<Kid>, post: Post): History {
    if kids == [] then h
    else PutOne(PutEach(h, kids[..|kids| - 1], post), Device(kids[|kids| - 1]), post, |kids| - 1)
  }

  /** What follows authentication. The refusals here come after the nonce was taken. */
  function Dispatch(w: Wire, h: History, signed: Signed, payload: Payload, post: Post): (History, Reply)
    requires OfKind(KindOf(post.path), payload)
  {
    match payload
    case AnnounceMsg(ed, x, tag) =>
      (h + [Registered(signed.kid, DeviceInfo(ed, x, tag), post.route)], Accepted(signed.kid))
    case RequestMsg(kid, ed, owner, fid, nonce) =>
      if kid != signed.kid || w.kidOf(ed) != signed.kid then (h, Refused(Unauthenticated))
      else if !OwnerOk(owner) then (h, Refused(Malformed))
      else
        var asked := h + [Routed(nonce, signed.kid, post.route)] + [Asked(fid, signed.kid, post.route)];
        (PutOne(asked, Owner(owner), post, 0), Accepted(Id(post.ids, 0)))
    case GrantMsg(request) =>
      (match RouteFor(h, request, post.route)
       case None => (h, Refused(NotFound))
       case Some(kid) => (PutOne(h, Device(kid), post, 0), Accepted(Id(post.ids, 0))))
    case VersionMsg(ed, owner) =>
      if w.kidOf(ed) != signed.kid then (h, Refused(Unauthenticated))
      else if !OwnerOk(owner) then (h, Refused(Malformed))
      else (PutOne(h, Owner(owner), post, 0), Accepted(Id(post.ids, 0)))
    case RevokeMsg(fid) =>
      var kids := Interested(h, fid, post.route);
      (PutEach(h, kids, post), Accepted(if kids == [] then Zeros(16) else Id(post.ids, |kids| - 1)))
  }

  function Admitted(w: Wire, h: History, post: Post): (r: (History, Result<(Signed, Payload)>))
    ensures r.1.Ok? ==> OfKind(KindOf(post.path), r.1.value.1)
  {
    if post.path.Devices? then AuthenticateAnnounce(w, h, post) else Authenticate(w, h, post)
  }

  /** The whole handler. */
  function Handle(w: Wire, h: History, post: Post): (History, Reply) {
    var (h', r) := Admitted(w, h, post);
    match r
    case Err(code) => (h', Refused(code))
    case Ok((signed, payload)) => Dispatch(w, h', signed, payload, post)
  }

  /** One thing that reaches the relay. */
  datatype Step = Submit(post: Post) | Fetch(inbox: Inbox, at: Time) {
    function Start(): Time {
      match this
      case Submit(p) => p.verify
      case Fetch(_, at) => at
    }

    function End(): Time {
      match this
      case Submit(p) => p.route
      case Fetch(_, at) => at
    }

    predicate Ordered() {
      Submit? ==> post.Ordered()
    }
  }

  function Apply(w: Wire, h: History, step: Step): History {
    match step
    case Submit(post) => Handle(w, h, post).0
    case Fetch(inbox, at) => h + [Drained(inbox, at)]
  }

  /** A relay's life: one step after another from nothing. */
  function Run(w: Wire, steps: seq<Step>): History {
    if steps == [] then [] else Apply(w, Run(w, steps[..|steps| - 1]), steps[|steps| - 1])
  }

  /** The clock never goes back, within a step or between steps. */
  predicate Timely(steps: seq<Step>) {
    && (forall i :: 0 <= i < |steps| ==> steps[i].Ordered())
    && (forall i :: 0 < i < |steps| ==> steps[i - 1].End() <= steps[i].Start())
  }
}
