/** Runs in which the relay and its client do not do what their documentation says: an announcement that
    reaches one relay of two, and an answer that reads as delivered and was never queued. The wires here
    carry two messages of one device and verify nothing else. */
module Incidents {
  import opened Bytes
  import opened Proto
  import opened RelaySpec
  import opened RelayRuns
  import opened Client
  import opened Failover

  /** Two messages of one device, the bodies [1] and [2]. */
  datatype Letters = Letters(
    kid: Kid, key: bytes32, digest: bytes -> bytes32, a: Signed, first: Payload, b: Signed, second: Payload,
    stranger: Kid) {
    ghost predicate Valid() {
      && a.kid == kid && b.kid == kid && stranger != kid && a.nonce != b.nonce && a.ts == b.ts
      && a.payload != b.payload && |a.payload| <= MAX_BODY_LEN && |b.payload| <= MAX_BODY_LEN
      && a.kind == Announce && first == AnnounceMsg(key, key, None) && OfKind(b.kind, second)
    }

    ghost function Message(s: Signed): bytes {
      SigningBytes(s.kind, s.ts, s.nonce, digest(s.payload))
    }

    ghost function Carry(): Wire {
      Wire(x => if x == [1] then Some(a) else if x == [2] then Some(b) else None,
           x => if x == a.payload then Some(first) else if x == b.payload then Some(second) else None,
           digest,
           (k, m, sig) => k == key && ((m == Message(a) && sig == a.sig) || (m == Message(b) && sig == b.sig)),
           k => if k == key then kid else stranger)
    }

    /** A moment inside the skew of both. */
    ghost function At(): Time {
      a.ts * SECOND
    }

    lemma Reads(t: nat)
      requires Valid() && t == a.ts
      ensures Carry().decode([1]) == Some(a) && Carry().decode([2]) == Some(b)
      ensures Carry().PayloadOf(Announce, a.payload) == Some(first) && Carry().kidOf(key) == kid
      ensures Carry().Verify(Announce, a, key, t) == Ok(first) && Carry().Verify(b.kind, b, key, t) == Ok(second)
    {
      hide SigningBytes;
    }
  }

  lemma {:induction false} FewCalls(h: History, kid: Kid)
    ensures |Calls(h, kid)| <= |h|
  {
    if h != [] {
      FewCalls(Before(h), kid);
    }
  }

  lemma FewCallsAreFree(h: History, kid: Kid, now: Time)
    requires |h| < RATE_PER_MINUTE
    ensures QuotaOk(h, kid, now)
  {
    FewCalls(h, kid);
  }

  /** What admission does with a message of a registered device that verifies, under quota. */
  lemma AdmitsVerified(w: Wire, h: History, post: Post, s: Signed, device: DeviceInfo, payload: Payload)
    requires !post.path.Devices? && |post.body| <= MAX_BODY_LEN && w.decode(post.body) == Some(s)
    requires DeviceOf(h, s.kid) == Some(device) && QuotaOk(h, s.kid, post.take)
    requires w.Verify(KindOf(post.path), s, device.ed25519, Unix(post.verify)) == Ok(payload)
    ensures var called := h + [Called(s.kid, post.take)];
            Admitted(w, h, post)
            == if NonceFree(called, s.nonce, post.take)
               then (called + [Taken(s.nonce, s.ts, post.verify, post.take)], Ok((s, payload)))
               else (called, Err(Replayed))
  {
    hide QuotaOk, NonceFree, DeviceOf, SigningBytes;
  }

  ghost function PostNow(l: Letters, path: Path, body: bytes): Post {
    Post(path, body, l.At(), l.At(), l.At(), [])
  }

  ghost function TurnNow(l: Letters, fate: Fate): Turn {
    Turn(_ => [], l.At(), l.At(), l.At(), [], fate)
  }

  lemma UnixAt(l: Letters)
    ensures Unix(l.At()) == l.a.ts
  {
  }

  /** The first message registers the device at a new relay. */
  lemma FirstRegisters(l: Letters) returns (h: History)
    requires l.Valid()
    ensures h == Handle(l.Carry(), [], PostNow(l, Devices, [1])).0
    ensures h == [] + [Called(l.kid, l.At())] + [Taken(l.a.nonce, l.a.ts, l.At(), l.At())]
                 + [Registered(l.kid, DeviceInfo(l.key, l.key, None), l.At())]
    ensures Handle(l.Carry(), [], PostNow(l, Devices, [1])).1 == Reply.Accepted(l.kid)
    ensures DeviceOf(h, l.kid) == Some(DeviceInfo(l.key, l.key, None)) && LastTaken(h, l.b.nonce).None?
    ensures forall i, body :: CountPut(h, i, body) == 0
  {
    hide Handle, QuotaOk, NonceFree, Letters.Carry, Letters.At, DeviceOf, CountPut, LastTaken;
    var post := PostNow(l, Devices, [1]);
    UnixAt(l);
    l.Reads(l.a.ts);
    NothingYet(l.kid, l.a.nonce, l.At());
    AnnounceAdmitted(l.Carry(), [], post, l.a, l.first);
    h := Handle(l.Carry(), [], post).0;
    Dispatched(l.Carry(), [], post);
    ThreeEvents(l.kid, l.a.nonce, l.b.nonce, l.a.ts, l.At(), DeviceInfo(l.key, l.key, None));
  }

  lemma Dispatched(w: Wire, h: History, post: Post)
    requires Admitted(w, h, post).1.Ok?
    ensures var (mid, r) := Admitted(w, h, post);
            Handle(w, h, post) == Dispatch(w, mid, r.value.0, r.value.1, post)
  {
    hide Admitted, Dispatch;
  }

  lemma ThreeEvents(kid: Kid, nonce: MsgNonce, other: MsgNonce, ts: u64, at: Time, device: DeviceInfo)
    requires nonce != other
    ensures var h := [] + [Called(kid, at)] + [Taken(nonce, ts, at, at)] + [Registered(kid, device, at)];
            && DeviceOf(h, kid) == Some(device) && LastTaken(h, other).None?
            && forall i, body :: CountPut(h, i, body) == 0
  {
    var h1: History := [] + [Called(kid, at)];
    var h2 := h1 + [Taken(nonce, ts, at, at)];
    var h := h2 + [Registered(kid, device, at)];
    assert Before(h) == h2 && Before(h2) == h1 && Before(h1) == [];
    assert LastTaken(h1, other).None?;
    assert LastTaken(h2, other).None? && LastTaken(h, other).None?;
    forall i, body
      ensures CountPut(h, i, body) == 0
    {
      NotAPut([], Called(kid, at), i, body);
      NotAPut(h1, Taken(nonce, ts, at, at), i, body);
      NotAPut(h2, Registered(kid, device, at), i, body);
    }
  }

  lemma NotAPut(h: History, e: Event, inbox: Inbox, body: bytes)
    requires !e.Put?
    ensures CountPut(h + [e], inbox, body) == CountPut(h, inbox, body)
  {
    assert Before(h + [e]) == h && Last(h + [e]) == e;
  }

  // ---------------------------------------------------------------- an announcement reaches one relay

  /** The announcement, offered to two new relays, every reply arriving. */
  ghost function AnnounceBoth(l: Letters): Call
    requires l.Valid()
  {
    Call(l.Carry(), [0, 1], 1, Devices, [1], _ => TurnNow(l, Answered))
  }

  /** The request that follows, when the first relay cannot be reached any more. */
  ghost function RequestBoth(l: Letters): Call
    requires l.Valid()
  {
    Call(l.Carry(), [0, 1], 1, Requests, [2], k => if k == 0 then TurnNow(l, RequestLost) else TurnNow(l, Answered))
  }

  /** A device announces itself to two relays. The first answers, so the call succeeds and the second never
      hears of the device; when its request then fails over, the second relay does not know who asks, and
      the request ends there. */
  lemma FailoverFindsStranger(l: Letters)
    requires l.Valid() && l.b.kind == Req
    ensures var c, start := AnnounceBoth(l), [[], []];
            var next := [c.Life([], 0, 1), c.Life([], 1, 1)];
            && EndsWith(c, start, 1, Delivered(Delivery.Queued(l.kid)))
            && DeviceOf(Run(l.Carry(), next[0]), l.kid).Some? && DeviceOf(Run(l.Carry(), next[1]), l.kid).None?
            && EndsWith(RequestBoth(l), next, 2, Failed(ClientError.Refused(UnknownDevice)))
  {
    hide *;
    var c, d, start: World := AnnounceBoth(l), RequestBoth(l), [[], []];
    var h := FirstRegisters(l);
    FirstLives(l);
    FirstAnswers(l, start);
    var next := [c.Life([], 0, 1), c.Life([], 1, 1)];
    RunOfNothing(l.Carry(), l.kid);
    BodyReads(l);
    SecondStarts(l, next);
    UnknownDeviceEndsCall(d, next, 1, 1, l.b);
    EndedSecond(d, next, 1);
  }

  /** Announcing to these endpoints, at the announcement's own time, with no traffic and nothing lost. */
  ghost function Calmly(w: Wire, endpoints: seq<nat>, attempts: nat, body: bytes, at: Time): Call {
    Call(w, endpoints, attempts, Devices, body, _ => Turn(_ => [], at, at, at, [], Answered))
  }

  /** New relays, enough of them for these endpoints. */
  lemma {:induction false} NewRelays(endpoints: seq<nat>) returns (start: World)
    ensures forall e :: e in endpoints ==> e < |start|
    ensures forall r :: 0 <= r < |start| ==> start[r] == []
  {
    start := [];
    if endpoints != [] {
      start := NewRelays(endpoints[1..]);
      start := start + seq(endpoints[0] + 1, _ => []);
      assert forall e :: e in endpoints ==> e == endpoints[0] || e in endpoints[1..];
    }
  }

  lemma NothingForeign(c: Call, start: World, n: nat, kid: Kid)
    requires forall r :: 0 <= r < |start| ==> start[r] == []
    requires forall k, r :: c.net(k).traffic(r) == []
    ensures forall e :: e in c.endpoints && e < |start| ==> OnlyWe(c, start[e], e, n, kid)
    ensures OwnNonce(c, start, n)
  {
    hide Announces, Uses;
  }

  lemma FirstTurn(c: Call)
    requires Distinct(c.endpoints) && |c.endpoints| > 1 && c.attempts > 0
    ensures c.Tries(0, c.endpoints[0]) && !c.Tries(0, c.endpoints[1])
  {
  }

  /** Announcing calmly to several new relays succeeds at the first, and the others never hear of it. */
  lemma CalmlyMissesTheRest(w: Wire, endpoints: seq<nat>, attempts: nat, body: bytes, s: Signed, claim: Payload)
    returns (net: nat -> Turn, start: World)
    requires Distinct(endpoints) && |endpoints| > 1 && attempts > 0
    requires |body| <= MAX_BODY_LEN && w.decode(body) == Some(s)
    requires Claims(w, s, claim) && w.Verify(Announce, s, claim.ed25519, s.ts).Ok?
    ensures SucceedsAlone(Call(w, endpoints, attempts, Devices, body, net), start, 1, s.kid)
    ensures !KnownAt(Call(w, endpoints, attempts, Devices, body, net), start, 1, s.kid, 1)
  {
    hide *;
    var c := Calmly(w, endpoints, attempts, body, s.ts * SECOND);
    start := NewRelays(endpoints);
    CalmCall(w, endpoints, attempts, body, s.ts * SECOND);
    net := c.net;
    NothingForeign(c, start, 1, s.kid);
    FirstTurn(c);
    assert endpoints[0] in endpoints && endpoints[1] in endpoints;
    CalmAnswer(c, start, endpoints[0], s, claim);
    EndedFirst(c, start, endpoints[0]);
    CalmElsewhere(c, endpoints[1], s.kid);
    Concluded(c, start, s.kid);
  }

  lemma CalmCall(w: Wire, endpoints: seq<nat>, attempts: nat, body: bytes, at: Time)
    ensures var c := Calmly(w, endpoints, attempts, body, at);
            && c == Call(w, endpoints, attempts, Devices, body, c.net)
            && c.net(0) == Turn(c.net(0).traffic, at, at, at, [], Answered)
            && forall k, r :: c.net(k).traffic(r) == []
  {
  }

  lemma CalmAnswer(c: Call, start: World, r: nat, s: Signed, claim: Payload)
    requires c.path.Devices? && |c.body| <= MAX_BODY_LEN && c.w.decode(c.body) == Some(s)
    requires c.net(0) == Turn(c.net(0).traffic, s.ts * SECOND, s.ts * SECOND, s.ts * SECOND, [], Answered)
    requires c.net(0).traffic(r) == [] && r < |start| && start[r] == []
    requires Claims(c.w, s, claim) && c.w.Verify(Announce, s, claim.ed25519, s.ts).Ok?
    ensures c.Result(start[r], r, 0) == Delivered(Delivery.Queued(s.kid)) && Final(c.Result(start[r], r, 0))
  {
    hide Claims, Wire.Verify, Handle, QuotaOk, NonceFree, DeviceOf;
    var post := c.PostAt(0);
    assert Unix(s.ts * SECOND) == s.ts;
    NothingYet(s.kid, s.nonce, s.ts * SECOND);
    AnnounceAdmitted(c.w, [], post, s, claim);
    Dispatched(c.w, [], post);
    RunOfNothing(c.w, s.kid);
    ClaimAnnounces(c.w, s, claim);
    assert c.Ready(start[r], r, 0) == [];
  }

  lemma ClaimAnnounces(w: Wire, s: Signed, claim: Payload)
    requires Claims(w, s, claim)
    ensures claim.AnnounceMsg?
  {
  }

  lemma CalmElsewhere(c: Call, r: nat, kid: Kid)
    requires c.net(0).traffic(r) == [] && !c.Tries(0, r)
    ensures DeviceOf(Run(c.w, c.Life([], r, 1)), kid).None?
  {
    hide Call.Tries;
    assert c.Life([], r, 0) + [] + [] == [];
  }

  lemma Concluded(c: Call, start: World, kid: Kid)
    requires Distinct(c.endpoints) && |c.endpoints| > 1 && c.path.Devices?
    requires c.w.decode(c.body).Some? && c.w.decode(c.body).value.kid == kid
    requires forall e :: e in c.endpoints ==> e < |start|
    requires forall e :: e in c.endpoints && e < |start| ==> OnlyWe(c, start[e], e, 1, kid)
    requires OwnNonce(c, start, 1)
    requires c.endpoints[0] < |start| && c.endpoints[1] < |start| && start[c.endpoints[1]] == []
    requires EndsWith(c, start, 1, Delivered(Delivery.Queued(kid)))
    requires DeviceOf(Run(c.w, c.Life([], c.endpoints[1], 1)), kid).None?
    ensures SucceedsAlone(c, start, 1, kid) && !KnownAt(c, start, 1, kid, 1)
  {
    hide EndsWith, OwnNonce, OnlyWe, Run, DeviceOf, Call.Life;
  }

  /** An announcement that verifies at its own time reaches every endpoint whenever it succeeds, whatever the
      network does, exactly if no more than one endpoint is configured. */
  lemma AnnounceReachesAllExactly(w: Wire, endpoints: seq<nat>, attempts: nat, body: bytes, s: Signed, claim: Payload)
    requires Distinct(endpoints) && attempts > 0 && |body| <= MAX_BODY_LEN && w.decode(body) == Some(s)
    requires Claims(w, s, claim) && w.Verify(Announce, s, claim.ed25519, s.ts).Ok?
    ensures AlwaysReachesAll(w, endpoints, attempts, body, s.kid) <==> |endpoints| <= 1
  {
    hide SucceedsAlone, KnownAt, Claims, Wire.Verify;
    if |endpoints| <= 1 {
      forall net: nat -> Turn, start: World, n: nat, i: nat |
        SucceedsAlone(Call(w, endpoints, attempts, Devices, body, net), start, n, s.kid) && i < |endpoints|
        ensures KnownAt(Call(w, endpoints, attempts, Devices, body, net), start, n, s.kid, i)
      {
        OneEndpointReached(Call(w, endpoints, attempts, Devices, body, net), start, n, s.kid, i);
      }
    } else {
      var net, start := CalmlyMissesTheRest(w, endpoints, attempts, body, s, claim);
    }
  }

  lemma TwoEndpoints(c: Call)
    requires c.endpoints == [0, 1] && c.attempts == 1
    ensures c.Tries(0, 0) && c.Tries(1, 1) && !c.Tries(0, 1)
  {
  }

  lemma FirstAnswers(l: Letters, start: World)
    requires l.Valid() && start == [[], []]
    ensures EndsWith(AnnounceBoth(l), start, 1, Delivered(Delivery.Queued(l.kid)))
  {
    hide Handle, Letters.Carry, Letters.At, Run, Call.Tries, DeviceOf, CountPut, LastTaken;
    var c := AnnounceBoth(l);
    var h := FirstRegisters(l);
    TwoEndpoints(c);
    RunOfNothing(l.Carry(), l.kid);
    assert c.Ready([], 0, 0) == [];
    EndedFirst(c, start, 0);
  }

  lemma EndedFirst(c: Call, start: World, r: nat)
    requires r < |start| && c.Tries(0, r) && Final(c.Result(start[r], r, 0))
    ensures EndsWith(c, start, 1, c.Result(start[r], r, 0))
  {
    hide Call.Tries, Call.Result;
    assert c.Ends(start, 0);
  }

  lemma EndedSecond(c: Call, start: World, r: nat)
    requires r < |start| && c.Tries(1, r) && Final(c.Result(start[r], r, 1))
    requires !c.net(0).fate.Answered?
    ensures EndsWith(c, start, 2, c.Result(start[r], r, 1))
  {
    hide Call.Tries, Handle, Run;
    assert !c.Ends(start, 0);
    assert c.Ends(start, 1);
  }

  lemma SecondStarts(l: Letters, next: World)
    requires l.Valid() && |next| == 2 && next[1] == []
    ensures var d := RequestBoth(l);
            && d.Ready(next[1], 1, 1) == [] && d.Tries(1, 1) && d.net(1).fate.Answered? && !d.net(0).fate.Answered?
            && !d.path.Devices? && d.body == [2] && |d.body| <= MAX_BODY_LEN && d.w == l.Carry()
            && Final(Failed(ClientError.Refused(UnknownDevice)))
  {
    hide Letters.Carry, Letters.At, Call.Tries, Call.Life, Call.Ready;
    var d := RequestBoth(l);
    TwoEndpoints(d);
    assert d.net(0) == TurnNow(l, RequestLost) && d.net(1) == TurnNow(l, Answered);
    QuietLife(d, next[1], 1);
  }

  lemma QuietLife(c: Call, start: seq<Step>, relay: nat)
    requires c.net(0).traffic(relay) == [] && c.net(1).traffic(relay) == []
    requires !c.Tries(0, relay) || c.net(0).fate.RequestLost?
    ensures c.Life(start, relay, 1) == start && c.Ready(start, relay, 1) == start
  {
    hide Call.Tries;
    assert c.Life(start, relay, 1) == c.Life(start, relay, 0) + [] + [];
  }

  lemma BodyReads(l: Letters)
    requires l.Valid()
    ensures l.Carry().decode([2]) == Some(l.b) && l.b.kid == l.kid
  {
  }

  lemma RunOfNothing(w: Wire, kid: Kid)
    ensures Run(w, []) == [] && DeviceOf(Run(w, []), kid).None?
  {
  }

  lemma FirstLives(l: Letters)
    requires l.Valid()
    ensures var c := AnnounceBoth(l);
            && c.Ready([], 0, 0) == []
            && c.Life([], 0, 1) == [Step.Submit(PostNow(l, Devices, [1]))] && c.Life([], 1, 1) == []
            && Run(l.Carry(), c.Life([], 0, 1)) == Handle(l.Carry(), [], PostNow(l, Devices, [1])).0
  {
    hide Handle;
    var c := AnnounceBoth(l);
    assert c.Ready([], 0, 0) == [];
    RunSnoc(l.Carry(), [], Step.Submit(PostNow(l, Devices, [1])));
    assert [] + [Step.Submit(PostNow(l, Devices, [1]))] == [Step.Submit(PostNow(l, Devices, [1]))];
  }

  // ---------------------------------------------------------------- delivered, but never queued

  /** An answer to a request nobody made, whose first reply is lost and which is sent again. */
  ghost function AnswerTwice(l: Letters): Call
    requires l.Valid()
  {
    Call(l.Carry(), [0], 2, Grants, [2], k => if k == 0 then TurnNow(l, ReplyLost) else TurnNow(l, Answered))
  }

  /** A relay that has registered the device and nothing else. */
  ghost function Registering(l: Letters): seq<Step> {
    [Step.Submit(PostNow(l, Devices, [1]))]
  }

  lemma AnswerAdmitted(l: Letters, h: History)
    requires l.Valid() && l.b.kind == Kind.Grant && |h| < RATE_PER_MINUTE
    requires DeviceOf(h, l.kid) == Some(DeviceInfo(l.key, l.key, None))
    ensures var called := h + [Called(l.kid, l.At())];
            Admitted(l.Carry(), h, PostNow(l, Grants, [2]))
            == if NonceFree(called, l.b.nonce, l.At())
               then (called + [Taken(l.b.nonce, l.b.ts, l.At(), l.At())], Ok((l.b, l.second)))
               else (called, Err(Replayed))
  {
    hide DeviceOf, QuotaOk, NonceFree, Letters.Carry, Letters.At;
    UnixAt(l);
    l.Reads(l.a.ts);
    FewCallsAreFree(h, l.kid, l.At());
    AdmitsVerified(l.Carry(), h, PostNow(l, Grants, [2]), l.b, DeviceInfo(l.key, l.key, None), l.second);
  }

  lemma NeverTakenIsFree(h: History, kid: Kid, nonce: MsgNonce, now: Time)
    requires LastTaken(h, nonce).None?
    ensures NonceFree(h + [Called(kid, now)], nonce, now)
  {
    assert Before(h + [Called(kid, now)]) == h;
  }

  /** Handling the answer at a relay that only registered the device, once and again. */
  lemma AnswerHandledTwice(l: Letters, h: History)
    requires l.Valid() && l.b.kind == Kind.Grant && |h| < 10 && LastTaken(h, l.b.nonce).None?
    requires DeviceOf(h, l.kid) == Some(DeviceInfo(l.key, l.key, None))
    requires forall i :: 0 <= i < |h| ==> !h[i].Routed?
    ensures var w, post := l.Carry(), PostNow(l, Grants, [2]);
            && Read(Handle(w, Handle(w, h, post).0, post).1) == Delivered(AlreadyDelivered)
            && forall i :: CountPut(Handle(w, Handle(w, h, post).0, post).0, i, [2]) == CountPut(h, i, [2])
  {
    hide DeviceOf, LastTaken, NonceFree, CountPut, Letters.Carry, Letters.At, Dispatch, Admitted;
    var w, post := l.Carry(), PostNow(l, Grants, [2]);
    NeverTakenIsFree(h, l.kid, l.b.nonce, l.At());
    AnswerAdmitted(l, h);
    var mid := Admitted(w, h, post).0;
    UnaskedAnswerRefused(w, mid, l.b, l.second.requestNonce, post);
    Dispatched(w, h, post);
    var tail := [Called(l.kid, l.At()), Taken(l.b.nonce, l.b.ts, l.At(), l.At())];
    assert mid == h + tail;
    OthersKeepDevice(h, tail, l.kid);
    AnswerAdmitted(l, mid);
    DeliveredUnqueuedExactly(w, h, post, post);
  }

  /** The answer was refused and queued nowhere, yet sent again it reads as delivered. */
  lemma UnaskedAnswerReadsDelivered(l: Letters)
    requires l.Valid() && l.b.kind == Kind.Grant
    ensures var c, start := AnswerTwice(l), [Registering(l)];
            && EndsWith(c, start, 2, Delivered(AlreadyDelivered))
            && forall i :: CountPut(Run(l.Carry(), c.Life(start[0], 0, 2)), i, [2]) == 0
  {
    hide *;
    var c, start: World := AnswerTwice(l), [Registering(l)];
    var h := FirstRegisters(l);
    NothingRouted(l, h);
    AnswerHandledTwice(l, h);
    LivesOfAnswer(l);
    EndedSecond(c, start, 0);
  }

  lemma NothingRouted(l: Letters, h: History)
    requires h == [] + [Called(l.kid, l.At())] + [Taken(l.a.nonce, l.a.ts, l.At(), l.At())]
                  + [Registered(l.kid, DeviceInfo(l.key, l.key, None), l.At())]
    ensures |h| == 3 && forall i :: 0 <= i < |h| ==> !h[i].Routed?
  {
  }

  lemma LivesOfAnswer(l: Letters)
    requires l.Valid()
    ensures var c, w, s, post := AnswerTwice(l), l.Carry(), Registering(l), PostNow(l, Grants, [2]);
            var h := Handle(w, [], PostNow(l, Devices, [1])).0;
            && c.Tries(1, 0) && !c.net(0).fate.Answered? && c.w == w
            && c.Result(s, 0, 1) == Read(Handle(w, Handle(w, h, post).0, post).1)
            && Run(w, c.Life(s, 0, 2)) == Handle(w, Handle(w, h, post).0, post).0
            && Final(Delivered(AlreadyDelivered))
  {
    hide Handle, Letters.Carry, Letters.At, Run;
    var c, w, s, post := AnswerTwice(l), l.Carry(), Registering(l), PostNow(l, Grants, [2]);
    assert c.net(0) == TurnNow(l, ReplyLost) && c.net(1) == TurnNow(l, Answered);
    OneEndpoint(c);
    hide Call.Tries;
    assert c.Life(s, 0, 1) == s + [Step.Submit(post)];
    assert c.Ready(s, 0, 1) == s + [Step.Submit(post)];
    assert c.Life(s, 0, 2) == s + [Step.Submit(post)] + [Step.Submit(post)];
    RunOfNothing(w, l.kid);
    assert [] + [Step.Submit(PostNow(l, Devices, [1]))] == s;
    RunSnoc(w, [], Step.Submit(PostNow(l, Devices, [1])));
    RunSnoc(w, s, Step.Submit(post));
    RunSnoc(w, s + [Step.Submit(post)], Step.Submit(post));
  }

  lemma OneEndpoint(c: Call)
    requires c.endpoints == [0] && c.attempts == 2
    ensures c.Tries(0, 0) && c.Tries(1, 0)
  {
  }

  // ---------------------------------------------------------------- one nonce, two devices

  /** An announcement that verifies and is under quota, with a nonce that is not free. */
  lemma AnnounceReplayed(w: Wire, h: History, post: Post, s: Signed, claim: Payload)
    requires post.path == Devices && |post.body| <= MAX_BODY_LEN && w.decode(post.body) == Some(s)
    requires Claims(w, s, claim) && w.Verify(Announce, s, claim.ed25519, Unix(post.verify)).Ok?
    requires QuotaOk(h, s.kid, post.take) && !NonceFree(h + [Called(s.kid, post.take)], s.nonce, post.take)
    ensures Admitted(w, h, post) == (h + [Called(s.kid, post.take)], Err(Replayed))
    ensures Handle(w, h, post) == (h + [Called(s.kid, post.take)], Reply.Refused(Replayed))
  {
    hide QuotaOk, NonceFree, SigningBytes;
  }

  lemma JustTaken(kid: Kid, other: Kid, nonce: MsgNonce, ts: u64, at: Time, device: DeviceInfo)
    requires kid != other
    ensures var h := [] + [Called(other, at)] + [Taken(nonce, ts, at, at)] + [Registered(other, device, at)];
            && |h| == 3 && !NonceFree(h + [Called(kid, at)], nonce, at)
            && DeviceOf(h + [Called(kid, at)], kid).None?
  {
    var h1: History := [] + [Called(other, at)];
    var h2 := h1 + [Taken(nonce, ts, at, at)];
    var h3 := h2 + [Registered(other, device, at)];
    var h4 := h3 + [Called(kid, at)];
    assert Before(h4) == h3 && Before(h3) == h2 && Before(h2) == h1 && Before(h1) == [];
    assert LastTaken(h2, nonce) == Some(at) && LastTaken(h3, nonce) == Some(at) && LastTaken(h4, nonce) == Some(at);
    assert DeviceOf(h1, kid).None? && DeviceOf(h2, kid).None? && DeviceOf(h3, kid).None?;
  }

  /** The relay remembers a nonce, not whose it was. When another device has just announced itself with the
      same nonce, an announcement that was never admitted reads as already delivered, and the relay still
      does not know the device. So it is on any wire, for any two announcements like that. */
  lemma SharedNonceReadsDelivered(w: Wire, body: bytes, s: Signed, claim: Payload,
                                  theirs: bytes, other: Signed, their: Payload)
    requires s.kid != other.kid && s.nonce == other.nonce
    requires |body| <= MAX_BODY_LEN && w.decode(body) == Some(s)
    requires |theirs| <= MAX_BODY_LEN && w.decode(theirs) == Some(other)
    requires Claims(w, s, claim) && w.Verify(Announce, s, claim.ed25519, s.ts).Ok?
    requires Claims(w, other, their) && w.Verify(Announce, other, their.ed25519, s.ts).Ok?
    ensures var at := s.ts * SECOND;
            var c, start := Calmly(w, [0], 1, body, at), [[Step.Submit(Post(Devices, theirs, at, at, at, []))]];
            && EndsWith(c, start, 1, Delivered(AlreadyDelivered))
            && Admitted(w, Run(w, c.Ready(start[0], 0, 0)), c.PostAt(0)).1 == Err(Replayed)
            && DeviceOf(Run(w, c.Life(start[0], 0, 1)), s.kid).None?
  {
    hide *;
    var at := s.ts * SECOND;
    var before := Post(Devices, theirs, at, at, at, []);
    var c, start: World := Calmly(w, [0], 1, body, at), [[Step.Submit(before)]];
    var post := c.PostAt(0);
    CalmCall(w, [0], 1, body, at);
    CalmLife(c, start[0], before);
    WholeSecond(s.ts);
    NothingYet(other.kid, other.nonce, at);
    AnnounceAccepted(w, [], before, other, their);
    ClaimAnnounces(w, other, their);
    var h := Handle(w, [], before).0;
    JustTaken(s.kid, other.kid, s.nonce, other.ts, at, DeviceOfClaim(their));
    FewCallsAreFree(h, s.kid, at) by {
      Rates();
    }
    AnnounceReplayed(w, h, post, s, claim);
    RepliesReplayed(c, start, h, post);
    EndedFirst(c, start, 0);
  }

  lemma Rates()
    ensures 3 < RATE_PER_MINUTE
  {
  }

  lemma WholeSecond(ts: u64)
    ensures Unix(ts * SECOND) == ts
  {
  }

  lemma CalmLife(c: Call, start: seq<Step>, before: Post)
    requires start == [Step.Submit(before)] && c.path.Devices? && c.endpoints == [0] && c.attempts == 1
    requires c.net(0).traffic(0) == [] && c.net(0).fate.Answered?
    ensures c.Tries(0, 0) && c.Ready(start, 0, 0) == start && c.Life(start, 0, 1) == start + [Step.Submit(c.PostAt(0))]
    ensures Run(c.w, start) == Handle(c.w, [], before).0
    ensures Run(c.w, c.Life(start, 0, 1)) == Handle(c.w, Run(c.w, start), c.PostAt(0)).0
    ensures c.PostAt(0)
         == Post(Devices, c.body, c.net(0).verify, c.net(0).take, c.net(0).route, c.net(0).ids)
  {
    hide Handle;
    RunSnoc(c.w, start, Step.Submit(c.PostAt(0)));
    RunSnoc(c.w, [], Step.Submit(before));
    assert [] + [Step.Submit(before)] == start;
    assert c.Ready(start, 0, 0) == start;
  }

  lemma RepliesReplayed(c: Call, start: World, h: History, post: Post)
    requires |start| == 1 && post == c.PostAt(0) && h == Run(c.w, c.Ready(start[0], 0, 0))
    requires c.net(0).fate.Answered? && Handle(c.w, h, post).1 == Reply.Refused(Replayed)
    ensures c.Result(start[0], 0, 0) == Delivered(AlreadyDelivered) && Final(c.Result(start[0], 0, 0))
  {
    hide Handle, Run, Call.Ready;
  }
}
