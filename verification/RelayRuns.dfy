/** What holds over whole lives of the relay. */
module RelayRuns {
  import opened Bytes
  import opened Proto
  import opened RelaySpec

  // ---------------------------------------------------------------- shape of a handler's effect

  /** Everything routing appends: no call, no nonce, no drain, and only this post's body. */
  ghost predicate RoutingEvent(e: Event, post: Post) {
    && e.at == post.route
    && !e.Called? && !e.Taken? && !e.Drained?
    && (e.Put? ==> e.envelope.body == post.body)
  }

  ghost predicate RoutingTail(tail: seq<Event>, post: Post) {
    forall i :: 0 <= i < |tail| ==> RoutingEvent(tail[i], post)
  }

  lemma {:induction false} PutEachTail(h: History, kids: seq<Kid>, post: Post) returns (tail: seq<Event>)
    ensures PutEach(h, kids, post) == h + tail && |tail| == |kids|
    ensures RoutingTail(tail, post)
    ensures forall i :: 0 <= i < |kids| ==> tail[i].Put? && tail[i].inbox == Device(kids[i])
  {
    if kids == [] {
      tail := [];
    } else {
      var n := |kids| - 1;
      tail := PutEachTail(h, kids[..n], post);
      var envelope := Envelope(Id(post.ids, n), KindOf(post.path), post.body, Unix(post.route));
      var last := Put(Device(kids[n]), envelope, post.route);
      assert PutEach(h, kids, post) == h + (tail + [last]);
      tail := tail + [last];
    }
  }

  /** Two puts of one handler go to different inboxes. */
  ghost predicate DistinctInboxes(tail: seq<Event>) {
    forall i, j :: 0 <= i < j < |tail| && tail[i].Put? && tail[j].Put? ==> tail[i].inbox != tail[j].inbox
  }

  lemma DispatchTail(w: Wire, h: History, signed: Signed, payload: Payload, post: Post) returns (tail: seq<Event>)
    requires OfKind(KindOf(post.path), payload)
    ensures Dispatch(w, h, signed, payload, post).0 == h + tail
    ensures RoutingTail(tail, post) && DistinctInboxes(tail)
  {
    var h' := Dispatch(w, h, signed, payload, post).0;
    if payload.RevokeMsg? {
      var kids := Interested(h, payload.fid, post.route);
      tail := PutEachTail(h, kids, post);
      InterestedExact(h, payload.fid, post.route, Zeros(16));
    } else {
      tail := h'[|h|..];
      assert h' == h + tail;
    }
  }

  /** What admission appends: nothing, a call, or a call and a nonce. */
  ghost predicate AdmitShape(w: Wire, h: History, post: Post, head: seq<Event>) {
    && |head| <= 2
    && (head != [] ==>
          && w.decode(post.body).Some?
          && head[0] == Called(w.decode(post.body).value.kid, post.take)
          && QuotaOk(h, head[0].kid, post.take))
    && (|head| == 2 ==>
          var s := w.decode(post.body).value;
          && head[1] == Taken(s.nonce, s.ts, post.verify, post.take)
          && NonceFree(h + [head[0]], s.nonce, post.take)
          && Unix(post.verify) <= s.ts + MAX_SKEW_SECS && s.ts <= Unix(post.verify) + MAX_SKEW_SECS)
  }

  lemma AdmitTail(w: Wire, h: History, post: Post) returns (head: seq<Event>)
    ensures Admitted(w, h, post).0 == h + head && AdmitShape(w, h, post, head)
    ensures Admitted(w, h, post).1.Ok? <==> |head| == 2
  {
    head := Admitted(w, h, post).0[|h|..];
    assert Admitted(w, h, post).0 == h + head;
  }

  /** A handler appends what admission and routing append, and nothing else. */
  lemma HandleTail(w: Wire, h: History, post: Post) returns (head: seq<Event>, tail: seq<Event>)
    ensures Handle(w, h, post).0 == h + head + tail
    ensures AdmitShape(w, h, post, head)
    ensures RoutingTail(tail, post) && DistinctInboxes(tail)
    ensures tail != [] ==> |head| == 2
  {
    head := AdmitTail(w, h, post);
    tail := [];
    var (h', r) := Admitted(w, h, post);
    if r.Ok? {
      tail := DispatchTail(w, h', r.value.0, r.value.1, post);
    }
  }

  // ---------------------------------------------------------------- no replay

  /** How often this nonce was taken with this timestamp. */
  ghost function CountTaken(h: History, nonce: MsgNonce, ts: u64): nat {
    if h == [] then 0
    else CountTaken(Before(h), nonce, ts)
         + if Last(h).Taken? && Last(h).nonce == nonce && Last(h).ts == ts then 1 else 0
  }

  lemma {:induction false} RoutingKeepsTaken(h: History, tail: seq<Event>, post: Post, nonce: MsgNonce, ts: u64)
    requires RoutingTail(tail, post)
    ensures LastTaken(h + tail, nonce) == LastTaken(h, nonce)
    ensures CountTaken(h + tail, nonce, ts) == CountTaken(h, nonce, ts)
  {
    if tail == [] {
      assert h + tail == h;
    } else {
      assert Before(h + tail) == h + tail[..|tail| - 1];
      assert RoutingEvent(tail[|tail| - 1], post);
      RoutingKeepsTaken(h, tail[..|tail| - 1], post, nonce, ts);
    }
  }

  /** Each nonce and timestamp was taken at most once, and the nonce's last taking is not older
      than the oldest clock that would have passed the skew check. */
  ghost predicate Unreplayed(h: History, clock: Time) {
    forall nonce, ts: u64 ::
      && CountTaken(h, nonce, ts) <= 1
      && (CountTaken(h, nonce, ts) == 1 ==>
            && LastTaken(h, nonce).Some?
            && (ts - MAX_SKEW_SECS) * SECOND <= LastTaken(h, nonce).value <= clock)
  }

  /** A handler that takes the nonce within 59 s of reading the clock it verified against. */
  predicate Prompt(step: Step) {
    step.Submit? ==> step.post.take - step.post.verify <= 59 * SECOND
  }

  lemma SkewBounds(verify: Time, take: Time, ts: u64)
    requires verify <= take <= verify + 59 * SECOND
    requires Unix(verify) <= ts + MAX_SKEW_SECS && ts <= Unix(verify) + MAX_SKEW_SECS
    ensures (ts - MAX_SKEW_SECS) * SECOND <= take < (ts - MAX_SKEW_SECS) * SECOND + NONCE_MEMORY
  {
  }

  lemma TakeKeepsUnreplayed(h: History, kid: Kid, s: Signed, verify: Time, take: Time, clock: Time)
    requires Unreplayed(h, clock) && clock <= verify <= take <= verify + 59 * SECOND
    requires NonceFree(h + [Called(kid, take)], s.nonce, take)
    requires Unix(verify) <= s.ts + MAX_SKEW_SECS && s.ts <= Unix(verify) + MAX_SKEW_SECS
    ensures Unreplayed(h + [Called(kid, take)] + [Taken(s.nonce, s.ts, verify, take)], take)
  {
    var h1 := h + [Called(kid, take)];
    var h2 := h1 + [Taken(s.nonce, s.ts, verify, take)];
    assert Before(h1) == h && Before(h2) == h1;
    SkewBounds(verify, take, s.ts);
    forall nonce, ts: u64
      ensures CountTaken(h2, nonce, ts) <= 1
      ensures CountTaken(h2, nonce, ts) == 1 ==>
                && LastTaken(h2, nonce).Some?
                && (ts - MAX_SKEW_SECS) * SECOND <= LastTaken(h2, nonce).value <= take
    {
      assert CountTaken(h1, nonce, ts) == CountTaken(h, nonce, ts) <= 1;
      assert LastTaken(h1, nonce) == LastTaken(h, nonce);
    }
  }

  lemma {:induction false} RunUnreplayed(w: Wire, steps: seq<Step>)
    requires Timely(steps) && forall i :: 0 <= i < |steps| ==> Prompt(steps[i])
    ensures Unreplayed(Run(w, steps), if steps == [] then 0 else steps[|steps| - 1].End())
  {
    if steps != [] {
      var n := |steps| - 1;
      RunUnreplayed(w, steps[..n]);
      assert Prompt(steps[n]) && steps[n].Ordered();
      StepUnreplayed(w, Run(w, steps[..n]), steps[n], if n == 0 then 0 else steps[n - 1].End());
    }
  }

  lemma StepUnreplayed(w: Wire, h: History, step: Step, clock: Time)
    requires Unreplayed(h, clock) && clock <= step.Start() && step.Ordered() && Prompt(step)
    ensures Unreplayed(Apply(w, h, step), step.End())
  {
    match step
    case Fetch(inbox, at) =>
      var h' := h + [Drained(inbox, at)];
      assert Before(h') == h;
      assert forall nonce, ts: u64 :: CountTaken(h', nonce, ts) == CountTaken(h, nonce, ts);
    case Submit(post) =>
      var head, tail := HandleTail(w, h, post);
      if |head| == 2 {
        var s := w.decode(post.body).value;
        TakeKeepsUnreplayed(h, s.kid, s, post.verify, post.take, clock);
        assert h + [head[0]] + [head[1]] == h + head;
      } else if |head| == 1 {
        assert Before(h + head) == h;
        assert forall nonce, ts: u64 :: CountTaken(h + head, nonce, ts) == CountTaken(h, nonce, ts);
      } else {
        assert h + head == h;
      }
      forall nonce, ts: u64
        ensures LastTaken(h + head + tail, nonce) == LastTaken(h + head, nonce)
        ensures CountTaken(h + head + tail, nonce, ts) == CountTaken(h + head, nonce, ts)
      {
        RoutingKeepsTaken(h + head, tail, post, nonce, ts);
      }
  }

  /** In every run of prompt handlers no two accepted submissions carry the same timestamp and
      nonce, however long after each other they come. */
  lemma NoReplayEver(w: Wire, steps: seq<Step>, nonce: MsgNonce, ts: u64)
    requires Timely(steps) && forall i :: 0 <= i < |steps| ==> Prompt(steps[i])
    ensures CountTaken(Run(w, steps), nonce, ts) <= 1
  {
    RunUnreplayed(w, steps);
  }

  /** The bound on the handler's own delay is exact: on any wire, any announcement that verifies at its
      own time is accepted twice if a handler may take one nanosecond longer. The first copy comes as early
      as the skew allows, the second as late, and the second handler stalls between its two readings of
      the clock. */
  lemma PromptBoundExact(w: Wire, body: bytes, s: Signed, claim: Payload, delay: nat) returns (steps: seq<Step>)
    requires delay > 59 * SECOND && s.ts >= MAX_SKEW_SECS
    requires |body| <= MAX_BODY_LEN && w.decode(body) == Some(s)
    requires Claims(w, s, claim) && w.Verify(Announce, s, claim.ed25519, s.ts).Ok?
    ensures Timely(steps) && |steps| == 2
    ensures forall i :: 0 <= i < |steps| ==>
              && steps[i].Submit? && steps[i].post.path == Devices && steps[i].post.body == body
              && steps[i].post.take - steps[i].post.verify <= delay
    ensures CountTaken(Run(w, steps), s.nonce, s.ts) == 2
  {
    assert claim.AnnounceMsg?;
    hide Run, Apply, CountTaken, QuotaOk, NonceFree, Handle, Claims, Unix, Wire.Verify;
    SkewTimes(s.ts);
    var early, late := (s.ts - MAX_SKEW_SECS) * SECOND, (s.ts + MAX_SKEW_SECS + 1) * SECOND - 1;
    var first := Post(Devices, body, early, early, early, []);
    var second := Post(Devices, body, late, early + NONCE_MEMORY, early + NONCE_MEMORY, []);
    VerifiesInSkew(w, s, claim.ed25519, Unix(early));
    VerifiesInSkew(w, s, claim.ed25519, Unix(late));
    NothingYet(s.kid, s.nonce, early);
    AnnounceAccepted(w, [], first, s, claim);
    AfterOne(s.kid, s.nonce, s.ts, early, DeviceOfClaim(claim));
    NoneTaken(s.nonce, s.ts);
    AnnounceAccepted(w, Handle(w, [], first).0, second, s, claim);
    TwoSteps(w, first, second);
    steps := [Submit(first)] + [Submit(second)];
  }

  lemma SkewTimes(ts: u64)
    requires ts >= MAX_SKEW_SECS
    ensures Unix((ts - MAX_SKEW_SECS) * SECOND) == ts - MAX_SKEW_SECS
    ensures Unix((ts + MAX_SKEW_SECS + 1) * SECOND - 1) == ts + MAX_SKEW_SECS
  {
  }

  /** The message is an announcement with this claim, of the device it names. */
  predicate Claims(w: Wire, s: Signed, claim: Payload) {
    && claim.AnnounceMsg? && (claim.tag.Some? ==> |claim.tag.value| <= 32)
    && w.PayloadOf(Announce, s.payload) == Some(claim) && w.kidOf(claim.ed25519) == s.kid
  }

  function DeviceOfClaim(claim: Payload): DeviceInfo
    requires claim.AnnounceMsg?
  {
    DeviceInfo(claim.ed25519, claim.x25519, claim.tag)
  }

  lemma VerifiesInSkew(w: Wire, s: Signed, key: bytes32, now: nat)
    requires w.Verify(Announce, s, key, s.ts).Ok?
    requires now <= s.ts + MAX_SKEW_SECS && s.ts <= now + MAX_SKEW_SECS
    ensures w.Verify(Announce, s, key, now).Ok?
  {
    hide SigningBytes;
  }

  lemma NoneTaken(nonce: MsgNonce, ts: u64)
    ensures CountTaken([], nonce, ts) == 0
  {
  }

  lemma TwoSteps(w: Wire, first: Post, second: Post)
    ensures Run(w, [Submit(first)] + [Submit(second)]) == Handle(w, Handle(w, [], first).0, second).0
  {
    hide Handle;
    var steps := [Submit(first)] + [Submit(second)];
    assert steps[..1] == [Submit(first)] && steps[..1][..0] == [];
    assert Run(w, [Submit(first)]) == Handle(w, [], first).0;
  }

  lemma CountTakenSnoc(h: History, e: Event, nonce: MsgNonce, ts: u64)
    ensures CountTaken(h + [e], nonce, ts)
         == CountTaken(h, nonce, ts) + if e.Taken? && e.nonce == nonce && e.ts == ts then 1 else 0
  {
    assert Before(h + [e]) == h && Last(h + [e]) == e;
  }

  /** An announcement that verifies, is under quota and carries a free nonce is accepted. */
  lemma AnnounceAccepted(w: Wire, h: History, post: Post, s: Signed, claim: Payload)
    requires post.path == Devices && |post.body| <= MAX_BODY_LEN && w.decode(post.body) == Some(s)
    requires Claims(w, s, claim) && w.Verify(Announce, s, claim.ed25519, Unix(post.verify)).Ok?
    requires QuotaOk(h, s.kid, post.take) && NonceFree(h + [Called(s.kid, post.take)], s.nonce, post.take)
    ensures Handle(w, h, post).0
         == h + [Called(s.kid, post.take)] + [Taken(s.nonce, s.ts, post.verify, post.take)]
            + [Registered(s.kid, DeviceOfClaim(claim), post.route)]
    ensures CountTaken(Handle(w, h, post).0, s.nonce, s.ts) == CountTaken(h, s.nonce, s.ts) + 1
  {
    hide QuotaOk, NonceFree, CountTaken;
    var h1 := h + [Called(s.kid, post.take)];
    var h2 := h1 + [Taken(s.nonce, s.ts, post.verify, post.take)];
    AnnounceAdmitted(w, h, post, s, claim);
    CountTakenSnoc(h, Called(s.kid, post.take), s.nonce, s.ts);
    CountTakenSnoc(h1, Taken(s.nonce, s.ts, post.verify, post.take), s.nonce, s.ts);
    CountTakenSnoc(h2, Registered(s.kid, DeviceOfClaim(claim), post.route), s.nonce, s.ts);
  }

  lemma AnnounceAdmitted(w: Wire, h: History, post: Post, s: Signed, claim: Payload)
    requires post.path == Devices && |post.body| <= MAX_BODY_LEN && w.decode(post.body) == Some(s)
    requires Claims(w, s, claim) && w.Verify(Announce, s, claim.ed25519, Unix(post.verify)).Ok?
    requires QuotaOk(h, s.kid, post.take) && NonceFree(h + [Called(s.kid, post.take)], s.nonce, post.take)
    ensures Admitted(w, h, post)
         == (h + [Called(s.kid, post.take)] + [Taken(s.nonce, s.ts, post.verify, post.take)], Ok((s, claim)))
  {
    hide QuotaOk, NonceFree, SigningBytes;
  }

  lemma NothingYet(kid: Kid, nonce: MsgNonce, now: Time)
    ensures QuotaOk([], kid, now) && NonceFree([] + [Called(kid, now)], nonce, now)
  {
    assert Before([] + [Called(kid, now)]) == [];
  }

  lemma AfterOne(kid: Kid, nonce: MsgNonce, ts: u64, at: Time, device: DeviceInfo)
    ensures var h := [] + [Called(kid, at)] + [Taken(nonce, ts, at, at)] + [Registered(kid, device, at)];
            && QuotaOk(h, kid, at + NONCE_MEMORY)
            && NonceFree(h + [Called(kid, at + NONCE_MEMORY)], nonce, at + NONCE_MEMORY)
  {
    var h1: History := [] + [Called(kid, at)];
    var h2 := h1 + [Taken(nonce, ts, at, at)];
    var h3 := h2 + [Registered(kid, device, at)];
    var h4 := h3 + [Called(kid, at + NONCE_MEMORY)];
    assert Before(h1) == [] && Before(h2) == h1 && Before(h3) == h2 && Before(h4) == h3;
    assert Calls(h1, kid) == [at] && Calls(h2, kid) == [at] && Calls(h3, kid) == [at];
    assert LastTaken(h2, nonce) == Some(at) && LastTaken(h3, nonce) == Some(at) && LastTaken(h4, nonce) == Some(at);
  }

  // ---------------------------------------------------------------- one copy

  /** How many copies of this body were ever put in this inbox. */
  ghost function CountPut(h: History, inbox: Inbox, body: bytes): nat {
    if h == [] then 0
    else CountPut(Before(h), inbox, body)
         + if Last(h).Put? && Last(h).inbox == inbox && Last(h).envelope.body == body then 1 else 0
  }

  lemma {:induction false} RoutingPutsOnce(h: History, tail: seq<Event>, post: Post, inbox: Inbox, body: bytes)
    requires RoutingTail(tail, post) && DistinctInboxes(tail)
    ensures CountPut(h, inbox, body) <= CountPut(h + tail, inbox, body) <= CountPut(h, inbox, body) + 1
    ensures body != post.body ==> CountPut(h + tail, inbox, body) == CountPut(h, inbox, body)
    ensures (forall i :: 0 <= i < |tail| ==> !(tail[i].Put? && tail[i].inbox == inbox)) ==>
              CountPut(h + tail, inbox, body) == CountPut(h, inbox, body)
  {
    if tail == [] {
      assert h + tail == h;
    } else {
      var init, last := tail[..|tail| - 1], tail[|tail| - 1];
      assert Before(h + tail) == h + init;
      assert RoutingEvent(last, post);
      RoutingPutsOnce(h, init, post, inbox, body);
    }
  }

  /** Every copy is paid for by a nonce taken for the same body. */
  ghost predicate CopiesBounded(w: Wire, h: History) {
    forall inbox, body :: CountPut(h, inbox, body) <= Taking(w, h, body)
  }

  /** How often the nonce and timestamp inside this body were taken. */
  ghost function Taking(w: Wire, h: History, body: bytes): nat {
    match w.decode(body)
    case Some(s) => CountTaken(h, s.nonce, s.ts)
    case None => 0
  }

  lemma StepCopies(w: Wire, h: History, step: Step)
    requires CopiesBounded(w, h)
    ensures CopiesBounded(w, Apply(w, h, step))
  {
    var h' := Apply(w, h, step);
    forall inbox, body
      ensures CountPut(h', inbox, body) <= Taking(w, h', body)
    {
      assert CountPut(h, inbox, body) <= Taking(w, h, body);
      match step
      case Fetch(_, _) =>
        assert Before(h') == h;
      case Submit(post) =>
        var head, tail := HandleTail(w, h, post);
        RoutingPutsOnce(h + head, tail, post, inbox, body);
        HeadCounts(w, h, head, post, inbox, body);
        if w.decode(body).Some? {
          var s := w.decode(body).value;
          RoutingKeepsTaken(h + head, tail, post, s.nonce, s.ts);
        }
        assert tail == [] ==> h + head + tail == h + head;
    }
  }

  lemma HeadCounts(w: Wire, h: History, head: seq<Event>, post: Post, inbox: Inbox, body: bytes)
    requires |head| <= 2 && (head != [] ==> head[0].Called?)
    requires |head| == 2 ==>
               && w.decode(post.body).Some? && head[1].Taken?
               && head[1].nonce == w.decode(post.body).value.nonce && head[1].ts == w.decode(post.body).value.ts
    ensures CountPut(h + head, inbox, body) == CountPut(h, inbox, body)
    ensures Taking(w, h + head, body) >= Taking(w, h, body)
    ensures |head| == 2 && body == post.body ==> Taking(w, h + head, body) == Taking(w, h, body) + 1
  {
    if |head| >= 1 {
      var h1 := h + head[..1];
      assert Before(h1) == h;
      if |head| == 2 {
        assert Before(h + head) == h1;
      } else {
        assert h + head == h1;
      }
    } else {
      assert h + head == h;
    }
  }

  lemma {:induction false} RunCopies(w: Wire, steps: seq<Step>)
    ensures CopiesBounded(w, Run(w, steps))
  {
    if steps != [] {
      RunCopies(w, steps[..|steps| - 1]);
      StepCopies(w, Run(w, steps[..|steps| - 1]), steps[|steps| - 1]);
    }
  }

  /** However often the same bytes are posted, on whatever path and at whatever times, no inbox
      ever gets a second copy of them. */
  lemma AtMostOneCopy(w: Wire, steps: seq<Step>, inbox: Inbox, body: bytes)
    requires Timely(steps) && forall i :: 0 <= i < |steps| ==> Prompt(steps[i])
    ensures CountPut(Run(w, steps), inbox, body) <= 1
  {
    RunCopies(w, steps);
    var h := Run(w, steps);
    assert CountPut(h, inbox, body) <= Taking(w, h, body);
    if w.decode(body).Some? {
      NoReplayEver(w, steps, w.decode(body).value.nonce, w.decode(body).value.ts);
    }
  }

  // ---------------------------------------------------------------- answers

  /** Event i is the latest request that was remembered under this nonce. */
  ghost predicate LatestRequest(h: History, request: MsgNonce, i: nat) {
    && i < |h| && h[i].Routed? && h[i].request == request
    && forall j :: i < j < |h| ==> !(h[j].Routed? && h[j].request == request)
  }

  lemma {:induction false} LastRouteIsLatest(h: History, request: MsgNonce) returns (i: nat)
    ensures LastRoute(h, request).Some? ==>
              LatestRequest(h, request, i) && LastRoute(h, request).value == (h[i].kid, h[i].at)
    ensures LastRoute(h, request).None? ==> forall j :: 0 <= j < |h| ==> !(h[j].Routed? && h[j].request == request)
  {
    i := 0;
    if h != [] {
      var n := |h| - 1;
      i := LastRouteIsLatest(Before(h), request);
      assert forall j :: 0 <= j < n ==> Before(h)[j] == h[j];
      if h[n].Routed? && h[n].request == request {
        i := n;
      }
    }
  }

  /** An admitted answer goes to the device that last asked with that nonce, if that was under a day
      ago, and to no other inbox; otherwise it is refused and queues nothing. */
  lemma AnswerReachesAsker(w: Wire, h: History, signed: Signed, request: MsgNonce, post: Post, i: nat, inbox: Inbox)
    requires post.path == Grants && LatestRequest(h, request, i)
    ensures var (h', reply) := Dispatch(w, h, signed, GrantMsg(request), post);
            var recent := post.route - h[i].at < QUEUE_TTL;
            && (reply.Accepted? <==> recent) && (reply.Refused? ==> reply == Refused(NotFound))
            && CountPut(h', inbox, post.body)
               == CountPut(h, inbox, post.body) + if recent && inbox == Device(h[i].kid) then 1 else 0
  {
    var k := LastRouteIsLatest(h, request);
    assert k == i;
    var h' := Dispatch(w, h, signed, GrantMsg(request), post).0;
    if h' != h {
      assert Before(h') == h;
    }
  }

  /** An answer to a request nobody made is refused. */
  lemma UnaskedAnswerRefused(w: Wire, h: History, signed: Signed, request: MsgNonce, post: Post)
    requires post.path == Grants && forall j :: 0 <= j < |h| ==> !(h[j].Routed? && h[j].request == request)
    ensures Dispatch(w, h, signed, GrantMsg(request), post) == (h, Refused(NotFound))
  {
    var k := LastRouteIsLatest(h, request);
  }

  // ---------------------------------------------------------------- interest and revocation

  ghost predicate DistinctKids(asks: seq<(Kid, Time)>) {
    forall i, j :: 0 <= i < j < |asks| ==> asks[i].0 != asks[j].0
  }

  /** When this device last asked about this file. */
  ghost function LatestAsk(h: History, fid: FileId, kid: Kid): Option<Time> {
    if h == [] then None
    else if Last(h).Asked? && Last(h).fid == fid && Last(h).kid == kid then Some(Last(h).at)
    else LatestAsk(Before(h), fid, kid)
  }

  lemma {:induction false} WithoutKeeps(asks: seq<(Kid, Time)>, kid: Kid)
    ensures forall a :: a in Without(asks, kid) <==> a in asks && a.0 != kid
    ensures DistinctKids(asks) ==> DistinctKids(Without(asks, kid))
  {
    if asks != [] {
      WithoutKeeps(asks[1..], kid);
      var rest := Without(asks[1..], kid);
      assert forall a :: a in asks <==> a == asks[0] || a in asks[1..];
      if DistinctKids(asks) {
        assert DistinctKids(asks[1..]);
        forall i | 0 <= i < |rest|
          ensures rest[i].0 != asks[0].0
        {
          assert rest[i] in asks[1..];
        }
      }
    }
  }

  /** The ask list holds each device once, with its latest ask. */
  lemma {:induction false} AsksAreLatest(h: History, fid: FileId)
    ensures DistinctKids(Asks(h, fid))
    ensures forall kid, at :: (kid, at) in Asks(h, fid) <==> LatestAsk(h, fid, kid) == Some(at)
  {
    if h != [] {
      AsksAreLatest(Before(h), fid);
      if Last(h).Asked? && Last(h).fid == fid {
        WithoutKeeps(Asks(Before(h), fid), Last(h).kid);
        var others := Without(Asks(Before(h), fid), Last(h).kid);
        forall i | 0 <= i < |others|
          ensures others[i].0 != Last(h).kid
        {
          assert others[i] in others;
        }
      }
    }
  }

  /** Some ask of this device in the list is under a day old. */
  ghost predicate RecentAsk(asks: seq<(Kid, Time)>, kid: Kid, now: Time) {
    exists i :: 0 <= i < |asks| && asks[i].0 == kid && now - asks[i].1 < QUEUE_TTL
  }

  lemma {:induction false} RecentExact(asks: seq<(Kid, Time)>, now: Time)
    requires DistinctKids(asks)
    ensures forall kid :: kid in RecentKids(asks, now) <==> RecentAsk(asks, kid, now)
    ensures Distinct(RecentKids(asks, now))
  {
    if asks != [] {
      RecentExact(asks[1..], now);
      var rest := RecentKids(asks[1..], now);
      forall kid
        ensures RecentAsk(asks, kid, now) <==>
                RecentAsk(asks[1..], kid, now) || (kid == asks[0].0 && now - asks[0].1 < QUEUE_TTL)
      {
        if i :| 0 <= i < |asks[1..]| && asks[1..][i].0 == kid && now - asks[1..][i].1 < QUEUE_TTL {
          assert asks[i + 1] == asks[1..][i];
        }
        if i :| 0 < i < |asks| && asks[i].0 == kid && now - asks[i].1 < QUEUE_TTL {
          assert asks[1..][i - 1] == asks[i];
        }
      }
      forall i | 0 <= i < |rest|
        ensures rest[i] != asks[0].0
      {
        assert rest[i] in rest;
        assert RecentAsk(asks[1..], rest[i], now);
      }
    }
  }

  ghost predicate Distinct<T>(items: seq<T>) {
    forall i, j :: 0 <= i < j < |items| ==> items[i] != items[j]
  }

  /** A device is listed, once, exactly when its latest ask about the file is under a day old. */
  lemma InterestedExact(h: History, fid: FileId, now: Time, kid: Kid)
    ensures kid in Interested(h, fid, now) <==>
            LatestAsk(h, fid, kid).Some? && now - LatestAsk(h, fid, kid).value < QUEUE_TTL
    ensures Distinct(Interested(h, fid, now))
  {
    var asks := Asks(h, fid);
    AsksAreLatest(h, fid);
    RecentExact(asks, now);
    if RecentAsk(asks, kid, now) {
      var i :| 0 <= i < |asks| && asks[i].0 == kid && now - asks[i].1 < QUEUE_TTL;
      assert (kid, asks[i].1) in asks;
    }
    if LatestAsk(h, fid, kid).Some? {
      var at := LatestAsk(h, fid, kid).value;
      assert (kid, at) in asks;
      var i :| 0 <= i < |asks| && asks[i] == (kid, at);
    }
  }

  lemma {:induction false} TailCount(h: History, tail: seq<Event>, post: Post, inbox: Inbox)
    requires RoutingTail(tail, post) && DistinctInboxes(tail)
    ensures CountPut(h + tail, inbox, post.body) == CountPut(h, inbox, post.body)
              + if exists i :: 0 <= i < |tail| && tail[i].Put? && tail[i].inbox == inbox then 1 else 0
  {
    if tail == [] {
      assert h + tail == h;
    } else {
      var init, last := tail[..|tail| - 1], tail[|tail| - 1];
      assert Before(h + tail) == h + init;
      assert RoutingEvent(last, post);
      TailCount(h, init, post, inbox);
      if i :| 0 <= i < |init| && init[i].Put? && init[i].inbox == inbox {
        assert tail[i].Put? && tail[i].inbox == inbox;
      }
    }
  }

  /** An admitted revoke adds one copy to the inbox of every device whose latest ask about the file
      is under a day old, and to no other inbox. */
  lemma RevokeReachesExactly(w: Wire, h: History, signed: Signed, fid: FileId, post: Post, inbox: Inbox)
    requires post.path == Revocations
    ensures CountPut(Dispatch(w, h, signed, RevokeMsg(fid), post).0, inbox, post.body)
         == CountPut(h, inbox, post.body)
            + if inbox.Device? && LatestAsk(h, fid, inbox.kid).Some?
                 && post.route - LatestAsk(h, fid, inbox.kid).value < QUEUE_TTL
              then 1 else 0
  {
    var kids := Interested(h, fid, post.route);
    var tail := PutEachTail(h, kids, post);
    InterestedExact(h, fid, post.route, Zeros(16));
    TailCount(h, tail, post, inbox);
    if inbox.Device? {
      InterestedExact(h, fid, post.route, inbox.kid);
      if inbox.kid in kids {
        var i :| 0 <= i < |kids| && kids[i] == inbox.kid;
        assert tail[i].Put? && tail[i].inbox == inbox;
      }
    }
  }

  // ---------------------------------------------------------------- quota

  /** How many of these times lie in the closed window from lo to hi. */
  ghost function CountIn(times: seq<Time>, lo: int, hi: int): nat {
    if times == [] then 0
    else CountIn(times[..|times| - 1], lo, hi) + if lo <= times[|times| - 1] <= hi then 1 else 0
  }

  /** A window that ends at or after every time sees no more than a window reaching back from the
      last of them. */
  lemma {:induction false} WindowWithin(times: seq<Time>, lo: int, hi: int, now: Time, span: nat)
    requires now <= hi && hi - lo <= span
    ensures CountIn(times, lo, hi) <= CountWithin(times, now, span)
  {
    if times != [] {
      WindowWithin(times[..|times| - 1], lo, hi, now, span);
    }
  }

  ghost predicate Rated(times: seq<Time>, span: nat, limit: nat) {
    forall lo, hi :: hi - lo <= span ==> CountIn(times, lo, hi) <= limit
  }

  lemma CallKeepsRate(times: seq<Time>, now: Time, span: nat, limit: nat)
    requires Rated(times, span, limit) && CountWithin(times, now, span) < limit
    ensures Rated(times + [now], span, limit)
  {
    var more := times + [now];
    assert more[..|more| - 1] == times;
    forall lo, hi | hi - lo <= span
      ensures CountIn(more, lo, hi) <= limit
    {
      assert CountIn(times, lo, hi) <= limit;
      if now <= hi {
        WindowWithin(times, lo, hi, now, span);
      }
    }
  }

  lemma {:induction false} RoutingKeepsCalls(h: History, tail: seq<Event>, post: Post, kid: Kid)
    requires RoutingTail(tail, post)
    ensures Calls(h + tail, kid) == Calls(h, kid)
  {
    if tail == [] {
      assert h + tail == h;
    } else {
      assert Before(h + tail) == h + tail[..|tail| - 1];
      assert RoutingEvent(tail[|tail| - 1], post);
      RoutingKeepsCalls(h, tail[..|tail| - 1], post, kid);
    }
  }

  /** In every run, whatever the clock does, any closed minute holds at most 30 accepted calls of
      a device and any closed hour at most 300. */
  lemma {:induction false} QuotaHolds(w: Wire, steps: seq<Step>, kid: Kid)
    ensures Rated(Calls(Run(w, steps), kid), 60 * SECOND, 30)
    ensures Rated(Calls(Run(w, steps), kid), 3600 * SECOND, 300)
  {
    if steps != [] {
      var h, step := Run(w, steps[..|steps| - 1]), steps[|steps| - 1];
      QuotaHolds(w, steps[..|steps| - 1], kid);
      StepKeepsQuota(w, h, step, kid);
    }
  }

  lemma StepKeepsQuota(w: Wire, h: History, step: Step, kid: Kid)
    requires Rated(Calls(h, kid), MINUTE, RATE_PER_MINUTE) && Rated(Calls(h, kid), HOUR, RATE_PER_HOUR)
    ensures Rated(Calls(Apply(w, h, step), kid), MINUTE, RATE_PER_MINUTE)
    ensures Rated(Calls(Apply(w, h, step), kid), HOUR, RATE_PER_HOUR)
  {
    match step
    case Fetch(inbox, at) =>
      assert Before(Apply(w, h, step)) == h;
    case Submit(post) =>
      var head, tail := HandleTail(w, h, post);
      RoutingKeepsCalls(h + head, tail, post, kid);
      HeadCalls(h, head, kid, post.take);
      assert Calls(h, kid) + [] == Calls(h, kid);
      if head != [] && head[0].kid == kid {
        CallKeepsRate(Calls(h, kid), post.take, MINUTE, RATE_PER_MINUTE);
        CallKeepsRate(Calls(h, kid), post.take, HOUR, RATE_PER_HOUR);
      }
  }

  lemma HeadCalls(h: History, head: seq<Event>, kid: Kid, take: Time)
    requires |head| <= 2 && (head != [] ==> head[0].Called? && head[0].at == take) && (|head| == 2 ==> head[1].Taken?)
    ensures Calls(h + head, kid) == Calls(h, kid) + if head != [] && head[0].kid == kid then [take] else []
  {
    if |head| >= 1 {
      assert Before(h + head[..1]) == h;
      if |head| == 2 {
        assert Before(h + head) == h + head[..1];
      } else {
        assert h + head == h + head[..1];
      }
    } else {
      assert h + head == h;
    }
  }

  /** A submission turned away for its rate leaves no trace, so it cannot make a later one look
      replayed. */
  lemma RateLimitedLeavesNoTrace(w: Wire, h: History, post: Post)
    requires Handle(w, h, post).1 == Refused(RateLimited)
    ensures Handle(w, h, post).0 == h
  {
    hide QuotaOk, NonceFree, SigningBytes, RouteFor, Interested, PutEach, DeviceOf;
  }

  // ---------------------------------------------------------------- delivery

  /** Event d is the first drain of the inbox that event p put something into, within the time
      the relay keeps messages. */
  ghost predicate DeliveredBy(h: History, p: nat, d: nat) {
    && p < d < |h| && h[p].Put? && h[d].Drained? && h[d].inbox == h[p].inbox
    && (forall i :: p < i < d ==> !(h[i].Drained? && h[i].inbox == h[p].inbox))
    && h[d].at - h[p].at <= QUEUE_TTL
  }

  /** The puts that wait in an inbox, by their place in the history. */
  ghost function HeldAt(h: History, inbox: Inbox): (ps: seq<nat>)
    ensures forall i :: 0 <= i < |ps| ==> ps[i] < |h| && h[ps[i]].Put?
  {
    if h == [] then []
    else if Last(h).Drained? && Last(h).inbox == inbox then []
    else if Last(h).Put? && Last(h).inbox == inbox then HeldAt(Before(h), inbox) + [|h| - 1]
    else HeldAt(Before(h), inbox)
  }

  ghost predicate Waits(h: History, inbox: Inbox, p: nat) {
    && p < |h| && h[p].Put? && h[p].inbox == inbox
    && forall i :: p < i < |h| ==> !(h[i].Drained? && h[i].inbox == inbox)
  }

  /** Exactly the puts into the inbox after its last drain wait there. */
  lemma {:induction false} HeldMembers(h: History, inbox: Inbox)
    ensures Increasing(HeldAt(h, inbox))
    ensures forall p :: p in HeldAt(h, inbox) <==> Waits(h, inbox, p)
  {
    if h != [] {
      var n, ps := |h| - 1, HeldAt(Before(h), inbox);
      HeldMembers(Before(h), inbox);
      forall p: nat
        ensures Waits(h, inbox, p) <==>
                if p == n then h[n].Put? && h[n].inbox == inbox
                else Waits(Before(h), inbox, p) && !(h[n].Drained? && h[n].inbox == inbox)
      {
        if p < n && Waits(Before(h), inbox, p) && !(h[n].Drained? && h[n].inbox == inbox) {
          assert forall i :: p < i < n ==> h[i] == Before(h)[i];
        }
        if p < n && Waits(h, inbox, p) {
          assert forall i :: p < i < n ==> Before(h)[i] == h[i];
        }
      }
    }
  }

  lemma {:induction false} HeldMatches(h: History, inbox: Inbox)
    ensures |Held(h, inbox)| == |HeldAt(h, inbox)|
    ensures forall i :: 0 <= i < |HeldAt(h, inbox)| ==>
              Held(h, inbox)[i] == Queued(h[HeldAt(h, inbox)[i]].envelope, h[HeldAt(h, inbox)[i]].at)
  {
    if h != [] {
      HeldMatches(Before(h), inbox);
    }
  }

  ghost function DueAt(h: History, ps: seq<nat>, now: Time): (ds: seq<nat>)
    requires forall i :: 0 <= i < |ps| ==> ps[i] < |h| && h[ps[i]].Put?
    ensures forall i :: 0 <= i < |ds| ==> ds[i] < |h| && h[ds[i]].Put?
  {
    if ps == [] then []
    else if now - h[ps[0]].at <= QUEUE_TTL then [ps[0]] + DueAt(h, ps[1..], now)
    else DueAt(h, ps[1..], now)
  }

  ghost predicate Increasing(ps: seq<nat>) {
    forall i, j :: 0 <= i < j < |ps| ==> ps[i] < ps[j]
  }

  lemma {:induction false} DueMembers(h: History, ps: seq<nat>, now: Time)
    requires forall i :: 0 <= i < |ps| ==> ps[i] < |h| && h[ps[i]].Put?
    requires Increasing(ps)
    ensures Increasing(DueAt(h, ps, now))
    ensures forall p :: p in DueAt(h, ps, now) <==> p in ps && now - h[p].at <= QUEUE_TTL
  {
    if ps != [] {
      DueMembers(h, ps[1..], now);
      var rest := DueAt(h, ps[1..], now);
      forall i | 0 <= i < |rest|
        ensures ps[0] < rest[i]
      {
        assert rest[i] in ps[1..];
      }
      assert forall p :: p in ps <==> p == ps[0] || p in ps[1..];
    }
  }

  lemma {:induction false} DueMatches(h: History, ps: seq<nat>, held: seq<Queued>, now: Time)
    requires forall i :: 0 <= i < |ps| ==> ps[i] < |h| && h[ps[i]].Put?
    requires |held| == |ps| && forall i :: 0 <= i < |ps| ==> held[i] == Queued(h[ps[i]].envelope, h[ps[i]].at)
    ensures |Deliverable(held, now)| == |DueAt(h, ps, now)|
    ensures forall i :: 0 <= i < |DueAt(h, ps, now)| ==> Deliverable(held, now)[i] == h[DueAt(h, ps, now)[i]].envelope
  {
    if ps != [] {
      DueMatches(h, ps[1..], held[1..], now);
    }
  }

  /** A drain returns, in order, exactly the messages it is the first to drain in time. So no
      message is ever returned by two drains, and none that is drained in time is lost. */
  lemma DrainExact(h: History, inbox: Inbox, at: Time) returns (ds: seq<nat>)
    ensures forall i :: 0 <= i < |ds| ==> ds[i] < |h| && h[ds[i]].Put?
    ensures |Delivery(h, inbox, at)| == |ds|
    ensures forall i :: 0 <= i < |ds| ==> Delivery(h, inbox, at)[i] == h[ds[i]].envelope
    ensures Increasing(ds)
    ensures forall p :: 0 <= p < |h| && h[p].Put? && h[p].inbox == inbox ==>
              (p in ds <==> DeliveredBy(h + [Drained(inbox, at)], p, |h|))
    ensures forall i :: 0 <= i < |ds| ==> h[ds[i]].inbox == inbox
  {
    var h' := h + [Drained(inbox, at)];
    forall p | 0 <= p < |h| && h[p].Put? && h[p].inbox == inbox
      ensures DeliveredBy(h', p, |h|) <==> Waits(h, inbox, p) && at - h[p].at <= QUEUE_TTL
    {
      assert h'[..|h|] == h;
      assert forall i :: 0 <= i < |h| ==> h'[i] == h[i];
    }
    HeldMembers(h, inbox);
    HeldMatches(h, inbox);
    DueMatches(h, HeldAt(h, inbox), Held(h, inbox), at);
    DueMembers(h, HeldAt(h, inbox), at);
    ds := DueAt(h, HeldAt(h, inbox), at);
    forall i | 0 <= i < |ds|
      ensures h[ds[i]].inbox == inbox
    {
      assert ds[i] in ds;
    }
  }

  // ---------------------------------------------------------------- whose message it is

  /** Whatever the relay admits, on any path but the announcing one, is of a device it knows, and was
      signed with that device's key as this kind of message, with this time and nonce and a payload of this
      digest. */
  lemma AdmittedWasSigned(w: Wire, h: History, post: Post, log: bytes32 -> seq<Record>) returns (i: nat)
    requires !post.path.Devices? && Admitted(w, h, post).1.Ok?
    requires forall key :: SignedOnly(w, key, log(key))
    ensures var s := Admitted(w, h, post).1.value.0;
            && w.decode(post.body) == Some(s) && DeviceOf(h, s.kid).Some?
            && var signed := log(DeviceOf(h, s.kid).value.ed25519);
            && i < |signed| && signed[i].kind == KindOf(post.path) && signed[i].ts == s.ts && signed[i].nonce == s.nonce
            && w.sha256(signed[i].payload) == w.sha256(s.payload)
  {
    hide DeviceOf, QuotaOk, NonceFree, SigningBytes, SignedOnly;
    var s := Admitted(w, h, post).1.value.0;
    var key := DeviceOf(h, s.kid).value.ed25519;
    i := VerifiedWasSigned(w, KindOf(post.path), s, key, Unix(post.verify), log(key));
  }
}
