/** What a call of the retrying client leaves behind at each of its relays: why a retry can be told that
    it was delivered before, where an announcement is registered, and what a request then meets when it
    fails over (`crates/zbacs-relay-client/src/client.rs`). */
module Failover {
  import opened Bytes
  import opened Proto
  import opened RelaySpec
  import opened RelayRuns
  import opened Client

  // ---------------------------------------------------------------- whose step it is

  /** Step j of a relay's life is the post of attempt k. */
  ghost predicate OwnAt(c: Call, start: seq<Step>, relay: nat, j: nat, k: nat) {
    && c.Tries(k, relay) && c.net(k).fate != RequestLost && j == |c.Ready(start, relay, k)|
  }

  /** Someone else's step: there from the start, or traffic around one of the first n attempts. */
  ghost predicate Foreign(c: Call, start: seq<Step>, relay: nat, n: nat, s: Step) {
    s in start || exists k :: 0 <= k < n && s in c.net(k).traffic(relay)
  }

  /** Every step of a life is the post of an attempt, at its place, or someone else's. */
  lemma {:induction false} OwnOrForeign(c: Call, start: seq<Step>, relay: nat, n: nat, j: nat) returns (k: nat)
    requires j < |c.Life(start, relay, n)|
    ensures var life := c.Life(start, relay, n);
            || Foreign(c, start, relay, n, life[j])
            || (k < n && OwnAt(c, start, relay, j, k) && life[j] == Step.Submit(c.PostAt(k))
                && life[..j] == c.Ready(start, relay, k))
    decreases n
  {
    k := 0;
    if n > 0 {
      hide Call.Tries;
      var before, ready := c.Life(start, relay, n - 1), c.Ready(start, relay, n - 1);
      var life := c.Life(start, relay, n);
      if j < |before| {
        k := OwnOrForeign(c, start, relay, n - 1, j);
        assert life[j] == before[j] && life[..j] == before[..j];
      } else if j < |ready| {
        assert life[j] == c.net(n - 1).traffic(relay)[j - |before|];
      } else {
        k := n - 1;
        assert life[..j] == ready;
      }
    }
  }

  /** The post of attempt k stands in every later life, behind what attempt k found. */
  lemma {:induction false} OwnStands(c: Call, start: seq<Step>, relay: nat, n: nat, k: nat)
    requires k < n && c.Tries(k, relay) && c.net(k).fate != RequestLost
    ensures var life, j := c.Life(start, relay, n), |c.Ready(start, relay, k)|;
            j < |life| && life[j] == Step.Submit(c.PostAt(k)) && life[..j] == c.Ready(start, relay, k)
    decreases n
  {
    hide Call.Tries;
    var ready := c.Ready(start, relay, k);
    var life := c.Life(start, relay, n);
    if k == n - 1 {
      assert life == ready + [Step.Submit(c.PostAt(k))];
    } else {
      OwnStands(c, start, relay, n - 1, k);
      var before := c.Life(start, relay, n - 1);
      assert life[..|before|] == before;
      assert life[..|ready|] == before[..|ready|];
    }
  }

  // ---------------------------------------------------------------- delivered before

  /** This step posts the nonce of the call's bytes. */
  ghost predicate Uses(c: Call, s: Step) {
    && s.Submit? && c.w.decode(s.post.body).Some? && c.w.decode(c.body).Some?
    && c.w.decode(s.post.body).value.nonce == c.w.decode(c.body).value.nonce
  }

  /** An admitted post is answered for good: what is refused after admission is not worth retrying. */
  lemma AdmittedIsFinal(w: Wire, h: History, post: Post)
    requires Admitted(w, h, post).1.Ok?
    ensures Final(Read(Handle(w, h, post).1))
  {
    hide Admitted;
  }

  /** An attempt of ours that was admitted at this relay and whose answer did not arrive. */
  ghost predicate WentUnheard(c: Call, start: seq<Step>, relay: nat, k: nat) {
    && c.Tries(k, relay)
    && Admitted(c.w, Run(c.w, c.Ready(start, relay, k)), c.PostAt(k)).1.Ok?
    && (c.net(k).fate.ReplyLost? || c.net(k).fate.ReplyGarbled?)
  }

  /** An attempt is told that its bytes were delivered before only because of a step that was admitted with
      their nonce: an earlier attempt that went unheard, or somebody else's. */
  lemma DeliveredBefore(c: Call, start: World, relay: nat, k: nat) returns (j: nat, earlier: nat)
    requires relay < |start| && c.Tries(k, relay) && NoneEnds(c, start, k)
    requires c.Result(start[relay], relay, k) == Delivered(AlreadyDelivered)
    ensures var ready := c.Ready(start[relay], relay, k);
            && j < |ready| && Uses(c, ready[j]) && TookAt(c.w, ready, j, c.w.decode(c.body).value.nonce)
            && (Foreign(c, start[relay], relay, k + 1, ready[j])
                || (earlier < k && WentUnheard(c, start[relay], relay, earlier)))
  {
    hide Call.Tries, Admitted, Handle, Run;
    var life, ready := c.Life(start[relay], relay, k), c.Ready(start[relay], relay, k);
    ReplayedTook(c.w, ready, c.PostAt(k));
    j :| TookAt(c.w, ready, j, c.w.decode(c.body).value.nonce);
    earlier := 0;
    if j < |life| {
      assert ready[j] == life[j] && ready[..j] == life[..j];
      earlier := OwnOrForeign(c, start[relay], relay, k, j);
      ForeignLonger(c, start[relay], relay, k, life[j]);
      if !Foreign(c, start[relay], relay, k, life[j]) {
        NotAnswered(c, start, relay, earlier);
      }
    }
  }

  /** So if nobody else posts this nonce, it is an earlier attempt that went unheard. An attempt that was
      answered, rate-limited or not, is never the reason. */
  lemma RetryTookItself(c: Call, start: World, relay: nat, k: nat) returns (earlier: nat)
    requires relay < |start| && c.Tries(k, relay) && NoneEnds(c, start, k)
    requires c.Result(start[relay], relay, k) == Delivered(AlreadyDelivered)
    requires forall s :: Foreign(c, start[relay], relay, k + 1, s) ==> !Uses(c, s)
    ensures earlier < k && c.Tries(earlier, relay)
    ensures Admitted(c.w, Run(c.w, c.Ready(start[relay], relay, earlier)), c.PostAt(earlier)).1.Ok?
    ensures c.net(earlier).fate.ReplyLost? || c.net(earlier).fate.ReplyGarbled?
  {
    hide Call.Tries, Admitted, Handle, Run, Call.Result, NoneEnds, Foreign, Uses;
    var j;
    j, earlier := DeliveredBefore(c, start, relay, k);
  }

  lemma ForeignLonger(c: Call, start: seq<Step>, relay: nat, n: nat, s: Step)
    ensures Foreign(c, start, relay, n, s) ==> Foreign(c, start, relay, n + 1, s)
  {
  }

  lemma NotAnswered(c: Call, start: World, relay: nat, k: nat)
    requires relay < |start| && c.Tries(k, relay) && !c.Ends(start, k)
    requires Admitted(c.w, Run(c.w, c.Ready(start[relay], relay, k)), c.PostAt(k)).1.Ok?
    ensures !c.net(k).fate.Answered?
  {
    hide Call.Tries, Admitted, Handle, Run, Final;
    AdmittedIsFinal(c.w, Run(c.w, c.Ready(start[relay], relay, k)), c.PostAt(k));
  }

  // ---------------------------------------------------------------- one copy, however often

  /** However often a call posted its bytes, and whatever else a relay of prompt handlers did, no inbox
      of it ever got a second copy. */
  lemma OneCopyOfCall(c: Call, start: World, world: World, n: nat, relay: nat, inbox: Inbox)
    requires Lived(c, start, world, n) && relay < |start|
    requires Timely(world[relay]) && forall s :: s in world[relay] ==> Prompt(s)
    ensures CountPut(Run(c.w, c.Life(start[relay], relay, n)), inbox, c.body) <= 1
  {
    AtMostOneCopy(c.w, world[relay], inbox, c.body);
  }

  /** How many of the first n attempts reached this relay. */
  function Reached(c: Call, relay: nat, n: nat): nat {
    if n == 0 then 0
    else Reached(c, relay, n - 1) + if c.Tries(n - 1, relay) && c.net(n - 1).fate != RequestLost then 1 else 0
  }

  function Occurrences(endpoints: seq<nat>, relay: nat): nat {
    if endpoints == [] then 0
    else Occurrences(endpoints[..|endpoints| - 1], relay) + if endpoints[|endpoints| - 1] == relay then 1 else 0
  }

  /** A relay gets the bytes at most `attempts` times for each time it is listed. */
  lemma {:induction false} ReachedBounded(c: Call, relay: nat, i: nat, attempt: nat)
    requires (i < |c.endpoints| && attempt <= c.attempts) || (i == |c.endpoints| && attempt == 0)
    ensures Reached(c, relay, Offset(c, i) + attempt)
         <= Occurrences(c.endpoints[..i], relay) * c.attempts
            + if i < |c.endpoints| && c.endpoints[i] == relay then attempt else 0
    decreases i, attempt
  {
    if attempt > 0 {
      ReachedBounded(c, relay, i, attempt - 1);
      Turns(c, i, attempt - 1);
    } else if i > 0 {
      ReachedBounded(c, relay, i - 1, c.attempts);
      Turns(c, i - 1, c.attempts);
      assert c.endpoints[..i][..i - 1] == c.endpoints[..i - 1];
      OneMore(Occurrences(c.endpoints[..i - 1], relay), c.attempts);
    }
  }

  lemma OneMore(n: nat, m: nat)
    ensures (n + 1) * m == n * m + m
  {
  }

  // ---------------------------------------------------------------- announcements

  /** Step j of a relay's life registered this device. */
  ghost predicate RegistersAt(w: Wire, steps: seq<Step>, j: nat, kid: Kid) {
    && j < |steps| && Announces(w, steps[j], kid)
    && Handle(w, Run(w, steps[..j]), steps[j].post).1.Accepted?
  }

  /** This step posts an announcement of this device. */
  ghost predicate Announces(w: Wire, s: Step, kid: Kid) {
    s.Submit? && s.post.path.Devices? && w.decode(s.post.body).Some? && w.decode(s.post.body).value.kid == kid
  }

  lemma {:induction false} OthersKeepDevice(h: History, tail: seq<Event>, kid: Kid)
    requires forall e :: e in tail ==> !e.Registered?
    ensures DeviceOf(h + tail, kid) == DeviceOf(h, kid)
  {
    if tail == [] {
      assert h + tail == h;
    } else {
      var n := |tail| - 1;
      OthersKeepDevice(h, tail[..n], kid);
      assert Before(h + tail) == h + tail[..n] && Last(h + tail) == tail[n];
      assert tail[n] in tail;
    }
  }

  lemma {:induction false} BroadcastKeepsDevice(h: History, kids: seq<Kid>, post: Post, kid: Kid)
    ensures DeviceOf(PutEach(h, kids, post), kid) == DeviceOf(h, kid)
  {
    if kids != [] {
      var n := |kids| - 1;
      BroadcastKeepsDevice(h, kids[..n], post, kid);
      assert Before(PutEach(h, kids, post)) == PutEach(h, kids[..n], post);
    }
  }

  lemma RoutingRegisters(w: Wire, h: History, signed: Signed, payload: Payload, post: Post, kid: Kid)
    requires OfKind(KindOf(post.path), payload)
    ensures DeviceOf(Dispatch(w, h, signed, payload, post).0, kid).Some? <==>
            DeviceOf(h, kid).Some? || (post.path.Devices? && signed.kid == kid)
    ensures post.path.Devices? ==> Dispatch(w, h, signed, payload, post).1.Accepted?
  {
    var h' := Dispatch(w, h, signed, payload, post).0;
    if payload.AnnounceMsg? {
      assert Before(h') == h;
    } else if payload.RevokeMsg? {
      BroadcastKeepsDevice(h, Interested(h, payload.fid, post.route), post, kid);
    } else {
      hide Dispatch, DeviceOf;
      var inbox, others := DispatchOne(w, h, signed, payload, post);
      OthersKeepDevice(h, others, kid);
      var envelope := Envelope(Id(post.ids, 0), KindOf(post.path), post.body, Unix(post.route));
      OthersKeepDevice(h + others, [Put(inbox, envelope, post.route)], kid);
    }
  }

  lemma AdmittedSigned(w: Wire, h: History, post: Post)
    requires Admitted(w, h, post).1.Ok?
    ensures w.decode(post.body) == Some(Admitted(w, h, post).1.value.0)
  {
  }

  lemma HandleRegisters(w: Wire, h: History, post: Post, kid: Kid)
    ensures DeviceOf(Handle(w, h, post).0, kid).Some? <==>
            || DeviceOf(h, kid).Some?
            || (Announces(w, Step.Submit(post), kid) && Handle(w, h, post).1.Accepted?)
  {
    hide Admitted, Dispatch, DeviceOf;
    var (mid, r) := Admitted(w, h, post);
    var head := AdmitTail(w, h, post);
    OthersKeepDevice(h, head, kid);
    if r.Ok? {
      AdmittedSigned(w, h, post);
      RoutingRegisters(w, mid, r.value.0, r.value.1, post, kid);
    }
  }

  ghost predicate Registered(w: Wire, steps: seq<Step>, kid: Kid) {
    exists j: nat :: RegistersAt(w, steps, j, kid)
  }

  /** A relay knows a device exactly if some step of its life registered it. */
  lemma {:induction false} KnownByStep(w: Wire, steps: seq<Step>, kid: Kid)
    ensures DeviceOf(Run(w, steps), kid).Some? <==> Registered(w, steps, kid)
  {
    if steps == [] {
    } else {
      hide Run, Registered, DeviceOf, Handle;
      var n := |steps| - 1;
      var before := steps[..n];
      KnownByStep(w, before, kid);
      RegisteredLast(w, steps, kid);
      RunSnoc(w, before, steps[n]);
      assert before + [steps[n]] == steps;
      match steps[n]
      case Fetch(inbox, at) =>
        OthersKeepDevice(Run(w, before), [Drained(inbox, at)], kid);
      case Submit(post) =>
        HandleRegisters(w, Run(w, before), post, kid);
    }
  }

  lemma RegisteredLast(w: Wire, steps: seq<Step>, kid: Kid)
    requires steps != []
    ensures Registered(w, steps, kid) <==>
            Registered(w, steps[..|steps| - 1], kid) || RegistersAt(w, steps, |steps| - 1, kid)
  {
    hide Run, Handle;
    var n := |steps| - 1;
    assert forall j: nat :: j < n ==> steps[..n][..j] == steps[..j];
    if j: nat :| RegistersAt(w, steps, j, kid) {
      assert j < n ==> RegistersAt(w, steps[..n], j, kid);
    }
    if j: nat :| RegistersAt(w, steps[..n], j, kid) {
      assert RegistersAt(w, steps, j, kid);
    }
  }

  /** Attempt k of a call registered the call's device at this relay. */
  ghost predicate OwnRegisters(c: Call, start: seq<Step>, relay: nat, k: nat) {
    c.Tries(k, relay) && c.net(k).fate != RequestLost && c.ReplyAt(start, relay, k).Accepted?
  }

  /** Nobody but the call's own attempts announces the device at this relay. */
  ghost predicate OnlyWe(c: Call, start: seq<Step>, relay: nat, n: nat, kid: Kid) {
    forall s :: Foreign(c, start, relay, n, s) ==> !Announces(c.w, s, kid)
  }

  predicate Announcement(c: Call, kid: Kid) {
    c.path.Devices? && c.w.decode(c.body).Some? && c.w.decode(c.body).value.kid == kid
  }

  /** An announcement is registered at a relay exactly if one of its attempts was accepted there. */
  lemma KnownAfterAnnounce(c: Call, start: seq<Step>, relay: nat, n: nat, kid: Kid)
    requires Announcement(c, kid) && OnlyWe(c, start, relay, n, kid)
    ensures DeviceOf(Run(c.w, c.Life(start, relay, n)), kid).Some? <==>
            exists k :: 0 <= k < n && OwnRegisters(c, start, relay, k)
  {
    hide Run, Handle, DeviceOf, Call.Tries;
    var life := c.Life(start, relay, n);
    KnownByStep(c.w, life, kid);
    if j: nat :| RegistersAt(c.w, life, j, kid) {
      var k := OwnOrForeign(c, start, relay, n, j);
      assert OwnRegisters(c, start, relay, k);
    }
    if k :| 0 <= k < n && OwnRegisters(c, start, relay, k) {
      OwnIsKnown(c, start, relay, n, k, kid);
    }
  }

  /** Whoever else announces the device, an accepted attempt makes it known. */
  lemma OwnIsKnown(c: Call, start: seq<Step>, relay: nat, n: nat, k: nat, kid: Kid)
    requires Announcement(c, kid) && k < n && OwnRegisters(c, start, relay, k)
    ensures DeviceOf(Run(c.w, c.Life(start, relay, n)), kid).Some?
  {
    hide Run, Handle, DeviceOf, Call.Tries;
    var life := c.Life(start, relay, n);
    KnownByStep(c.w, life, kid);
    OwnStands(c, start, relay, n, k);
    assert RegistersAt(c.w, life, |c.Ready(start, relay, k)|, kid);
  }

  lemma TurnMono(c: Call, k: nat, l: nat)
    requires k <= l
    ensures c.Turn(k) <= c.Turn(l)
  {
    if c.attempts > 0 {
      Multiples(l / c.attempts, k / c.attempts, c.attempts);
    }
  }

  /** A relay's life without the call. */
  function Background(c: Call, start: seq<Step>, relay: nat, n: nat): seq<Step> {
    if n == 0 then start else Background(c, start, relay, n - 1) + c.net(n - 1).traffic(relay)
  }

  lemma {:induction false} UnreachedLife(c: Call, start: seq<Step>, relay: nat, n: nat)
    requires forall k :: 0 <= k < n ==> !c.Tries(k, relay)
    ensures c.Life(start, relay, n) == Background(c, start, relay, n)
    decreases n
  {
    if n > 0 {
      hide Call.Tries;
      UnreachedLife(c, start, relay, n - 1);
      assert forall s: seq<Step> :: s + [] == s;
    }
  }

  /** When an endpoint ended a call, the endpoints listed after it got nothing. */
  lemma LaterEndpointsGetNothing(c: Call, start: World, n: nat, i: nat)
    requires n > 0 && Distinct(c.endpoints)
    requires c.Turn(n - 1) < i < |c.endpoints| && c.endpoints[i] < |start|
    ensures var e := c.endpoints[i];
            && (forall k :: 0 <= k < n ==> !c.Tries(k, e))
            && c.Life(start[e], e, n) == Background(c, start[e], e, n)
  {
    hide Call.Turn;
    var e := c.endpoints[i];
    forall k | 0 <= k < n
      ensures !c.Tries(k, e)
    {
      TurnMono(c, k, n - 1);
    }
    UnreachedLife(c, start[e], e, n);
  }

  /** The i-th endpoint knows the device. */
  ghost predicate KnownAt(c: Call, start: World, n: nat, kid: Kid, i: nat) {
    && i < |c.endpoints| && c.endpoints[i] < |start|
    && DeviceOf(Run(c.w, c.Life(start[c.endpoints[i]], c.endpoints[i], n)), kid).Some?
  }

  /** Attempt k, on the i-th endpoint, was accepted. */
  ghost predicate AcceptedBy(c: Call, start: World, k: nat, i: nat) {
    && i < |c.endpoints| && c.endpoints[i] < |start| && c.Turn(k) == i
    && OwnRegisters(c, start[c.endpoints[i]], c.endpoints[i], k)
  }

  ghost predicate AcceptedOn(c: Call, start: World, n: nat, i: nat) {
    exists k :: 0 <= k < n && AcceptedBy(c, start, k, i)
  }

  /** A call that announces this device to different endpoints, where nobody else announces it, and that
      succeeded with its n-th attempt. */
  ghost predicate Announced(c: Call, start: World, n: nat, kid: Kid) {
    && Announcement(c, kid) && Distinct(c.endpoints)
    && (forall e :: e in c.endpoints ==> e < |start| && OnlyWe(c, start[e], e, n, kid))
    && exists out :: EndsWith(c, start, n, out) && out.Delivered?
  }

  lemma KnownExactly(c: Call, start: World, n: nat, kid: Kid, i: nat)
    requires Announced(c, start, n, kid) && i < |c.endpoints|
    ensures KnownAt(c, start, n, kid, i) <==> AcceptedOn(c, start, n, i)
  {
    hide Run, DeviceOf, Announcement, OnlyWe, Call.Life, Call.ReplyAt, Call.Turn, EndsWith;
    var e := c.endpoints[i];
    assert e in c.endpoints;
    KnownAfterAnnounce(c, start[e], e, n, kid);
    if k :| 0 <= k < n && OwnRegisters(c, start[e], e, k) {
      assert AcceptedBy(c, start, k, i);
    }
  }

  /** Where the call succeeded, and that an attempt accepted before the last one was not heard. */
  lemma SuccessFacts(c: Call, start: World, n: nat, kid: Kid) returns (r: nat)
    requires Announced(c, start, n, kid)
    ensures n > 0 && r < |start| && c.Tries(n - 1, r) && NoneEnds(c, start, n - 1)
    ensures c.Result(start[r], r, n - 1).Delivered?
  {
    hide Call.Result, NoneEnds, Announcement, OnlyWe, Distinct, Call.Turn;
    var out :| EndsWith(c, start, n, out) && out.Delivered?;
    r :| 0 <= r < |start| && c.Tries(n - 1, r) && out == c.Result(start[r], r, n - 1);
  }

  lemma AcceptedUnheard(c: Call, start: World, n: nat, k: nat, i: nat)
    requires k + 1 < n && AcceptedBy(c, start, k, i) && NoneEnds(c, start, n - 1)
    ensures c.net(k).fate.ReplyLost? || c.net(k).fate.ReplyGarbled?
  {
    hide Handle, Run, Call.Turn;
    assert !c.Ends(start, k);
  }

  lemma AcceptedInTurn(c: Call, start: World, n: nat, i: nat)
    requires AcceptedOn(c, start, n, i)
    ensures n > 0 && i <= c.Turn(n - 1)
  {
    hide Call.Turn, OwnRegisters;
    var k :| 0 <= k < n && AcceptedBy(c, start, k, i);
    TurnMono(c, k, n - 1);
  }

  /** An announcement that succeeded has reached every endpoint exactly if an attempt was accepted on every
      one; the last endpoint then ended the call, and every accepted attempt but the last had its reply
      lost or garbled, for an answer would have ended the call. */
  lemma AnnounceReachesExactly(c: Call, start: World, n: nat, kid: Kid)
    requires Announced(c, start, n, kid)
    ensures n > 0
    ensures (forall i :: 0 <= i < |c.endpoints| ==> KnownAt(c, start, n, kid, i))
            <==> forall i :: 0 <= i < |c.endpoints| ==> AcceptedOn(c, start, n, i)
    ensures (forall i :: 0 <= i < |c.endpoints| ==> KnownAt(c, start, n, kid, i)) ==>
              c.Turn(n - 1) == |c.endpoints| - 1
    ensures forall k, i :: 0 <= k < n - 1 && AcceptedBy(c, start, k, i) ==>
              c.net(k).fate.ReplyLost? || c.net(k).fate.ReplyGarbled?
  {
    hide *;
    var r := SuccessFacts(c, start, n, kid);
    var m := |c.endpoints|;
    assert c.Turn(n - 1) < m by {
      TriesTurn(c, n - 1, r);
    }
    forall i: nat | i < m
      ensures KnownAt(c, start, n, kid, i) <==> AcceptedOn(c, start, n, i)
    {
      KnownExactly(c, start, n, kid, i);
    }
    if AcceptedOn(c, start, n, m - 1) {
      AcceptedInTurn(c, start, n, m - 1);
    }
    forall k, i | 0 <= k < n - 1 && AcceptedBy(c, start, k, i)
      ensures c.net(k).fate.ReplyLost? || c.net(k).fate.ReplyGarbled?
    {
      AcceptedUnheard(c, start, n, k, i);
    }
  }

  lemma TriesTurn(c: Call, k: nat, r: nat)
    requires c.Tries(k, r)
    ensures c.Turn(k) < |c.endpoints| && c.endpoints[c.Turn(k)] == r
  {
  }

  /** Nobody else posts the nonce of the call's bytes at its endpoints. */
  ghost predicate OwnNonce(c: Call, start: World, n: nat) {
    forall e, s :: e in c.endpoints && e < |start| && Foreign(c, start[e], e, n, s) ==> !Uses(c, s)
  }

  /** An admitted announcement is accepted. */
  lemma AdmittedAnnounced(c: Call, start: seq<Step>, relay: nat, k: nat, kid: Kid)
    requires Announcement(c, kid) && c.Tries(k, relay) && c.net(k).fate != RequestLost
    requires Admitted(c.w, Run(c.w, c.Ready(start, relay, k)), c.PostAt(k)).1.Ok?
    ensures OwnRegisters(c, start, relay, k)
  {
    hide Call.Tries, Admitted, Dispatch, Run;
    var (mid, r) := Admitted(c.w, Run(c.w, c.Ready(start, relay, k)), c.PostAt(k));
    RoutingRegisters(c.w, mid, r.value.0, r.value.1, c.PostAt(k), kid);
  }

  /** Whatever the network lost, and whoever else announces the device: if nobody else posts its nonce, an
      announcement that succeeded is known to the endpoint that ended the call. */
  lemma AnnounceReachesItsEnd(c: Call, start: World, n: nat, kid: Kid, out: Outcome)
    requires Announcement(c, kid) && EndsWith(c, start, n, out) && out.Delivered? && OwnNonce(c, start, n)
    ensures n > 0 && KnownAt(c, start, n, kid, c.Turn(n - 1))
  {
    hide *;
    var r := SuccessAt(c, start, n, out);
    TriesTurn(c, n - 1, r);
    var k := n - 1;
    if out == Delivered(AlreadyDelivered) {
      OwnNonceAt(c, start, n, r);
      k := RetryTookItself(c, start, r, n - 1);
      AdmittedAnnounced(c, start[r], r, k, kid);
    } else {
      QueuedRegisters(c, start, n, r);
    }
    OwnIsKnown(c, start[r], r, n, k, kid);
    AtItsTurn(c, start, n, kid, r);
  }

  lemma SuccessAt(c: Call, start: World, n: nat, out: Outcome) returns (r: nat)
    requires EndsWith(c, start, n, out) && out.Delivered?
    ensures n > 0 && r < |start| && c.Tries(n - 1, r) && NoneEnds(c, start, n - 1)
    ensures c.Result(start[r], r, n - 1) == out
  {
    hide Call.Result, NoneEnds, Call.Tries;
    r :| 0 <= r < |start| && c.Tries(n - 1, r) && out == c.Result(start[r], r, n - 1);
  }

  lemma OwnNonceAt(c: Call, start: World, n: nat, r: nat)
    requires OwnNonce(c, start, n) && r < |start| && n > 0 && c.Tries(n - 1, r)
    ensures forall s :: Foreign(c, start[r], r, n, s) ==> !Uses(c, s)
  {
    hide Foreign, Uses;
    TriesTurn(c, n - 1, r);
    assert r in c.endpoints;
  }

  lemma QueuedRegisters(c: Call, start: World, n: nat, r: nat)
    requires n > 0 && r < |start| && c.Tries(n - 1, r)
    requires c.Result(start[r], r, n - 1).Delivered? && !c.Result(start[r], r, n - 1).how.AlreadyDelivered?
    ensures OwnRegisters(c, start[r], r, n - 1)
  {
    hide Handle, Run, Call.Tries;
  }

  lemma AtItsTurn(c: Call, start: World, n: nat, kid: Kid, r: nat)
    requires n > 0 && r < |start| && c.Turn(n - 1) < |c.endpoints| && c.endpoints[c.Turn(n - 1)] == r
    requires DeviceOf(Run(c.w, c.Life(start[r], r, n)), kid).Some?
    ensures KnownAt(c, start, n, kid, c.Turn(n - 1))
  {
    hide Run, DeviceOf, Call.Life, Call.Turn;
  }

  /** In every network, from every start, a successful announcement of these bytes that nobody else makes
      or posts the nonce of is known to every endpoint. */
  ghost predicate AlwaysReachesAll(w: Wire, endpoints: seq<nat>, attempts: nat, body: bytes, kid: Kid) {
    forall net: nat -> Turn, start: World, n: nat, i: nat |
      SucceedsAlone(Call(w, endpoints, attempts, Devices, body, net), start, n, kid) && i < |endpoints| ::
      KnownAt(Call(w, endpoints, attempts, Devices, body, net), start, n, kid, i)
  }

  ghost predicate SucceedsAlone(c: Call, start: World, n: nat, kid: Kid) {
    Announced(c, start, n, kid) && OwnNonce(c, start, n)
  }

  lemma OneEndpointReached(c: Call, start: World, n: nat, kid: Kid, i: nat)
    requires SucceedsAlone(c, start, n, kid) && |c.endpoints| <= 1 && i < |c.endpoints|
    ensures KnownAt(c, start, n, kid, i)
  {
    hide *;
    var out := SuccessOf(c, start, n, kid);
    AnnounceReachesItsEnd(c, start, n, kid, out);
    var r := SuccessAt(c, start, n, out);
    TriesTurn(c, n - 1, r);
  }

  lemma SuccessOf(c: Call, start: World, n: nat, kid: Kid) returns (out: Outcome)
    requires SucceedsAlone(c, start, n, kid)
    ensures Announcement(c, kid) && EndsWith(c, start, n, out) && out.Delivered? && OwnNonce(c, start, n)
  {
    hide EndsWith, OwnNonce, Announcement, OnlyWe, Distinct;
    out :| EndsWith(c, start, n, out) && out.Delivered?;
  }

  /** With no reply lost, an announcement that succeeded is known to the one endpoint that answered it,
      and so to every endpoint exactly if there is only one. */
  lemma LosslessAnnounceReachesOne(c: Call, start: World, n: nat, kid: Kid, i: nat)
    requires Announced(c, start, n, kid) && forall k :: 0 <= k < n ==> c.net(k).fate.Answered?
    requires forall e, s :: 0 <= e < |start| && Foreign(c, start[e], e, n, s) ==> !Uses(c, s)
    requires i < |c.endpoints|
    ensures n > 0 && (KnownAt(c, start, n, kid, i) <==> i == c.Turn(n - 1))
  {
    hide *;
    var r := SuccessFacts(c, start, n, kid);
    TriesTurn(c, n - 1, r);
    KnownExactly(c, start, n, kid, i);
    if c.Result(start[r], r, n - 1) == Delivered(AlreadyDelivered) {
      var earlier := RetryTookItself(c, start, r, n - 1);
    } else {
      LastAccepted(c, start, n, r);
    }
    if AcceptedOn(c, start, n, i) {
      OnlyLast(c, start, n, i);
    }
  }

  lemma OnlyLast(c: Call, start: World, n: nat, i: nat)
    requires n > 0 && AcceptedOn(c, start, n, i) && NoneEnds(c, start, n - 1)
    requires forall k :: 0 <= k < n ==> c.net(k).fate.Answered?
    ensures i == c.Turn(n - 1)
  {
    hide Call.Turn, NoneEnds, OwnRegisters;
    var k :| 0 <= k < n && AcceptedBy(c, start, k, i);
    if k < n - 1 {
      AcceptedUnheard(c, start, n, k, i);
    }
  }

  lemma LastAccepted(c: Call, start: World, n: nat, r: nat)
    requires n > 0 && r < |start| && c.Tries(n - 1, r) && c.net(n - 1).fate.Answered?
    requires c.Result(start[r], r, n - 1).Delivered? && !c.Result(start[r], r, n - 1).how.AlreadyDelivered?
    ensures AcceptedOn(c, start, n, c.Turn(n - 1))
  {
    hide Handle, Run, Call.Turn;
    assert AcceptedBy(c, start, n - 1, c.Turn(n - 1));
  }

  // ---------------------------------------------------------------- failing over

  /** A relay that does not know the device refuses whatever else it posts, and the call ends there:
      that refusal is not worth retrying. */
  lemma UnknownDeviceEndsCall(c: Call, start: World, relay: nat, k: nat, signed: Signed)
    requires relay < |start| && c.Tries(k, relay) && c.net(k).fate.Answered?
    requires !c.path.Devices? && |c.body| <= MAX_BODY_LEN && c.w.decode(c.body) == Some(signed)
    requires DeviceOf(Run(c.w, c.Ready(start[relay], relay, k)), signed.kid).None?
    ensures c.Result(start[relay], relay, k) == Failed(ClientError.Refused(UnknownDevice)) && c.Ends(start, k)
  {
    hide Call.Tries, DeviceOf, Run;
    UnknownRefused(c.w, Run(c.w, c.Ready(start[relay], relay, k)), c.PostAt(k), signed);
  }

  lemma UnknownRefused(w: Wire, h: History, post: Post, signed: Signed)
    requires !post.path.Devices? && |post.body| <= MAX_BODY_LEN && w.decode(post.body) == Some(signed)
    requires DeviceOf(h, signed.kid).None?
    ensures Handle(w, h, post) == (h, Reply.Refused(UnknownDevice))
  {
    hide DeviceOf;
  }
}
