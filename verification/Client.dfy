/** The retrying relay client (`crates/zbacs-relay-client/src/client.rs`) over a lossy network. */
module Client {
  import opened Bytes
  import opened Proto
  import opened RelaySpec
  import opened RelayRuns

  /** What the network does to one exchange. */
  datatype Fate = RequestLost | ReplyLost | ReplyGarbled | Answered

  /** What happens around one attempt: what each relay does before it, the relay's clock readings
      and queue ids while it handles the post, and the fate of the exchange. */
  datatype Turn = Turn(traffic: nat -> seq<Step>, verify: Time, take: Time, route: Time, ids: seq<bytes16>, fate: Fate)

  datatype Delivery = Queued(id: bytes16) | AlreadyDelivered
  datatype ClientError = Refused(code: ErrorCode) | Unreachable | BadResponse
  datatype Outcome = Delivered(how: Delivery) | Failed(error: ClientError)

  predicate Retryable(code: ErrorCode) {
    code == RateLimited || code == Internal
  }

  /** Every relay's life so far. */
  type World = seq<seq<Step>>

  function Busy(world: World, traffic: nat -> seq<Step>): (next: World)
    ensures |next| == |world|
    ensures forall i :: 0 <= i < |world| ==> next[i] == world[i] + traffic(i)
  {
    seq(|world|, i requires 0 <= i < |world| => world[i] + traffic(i))
  }

  function PostOf(path: Path, body: bytes, t: Turn): Post {
    Post(path, body, t.verify, t.take, t.route, t.ids)
  }

  /** How the client reads a relay's answer. */
  function Read(reply: Reply): Outcome {
    match reply
    case Accepted(id) => Delivered(Delivery.Queued(id))
    case Refused(Replayed) => Delivered(AlreadyDelivered)
    case Refused(code) => Failed(ClientError.Refused(code))
  }

  function Sent(reached: bool, post: Post): seq<Step> {
    if reached then [Step.Submit(post)] else []
  }

  /** What one exchange does to the relays, and how it reads. */
  ghost predicate Exchanged(w: Wire, world: World, next: World, relay: nat, path: Path, body: bytes, t: Turn,
                            out: Outcome)
    requires relay < |world|
  {
    && |next| == |world|
    && (forall i :: 0 <= i < |world| ==>
          next[i] == world[i] + t.traffic(i) + Sent(i == relay && t.fate != RequestLost, PostOf(path, body, t)))
    && match t.fate
       case RequestLost => out == Failed(Unreachable)
       case ReplyLost => out == Failed(Unreachable)
       case ReplyGarbled => out == Failed(BadResponse)
       case Answered => out == Read(Handle(w, Run(w, world[relay] + t.traffic(relay)), PostOf(path, body, t)).1)
  }

  /** `submit_once`. */
  method SubmitOnce(w: Wire, world: World, relay: nat, path: Path, body: bytes, t: Turn)
    returns (out: Outcome, next: World)
    requires relay < |world|
    ensures Exchanged(w, world, next, relay, path, body, t, out)
  {
    next := Busy(world, t.traffic);
    if t.fate.RequestLost? {
      return Failed(Unreachable), next;
    }
    var post := PostOf(path, body, t);
    var reply := Handle(w, Run(w, next[relay]), post).1;
    next := next[relay := next[relay] + [Step.Submit(post)]];
    match t.fate
    case ReplyLost => out := Failed(Unreachable);
    case ReplyGarbled => out := Failed(BadResponse);
    case Answered => out := Read(reply);
  }

  // ---------------------------------------------------------------- what one call does

  /** One call of `submit`: the same bytes, offered to each endpoint a few times. */
  datatype Call = Call(w: Wire, endpoints: seq<nat>, attempts: nat, path: Path, body: bytes, net: nat -> Turn) {

    /** Which endpoint attempt k is on. */
    function Turn(k: nat): nat {
      if attempts > 0 then k / attempts else |endpoints|
    }

    /** Attempt k goes to this relay. */
    predicate Tries(k: nat, relay: nat) {
      Turn(k) < |endpoints| && endpoints[Turn(k)] == relay
    }

    /** Every endpoint is one of so many relays. */
    predicate Within(relays: nat) {
      forall e :: e in endpoints ==> e < relays
    }

    lemma InRange(relays: nat, i: nat)
      requires Within(relays) && i < |endpoints|
      ensures endpoints[i] < relays
    {
      assert endpoints[i] in endpoints;
    }

    function PostAt(k: nat): Post {
      PostOf(path, body, net(k))
    }

    /** A relay's life after n attempts: its own traffic, and these bytes when an attempt reached it. */
    function Life(start: seq<Step>, relay: nat, n: nat): seq<Step> {
      if n == 0 then start
      else
        Life(start, relay, n - 1) + net(n - 1).traffic(relay)
        + Sent(Tries(n - 1, relay) && net(n - 1).fate != RequestLost, PostAt(n - 1))
    }

    /** What attempt k finds at a relay. */
    function Ready(start: seq<Step>, relay: nat, k: nat): seq<Step> {
      Life(start, relay, k) + net(k).traffic(relay)
    }

    function ReplyAt(start: seq<Step>, relay: nat, k: nat): Reply {
      Handle(w, Run(w, Ready(start, relay, k)), PostAt(k)).1
    }

    /** How the client reads attempt k at this relay. */
    function Result(start: seq<Step>, relay: nat, k: nat): Outcome {
      match net(k).fate
      case RequestLost => Failed(Unreachable)
      case ReplyLost => Failed(Unreachable)
      case ReplyGarbled => Failed(BadResponse)
      case Answered => Read(ReplyAt(start, relay, k))
    }

    /** Attempt k ends the call. */
    predicate Ends(start: World, k: nat) {
      exists r :: 0 <= r < |start| && Tries(k, r) && Final(Result(start[r], r, k))
    }
  }

  predicate Final(o: Outcome) {
    o.Delivered? || (o.error.Refused? && !Retryable(o.error.code))
  }

  lemma Whole(i: nat, attempt: nat, attempts: nat)
    requires attempt < attempts
    ensures (i * attempts + attempt) / attempts == i
  {
    var k := i * attempts + attempt;
    Quotients(k / attempts, i, attempts, k % attempts, attempt);
  }

  lemma Quotients(p: nat, q: nat, m: nat, a: nat, b: nat)
    requires a < m && b < m && p * m + a == q * m + b
    ensures p == q
  {
    Multiples(p, q, m);
    Multiples(q, p, m);
  }

  lemma Multiples(p: nat, q: nat, m: nat)
    ensures p < q ==> p * m + m <= q * m
  {
    if p < q {
      Distribute(p, q - p - 1, m);
    }
  }

  lemma Distribute(p: nat, d: nat, m: nat)
    ensures (p + 1 + d) * m == p * m + m + d * m && d * m >= 0
  {
  }

  /** `submit`: the same bytes to each endpoint in turn, a few times each, until an attempt ends it.
      Every relay's life is its own traffic and these bytes, once for each attempt that reached it;
      the last attempt, and no earlier one, is a success or a refusal that retrying cannot change,
      or else every attempt was spent. Success means, on every path, that the relay that answered has
      taken their nonce. That the bytes were delivered before means that a step before the last attempt
      took it; that they were queued means, on a path that queues one message, that the relay put a copy in
      an inbox, and for a revocation that it put one in exactly the inboxes of the devices that asked
      about the file within a day. */
  method Submit(c: Call, start: World) returns (out: Outcome, world: World, used: nat)
    requires c.Within(|start|)
    ensures Lived(c, start, world, used) && used <= Offset(c, |c.endpoints|) && EndsWith(c, start, used, out)
    ensures out.Delivered? ==> NonceKept(c, start, used)
    ensures out == Delivered(AlreadyDelivered) ==> TakenBefore(c, start, used)
    ensures out.Delivered? && out.how.Queued? && QueuesOne(c.path) ==> CopyMade(c, start, used)
    ensures out.Delivered? && out.how.Queued? && c.path.Revocations? ==> RevokeCopied(c, start, used)
  {
    hide *;
    world, used := start, 0;
    StartsLived(c, start);
    for i := 0 to |c.endpoints|
      invariant |world| == |start| && used == Offset(c, i) && Lived(c, start, world, used) && NoneEnds(c, start, used)
    {
      var relay := c.endpoints[i];
      c.InRange(|start|, i);
      for attempt := 0 to c.attempts
        invariant used == Offset(c, i) + attempt
        invariant |world| == |start| && Lived(c, start, world, used) && NoneEnds(c, start, used)
      {
        Turns(c, i, attempt);
        ghost var before := world;
        out, world := SubmitOnce(c.w, world, relay, c.path, c.body, c.net(used));
        LivedMore(c, start, before, world, relay, used, out);
        used := used + 1;
        if out.Delivered? {
          DeliveredHere(c, start, relay, used, out);
          return;
        }
        if out.error.Refused? && !Retryable(out.error.code) {
          RefusedHere(c, start, relay, used, out);
          return;
        }
        TryAgain(c, start, relay, used, out);
      }
      Turns(c, i, c.attempts);
    }
    AllSpent(c, start, used);
    out := Failed(Unreachable);
  }

  /** What ends a call: a success, or a refusal other than for rate or for an internal error. */
  lemma FinalExactly(out: Outcome)
    ensures Final(out) <==>
            || out.Delivered?
            || (out.error.Refused? && out.error.code in {Unauthenticated, UnknownDevice, Stale, Replayed, Malformed,
                                                         TooLarge, NotFound})
  {
  }

  /** An attempt that was rate-limited, met an internal error, or got no answer that could be read is followed by
      another, as long as any is left; after any other refusal there is none. */
  lemma GoesOnExactly(c: Call, start: World, n: nat, out: Outcome, k: nat, relay: nat)
    requires EndsWith(c, start, n, out) && k < n && n <= Offset(c, |c.endpoints|)
    requires relay < |start| && c.Tries(k, relay) && k + 1 < Offset(c, |c.endpoints|)
    ensures var r := c.Result(start[relay], relay, k);
            k + 1 < n <==> r.Failed? && (r.error in {Unreachable, BadResponse, ClientError.Refused(RateLimited),
                                                     ClientError.Refused(Internal)})
  {
    hide Call.Result, Call.Tries;
    var r := c.Result(start[relay], relay, k);
    FinalExactly(r);
    SameRelay(c, start, k, relay);
  }

  lemma SameRelay(c: Call, start: World, k: nat, relay: nat)
    requires relay < |start| && c.Tries(k, relay)
    ensures c.Ends(start, k) <==> Final(c.Result(start[relay], relay, k))
  {
    hide Call.Result;
  }

  /** How many attempts come before those on endpoint i. */
  function Offset(c: Call, i: nat): nat {
    i * c.attempts
  }

  lemma Turns(c: Call, i: nat, attempt: nat)
    requires i < |c.endpoints| && attempt <= c.attempts
    ensures attempt < c.attempts ==> c.Tries(Offset(c, i) + attempt, c.endpoints[i])
    ensures attempt < c.attempts ==> Offset(c, i) + attempt + 1 <= Offset(c, |c.endpoints|)
    ensures Offset(c, i + 1) == Offset(c, i) + c.attempts
  {
    assert (i + 1) * c.attempts == i * c.attempts + c.attempts;
    if attempt < c.attempts {
      Whole(i, attempt, c.attempts);
      Spent(i, attempt, |c.endpoints|, c.attempts);
    }
  }

  lemma EndedHere(c: Call, start: World, relay: nat, n: nat, out: Outcome)
    requires n > 0 && NoneEnds(c, start, n - 1) && relay < |start| && c.Tries(n - 1, relay)
    requires out == c.Result(start[relay], relay, n - 1) && Final(out)
    ensures EndsWith(c, start, n, out)
  {
    hide Call.Result, Call.Tries;
  }

  lemma DeliveredHere(c: Call, start: World, relay: nat, n: nat, out: Outcome)
    requires n > 0 && NoneEnds(c, start, n - 1) && relay < |start| && c.Tries(n - 1, relay)
    requires out == c.Result(start[relay], relay, n - 1) && out.Delivered?
    ensures EndsWith(c, start, n, out) && NonceKept(c, start, n)
    ensures out == Delivered(AlreadyDelivered) ==> TakenBefore(c, start, n)
    ensures out.how.Queued? && QueuesOne(c.path) ==> CopyMade(c, start, n)
    ensures out.how.Queued? && c.path.Revocations? ==> RevokeCopied(c, start, n)
  {
    hide *;
    EndedHere(c, start, relay, n, out) by {
      FinalDelivered(out);
    }
    DeliveredMeans(c, start, relay, n - 1);
    RevokedMeans(c, start, relay, n - 1);
  }

  lemma FinalDelivered(out: Outcome)
    requires out.Delivered?
    ensures Final(out)
  {
  }

  lemma RefusedHere(c: Call, start: World, relay: nat, n: nat, out: Outcome)
    requires n > 0 && NoneEnds(c, start, n - 1) && relay < |start| && c.Tries(n - 1, relay)
    requires out == c.Result(start[relay], relay, n - 1)
    requires out.Failed? && out.error.Refused? && !Retryable(out.error.code)
    ensures EndsWith(c, start, n, out)
  {
    hide Call.Result, Call.Tries;
    EndedHere(c, start, relay, n, out);
  }

  lemma TryAgain(c: Call, start: World, relay: nat, n: nat, out: Outcome)
    requires n > 0 && NoneEnds(c, start, n - 1) && (c.Ends(start, n - 1) <==> Final(out))
    requires out.Failed? && !(out.error.Refused? && !Retryable(out.error.code))
    ensures NoneEnds(c, start, n)
  {
    hide Call.Ends;
    NoneEndsMore(c, start, n - 1);
  }

  lemma AllSpent(c: Call, start: World, n: nat)
    requires NoneEnds(c, start, n) && n == Offset(c, |c.endpoints|)
    ensures EndsWith(c, start, n, Failed(Unreachable))
  {
    hide Call.Ends;
    if n > 0 {
      assert !c.Ends(start, n - 1);
    }
  }

  /** Every relay has lived through the first n attempts. */
  ghost predicate Lived(c: Call, start: World, world: World, n: nat) {
    |world| == |start| && forall i :: 0 <= i < |start| ==> world[i] == c.Life(start[i], i, n)
  }

  ghost predicate NoneEnds(c: Call, start: World, n: nat) {
    forall k :: 0 <= k < n ==> !c.Ends(start, k)
  }

  /** The last of n attempts, and no earlier one, ended the call with this outcome; or all were spent. */
  ghost predicate EndsWith(c: Call, start: World, n: nat, out: Outcome) {
    && NoneEnds(c, start, if n > 0 then n - 1 else 0)
    && if n > 0 && c.Ends(start, n - 1) then
         exists r :: 0 <= r < |start| && c.Tries(n - 1, r) && out == c.Result(start[r], r, n - 1) && Final(out)
       else n == Offset(c, |c.endpoints|) && out == Failed(Unreachable)
  }

  lemma StartsLived(c: Call, start: World)
    ensures Lived(c, start, start, 0) && NoneEnds(c, start, 0) && Offset(c, 0) == 0
  {
  }

  lemma NoneEndsMore(c: Call, start: World, n: nat)
    requires NoneEnds(c, start, n) && !c.Ends(start, n)
    ensures NoneEnds(c, start, n + 1)
  {
  }

  /** What one more exchange adds to the lives, and whether it ends the call. */
  lemma LivedMore(c: Call, start: World, world: World, next: World, relay: nat, k: nat, out: Outcome)
    requires Lived(c, start, world, k) && relay < |start| == |world| && c.Tries(k, relay)
    requires Exchanged(c.w, world, next, relay, c.path, c.body, c.net(k), out)
    ensures Lived(c, start, next, k + 1)
    ensures out == c.Result(start[relay], relay, k) && (c.Ends(start, k) <==> Final(out))
  {
    hide Handle, Run;
  }

  lemma Spent(i: nat, attempt: nat, endpoints: nat, attempts: nat)
    requires i < endpoints && attempt < attempts
    ensures i * attempts + attempt + 1 <= endpoints * attempts
  {
    assert endpoints * attempts == (endpoints - i - 1) * attempts + i * attempts + attempts;
  }

  lemma RunSnoc(w: Wire, steps: seq<Step>, step: Step)
    ensures Run(w, steps + [step]) == Apply(w, Run(w, steps), step)
  {
    assert (steps + [step])[..|steps|] == steps;
  }

  lemma AdmittedTaken(w: Wire, h: History, post: Post)
    requires Admitted(w, h, post).1.Ok? || Admitted(w, h, post).1 == Err(Replayed)
    ensures w.decode(post.body).Some?
    ensures LastTaken(Admitted(w, h, post).0, w.decode(post.body).value.nonce).Some?
    ensures Admitted(w, h, post).1.Ok? ==>
              LastTaken(Admitted(w, h, post).0, w.decode(post.body).value.nonce) == Some(post.take)
  {
    var head := AdmitTail(w, h, post);
    if |head| == 2 {
      assert Before(h + head) == h + [head[0]];
    }
  }

  lemma HandleKeepsTaken(w: Wire, h: History, post: Post, nonce: MsgNonce)
    ensures LastTaken(Handle(w, h, post).0, nonce) == LastTaken(Admitted(w, h, post).0, nonce)
  {
    var (h', r) := Admitted(w, h, post);
    if r.Ok? {
      var tail := DispatchTail(w, h', r.value.0, r.value.1, post);
      RoutingKeepsTaken(h', tail, post, nonce, 0);
    }
  }

  /** Only an admitted post is accepted, and only a taken nonce is called replayed. */
  lemma SuccessAdmitted(w: Wire, h: History, post: Post)
    requires Read(Handle(w, h, post).1).Delivered?
    ensures Admitted(w, h, post).1.Ok? || Admitted(w, h, post).1 == Err(Replayed)
  {
  }

  /** Step j of a relay's life was admitted and took this nonce. */
  ghost predicate TookAt(w: Wire, steps: seq<Step>, j: nat, nonce: MsgNonce) {
    && j < |steps| && steps[j].Submit?
    && Admitted(w, Run(w, steps[..j]), steps[j].post).1.Ok?
    && w.decode(steps[j].post.body).Some? && w.decode(steps[j].post.body).value.nonce == nonce
  }

  lemma HandleTakes(w: Wire, h: History, post: Post, nonce: MsgNonce)
    ensures LastTaken(Handle(w, h, post).0, nonce).Some? <==>
            || LastTaken(h, nonce).Some?
            || (Admitted(w, h, post).1.Ok? && w.decode(post.body).Some? && w.decode(post.body).value.nonce == nonce)
  {
    hide Admitted;
    HandleKeepsTaken(w, h, post, nonce);
    var head := AdmitTail(w, h, post);
    if |head| == 2 {
      assert Before(h + head) == h + [head[0]] && Before(h + [head[0]]) == h;
    } else if |head| == 1 {
      assert Before(h + head) == h;
    } else {
      assert h + head == h;
    }
  }

  /** A nonce has been taken exactly if some step of the relay's life was admitted with it. */
  lemma {:induction false} TakenByStep(w: Wire, steps: seq<Step>, nonce: MsgNonce)
    ensures LastTaken(Run(w, steps), nonce).Some? <==> Took(w, steps, nonce)
  {
    if steps == [] {
    } else {
      hide Run, Took, LastTaken, Handle, Admitted;
      var n := |steps| - 1;
      var before := steps[..n];
      TakenByStep(w, before, nonce);
      TookLast(w, steps, nonce);
      RunSnoc(w, before, steps[n]);
      assert before + [steps[n]] == steps;
      match steps[n]
      case Fetch(inbox, at) =>
        FetchKeepsTaken(Run(w, before), inbox, at, nonce);
      case Submit(post) =>
        HandleTakes(w, Run(w, before), post, nonce);
    }
  }

  ghost predicate Took(w: Wire, steps: seq<Step>, nonce: MsgNonce) {
    exists j :: TookAt(w, steps, j, nonce)
  }

  lemma TookLast(w: Wire, steps: seq<Step>, nonce: MsgNonce)
    requires steps != []
    ensures Took(w, steps, nonce) <==>
            Took(w, steps[..|steps| - 1], nonce) || TookAt(w, steps, |steps| - 1, nonce)
  {
    hide Run, Admitted;
    var n := |steps| - 1;
    TookLonger(w, steps, nonce);
    if j: nat :| TookAt(w, steps, j, nonce) {
      assert j < n ==> TookAt(w, steps[..n], j, nonce);
    }
    if j: nat :| TookAt(w, steps[..n], j, nonce) {
      assert TookAt(w, steps, j, nonce);
    }
  }

  lemma FetchKeepsTaken(h: History, inbox: Inbox, at: Time, nonce: MsgNonce)
    ensures LastTaken(h + [Drained(inbox, at)], nonce) == LastTaken(h, nonce)
  {
    assert Before(h + [Drained(inbox, at)]) == h;
  }

  lemma TookLonger(w: Wire, steps: seq<Step>, nonce: MsgNonce)
    requires steps != []
    ensures forall j :: 0 <= j < |steps| - 1 ==>
              (TookAt(w, steps, j, nonce) <==> TookAt(w, steps[..|steps| - 1], j, nonce))
  {
    hide Handle, Admitted, Run;
    assert forall j :: 0 <= j < |steps| - 1 ==> steps[..|steps| - 1][..j] == steps[..j];
  }

  /** An answer read as already delivered means that a step before it took the nonce. */
  lemma ReplayedTook(w: Wire, steps: seq<Step>, post: Post)
    requires Read(Handle(w, Run(w, steps), post).1) == Delivered(AlreadyDelivered)
    ensures w.decode(post.body).Some?
    ensures Took(w, steps, w.decode(post.body).value.nonce)
  {
    var h := Run(w, steps);
    ReplayedAdmitted(w, h, post);
    var head := AdmitTail(w, h, post);
    TakenByStep(w, steps, w.decode(post.body).value.nonce);
  }

  lemma ReplayedAdmitted(w: Wire, h: History, post: Post)
    requires Read(Handle(w, h, post).1) == Delivered(AlreadyDelivered)
    ensures Admitted(w, h, post).1 == Err(Replayed) && w.decode(post.body).Some?
    ensures LastTaken(h, w.decode(post.body).value.nonce).Some?
  {
    hide Admitted, Dispatch, LastTaken;
    var (h', r) := Admitted(w, h, post);
    if r.Ok? {
      NeverRoutedAsReplay(w, h', r.value.0, r.value.1, post);
    }
    AdmittedTaken(w, h, post);
    var head := AdmitTail(w, h, post);
    CallKeepsTaken(h, head, w.decode(post.body).value.nonce);
  }

  lemma CallKeepsTaken(h: History, head: seq<Event>, nonce: MsgNonce)
    requires |head| <= 2 && (head != [] ==> head[0].Called?)
    ensures |head| < 2 ==> LastTaken(h + head, nonce) == LastTaken(h, nonce)
  {
    if |head| == 1 {
      assert Before(h + head) == h;
    } else if |head| == 0 {
      assert h + head == h;
    }
  }

  lemma NeverRoutedAsReplay(w: Wire, h: History, signed: Signed, payload: Payload, post: Post)
    requires OfKind(KindOf(post.path), payload)
    ensures Dispatch(w, h, signed, payload, post).1 != Reply.Refused(Replayed)
  {
  }

  // ---------------------------------------------------------------- what success means

  lemma PutCounts(h: History, inbox: Inbox, post: Post)
    ensures CountPut(PutOne(h, inbox, post, 0), inbox, post.body) == CountPut(h, inbox, post.body) + 1
  {
    assert Before(PutOne(h, inbox, post, 0)) == h;
  }

  lemma {:induction false} OtherEventsCount(h: History, others: seq<Event>, inbox: Inbox, body: bytes)
    requires forall e :: e in others ==> !e.Put?
    ensures CountPut(h + others, inbox, body) == CountPut(h, inbox, body)
  {
    if others == [] {
      assert h + others == h;
    } else {
      var n := |others| - 1;
      OtherEventsCount(h, others[..n], inbox, body);
      assert Before(h + others) == h + others[..n] && Last(h + others) == others[n];
      assert others[n] in others;
    }
  }

  /** Apart from announcements and revocations, routing queues one copy or refuses and queues none. */
  lemma DispatchOne(w: Wire, h: History, signed: Signed, payload: Payload, post: Post)
    returns (inbox: Inbox, others: seq<Event>)
    requires OfKind(KindOf(post.path), payload) && !payload.AnnounceMsg? && !payload.RevokeMsg?
    ensures forall e :: e in others ==> !e.Put? && !e.Registered?
    ensures var (h', reply) := Dispatch(w, h, signed, payload, post);
            if reply.Accepted? then h' == PutOne(h + others, inbox, post, 0) else h' == h
  {
    inbox, others := Owner([]), [];
    match payload
    case RequestMsg(_, _, owner, fid, nonce) =>
      inbox, others := Owner(owner), [Routed(nonce, signed.kid, post.route)] + [Asked(fid, signed.kid, post.route)];
      assert h + others == h + [Routed(nonce, signed.kid, post.route)] + [Asked(fid, signed.kid, post.route)];
    case GrantMsg(request) =>
      var route := RouteFor(h, request, post.route);
      if route.Some? {
        inbox := Device(route.value);
      }
      assert h + others == h;
    case VersionMsg(_, owner) =>
      inbox := Owner(owner);
      assert h + others == h;
  }

  predicate QueuesOne(path: Path) {
    path.Requests? || path.Grants? || path.Versions?
  }

  /** What routing checks after the nonce was taken, by what can be known before: the message is about
      the device that signed it and names an owner, or it answers a request under a day old. */
  ghost predicate Routable(w: Wire, h: History, signed: Signed, payload: Payload, post: Post) {
    match payload
    case AnnounceMsg(_, _, _) => true
    case RevokeMsg(_) => true
    case RequestMsg(kid, ed, owner, _, _) => kid == signed.kid && w.kidOf(ed) == signed.kid && OwnerOk(owner)
    case VersionMsg(ed, owner) => w.kidOf(ed) == signed.kid && OwnerOk(owner)
    case GrantMsg(request) => exists i: nat :: LatestRequest(h, request, i) && post.route - h[i].at < QUEUE_TTL
  }

  lemma AcceptsRoutable(w: Wire, h: History, signed: Signed, payload: Payload, post: Post)
    requires OfKind(KindOf(post.path), payload)
    ensures Dispatch(w, h, signed, payload, post).1.Accepted? <==> Routable(w, h, signed, payload, post)
  {
    if payload.GrantMsg? {
      var n := payload.requestNonce;
      var i := LastRouteIsLatest(h, n);
      if LastRoute(h, n).Some? {
        OneLatestRequest(h, n, i);
        assert RouteFor(h, n, post.route).Some? <==> post.route - h[i].at < QUEUE_TTL;
      } else {
        assert forall j: nat :: !LatestRequest(h, n, j);
      }
    }
  }

  lemma OneLatestRequest(h: History, request: MsgNonce, i: nat)
    requires LatestRequest(h, request, i)
    ensures forall j: nat :: LatestRequest(h, request, j) ==> j == i
  {
  }

  /** Admission changes nothing that routing looks at. */
  lemma RoutableBefore(w: Wire, h: History, head: seq<Event>, signed: Signed, payload: Payload, post: Post)
    requires forall i :: 0 <= i < |head| ==> !head[i].Routed?
    ensures Routable(w, h + head, signed, payload, post) <==> Routable(w, h, signed, payload, post)
  {
    if payload.GrantMsg? {
      var n := payload.requestNonce;
      assert forall j :: 0 <= j < |h| ==> (h + head)[j] == h[j];
      assert forall j :: |h| <= j < |h + head| ==> (h + head)[j] == head[j - |h|];
      assert forall i: nat :: LatestRequest(h + head, n, i) <==> LatestRequest(h, n, i);
    }
  }

  /** On a path that queues one message an admitted post is accepted, and one copy queued, exactly if
      it can be routed; otherwise it is refused after its nonce was taken and queues nothing. */
  lemma QueuedExactly(w: Wire, h: History, post: Post) returns (inbox: Inbox)
    requires QueuesOne(post.path) && Admitted(w, h, post).1.Ok?
    ensures var (signed, payload) := Admitted(w, h, post).1.value;
            var (h', reply) := Handle(w, h, post);
            && (reply.Accepted? <==> Routable(w, h, signed, payload, post))
            && (if reply.Accepted? then CountPut(h', inbox, post.body) == CountPut(h, inbox, post.body) + 1
                else forall i :: CountPut(h', i, post.body) == CountPut(h, i, post.body))
  {
    hide CountPut, Dispatch, Admitted, PutOne, Routable;
    var (mid, r) := Admitted(w, h, post);
    var head := AdmitTail(w, h, post);
    AcceptsRoutable(w, mid, r.value.0, r.value.1, post);
    RoutableBefore(w, h, head, r.value.0, r.value.1, post);
    var others;
    inbox, others := DispatchOne(w, mid, r.value.0, r.value.1, post);
    OtherEventsCount(mid, others, inbox, post.body);
    PutCounts(mid + others, inbox, post);
    forall i
      ensures CountPut(mid, i, post.body) == CountPut(h, i, post.body)
    {
      HeadCounts(w, h, head, post, i, post.body);
    }
  }

  /** When the reply to an admitted post is lost, a retry with the same bytes while the nonce is
      remembered is answered as a replay and queues nothing. So it reads as delivered although nothing
      was queued exactly if the first post could not be routed. */
  lemma DeliveredUnqueuedExactly(w: Wire, h: History, post: Post, again: Post)
    requires QueuesOne(post.path) && Admitted(w, h, post).1.Ok?
    requires again.path == post.path && again.body == post.body && again.take - post.take < NONCE_MEMORY
    requires var r := Admitted(w, Handle(w, h, post).0, again).1; r.Ok? || r == Err(Replayed)
    ensures var (signed, payload) := Admitted(w, h, post).1.value;
            var (h', reply) := Handle(w, Handle(w, h, post).0, again);
            && Read(reply) == Delivered(AlreadyDelivered)
            && ((forall i :: CountPut(h', i, post.body) == CountPut(h, i, post.body))
                <==> !Routable(w, h, signed, payload, post))
  {
    hide Admitted, Routable, CountPut;
    var inbox := QueuedExactly(w, h, post);
    RetryReadsAsDelivered(w, h, post, again);
  }

  lemma RetryReadsAsDelivered(w: Wire, h: History, post: Post, again: Post)
    requires Admitted(w, h, post).1.Ok? && again.path == post.path && again.body == post.body
    requires again.take - post.take < NONCE_MEMORY
    requires var r := Admitted(w, Handle(w, h, post).0, again).1; r.Ok? || r == Err(Replayed)
    ensures var h' := Handle(w, h, post).0;
            && Read(Handle(w, h', again).1) == Delivered(AlreadyDelivered)
            && forall i :: CountPut(Handle(w, h', again).0, i, post.body) == CountPut(h', i, post.body)
  {
    var h' := Handle(w, h, post).0;
    AdmittedTaken(w, h, post);
    var nonce := w.decode(post.body).value.nonce;
    HandleKeepsTaken(w, h, post, nonce);
    var head := AdmitTail(w, h', again);
    if head != [] {
      assert Before(h' + [head[0]]) == h';
      assert LastTaken(h' + [head[0]], nonce) == LastTaken(h', nonce);
    }
    forall i
      ensures CountPut(h' + head, i, post.body) == CountPut(h', i, post.body)
    {
      HeadCounts(w, h', head, again, i, post.body);
    }
  }

  /** A step before attempt n - 1 took the nonce at the relay that answered it. */
  ghost predicate TakenBefore(c: Call, start: World, n: nat) {
    && n > 0 && c.w.decode(c.body).Some?
    && exists r :: 0 <= r < |start| && c.Tries(n - 1, r)
                   && Took(c.w, c.Ready(start[r], r, n - 1), c.w.decode(c.body).value.nonce)
  }

  /** Attempt n - 1 put a copy in an inbox of the relay that answered it. */
  ghost predicate CopyMade(c: Call, start: World, n: nat) {
    && n > 0
    && exists r, inbox :: 0 <= r < |start| && c.Tries(n - 1, r)
         && CountPut(Run(c.w, c.Life(start[r], r, n)), inbox, c.body)
            == CountPut(Run(c.w, c.Ready(start[r], r, n - 1)), inbox, c.body) + 1
  }

  /** The relay that answered attempt n - 1 has taken the nonce. */
  ghost predicate NonceKept(c: Call, start: World, n: nat) {
    && n > 0 && c.w.decode(c.body).Some?
    && exists r :: 0 <= r < |start| && c.Tries(n - 1, r)
                   && LastTaken(Run(c.w, c.Life(start[r], r, n)), c.w.decode(c.body).value.nonce).Some?
  }

  /** Attempt n - 1 put one copy in each inbox of a device whose latest ask about the revoked file was under
      a day old, and in no other inbox, at the relay that answered it. */
  ghost predicate RevokeCopied(c: Call, start: World, n: nat) {
    && n > 0 && c.w.decode(c.body).Some?
    && exists r, fid :: 0 <= r < |start| && c.Tries(n - 1, r)
         && c.w.PayloadOf(Revoke, c.w.decode(c.body).value.payload) == Some(RevokeMsg(fid))
         && CopiesTheAskers(Run(c.w, c.Ready(start[r], r, n - 1)), Run(c.w, c.Life(start[r], r, n)), fid,
                            c.net(n - 1).route, c.body)
  }

  /** What a revocation of this file adds to a history. */
  ghost predicate CopiesTheAskers(h: History, h': History, fid: FileId, now: Time, body: bytes) {
    forall inbox ::
      CountPut(h', inbox, body) == CountPut(h, inbox, body) + if AskedLately(h, fid, inbox, now) then 1 else 0
  }

  ghost predicate AskedLately(h: History, fid: FileId, inbox: Inbox, now: Time) {
    inbox.Device? && LatestAsk(h, fid, inbox.kid).Some? && now - LatestAsk(h, fid, inbox.kid).value < QUEUE_TTL
  }

  /** An accepted revocation copies the askers. */
  lemma RevokeAccepted(w: Wire, h: History, post: Post) returns (fid: FileId)
    requires post.path.Revocations? && Handle(w, h, post).1.Accepted?
    ensures w.decode(post.body).Some?
    ensures w.PayloadOf(Revoke, w.decode(post.body).value.payload) == Some(RevokeMsg(fid))
    ensures CopiesTheAskers(h, Handle(w, h, post).0, fid, post.route, post.body)
  {
    hide CountPut, Dispatch, LatestAsk, Admitted;
    var (mid, r) := Admitted(w, h, post);
    var head := AdmitTail(w, h, post);
    AdmittedPayload(w, h, post);
    fid := r.value.1.fid;
    forall inbox
      ensures CountPut(Handle(w, h, post).0, inbox, post.body)
           == CountPut(h, inbox, post.body) + if AskedLately(h, fid, inbox, post.route) then 1 else 0
    {
      RevokeReachesExactly(w, mid, r.value.0, fid, post, inbox);
      HeadCounts(w, h, head, post, inbox, post.body);
      if inbox.Device? {
        HeadKeepsAsk(h, head, fid, inbox.kid);
      }
    }
  }

  lemma AdmittedPayload(w: Wire, h: History, post: Post)
    requires Admitted(w, h, post).1.Ok?
    ensures w.decode(post.body) == Some(Admitted(w, h, post).1.value.0)
    ensures w.PayloadOf(KindOf(post.path), w.decode(post.body).value.payload) == Some(Admitted(w, h, post).1.value.1)
  {
  }

  lemma {:induction false} HeadKeepsAsk(h: History, head: seq<Event>, fid: FileId, kid: Kid)
    requires forall e :: e in head ==> !e.Asked?
    ensures LatestAsk(h + head, fid, kid) == LatestAsk(h, fid, kid)
  {
    if head == [] {
      assert h + head == h;
    } else {
      var n := |head| - 1;
      HeadKeepsAsk(h, head[..n], fid, kid);
      assert Before(h + head) == h + head[..n] && Last(h + head) == head[n];
      assert head[n] in head;
    }
  }

  lemma RevokedMeans(c: Call, start: World, relay: nat, k: nat)
    requires relay < |start| && c.Tries(k, relay) && c.Result(start[relay], relay, k).Delivered?
    ensures c.Result(start[relay], relay, k).how.Queued? && c.path.Revocations? ==> RevokeCopied(c, start, k + 1)
  {
    hide Run, Handle, CopiesTheAskers, Call.Tries, Wire.PayloadOf;
    var steps, post := c.Ready(start[relay], relay, k), c.PostAt(k);
    if c.Result(start[relay], relay, k) != Delivered(AlreadyDelivered) && c.path.Revocations? {
      var fid := RevokeAccepted(c.w, Run(c.w, steps), post);
      RunSnoc(c.w, steps, Step.Submit(post));
      assert c.Life(start[relay], relay, k + 1) == steps + [Step.Submit(post)];
    }
  }

  /** Whatever reads as success leaves the nonce taken. */
  lemma SuccessKeepsNonce(w: Wire, h: History, post: Post)
    requires Read(Handle(w, h, post).1).Delivered?
    ensures w.decode(post.body).Some? && LastTaken(Handle(w, h, post).0, w.decode(post.body).value.nonce).Some?
  {
    hide Admitted, Handle, LastTaken;
    SuccessAdmitted(w, h, post);
    AdmittedTaken(w, h, post);
    HandleKeepsTaken(w, h, post, w.decode(post.body).value.nonce);
  }

  lemma DeliveredMeans(c: Call, start: World, relay: nat, k: nat)
    requires relay < |start| && c.Tries(k, relay) && c.Result(start[relay], relay, k).Delivered?
    ensures NonceKept(c, start, k + 1)
    ensures c.Result(start[relay], relay, k) == Delivered(AlreadyDelivered) ==> TakenBefore(c, start, k + 1)
    ensures c.Result(start[relay], relay, k).how.Queued? && QueuesOne(c.path) ==> CopyMade(c, start, k + 1)
  {
    hide Run, Handle, Took, CountPut, Call.Tries, Admitted, LastTaken;
    var steps, post := c.Ready(start[relay], relay, k), c.PostAt(k);
    SuccessKeepsNonce(c.w, Run(c.w, steps), post);
    RunSnoc(c.w, steps, Step.Submit(post));
    assert c.Life(start[relay], relay, k + 1) == steps + [Step.Submit(post)];
    if c.Result(start[relay], relay, k) == Delivered(AlreadyDelivered) {
      ReplayedTook(c.w, steps, post);
    } else if QueuesOne(c.path) {
      SuccessAdmitted(c.w, Run(c.w, steps), post);
      ReplayedUnread(c.w, Run(c.w, steps), post);
      var inbox := QueuedExactly(c.w, Run(c.w, steps), post);
    }
  }

  lemma ReplayedUnread(w: Wire, h: History, post: Post)
    ensures Admitted(w, h, post).1 == Err(Replayed) ==> Handle(w, h, post).1 == Reply.Refused(Replayed)
  {
    hide Admitted;
  }
}
