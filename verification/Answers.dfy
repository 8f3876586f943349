/** What a request leads to at the relay, from the bytes that were posted to the bytes that are fetched: whose
    inbox it lands in, where its answer goes, and whom a revocation reaches (`apps/relay/src/routes.rs`). Every
    statement is about whole lives of the relay and the messages in them. */
module Answers {
  import opened Bytes
  import opened Proto
  import opened RelaySpec
  import opened RelayRuns
  import Client
  import Failover

  // ---------------------------------------------------------------- what a message says

  /** Who signed these bytes, as far as the envelope says. */
  function SenderOf(w: Wire, body: bytes): Option<Kid> {
    match w.decode(body)
    case None => None
    case Some(s) => Some(s.kid)
  }

  /** What these bytes say, if they are a message of this kind. */
  function Says(w: Wire, kind: Kind, body: bytes): Option<Payload> {
    match w.decode(body)
    case None => None
    case Some(s) => if s.kind == kind then w.decodePayload(s.payload) else None
  }

  /** Step j is a request that the relay accepted. */
  ghost predicate AcceptedRequest(w: Wire, steps: seq<Step>, j: nat) {
    && j < |steps| && steps[j].Submit? && steps[j].post.path == Requests
    && Handle(w, Run(w, steps[..j]), steps[j].post).1.Accepted?
  }

  /** Step j is an accepted request of this device, and its message carries this nonce. */
  ghost predicate AsksWith(w: Wire, steps: seq<Step>, j: nat, kid: Kid, nonce: MsgNonce) {
    && AcceptedRequest(w, steps, j) && SenderOf(w, steps[j].post.body) == Some(kid)
    && match Says(w, Req, steps[j].post.body)
       case Some(RequestMsg(_, _, _, _, n)) => n == nonce
       case _ => false
  }

  /** Step j is an accepted request of this device about this file. */
  ghost predicate AsksAbout(w: Wire, steps: seq<Step>, j: nat, kid: Kid, fid: FileId) {
    && AcceptedRequest(w, steps, j) && SenderOf(w, steps[j].post.body) == Some(kid)
    && match Says(w, Req, steps[j].post.body)
       case Some(RequestMsg(_, _, _, f, _)) => f == fid
       case _ => false
  }

  /** Somebody asked with this nonce. */
  ghost predicate AnyAskWith(w: Wire, steps: seq<Step>, nonce: MsgNonce) {
    exists i, kid :: AsksWith(w, steps, i, kid, nonce)
  }

  /** This device asked about this file. */
  ghost predicate AnyAskAbout(w: Wire, steps: seq<Step>, kid: Kid, fid: FileId) {
    exists i :: AsksAbout(w, steps, i, kid, fid)
  }

  /** The last step that asked with this nonce, whoever asked. */
  ghost predicate LastAskWith(w: Wire, steps: seq<Step>, j: nat, kid: Kid, nonce: MsgNonce) {
    AsksWith(w, steps, j, kid, nonce) && forall i, k :: j < i ==> !AsksWith(w, steps, i, k, nonce)
  }

  /** The last step in which this device asked about this file. */
  ghost predicate LastAskAbout(w: Wire, steps: seq<Step>, j: nat, kid: Kid, fid: FileId) {
    AsksAbout(w, steps, j, kid, fid) && forall i :: j < i ==> !AsksAbout(w, steps, i, kid, fid)
  }

  // ---------------------------------------------------------------- what one handler appends

  /** What an accepted request appends: its route under the nonce in the message, the interest in its file,
      and one copy for the owner it names. */
  function RequestEvents(kid: Kid, p: Payload, post: Post): seq<Event>
    requires p.RequestMsg?
  {
    [Routed(p.nonce, kid, post.route), Asked(p.fid, kid, post.route),
     Put(Owner(p.owner), Envelope(Id(post.ids, 0), Req, post.body, Unix(post.route)), post.route)]
  }

  ghost predicate QuietEvent(e: Event) {
    !e.Routed? && !e.Asked?
  }

  lemma DispatchEvents(w: Wire, h: History, signed: Signed, payload: Payload, post: Post) returns (tail: seq<Event>)
    requires OfKind(KindOf(post.path), payload)
    ensures Dispatch(w, h, signed, payload, post).0 == h + tail
    ensures if payload.RequestMsg? && Dispatch(w, h, signed, payload, post).1.Accepted?
            then tail == RequestEvents(signed.kid, payload, post)
            else forall e :: e in tail ==> QuietEvent(e)
  {
    var h' := Dispatch(w, h, signed, payload, post).0;
    if payload.RevokeMsg? {
      var kids := Interested(h, payload.fid, post.route);
      tail := PutEachTail(h, kids, post);
    } else if payload.RequestMsg? && Dispatch(w, h, signed, payload, post).1.Accepted? {
      tail := RequestEvents(signed.kid, payload, post);
      assert h' == h + tail;
    } else {
      tail := h'[|h|..];
      assert h' == h + tail;
    }
  }

  /** What an admitted message says, and that its kind is the path's. */
  lemma AdmittedSays(w: Wire, h: History, post: Post)
    requires Admitted(w, h, post).1.Ok?
    ensures var (signed, payload) := Admitted(w, h, post).1.value;
            && w.decode(post.body) == Some(signed) && SenderOf(w, post.body) == Some(signed.kid)
            && Says(w, KindOf(post.path), post.body) == Some(payload)
  {
    hide DeviceOf, SigningBytes;
  }

  /** A handler appends the events of a request exactly if it is a request that is accepted. */
  lemma HandleEvents(w: Wire, h: History, post: Post) returns (head: seq<Event>, tail: seq<Event>)
    ensures Handle(w, h, post).0 == h + head + tail
    ensures forall e :: e in head ==> QuietEvent(e)
    ensures if post.path == Requests && Handle(w, h, post).1.Accepted? then
              && SenderOf(w, post.body).Some?
              && Says(w, Req, post.body).Some? && Says(w, Req, post.body).value.RequestMsg?
              && tail == RequestEvents(SenderOf(w, post.body).value, Says(w, Req, post.body).value, post)
            else forall e :: e in tail ==> QuietEvent(e)
  {
    hide Dispatch, Admitted, SenderOf, Says;
    head := AdmitTail(w, h, post);
    tail := [];
    var (mid, r) := Admitted(w, h, post);
    if r.Ok? {
      AdmittedSays(w, h, post);
      tail := DispatchEvents(w, mid, r.value.0, r.value.1, post);
      OnlyRequests(post.path, r.value.1);
    }
  }

  lemma OnlyRequests(path: Path, payload: Payload)
    requires OfKind(KindOf(path), payload)
    ensures path == Requests <==> payload.RequestMsg?
    ensures path == Requests ==> KindOf(path) == Req
  {
  }

  lemma {:induction false} QuietKeeps(h: History, tail: seq<Event>, nonce: MsgNonce, fid: FileId, kid: Kid)
    requires forall e :: e in tail ==> QuietEvent(e)
    ensures LastRoute(h + tail, nonce) == LastRoute(h, nonce) && LatestAsk(h + tail, fid, kid) == LatestAsk(h, fid, kid)
  {
    if tail == [] {
      assert h + tail == h;
    } else {
      var n := |tail| - 1;
      QuietKeeps(h, tail[..n], nonce, fid, kid);
      assert Before(h + tail) == h + tail[..n] && Last(h + tail) == tail[n];
      assert tail[n] in tail;
    }
  }

  lemma RequestChanges(h: History, kid: Kid, p: Payload, post: Post, nonce: MsgNonce, fid: FileId, k: Kid)
    requires p.RequestMsg?
    ensures var h' := h + RequestEvents(kid, p, post);
            && LastRoute(h', nonce) == (if p.nonce == nonce then Some((kid, post.route)) else LastRoute(h, nonce))
            && LatestAsk(h', fid, k) == if p.fid == fid && kid == k then Some(post.route) else LatestAsk(h, fid, k)
  {
    var es := RequestEvents(kid, p, post);
    var h1 := h + es[..1];
    var h2 := h + es[..2];
    assert Before(h1) == h && Last(h1) == es[0];
    assert Before(h2) == h1 && Last(h2) == es[1];
    assert Before(h + es) == h2 && Last(h + es) == es[2];
    assert LastRoute(h2, nonce) == LastRoute(h1, nonce) && LatestAsk(h1, fid, k) == LatestAsk(h, fid, k);
  }

  // ---------------------------------------------------------------- requests, by the steps of a life

  /** What one more step does to the route of a nonce and to an interest. */
  lemma StepAsks(w: Wire, steps: seq<Step>, nonce: MsgNonce, fid: FileId, kid: Kid)
    requires steps != []
    ensures var n := |steps| - 1;
            var h, h' := Run(w, steps[..n]), Run(w, steps);
            && (forall k :: AsksWith(w, steps, n, k, nonce) ==> LastRoute(h', nonce) == Some((k, steps[n].post.route)))
            && ((forall k :: !AsksWith(w, steps, n, k, nonce)) ==> LastRoute(h', nonce) == LastRoute(h, nonce))
            && LatestAsk(h', fid, kid)
               == if AsksAbout(w, steps, n, kid, fid) then Some(steps[n].post.route) else LatestAsk(h, fid, kid)
  {
    hide LastRoute, LatestAsk, Handle, RequestEvents;
    var n := |steps| - 1;
    var h := Run(w, steps[..n]);
    match steps[n]
    case Fetch(inbox, at) =>
      QuietKeeps(h, [Drained(inbox, at)], nonce, fid, kid);
    case Submit(post) =>
      var head, tail := HandleEvents(w, h, post);
      QuietKeeps(h, head, nonce, fid, kid);
      if AcceptedRequest(w, steps, n) {
        var sender, p := SenderOf(w, post.body).value, Says(w, Req, post.body).value;
        RequestChanges(h + head, sender, p, post, nonce, fid, kid);
        assert p.nonce == nonce ==> AsksWith(w, steps, n, sender, nonce);
      } else {
        QuietKeeps(h + head, tail, nonce, fid, kid);
      }
  }

  lemma AsksBefore(w: Wire, steps: seq<Step>, nonce: MsgNonce, fid: FileId)
    requires steps != []
    ensures var before := steps[..|steps| - 1];
            && (forall i: nat, k :: i < |before| ==>
                  (AsksWith(w, before, i, k, nonce) <==> AsksWith(w, steps, i, k, nonce)))
            && (forall i: nat, k :: i < |before| ==>
                  (AsksAbout(w, before, i, k, fid) <==> AsksAbout(w, steps, i, k, fid)))
            && (forall i: nat, k :: AsksWith(w, before, i, k, nonce) ==> i < |before|)
            && (forall i: nat, k :: AsksAbout(w, before, i, k, fid) ==> i < |before|)
            && (forall i: nat, k :: AsksWith(w, steps, i, k, nonce) ==> i < |steps|)
            && (forall i: nat, k :: AsksAbout(w, steps, i, k, fid) ==> i < |steps|)
  {
    hide Run, Handle, SenderOf, Says;
    assert forall i: nat :: i < |steps| - 1 ==> steps[..|steps| - 1][..i] == steps[..i];
  }

  lemma AnyAskLast(w: Wire, steps: seq<Step>, nonce: MsgNonce, fid: FileId, kid: Kid)
    requires steps != []
    ensures var n := |steps| - 1;
            && (AnyAskWith(w, steps, nonce) <==>
                AnyAskWith(w, steps[..n], nonce) || exists k :: AsksWith(w, steps, n, k, nonce))
            && (AnyAskAbout(w, steps, kid, fid) <==>
                AnyAskAbout(w, steps[..n], kid, fid) || AsksAbout(w, steps, n, kid, fid))
  {
    hide AsksWith, AsksAbout;
    AsksBefore(w, steps, nonce, fid);
  }

  lemma LastAskStays(w: Wire, steps: seq<Step>, nonce: MsgNonce, fid: FileId, j: nat, kid: Kid)
    requires steps != []
    ensures var n := |steps| - 1;
            && (LastAskWith(w, steps[..n], j, kid, nonce) && (forall k :: !AsksWith(w, steps, n, k, nonce))
                ==> j < n && LastAskWith(w, steps, j, kid, nonce))
            && (AsksWith(w, steps, n, kid, nonce) ==> LastAskWith(w, steps, n, kid, nonce))
            && (LastAskAbout(w, steps[..n], j, kid, fid) && !AsksAbout(w, steps, n, kid, fid)
                ==> j < n && LastAskAbout(w, steps, j, kid, fid))
            && (AsksAbout(w, steps, n, kid, fid) ==> LastAskAbout(w, steps, n, kid, fid))
  {
    hide AsksWith, AsksAbout;
    AsksBefore(w, steps, nonce, fid);
  }

  lemma Asking(w: Wire, steps: seq<Step>, j: nat, kid: Kid, nonce: MsgNonce, fid: FileId)
    ensures LastAskWith(w, steps, j, kid, nonce) ==> j < |steps| && steps[j].Submit? && AnyAskWith(w, steps, nonce)
    ensures LastAskAbout(w, steps, j, kid, fid) ==> j < |steps| && steps[j].Submit? && AnyAskAbout(w, steps, kid, fid)
  {
    hide Run, Handle, SenderOf, Says;
  }

  /** The route of a nonce is to the sender of the last accepted request that carried it, from its time. */
  ghost predicate RoutedAs(w: Wire, steps: seq<Step>, nonce: MsgNonce, j: nat, kid: Kid) {
    && LastAskWith(w, steps, j, kid, nonce) && j < |steps| && steps[j].Submit?
    && LastRoute(Run(w, steps), nonce) == Some((kid, steps[j].post.route))
  }

  lemma RouteStep(w: Wire, steps: seq<Step>, nonce: MsgNonce, j: nat, kid: Kid)
    requires steps != []
    ensures var n := |steps| - 1;
            && (forall k :: AsksWith(w, steps, n, k, nonce) ==> RoutedAs(w, steps, nonce, n, k))
            && ((forall k :: !AsksWith(w, steps, n, k, nonce)) && RoutedAs(w, steps[..n], nonce, j, kid)
                ==> RoutedAs(w, steps, nonce, j, kid))
  {
    hide Run, LastRoute, LatestAsk, AsksAbout, AsksWith, AnyAskWith, AnyAskAbout, LastAskWith, LastAskAbout;
    var n := |steps| - 1;
    StepAsks(w, steps, nonce, Zeros(32), kid);
    LastAskStays(w, steps, nonce, Zeros(32), j, kid);
    forall k | AsksWith(w, steps, n, k, nonce)
      ensures RoutedAs(w, steps, nonce, n, k)
    {
      LastAskStays(w, steps, nonce, Zeros(32), j, k);
      Asking(w, steps, n, k, nonce, Zeros(32));
    }
  }

  lemma RoutedMeans(w: Wire, steps: seq<Step>, nonce: MsgNonce, j: nat, kid: Kid)
    requires RoutedAs(w, steps, nonce, j, kid)
    ensures LastRoute(Run(w, steps), nonce).Some?
  {
    hide Run, LastAskWith;
  }

  /** A nonce has a route exactly if some accepted request carried it, and the route is to the sender of the
      last one, from its time. */
  lemma {:induction false} RouteByStep(w: Wire, steps: seq<Step>, nonce: MsgNonce) returns (j: nat, kid: Kid)
    ensures LastRoute(Run(w, steps), nonce).Some? <==> AnyAskWith(w, steps, nonce)
    ensures AnyAskWith(w, steps, nonce) ==> RoutedAs(w, steps, nonce, j, kid)
  {
    j, kid := 0, Zeros(16);
    if steps == [] {
      NobodyAsked(w, nonce, kid, Zeros(32));
    } else {
      hide *;
      var n := |steps| - 1;
      j, kid := RouteByStep(w, steps[..n], nonce);
      AnyAskLast(w, steps, nonce, Zeros(32), kid);
      RouteStep(w, steps, nonce, j, kid);
      if k :| AsksWith(w, steps, n, k, nonce) {
        j, kid := n, k;
        RoutedMeans(w, steps, nonce, j, kid);
      } else {
        StepAsks(w, steps, nonce, Zeros(32), kid);
      }
    }
  }

  lemma NobodyAsked(w: Wire, nonce: MsgNonce, kid: Kid, fid: FileId)
    ensures LastRoute(Run(w, []), nonce).None? && !AnyAskWith(w, [], nonce)
    ensures LatestAsk(Run(w, []), fid, kid).None? && !AnyAskAbout(w, [], kid, fid)
  {
  }

  /** The device is remembered for the file from the time of its last accepted request about it. */
  ghost predicate RememberedAs(w: Wire, steps: seq<Step>, fid: FileId, kid: Kid, j: nat) {
    && LastAskAbout(w, steps, j, kid, fid) && j < |steps| && steps[j].Submit?
    && LatestAsk(Run(w, steps), fid, kid) == Some(steps[j].post.route)
  }

  /** A device is remembered for a file exactly if it sent an accepted request about it, from the time of the
      last one. */
  lemma {:induction false} InterestByStep(w: Wire, steps: seq<Step>, fid: FileId, kid: Kid) returns (j: nat)
    ensures LatestAsk(Run(w, steps), fid, kid).Some? <==> AnyAskAbout(w, steps, kid, fid)
    ensures AnyAskAbout(w, steps, kid, fid) ==> RememberedAs(w, steps, fid, kid, j)
  {
    j := 0;
    if steps == [] {
      NobodyAsked(w, Zeros(16), kid, fid);
    } else {
      hide Run, LastRoute, LatestAsk, AsksAbout, AsksWith, AnyAskWith, AnyAskAbout, LastAskWith, LastAskAbout;
      var n := |steps| - 1;
      j := InterestByStep(w, steps[..n], fid, kid);
      StepAsks(w, steps, Zeros(16), fid, kid);
      AnyAskLast(w, steps, Zeros(16), fid, kid);
      if AsksAbout(w, steps, n, kid, fid) {
        j := n;
      }
      LastAskStays(w, steps, Zeros(16), fid, j, kid);
      Asking(w, steps, j, kid, Zeros(16), fid);
    }
  }

  // ---------------------------------------------------------------- end to end

  /** What is queued goes to this inbox, to nobody else, and is what is fetched there next. */
  ghost predicate LandsIn(h: History, h': History, inbox: Inbox, envelope: Envelope, at: Time) {
    && (forall i :: CountPut(h', i, envelope.body) == CountPut(h, i, envelope.body) + if i == inbox then 1 else 0)
    && (forall now: Time :: now - at <= 86_400 * SECOND ==>
          Delivery(h', inbox, now) != [] && Delivery(h', inbox, now)[|Delivery(h', inbox, now)| - 1] == envelope)
  }

  lemma {:induction false} DeliverableSnoc(held: seq<Queued>, q: Queued, now: Time)
    ensures Deliverable(held + [q], now)
         == Deliverable(held, now) + if now - q.at <= QUEUE_TTL then [q.envelope] else []
  {
    if held == [] {
      assert held + [q] == [q];
    } else {
      DeliverableSnoc(held[1..], q, now);
      assert (held + [q])[1..] == held[1..] + [q];
    }
  }

  lemma PutLands(h: History, others: seq<Event>, inbox: Inbox, envelope: Envelope, at: Time)
    requires forall e :: e in others ==> !e.Put?
    ensures LandsIn(h, h + others + [Put(inbox, envelope, at)], inbox, envelope, at)
  {
    hide CountPut, Deliverable;
    var h' := h + others + [Put(inbox, envelope, at)];
    assert Before(h') == h + others && Last(h') == Put(inbox, envelope, at);
    forall i
      ensures CountPut(h', i, envelope.body) == CountPut(h, i, envelope.body) + if i == inbox then 1 else 0
    {
      Client.OtherEventsCount(h, others, i, envelope.body);
      CountPutLast(h', i, envelope.body);
    }
    forall now: Time | now - at <= QUEUE_TTL
      ensures Delivery(h', inbox, now) != [] && Delivery(h', inbox, now)[|Delivery(h', inbox, now)| - 1] == envelope
    {
      DeliverableSnoc(Held(h + others, inbox), Queued.Queued(envelope, at), now);
    }
  }

  lemma CountPutLast(h: History, inbox: Inbox, body: bytes)
    requires h != []
    ensures CountPut(h, inbox, body)
         == CountPut(Before(h), inbox, body)
            + if Last(h).Put? && Last(h).inbox == inbox && Last(h).envelope.body == body then 1 else 0
  {
  }

  /** An accepted request lands in the inbox of the owner that it names and in no other: there the owner
      finds these bytes, under the id the sender was told. It is about the device that sent it, and that
      device signed it as a request. */
  lemma RequestReachesOwner(w: Wire, h: History, post: Post)
    requires post.path == Requests && Handle(w, h, post).1.Accepted?
    ensures var (h', reply) := Handle(w, h, post);
            && Says(w, Req, post.body).Some? && Says(w, Req, post.body).value.RequestMsg?
            && var p := Says(w, Req, post.body).value;
            && SenderOf(w, post.body) == Some(p.deviceKid) && w.kidOf(p.ed25519) == p.deviceKid && OwnerOk(p.owner)
            && LandsIn(h, h', Owner(p.owner), Envelope(reply.id, Req, post.body, Unix(post.route)), post.route)
  {
    hide LandsIn, Admitted;
    var (mid, r) := Admitted(w, h, post);
    var head := AdmitTail(w, h, post);
    AdmittedSays(w, h, post);
    var p := r.value.1;
    var others := head + [Routed(p.nonce, r.value.0.kid, post.route), Asked(p.fid, r.value.0.kid, post.route)];
    var envelope := Envelope(Id(post.ids, 0), Req, post.body, Unix(post.route));
    PutLands(h, others, Owner(p.owner), envelope, post.route);
    assert Handle(w, h, post).0 == h + others + [Put(Owner(p.owner), envelope, post.route)];
  }

  /** The same of a version notice. */
  lemma VersionReachesOwner(w: Wire, h: History, post: Post)
    requires post.path == Versions && Handle(w, h, post).1.Accepted?
    ensures var (h', reply) := Handle(w, h, post);
            && Says(w, Version, post.body).Some? && Says(w, Version, post.body).value.VersionMsg?
            && var p := Says(w, Version, post.body).value;
            && SenderOf(w, post.body) == Some(w.kidOf(p.ed25519)) && OwnerOk(p.owner)
            && LandsIn(h, h', Owner(p.owner), Envelope(reply.id, Version, post.body, Unix(post.route)), post.route)
  {
    hide LandsIn, Admitted;
    var (mid, r) := Admitted(w, h, post);
    var head := AdmitTail(w, h, post);
    AdmittedSays(w, h, post);
    var envelope := Envelope(Id(post.ids, 0), Version, post.body, Unix(post.route));
    PutLands(h, head, Owner(r.value.1.owner), envelope, post.route);
  }

  /** An admitted answer to nonce n goes to the sender of the last accepted request that carried n, if that
      was under a day ago: there it is what the device fetches. Otherwise, and if nobody asked with n, it is
      refused as not found and queued nowhere. */
  lemma AnswerReachesSender(w: Wire, steps: seq<Step>, post: Post, nonce: MsgNonce) returns (j: nat, kid: Kid)
    requires post.path == Grants && Admitted(w, Run(w, steps), post).1.Ok?
    requires Says(w, Kind.Grant, post.body) == Some(GrantMsg(nonce))
    ensures AnyAskWith(w, steps, nonce) ==> RoutedAs(w, steps, nonce, j, kid)
    ensures var h := Run(w, steps);
            var (h', reply) := Handle(w, h, post);
            if AnyAskWith(w, steps, nonce) && post.route - steps[j].post.route < 86_400 * SECOND then
              && reply.Accepted?
              && LandsIn(h, h', Device(kid), Envelope(reply.id, Kind.Grant, post.body, Unix(post.route)), post.route)
            else
              && reply == Refused(NotFound)
              && forall inbox, body :: CountPut(h', inbox, body) == CountPut(h, inbox, body)
  {
    hide LandsIn, Admitted, LastRoute, LatestAsk, Run, CountPut, AnyAskWith, LastAskWith;
    var h := Run(w, steps);
    j, kid := RouteByStep(w, steps, nonce);
    var (mid, r) := Admitted(w, h, post);
    var head := AdmitTail(w, h, post);
    AdmittedSays(w, h, post);
    QuietKeeps(h, head, nonce, Zeros(32), kid);
    if RouteFor(mid, nonce, post.route).Some? {
      var envelope := Envelope(Id(post.ids, 0), Kind.Grant, post.body, Unix(post.route));
      PutLands(h, head, Device(kid), envelope, post.route);
    } else {
      forall inbox, body
        ensures CountPut(mid, inbox, body) == CountPut(h, inbox, body)
      {
        Client.OtherEventsCount(h, head, inbox, body);
      }
    }
  }

  /** An accepted revocation of file f adds one copy to the inbox of exactly those devices whose last accepted
      request about f was under a day ago, and to no other inbox. */
  lemma RevokeReachesSenders(w: Wire, steps: seq<Step>, post: Post, inbox: Inbox) returns (fid: FileId, j: nat)
    requires post.path == Revocations && Handle(w, Run(w, steps), post).1.Accepted?
    ensures Says(w, Kind.Revoke, post.body) == Some(RevokeMsg(fid))
    ensures inbox.Device? && AnyAskAbout(w, steps, inbox.kid, fid) ==> RememberedAs(w, steps, fid, inbox.kid, j)
    ensures CountPut(Handle(w, Run(w, steps), post).0, inbox, post.body)
         == CountPut(Run(w, steps), inbox, post.body)
            + if inbox.Device? && AnyAskAbout(w, steps, inbox.kid, fid)
                 && post.route - steps[j].post.route < 86_400 * SECOND
              then 1 else 0
  {
    hide Handle, LatestAsk, Run, CountPut, LastAskAbout, AnyAskAbout, Says;
    var h := Run(w, steps);
    fid := Client.RevokeAccepted(w, h, post);
    SaysRevoke(w, h, post);
    j := 0;
    if inbox.Device? {
      j := InterestByStep(w, steps, fid, inbox.kid);
    }
  }

  lemma SaysRevoke(w: Wire, h: History, post: Post)
    requires post.path == Revocations && Handle(w, h, post).1.Accepted?
    ensures w.decode(post.body).Some?
    ensures Says(w, Kind.Revoke, post.body) == w.PayloadOf(Kind.Revoke, w.decode(post.body).value.payload)
  {
    hide Dispatch, Admitted;
    AdmittedSays(w, h, post);
    Client.AdmittedPayload(w, h, post);
  }

  // ---------------------------------------------------------------- devices

  /** Step j is an accepted announcement of this device with these keys. */
  ghost predicate AnnouncesAs(w: Wire, steps: seq<Step>, j: nat, kid: Kid, device: DeviceInfo) {
    && j < |steps| && steps[j].Submit? && steps[j].post.path == Devices
    && Handle(w, Run(w, steps[..j]), steps[j].post).1.Accepted?
    && SenderOf(w, steps[j].post.body) == Some(kid)
    && Says(w, Announce, steps[j].post.body) == Some(AnnounceMsg(device.ed25519, device.x25519, device.tag))
  }

  lemma DispatchDevice(w: Wire, h: History, signed: Signed, payload: Payload, post: Post, kid: Kid)
    requires OfKind(KindOf(post.path), payload)
    ensures DeviceOf(Dispatch(w, h, signed, payload, post).0, kid)
         == if payload.AnnounceMsg? && signed.kid == kid
            then Some(DeviceInfo(payload.ed25519, payload.x25519, payload.tag)) else DeviceOf(h, kid)
  {
    var h' := Dispatch(w, h, signed, payload, post).0;
    if payload.AnnounceMsg? {
      assert Before(h') == h;
    } else {
      var tail := NoDevices(w, h, signed, payload, post);
      Failover.OthersKeepDevice(h, tail, kid);
    }
  }

  lemma NoDevices(w: Wire, h: History, signed: Signed, payload: Payload, post: Post) returns (tail: seq<Event>)
    requires OfKind(KindOf(post.path), payload) && !payload.AnnounceMsg?
    ensures Dispatch(w, h, signed, payload, post).0 == h + tail
    ensures forall e :: e in tail ==> !e.Registered?
  {
    var h' := Dispatch(w, h, signed, payload, post).0;
    if payload.RevokeMsg? {
      tail := PutEachTail(h, Interested(h, payload.fid, post.route), post);
    } else {
      tail := h'[|h|..];
      assert h' == h + tail;
    }
  }

  lemma HandleDevice(w: Wire, h: History, post: Post, kid: Kid)
    ensures if post.path == Devices && Handle(w, h, post).1.Accepted? && SenderOf(w, post.body) == Some(kid) then
              && Says(w, Announce, post.body).Some? && Says(w, Announce, post.body).value.AnnounceMsg?
              && var p := Says(w, Announce, post.body).value;
                 DeviceOf(Handle(w, h, post).0, kid) == Some(DeviceInfo(p.ed25519, p.x25519, p.tag))
            else DeviceOf(Handle(w, h, post).0, kid) == DeviceOf(h, kid)
  {
    hide Admitted, Dispatch, DeviceOf, SenderOf, Says;
    var (mid, r) := Admitted(w, h, post);
    var head := AdmitTail(w, h, post);
    Failover.OthersKeepDevice(h, head, kid);
    if r.Ok? {
      AdmittedSays(w, h, post);
      DispatchDevice(w, mid, r.value.0, r.value.1, post, kid);
      OnlyAnnouncements(w, mid, r.value.0, r.value.1, post);
    }
  }

  lemma OnlyAnnouncements(w: Wire, h: History, signed: Signed, payload: Payload, post: Post)
    requires OfKind(KindOf(post.path), payload)
    ensures post.path == Devices <==> payload.AnnounceMsg?
    ensures post.path == Devices ==> KindOf(post.path) == Announce && Dispatch(w, h, signed, payload, post).1.Accepted?
  {
  }

  ghost predicate LastAnnouncedAs(w: Wire, steps: seq<Step>, j: nat, kid: Kid, device: DeviceInfo) {
    AnnouncesAs(w, steps, j, kid, device) && forall i, d :: j < i ==> !AnnouncesAs(w, steps, i, kid, d)
  }

  ghost predicate NeverAnnounced(w: Wire, steps: seq<Step>, kid: Kid) {
    forall i, d :: !AnnouncesAs(w, steps, i, kid, d)
  }

  lemma AnnouncedLast(w: Wire, steps: seq<Step>, j: nat, kid: Kid, device: DeviceInfo)
    requires steps != []
    ensures var n := |steps| - 1;
            && (AnnouncesAs(w, steps, n, kid, device) ==> LastAnnouncedAs(w, steps, n, kid, device))
            && ((forall d :: !AnnouncesAs(w, steps, n, kid, d)) ==>
                  && (LastAnnouncedAs(w, steps[..n], j, kid, device) ==> LastAnnouncedAs(w, steps, j, kid, device))
                  && (NeverAnnounced(w, steps[..n], kid) ==> NeverAnnounced(w, steps, kid)))
  {
    hide Run, Handle, SenderOf, Says;
    var n := |steps| - 1;
    assert forall i: nat :: i < n ==> steps[..n][..i] == steps[..i];
    assert forall i: nat, d :: i < n ==> (AnnouncesAs(w, steps, i, kid, d) <==> AnnouncesAs(w, steps[..n], i, kid, d));
    assert forall i: nat, d :: AnnouncesAs(w, steps, i, kid, d) ==> i <= n;
  }

  lemma StepDevice(w: Wire, steps: seq<Step>, kid: Kid)
    requires steps != []
    ensures var n := |steps| - 1;
            var now := DeviceOf(Run(w, steps), kid);
            || (now.Some? && AnnouncesAs(w, steps, n, kid, now.value))
            || (now == DeviceOf(Run(w, steps[..n]), kid) && forall d :: !AnnouncesAs(w, steps, n, kid, d))
  {
    hide DeviceOf, Handle, SenderOf, Says;
    var n := |steps| - 1;
    match steps[n]
    case Fetch(inbox, at) => Failover.OthersKeepDevice(Run(w, steps[..n]), [Drained(inbox, at)], kid);
    case Submit(post) => HandleDevice(w, Run(w, steps[..n]), post, kid);
  }

  /** The keys a relay has for a device are those of its last accepted announcement; against the signing key
      among them every later message of the device is verified. */
  lemma {:induction false} DeviceByStep(w: Wire, steps: seq<Step>, kid: Kid) returns (j: nat)
    ensures match DeviceOf(Run(w, steps), kid)
            case Some(device) => LastAnnouncedAs(w, steps, j, kid, device)
            case None => NeverAnnounced(w, steps, kid)
  {
    j := 0;
    if steps == [] {
      NobodyAnnounced(w, kid);
    } else {
      hide Run, DeviceOf, AnnouncesAs, LastAnnouncedAs, NeverAnnounced;
      var n := |steps| - 1;
      j := DeviceByStep(w, steps[..n], kid);
      StepDevice(w, steps, kid);
      var now := DeviceOf(Run(w, steps), kid);
      var device := if now.Some? then now.value else DeviceInfo(Zeros(32), Zeros(32), None);
      AnnouncedLast(w, steps, j, kid, device);
      if AnnouncesAs(w, steps, n, kid, device) {
        j := n;
      }
    }
  }

  lemma NobodyAnnounced(w: Wire, kid: Kid)
    ensures DeviceOf(Run(w, []), kid).None? && NeverAnnounced(w, [], kid)
  {
  }
}
