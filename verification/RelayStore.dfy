/**
 The store the relay really keeps (`apps/relay/src/state.rs`): maps and queues that are pruned
 when they happen to be touched. Every answer is the one the whole history gives.
 */
module RelayStore {
  import opened Bytes
  import opened Proto
  import opened RelaySpec

  function Get<K, T>(m: map<K, seq<T>>, k: K): seq<T> {
    if k in m then m[k] else []
  }

  // ---------------------------------------------------------------- what pruning may drop

  /** `kept` is the end of `full`, and everything dropped is older than the limit. */
  ghost predicate CutTimes(full: seq<Time>, kept: seq<Time>, limit: int) {
    && |kept| <= |full| && kept == full[|full| - |kept|..]
    && forall i :: 0 <= i < |full| - |kept| ==> full[i] < limit
  }

  ghost predicate CutAsks(full: seq<(Kid, Time)>, kept: seq<(Kid, Time)>, limit: int) {
    && |kept| <= |full| && kept == full[|full| - |kept|..]
    && forall i :: 0 <= i < |full| - |kept| ==> full[i].1 < limit
  }

  ghost predicate CutQueue(full: seq<Queued>, kept: seq<Queued>, limit: int) {
    && |kept| <= |full| && kept == full[|full| - |kept|..]
    && forall i :: 0 <= i < |full| - |kept| ==> full[i].at < limit
  }

  ghost predicate SortedTimes(s: seq<Time>, clock: Time) {
    && (forall i, j :: 0 <= i < j < |s| ==> s[i] <= s[j])
    && (forall i :: 0 <= i < |s| ==> s[i] <= clock)
  }

  ghost predicate SortedAsks(s: seq<(Kid, Time)>, clock: Time) {
    && (forall i, j :: 0 <= i < j < |s| ==> s[i].1 <= s[j].1)
    && (forall i :: 0 <= i < |s| ==> s[i].1 <= clock)
  }

  // ---------------------------------------------------------------- how each map stands to the history

  ghost predicate DevicesOk(devices: map<Kid, DeviceInfo>, h: History) {
    forall kid :: DeviceOf(h, kid) == if kid in devices then Some(devices[kid]) else None
  }

  ghost predicate CallsOkAt(calls: map<Kid, seq<Time>>, h: History, clock: Time, kid: Kid) {
    CutTimes(Calls(h, kid), Get(calls, kid), clock - HOUR) && SortedTimes(Calls(h, kid), clock)
  }

  ghost predicate CallsOk(calls: map<Kid, seq<Time>>, h: History, clock: Time) {
    forall kid :: CallsOkAt(calls, h, clock, kid)
  }

  ghost predicate NoncesOk(nonces: map<MsgNonce, Time>, h: History, clock: Time) {
    forall n ::
      && (n in nonces ==> LastTaken(h, n) == Some(nonces[n]))
      && (LastTaken(h, n).Some? ==> LastTaken(h, n).value <= clock)
      && (LastTaken(h, n).Some? && clock - LastTaken(h, n).value < NONCE_MEMORY ==> n in nonces)
  }

  ghost predicate RoutesOk(routes: map<MsgNonce, (Kid, Time)>, h: History, clock: Time) {
    forall n ::
      && (n in routes ==> LastRoute(h, n) == Some(routes[n]))
      && (LastRoute(h, n).Some? ==> LastRoute(h, n).value.1 <= clock)
      && (LastRoute(h, n).Some? && clock - LastRoute(h, n).value.1 < QUEUE_TTL ==> n in routes)
  }

  ghost predicate InterestsOkAt(interests: map<FileId, seq<(Kid, Time)>>, h: History, clock: Time, fid: FileId) {
    CutAsks(Asks(h, fid), Get(interests, fid), clock - QUEUE_TTL + 1) && SortedAsks(Asks(h, fid), clock)
  }

  ghost predicate InterestsOk(interests: map<FileId, seq<(Kid, Time)>>, h: History, clock: Time) {
    forall fid :: InterestsOkAt(interests, h, clock, fid)
  }

  ghost predicate QueuesOk(queues: map<Inbox, seq<Queued>>, h: History, clock: Time) {
    forall inbox :: QueueOkAt(queues, h, clock, inbox)
  }

  ghost predicate QueueOkAt(queues: map<Inbox, seq<Queued>>, h: History, clock: Time, inbox: Inbox) {
    CutQueue(Held(h, inbox), Get(queues, inbox), clock - QUEUE_TTL)
  }

  // ---------------------------------------------------------------- what a step leaves alone

  lemma DevicesQuiet(devices: map<Kid, DeviceInfo>, h: History, e: Event)
    requires DevicesOk(devices, h) && !e.Registered?
    ensures DevicesOk(devices, h + [e])
  {
    assert Before(h + [e]) == h;
    assert forall kid :: DeviceOf(h + [e], kid) == DeviceOf(h, kid);
  }

  lemma CallsQuiet(calls: map<Kid, seq<Time>>, h: History, e: Event, clock: Time, now: Time)
    requires CallsOk(calls, h, clock) && !e.Called? && clock <= now
    ensures CallsOk(calls, h, now) && CallsOk(calls, h + [e], now)
  {
    assert Before(h + [e]) == h;
    forall kid
      ensures Calls(h + [e], kid) == Calls(h, kid) && CallsOkAt(calls, h, now, kid)
    {
      assert CallsOkAt(calls, h, clock, kid);
    }
  }

  lemma NoncesQuiet(nonces: map<MsgNonce, Time>, h: History, e: Event, clock: Time, now: Time)
    requires NoncesOk(nonces, h, clock) && !e.Taken? && clock <= now
    ensures NoncesOk(nonces, h, now) && NoncesOk(nonces, h + [e], now)
  {
    assert Before(h + [e]) == h;
    assert forall n :: LastTaken(h + [e], n) == LastTaken(h, n);
  }

  lemma RoutesQuiet(routes: map<MsgNonce, (Kid, Time)>, h: History, e: Event, clock: Time, now: Time)
    requires RoutesOk(routes, h, clock) && !e.Routed? && clock <= now
    ensures RoutesOk(routes, h, now) && RoutesOk(routes, h + [e], now)
  {
    assert Before(h + [e]) == h;
    assert forall n :: LastRoute(h + [e], n) == LastRoute(h, n);
  }

  lemma InterestsQuiet(interests: map<FileId, seq<(Kid, Time)>>, h: History, e: Event, clock: Time, now: Time)
    requires InterestsOk(interests, h, clock) && !e.Asked? && clock <= now
    ensures InterestsOk(interests, h, now) && InterestsOk(interests, h + [e], now)
  {
    assert Before(h + [e]) == h;
    forall fid
      ensures Asks(h + [e], fid) == Asks(h, fid) && InterestsOkAt(interests, h, now, fid)
    {
      assert InterestsOkAt(interests, h, clock, fid);
    }
  }

  lemma QueuesQuiet(queues: map<Inbox, seq<Queued>>, h: History, e: Event, clock: Time, now: Time)
    requires QueuesOk(queues, h, clock) && !e.Put? && !e.Drained? && clock <= now
    ensures QueuesOk(queues, h, now) && QueuesOk(queues, h + [e], now)
  {
    assert Before(h + [e]) == h;
    forall inbox
      ensures Held(h + [e], inbox) == Held(h, inbox)
      ensures QueueOkAt(queues, h, now, inbox)
    {
      assert QueueOkAt(queues, h, clock, inbox);
    }
    assert forall inbox :: QueueOkAt(queues, h, now, inbox) ==> QueueOkAt(queues, h + [e], now, inbox);
  }

  // ---------------------------------------------------------------- counting on the pruned calls

  lemma {:induction false} CountSplit(a: seq<Time>, b: seq<Time>, now: Time, span: nat)
    ensures CountWithin(a + b, now, span) == CountWithin(a, now, span) + CountWithin(b, now, span)
  {
    if b == [] {
      assert a + b == a;
    } else {
      assert (a + b)[..|a + b| - 1] == a + b[..|b| - 1];
      CountSplit(a, b[..|b| - 1], now, span);
    }
  }

  lemma {:induction false} CountExtreme(a: seq<Time>, now: Time, span: nat)
    ensures (forall i :: 0 <= i < |a| ==> a[i] < now - span) ==> CountWithin(a, now, span) == 0
    ensures (forall i :: 0 <= i < |a| ==> a[i] >= now - span) ==> CountWithin(a, now, span) == |a|
  {
    if a != [] {
      CountExtreme(a[..|a| - 1], now, span);
    }
  }

  /** Once the front is young enough, counting what is kept is counting everything. */
  lemma KeptCounts(full: seq<Time>, kept: seq<Time>, now: Time)
    requires CutTimes(full, kept, now - HOUR) && SortedTimes(full, now)
    requires kept != [] ==> kept[0] >= now - HOUR
    ensures CountWithin(full, now, HOUR) == |kept|
    ensures CountWithin(full, now, MINUTE) == CountWithin(kept, now, MINUTE)
  {
    var d := |full| - |kept|;
    var dropped := full[..d];
    assert full == dropped + kept;
    forall i | 0 <= i < |kept|
      ensures kept[i] >= now - HOUR
    {
      assert kept[i] == full[d + i] && kept[0] == full[d];
    }
    PartCounts(dropped, kept, now);
  }

  lemma PartCounts(dropped: seq<Time>, kept: seq<Time>, now: Time)
    requires forall i :: 0 <= i < |dropped| ==> dropped[i] < now - HOUR
    requires forall i :: 0 <= i < |kept| ==> kept[i] >= now - HOUR
    ensures CountWithin(dropped + kept, now, HOUR) == |kept|
    ensures CountWithin(dropped + kept, now, MINUTE) == CountWithin(kept, now, MINUTE)
  {
    CountSplit(dropped, kept, now, HOUR);
    CountSplit(dropped, kept, now, MINUTE);
    CountExtreme(dropped, now, HOUR);
    CountExtreme(dropped, now, MINUTE);
    CountExtreme(kept, now, HOUR);
  }

  // ---------------------------------------------------------------- routing on the pruned lists

  function Fresh(asks: seq<(Kid, Time)>, now: Time): seq<(Kid, Time)> {
    if asks == [] then []
    else if now - asks[0].1 < QUEUE_TTL then [asks[0]] + Fresh(asks[1..], now)
    else Fresh(asks[1..], now)
  }

  /** Dropping stale entries from every list, and the lists that become empty. */
  function FreshLists(interests: map<FileId, seq<(Kid, Time)>>, now: Time): map<FileId, seq<(Kid, Time)>> {
    map f | f in interests && Fresh(interests[f], now) != [] :: Fresh(interests[f], now)
  }

  function Remembered(nonces: map<MsgNonce, Time>, now: Time): map<MsgNonce, Time> {
    map n | n in nonces && now - nonces[n] < NONCE_MEMORY :: nonces[n]
  }

  function Kids(asks: seq<(Kid, Time)>): seq<Kid> {
    if asks == [] then [] else [asks[0].0] + Kids(asks[1..])
  }

  /** Keeping the young entries of a list in time order drops a front part. */
  lemma {:induction false} FreshIsEnd(asks: seq<(Kid, Time)>, now: Time)
    requires SortedAsks(asks, now)
    ensures CutAsks(asks, Fresh(asks, now), now - QUEUE_TTL + 1)
    ensures Kids(Fresh(asks, now)) == RecentKids(asks, now)
  {
    if asks != [] {
      hide CutAsks, SortedAsks, Fresh, Kids, RecentKids;
      SortedTail(asks, now);
      FreshIsEnd(asks[1..], now);
      FirstAsk(asks, now);
      if now - asks[0].1 < QUEUE_TTL {
        FreshAll(asks, now);
        CutNothing(asks, now - QUEUE_TTL + 1);
      } else {
        CutOneMore(asks, Fresh(asks[1..], now), now - QUEUE_TTL + 1);
      }
    } else {
      NoAsks(now);
    }
  }

  /** What the first entry adds to the fresh ones and to the recent kids. */
  lemma FirstAsk(asks: seq<(Kid, Time)>, now: Time)
    requires asks != []
    ensures var young, recent := Fresh(asks[1..], now), RecentKids(asks[1..], now);
            if now - asks[0].1 < QUEUE_TTL then
              && Kids(Fresh(asks, now)) == [asks[0].0] + Kids(young)
              && RecentKids(asks, now) == [asks[0].0] + recent
            else Fresh(asks, now) == young && RecentKids(asks, now) == recent
  {
  }

  lemma NoAsks(now: Time)
    ensures CutAsks([], Fresh([], now), now - QUEUE_TTL + 1) && Kids(Fresh([], now)) == RecentKids([], now)
  {
  }

  lemma SortedTail(asks: seq<(Kid, Time)>, clock: Time)
    requires SortedAsks(asks, clock) && asks != []
    ensures SortedAsks(asks[1..], clock)
    ensures forall i :: 0 <= i < |asks| ==> asks[0].1 <= asks[i].1 <= clock
    ensures forall a :: a in asks[1..] ==> asks[0].1 <= a.1 <= clock
  {
  }

  lemma CutNothing(asks: seq<(Kid, Time)>, limit: int)
    ensures CutAsks(asks, asks, limit)
  {
  }

  lemma CutOneMore(asks: seq<(Kid, Time)>, kept: seq<(Kid, Time)>, limit: int)
    requires asks != [] && asks[0].1 < limit && CutAsks(asks[1..], kept, limit)
    ensures CutAsks(asks, kept, limit)
  {
    assert asks == [asks[0]] + asks[1..];
  }

  lemma {:induction false} FreshAll(asks: seq<(Kid, Time)>, now: Time)
    requires forall i :: 0 <= i < |asks| ==> now - asks[i].1 < QUEUE_TTL
    ensures Fresh(asks, now) == asks
  {
    if asks != [] {
      FreshAll(asks[1..], now);
    }
  }

  /** Dropping stale entries first changes neither the fresh ones nor their kids. */
  lemma {:induction false} FreshOfCut(full: seq<(Kid, Time)>, kept: seq<(Kid, Time)>, now: Time)
    requires CutAsks(full, kept, now - QUEUE_TTL + 1)
    ensures Fresh(full, now) == Fresh(kept, now) && RecentKids(full, now) == RecentKids(kept, now)
  {
    if |kept| == |full| {
      assert kept == full;
    } else {
      assert kept == full[1..][|full[1..]| - |kept|..];
      FreshOfCut(full[1..], kept, now);
    }
  }

  lemma {:induction false} WithoutOfCut(full: seq<(Kid, Time)>, kept: seq<(Kid, Time)>, limit: int, kid: Kid)
    requires CutAsks(full, kept, limit)
    ensures CutAsks(Without(full, kid), Without(kept, kid), limit)
  {
    if |kept| == |full| {
      assert kept == full;
    } else {
      assert kept == full[1..][|full[1..]| - |kept|..];
      WithoutOfCut(full[1..], kept, limit, kid);
    }
  }

  lemma SortedCons(a: (Kid, Time), rest: seq<(Kid, Time)>, clock: Time)
    requires SortedAsks(rest, clock) && a.1 <= clock && forall b :: b in rest ==> a.1 <= b.1
    ensures SortedAsks([a] + rest, clock)
  {
    assert forall i :: 0 <= i < |rest| ==> rest[i] in rest;
  }

  lemma {:induction false} WithoutSorted(asks: seq<(Kid, Time)>, kid: Kid, clock: Time)
    requires SortedAsks(asks, clock)
    ensures SortedAsks(Without(asks, kid), clock)
    ensures forall a :: a in Without(asks, kid) ==> a in asks
  {
    if asks != [] {
      hide SortedAsks;
      SortedTail(asks, clock);
      WithoutSorted(asks[1..], kid, clock);
      SortedCons(asks[0], Without(asks[1..], kid), clock);
    }
  }

  lemma {:induction false} DeliverableOfCut(full: seq<Queued>, kept: seq<Queued>, now: Time)
    requires CutQueue(full, kept, now - QUEUE_TTL)
    ensures Deliverable(full, now) == Deliverable(kept, now)
  {
    if |kept| == |full| {
      assert kept == full;
    } else {
      assert kept == full[1..][|full[1..]| - |kept|..];
      DeliverableOfCut(full[1..], kept, now);
    }
  }

  // ---------------------------------------------------------------- the store

  class Relay {
    var devices: map<Kid, DeviceInfo>
    var queues: map<Inbox, seq<Queued>>
    var nonces: map<MsgNonce, Time>
    var requestRoutes: map<MsgNonce, (Kid, Time)>
    var interests: map<FileId, seq<(Kid, Time)>>
    var calls: map<Kid, seq<Time>>
    ghost var history: History
    ghost var clock: Time

    ghost predicate Valid()
      reads this
    {
      && DevicesOk(devices, history)
      && CallsOk(calls, history, clock)
      && NoncesOk(nonces, history, clock)
      && RoutesOk(requestRoutes, history, clock)
      && InterestsOk(interests, history, clock)
      && QueuesOk(queues, history, clock)
    }

    constructor ()
      ensures Valid() && history == [] && clock == 0
    {
      devices, queues, nonces, requestRoutes, interests, calls := map[], map[], map[], map[], map[], map[];
      history, clock := [], 0;
    }

    /** `take_quota`. */
    method TakeQuota(kid: Kid, now: Time) returns (ok: bool)
      requires Valid() && clock <= now
      modifies this
      ensures Valid() && clock == now
      ensures ok <==> QuotaOk(old(history), kid, now)
      ensures history == if ok then old(history) + [Called(kid, now)] else old(history)
    {
      hide CallsOk, NoncesOk, RoutesOk, InterestsOk, QueuesOk, DevicesOk;
      ghost var full, e := Calls(history, kid), Called(kid, now);
      var kept := Get(calls, kid);
      CallsOf(calls, history, kid, clock, now);
      while kept != [] && now - kept[0] > HOUR
        invariant CutTimes(full, kept, now - HOUR)
        decreases |kept|
      {
        kept := kept[1..];
      }
      KeptCounts(full, kept, now);
      var lastMinute := CountWithin(kept, now, MINUTE);
      ok := !(lastMinute >= RATE_PER_MINUTE || |kept| >= RATE_PER_HOUR);
      CallsAfter(calls, history, kid, kept, clock, now);
      NoncesQuiet(nonces, history, e, clock, now);
      RoutesQuiet(requestRoutes, history, e, clock, now);
      InterestsQuiet(interests, history, e, clock, now);
      QueuesQuiet(queues, history, e, clock, now);
      DevicesQuiet(devices, history, e);
      hide Calls, CountWithin, CutTimes;
      if ok {
        kept := kept + [now];
        history := history + [e];
      }
      calls := calls[kid := kept];
      clock := now;
    }

    /** `take_nonce`. The timestamp and verification time are for the record only. */
    method TakeNonce(nonce: MsgNonce, ghost ts: u64, ghost verify: Time, now: Time) returns (ok: bool)
      requires Valid() && clock <= now
      modifies this
      ensures Valid() && clock == now
      ensures ok <==> NonceFree(old(history), nonce, now)
      ensures history == if ok then old(history) + [Taken(nonce, ts, verify, now)] else old(history)
    {
      hide CallsOk, NoncesOk, RoutesOk, InterestsOk, QueuesOk, DevicesOk;
      ghost var e := Taken(nonce, ts, verify, now);
      CallsQuiet(calls, history, e, clock, now);
      RoutesQuiet(requestRoutes, history, e, clock, now);
      InterestsQuiet(interests, history, e, clock, now);
      QueuesQuiet(queues, history, e, clock, now);
      DevicesQuiet(devices, history, e);
      NoncesAfter(nonces, history, nonce, e, clock, now);
      nonces := Remembered(nonces, now);
      clock := now;
      ok := nonce !in nonces;
      if ok {
        nonces := nonces[nonce := now];
        history := history + [e];
      }
    }

    /** `remember_request`. */
    method RememberRequest(request: MsgNonce, from: Kid, now: Time)
      requires Valid() && clock <= now
      modifies this
      ensures Valid() && clock == now && history == old(history) + [Routed(request, from, now)]
    {
      ghost var e := Routed(request, from, now);
      CallsQuiet(calls, history, e, clock, now);
      NoncesQuiet(nonces, history, e, clock, now);
      InterestsQuiet(interests, history, e, clock, now);
      QueuesQuiet(queues, history, e, clock, now);
      DevicesQuiet(devices, history, e);
      assert Before(history + [e]) == history;
      requestRoutes := requestRoutes[request := (from, now)];
      history := history + [e];
      clock := now;
      assert forall n ::
          LastRoute(history, n) == if n == request then Some((from, now)) else LastRoute(Before(history), n);
    }

    /** `remember_interest`. */
    method RememberInterest(fid: FileId, from: Kid, now: Time)
      requires Valid() && clock <= now
      modifies this
      ensures Valid() && clock == now && history == old(history) + [Asked(fid, from, now)]
    {
      hide CallsOk, NoncesOk, RoutesOk, InterestsOk, QueuesOk, DevicesOk;
      ghost var e := Asked(fid, from, now);
      CallsQuiet(calls, history, e, clock, now);
      NoncesQuiet(nonces, history, e, clock, now);
      RoutesQuiet(requestRoutes, history, e, clock, now);
      QueuesQuiet(queues, history, e, clock, now);
      DevicesQuiet(devices, history, e);
      AskedAfter(interests, history, fid, from, clock, now);
      var list := Without(Get(interests, fid), from);
      list := list + [(from, now)];
      interests := interests[fid := list];
      history := history + [e];
      clock := now;
    }

    /** `interested`: prunes every list, then reads one. */
    method InterestedIn(fid: FileId, now: Time) returns (kids: seq<Kid>)
      requires Valid() && clock <= now
      modifies this
      ensures Valid() && clock == now && history == old(history)
      ensures kids == Interested(history, fid, now)
    {
      hide CallsOk, NoncesOk, RoutesOk, InterestsOk, QueuesOk, DevicesOk;
      Settle(now);
      InterestsAfter(interests, history, fid, now);
      interests := FreshLists(interests, now);
      kids := Kids(Get(interests, fid));
    }

    /** `route_for`. */
    method RouteTo(request: MsgNonce, now: Time) returns (kid: Option<Kid>)
      requires Valid() && clock <= now
      modifies this
      ensures Valid() && clock == now && history == old(history)
      ensures kid == RouteFor(history, request, now)
    {
      Settle(now);
      requestRoutes := map n | n in requestRoutes && now - requestRoutes[n].1 < QUEUE_TTL :: requestRoutes[n];
      kid := if request in requestRoutes then Some(requestRoutes[request].0) else None;
    }

    /** `enqueue`. */
    method Enqueue(inbox: Inbox, kind: Kind, body: bytes, id: bytes16, now: Time)
      requires Valid() && clock <= now
      modifies this
      ensures Valid() && clock == now
      ensures history == old(history) + [Put(inbox, Envelope(id, kind, body, Unix(now)), now)]
    {
      hide CallsOk, NoncesOk, RoutesOk, InterestsOk, QueuesOk, DevicesOk;
      var envelope := Envelope(id, kind, body, Unix(now));
      ghost var e, full := Put(inbox, envelope, now), Held(history, inbox);
      CallsQuiet(calls, history, e, clock, now);
      NoncesQuiet(nonces, history, e, clock, now);
      RoutesQuiet(requestRoutes, history, e, clock, now);
      InterestsQuiet(interests, history, e, clock, now);
      DevicesQuiet(devices, history, e);
      var queue := Get(queues, inbox);
      QueueOf(queues, history, inbox, clock, now);
      while queue != [] && now - queue[0].at > QUEUE_TTL
        invariant CutQueue(full, queue, now - QUEUE_TTL)
        decreases |queue|
      {
        queue := queue[1..];
      }
      PutAfter(queues, history, inbox, queue, envelope, clock, now);
      queue := queue + [Queued(envelope, now)];
      queues := queues[inbox := queue];
      history := history + [e];
      clock := now;
    }

    /** `drain`. */
    method Drain(inbox: Inbox, now: Time) returns (out: seq<Envelope>)
      requires Valid() && clock <= now
      modifies this
      ensures Valid() && clock == now && history == old(history) + [Drained(inbox, now)]
      ensures out == Delivery(old(history), inbox, now)
    {
      hide CallsOk, NoncesOk, RoutesOk, InterestsOk, QueuesOk, DevicesOk;
      ghost var e := Drained(inbox, now);
      CallsQuiet(calls, history, e, clock, now);
      NoncesQuiet(nonces, history, e, clock, now);
      RoutesQuiet(requestRoutes, history, e, clock, now);
      InterestsQuiet(interests, history, e, clock, now);
      DevicesQuiet(devices, history, e);
      QueueOf(queues, history, inbox, clock, now);
      DeliverableOfCut(Held(history, inbox), Get(queues, inbox), now);
      out := Deliverable(Get(queues, inbox), now);
      DrainAfter(queues, history, inbox, clock, now);
      if inbox in queues {
        queues := queues[inbox := []];
      }
      history := history + [e];
      clock := now;
    }

    /** `announce`. */
    method Announce(kid: Kid, device: DeviceInfo, now: Time)
      requires Valid() && clock <= now
      modifies this
      ensures Valid() && clock == now && history == old(history) + [Registered(kid, device, now)]
    {
      ghost var e := Registered(kid, device, now);
      CallsQuiet(calls, history, e, clock, now);
      NoncesQuiet(nonces, history, e, clock, now);
      RoutesQuiet(requestRoutes, history, e, clock, now);
      InterestsQuiet(interests, history, e, clock, now);
      QueuesQuiet(queues, history, e, clock, now);
      assert Before(history + [e]) == history;
      devices := devices[kid := device];
      history := history + [e];
      clock := now;
      assert forall k :: DeviceOf(history, k) == if k == kid then Some(device) else DeviceOf(Before(history), k);
    }

    /** The clock moves on; nothing else does. */
    ghost method Settle(now: Time)
      requires Valid() && clock <= now
      modifies this`clock
      ensures Valid() && clock == now
    {
      var e := Drained(Owner([]), now);
      CallsQuiet(calls, history, e, clock, now);
      NoncesQuiet(nonces, history, e, clock, now);
      RoutesQuiet(requestRoutes, history, e, clock, now);
      InterestsQuiet(interests, history, e, clock, now);
      QueuesQuiet(queues, history, Registered(Zeros(16), DeviceInfo(Zeros(32), Zeros(32), None), now), clock, now);
      clock := now;
    }

    /** The part of authentication that changes the store. */
    method AdmitCall(kid: Kid, signed: Signed, post: Post) returns (r: Result<()>)
      requires Valid() && clock <= post.verify && post.Ordered()
      modifies this
      ensures Valid() && clock == post.take
      ensures (history, r) == Admit(old(history), kid, signed, post)
    {
      var calm := TakeQuota(kid, post.take);
      if !calm {
        return Err(RateLimited);
      }
      var free := TakeNonce(signed.nonce, signed.ts, post.verify, post.take);
      r := if free then Ok(()) else Err(Replayed);
    }

    /** `authenticate`, and its counterpart in the announce handler. */
    method AdmitPost(w: Wire, post: Post) returns (r: Result<(Signed, Payload)>)
      requires Valid() && clock <= post.verify && post.Ordered()
      modifies this
      ensures Valid() && clock <= post.take
      ensures (history, r) == Admitted(w, old(history), post)
    {
      if |post.body| > MAX_BODY_LEN {
        return Err(TooLarge);
      }
      var decoded := w.decode(post.body);
      if decoded.None? {
        return Err(Malformed);
      }
      var signed := decoded.value;
      var payload;
      if post.path.Devices? {
        var claim := w.PayloadOf(Kind.Announce, signed.payload);
        if claim.None? {
          return Err(Malformed);
        }
        payload := claim.value;
        if w.Verify(Kind.Announce, signed, payload.ed25519, Unix(post.verify)).Err?
            || w.kidOf(payload.ed25519) != signed.kid {
          return Err(Unauthenticated);
        }
        if payload.tag.Some? && |payload.tag.value| > 32 {
          return Err(Malformed);
        }
      } else {
        if signed.kid !in devices {
          return Err(UnknownDevice);
        }
        var checked := w.Verify(KindOf(post.path), signed, devices[signed.kid].ed25519, Unix(post.verify));
        if checked.Err? {
          return Err(checked.code);
        }
        payload := checked.value;
      }
      var admitted := AdmitCall(signed.kid, signed, post);
      r := if admitted.Err? then Err(admitted.code) else Ok((signed, payload));
    }

    /** The handlers: what a POST does and answers is what the history says. */
    method Submit(w: Wire, post: Post) returns (reply: Reply)
      requires Valid() && clock <= post.verify && post.Ordered()
      modifies this
      ensures Valid() && clock <= post.route
      ensures (history, reply) == Handle(w, old(history), post)
    {
      var admitted := AdmitPost(w, post);
      if admitted.Err? {
        return Refused(admitted.code);
      }
      var (signed, payload) := admitted.value;
      reply := Route(w, signed, payload, post);
    }

    method Route(w: Wire, signed: Signed, payload: Payload, post: Post) returns (reply: Reply)
      requires Valid() && clock <= post.route && OfKind(KindOf(post.path), payload)
      modifies this
      ensures Valid() && clock <= post.route
      ensures (history, reply) == Dispatch(w, old(history), signed, payload, post)
    {
      match payload
      case AnnounceMsg(ed, x, tag) =>
        Announce(signed.kid, DeviceInfo(ed, x, tag), post.route);
        reply := Accepted(signed.kid);
      case RequestMsg(kid, ed, owner, fid, nonce) =>
        if kid != signed.kid || w.kidOf(ed) != signed.kid {
          return Refused(Unauthenticated);
        }
        if !OwnerOk(owner) {
          return Refused(Malformed);
        }
        RememberRequest(nonce, signed.kid, post.route);
        RememberInterest(fid, signed.kid, post.route);
        Enqueue(Owner(owner), Req, post.body, Id(post.ids, 0), post.route);
        reply := Accepted(Id(post.ids, 0));
      case GrantMsg(request) =>
        var to := RouteTo(request, post.route);
        if to.None? {
          return Refused(NotFound);
        }
        Enqueue(Device(to.value), Grant, post.body, Id(post.ids, 0), post.route);
        reply := Accepted(Id(post.ids, 0));
      case VersionMsg(ed, owner) =>
        if w.kidOf(ed) != signed.kid {
          return Refused(Unauthenticated);
        }
        if !OwnerOk(owner) {
          return Refused(Malformed);
        }
        Enqueue(Owner(owner), Version, post.body, Id(post.ids, 0), post.route);
        reply := Accepted(Id(post.ids, 0));
      case RevokeMsg(fid) =>
        reply := Broadcast(fid, post);
    }

    /** `revocations`: one copy to everyone interested. */
    method Broadcast(fid: FileId, post: Post) returns (reply: Reply)
      requires Valid() && clock <= post.route && post.path == Revocations
      modifies this
      ensures Valid() && clock <= post.route
      ensures var kids := Interested(old(history), fid, post.route);
              && history == PutEach(old(history), kids, post)
              && reply == Accepted(if kids == [] then Zeros(16) else Id(post.ids, |kids| - 1))
    {
      hide CallsOk, NoncesOk, RoutesOk, InterestsOk, QueuesOk, DevicesOk;
      var id: bytes16 := Zeros(16);
      var kids := InterestedIn(fid, post.route);
      for i := 0 to |kids|
        invariant Valid() && clock == post.route
        invariant history == PutEach(old(history), kids[..i], post)
        invariant id == if i == 0 then Zeros(16) else Id(post.ids, i - 1)
      {
        id := Id(post.ids, i);
        assert kids[..i + 1][..i] == kids[..i];
        Enqueue(Device(kids[i]), Revoke, post.body, id, post.route);
      }
      assert kids[..|kids|] == kids;
      reply := Accepted(id);
    }
  }

  // ---------------------------------------------------------------- the maps after a step

  lemma CallsOf(calls: map<Kid, seq<Time>>, h: History, kid: Kid, clock: Time, now: Time)
    requires CallsOk(calls, h, clock) && clock <= now
    ensures CutTimes(Calls(h, kid), Get(calls, kid), now - HOUR) && SortedTimes(Calls(h, kid), now)
  {
    assert CallsOkAt(calls, h, clock, kid);
  }

  lemma QueueOf(queues: map<Inbox, seq<Queued>>, h: History, inbox: Inbox, clock: Time, now: Time)
    requires QueuesOk(queues, h, clock) && clock <= now
    ensures CutQueue(Held(h, inbox), Get(queues, inbox), now - QUEUE_TTL)
  {
    assert QueueOkAt(queues, h, clock, inbox);
  }

  lemma CutTimesSnoc(full: seq<Time>, kept: seq<Time>, limit: int, now: Time)
    requires CutTimes(full, kept, limit) && SortedTimes(full, now)
    ensures CutTimes(full + [now], kept + [now], limit) && SortedTimes(full + [now], now)
  {
  }

  lemma CallsSnoc(h: History, kid: Kid, now: Time, k: Kid)
    ensures Calls(h + [Called(kid, now)], k) == if k == kid then Calls(h, k) + [now] else Calls(h, k)
  {
    assert Before(h + [Called(kid, now)]) == h;
  }

  lemma CallsAfter(calls: map<Kid, seq<Time>>, h: History, kid: Kid, kept: seq<Time>, clock: Time, now: Time)
    requires CallsOk(calls, h, clock) && clock <= now && CutTimes(Calls(h, kid), kept, now - HOUR)
    ensures CallsOk(calls[kid := kept], h, now)
    ensures CallsOk(calls[kid := kept + [now]], h + [Called(kid, now)], now)
  {
    hide Calls;
    var cut, more, h' := calls[kid := kept], calls[kid := kept + [now]], h + [Called(kid, now)];
    forall k
      ensures CallsOkAt(cut, h, now, k)
    {
      assert CallsOkAt(calls, h, clock, k);
    }
    forall k
      ensures CallsOkAt(more, h', now, k)
    {
      assert CallsOkAt(cut, h, now, k);
      CallsSnoc(h, kid, now, k);
      if k == kid {
        CutTimesSnoc(Calls(h, k), kept, now - HOUR, now);
      }
    }
  }

  lemma NoncesAfter(nonces: map<MsgNonce, Time>, h: History, nonce: MsgNonce, e: Event, clock: Time, now: Time)
    requires NoncesOk(nonces, h, clock) && clock <= now && e.Taken? && e.nonce == nonce && e.at == now
    ensures var kept := Remembered(nonces, now);
            && NoncesOk(kept, h, now)
            && NoncesOk(kept[nonce := now], h + [e], now)
            && (nonce !in kept <==> NonceFree(h, nonce, now))
  {
    var kept := Remembered(nonces, now);
    assert Before(h + [e]) == h;
    forall n
      ensures LastTaken(h + [e], n) == if n == nonce then Some(now) else LastTaken(h, n)
      ensures n in kept ==> LastTaken(h, n) == Some(kept[n])
      ensures LastTaken(h, n).Some? ==> LastTaken(h, n).value <= now
      ensures LastTaken(h, n).Some? && now - LastTaken(h, n).value < NONCE_MEMORY ==> n in kept
    {
      assert n in nonces ==> LastTaken(h, n) == Some(nonces[n]);
    }
  }

  lemma HeldSnoc(h: History, inbox: Inbox, envelope: Envelope, now: Time, i: Inbox)
    ensures Held(h + [Put(inbox, envelope, now)], i)
         == if i == inbox then Held(h, i) + [Queued(envelope, now)] else Held(h, i)
  {
    assert Before(h + [Put(inbox, envelope, now)]) == h;
  }

  lemma PutAfter(queues: map<Inbox, seq<Queued>>, h: History, inbox: Inbox, kept: seq<Queued>, envelope: Envelope,
                 clock: Time, now: Time)
    requires QueuesOk(queues, h, clock) && clock <= now && CutQueue(Held(h, inbox), kept, now - QUEUE_TTL)
    ensures QueuesOk(queues[inbox := kept + [Queued(envelope, now)]], h + [Put(inbox, envelope, now)], now)
  {
    hide Held, CutQueue;
    var h', queues' := h + [Put(inbox, envelope, now)], queues[inbox := kept + [Queued(envelope, now)]];
    forall i
      ensures QueueOkAt(queues', h', now, i)
    {
      HeldSnoc(h, inbox, envelope, now, i);
      if i == inbox {
        CutQueueSnoc(Held(h, i), kept, now - QUEUE_TTL, Queued(envelope, now));
      } else {
        assert QueueOkAt(queues, h, clock, i);
        CutQueueLater(Held(h, i), Get(queues, i), clock - QUEUE_TTL, now - QUEUE_TTL);
      }
    }
  }

  lemma CutQueueLater(full: seq<Queued>, kept: seq<Queued>, limit: int, later: int)
    requires CutQueue(full, kept, limit) && limit <= later
    ensures CutQueue(full, kept, later)
  {
  }

  lemma CutQueueSnoc(full: seq<Queued>, kept: seq<Queued>, limit: int, q: Queued)
    requires CutQueue(full, kept, limit)
    ensures CutQueue(full + [q], kept + [q], limit)
  {
  }

  lemma DrainAfter(queues: map<Inbox, seq<Queued>>, h: History, inbox: Inbox, clock: Time, now: Time)
    requires QueuesOk(queues, h, clock) && clock <= now
    ensures QueuesOk(if inbox in queues then queues[inbox := []] else queues, h + [Drained(inbox, now)], now)
  {
    var h', queues' := h + [Drained(inbox, now)], if inbox in queues then queues[inbox := []] else queues;
    assert Before(h') == h;
    forall i
      ensures QueueOkAt(queues', h', now, i)
    {
      assert QueueOkAt(queues, h, clock, i);
      assert i == inbox ==> Held(h', i) == [] && Get(queues', i) == [];
    }
  }

  lemma CutAsksSnoc(full: seq<(Kid, Time)>, kept: seq<(Kid, Time)>, limit: int, kid: Kid, now: Time)
    requires CutAsks(full, kept, limit) && SortedAsks(full, now)
    ensures CutAsks(full + [(kid, now)], kept + [(kid, now)], limit) && SortedAsks(full + [(kid, now)], now)
  {
  }

  lemma AsksSnoc(h: History, fid: FileId, kid: Kid, now: Time, f: FileId)
    ensures Asks(h + [Asked(fid, kid, now)], f)
            == if f == fid then Without(Asks(h, f), kid) + [(kid, now)] else Asks(h, f)
  {
    assert Before(h + [Asked(fid, kid, now)]) == h;
  }

  lemma AskedAfter(interests: map<FileId, seq<(Kid, Time)>>, h: History, fid: FileId, kid: Kid, clock: Time, now: Time)
    requires InterestsOk(interests, h, clock) && clock <= now
    ensures InterestsOk(interests[fid := Without(Get(interests, fid), kid) + [(kid, now)]], h + [Asked(fid, kid, now)],
                        now)
  {
    hide Asks, Without, CutAsks, SortedAsks;
    var more, h' := interests[fid := Without(Get(interests, fid), kid) + [(kid, now)]], h + [Asked(fid, kid, now)];
    forall f
      ensures InterestsOkAt(more, h', now, f)
    {
      assert InterestsOkAt(interests, h, clock, f);
      AsksSnoc(h, fid, kid, now, f);
      AsksLater(Asks(h, f), Get(interests, f), clock, now);
      if f == fid {
        WithoutOfCut(Asks(h, f), Get(interests, f), now - QUEUE_TTL + 1, kid);
        WithoutSorted(Asks(h, f), kid, now);
        CutAsksSnoc(Without(Asks(h, f), kid), Without(Get(interests, f), kid), now - QUEUE_TTL + 1, kid, now);
      }
    }
  }

  lemma AsksLater(full: seq<(Kid, Time)>, kept: seq<(Kid, Time)>, clock: Time, now: Time)
    requires CutAsks(full, kept, clock - QUEUE_TTL + 1) && SortedAsks(full, clock) && clock <= now
    ensures CutAsks(full, kept, now - QUEUE_TTL + 1) && SortedAsks(full, now)
  {
  }

  lemma InterestsAfter(interests: map<FileId, seq<(Kid, Time)>>, h: History, fid: FileId, now: Time)
    requires InterestsOk(interests, h, now)
    ensures InterestsOk(FreshLists(interests, now), h, now)
    ensures Kids(Get(FreshLists(interests, now), fid)) == Interested(h, fid, now)
  {
    forall f
      ensures InterestsOkAt(FreshLists(interests, now), h, now, f)
    {
      FreshAt(interests, h, now, f);
    }
    FreshAt(interests, h, now, fid);
  }

  lemma FreshAt(interests: map<FileId, seq<(Kid, Time)>>, h: History, now: Time, f: FileId)
    requires InterestsOk(interests, h, now)
    ensures InterestsOkAt(FreshLists(interests, now), h, now, f)
    ensures Kids(Get(FreshLists(interests, now), f)) == RecentKids(Asks(h, f), now)
  {
    assert InterestsOkAt(interests, h, now, f);
    assert Get(FreshLists(interests, now), f) == Fresh(Get(interests, f), now);
    FreshFacts(Asks(h, f), Get(interests, f), now);
  }

  lemma FreshFacts(full: seq<(Kid, Time)>, kept: seq<(Kid, Time)>, now: Time)
    requires CutAsks(full, kept, now - QUEUE_TTL + 1) && SortedAsks(full, now)
    ensures CutAsks(full, Fresh(kept, now), now - QUEUE_TTL + 1)
    ensures Kids(Fresh(kept, now)) == RecentKids(full, now)
  {
    FreshOfCut(full, kept, now);
    FreshIsEnd(full, now);
  }
}
