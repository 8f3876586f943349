/**
 The relay's handlers running side by side (`apps/relay/src/routes.rs`, `apps/relay/src/state.rs`). Every
 method of the store holds the lock once; between two of them any other handler may run. A handler reads
 the clock before it asks for the lock, so what it writes may carry an older time than what is there.
 */
module RelayThreads {
  import opened Bytes
  import opened Proto
  import opened RelaySpec
  import opened RelayRuns

  /** One submission on its way: when it was verified, and the reading it takes quota and nonce with. */
  datatype Job = Job(path: Path, body: bytes, signed: Signed, payload: Payload, verify: Time, take: Time)

  /** One use of the lock that routing still owes. */
  datatype Task = Note(event: Event) | Deliver(inbox: Inbox)

  datatype Stage =
    | Verified(job: Job)
    | Timed(job: Job)
    | Paid(job: Job)
    | Claimed(job: Job)
    | Sending(job: Job, todo: seq<Task>)

  /** The store: what has happened, the nonces and the calls it still remembers, the time, and the handlers at
      work. */
  datatype Store = Store(
    h: History, nonces: map<MsgNonce, Time>, calls: map<Kid, seq<Time>>, clock: Time, at: map<nat, Stage>)

  const EMPTY := Store([], map[], map[], 0, map[])

  /** What one handler does under the lock, or between two uses of it; and a device or owner reading its
      inbox. */
  datatype Turn =
    | Begin(id: nat, path: Path, body: bytes)
    | ReadClock(id: nat)
    | TakeQuota(id: nat)
    | TakeNonce(id: nat)
    | Aim(id: nat)
    | Send(id: nat, queueId: bytes16)
    | Fetch(inbox: Inbox)

  /** The checks before quota: size, shape, signer and signature. */
  function Check(w: Wire, h: History, path: Path, body: bytes, now: Time): Option<(Signed, Payload)> {
    if |body| > MAX_BODY_LEN then None
    else
      match w.decode(body)
      case None => None
      case Some(signed) =>
        if path.Devices? then
          match w.PayloadOf(Announce, signed.payload)
          case None => None
          case Some(claim) =>
            if w.Verify(Announce, signed, claim.ed25519, Unix(now)).Err? || w.kidOf(claim.ed25519) != signed.kid
               || (claim.tag.Some? && |claim.tag.value| > 32)
            then None else Some((signed, claim))
        else
          match DeviceOf(h, signed.kid)
          case None => None
          case Some(device) =>
            match w.Verify(KindOf(path), signed, device.ed25519, Unix(now))
            case Err(_) => None
            case Ok(payload) => Some((signed, payload))
  }

  /** The remembered nonces that are younger than the memory, seen from this reading of the clock. */
  function Young(nonces: map<MsgNonce, Time>, now: Time): map<MsgNonce, Time> {
    map n | n in nonces && now - nonces[n] < NONCE_MEMORY :: nonces[n]
  }

  /** The remembered calls of a device, in the order they came; those in front that are more than an hour
      before this reading of the clock are dropped. A later time is no distance away. */
  function Trim(times: seq<Time>, now: Time): seq<Time> {
    if times != [] && now - times[0] > HOUR then Trim(times[1..], now) else times
  }

  function CallsOf(calls: map<Kid, seq<Time>>, kid: Kid): seq<Time> {
    if kid in calls then calls[kid] else []
  }

  predicate OverQuota(kept: seq<Time>, now: Time) {
    CountWithin(kept, now, MINUTE) >= RATE_PER_MINUTE || |kept| >= RATE_PER_HOUR
  }

  /** What routing has to do for an admitted message, decided under the lock. */
  function Tasks(w: Wire, h: History, job: Job, now: Time): seq<Task> {
    match job.payload
    case AnnounceMsg(ed, x, tag) => [Note(Registered(job.signed.kid, DeviceInfo(ed, x, tag), now))]
    case RequestMsg(kid, ed, owner, fid, nonce) =>
      if kid != job.signed.kid || w.kidOf(ed) != job.signed.kid || !OwnerOk(owner) then []
      else [Note(Routed(nonce, job.signed.kid, now)), Note(Asked(fid, job.signed.kid, now)), Deliver(Owner(owner))]
    case GrantMsg(request) =>
      (match RouteFor(h, request, now)
       case None => []
       case Some(kid) => [Deliver(Device(kid))])
    case VersionMsg(ed, owner) =>
      if w.kidOf(ed) != job.signed.kid || !OwnerOk(owner) then [] else [Deliver(Owner(owner))]
    case RevokeMsg(fid) => Deliveries(Interested(h, fid, now))
  }

  function Deliveries(kids: seq<Kid>): (t: seq<Task>)
    ensures |t| == |kids| && forall i :: 0 <= i < |kids| ==> t[i] == Deliver(Device(kids[i]))
  {
    seq(|kids|, i requires 0 <= i < |kids| => Deliver(Device(kids[i])))
  }

  /** One turn at a moment that is not before the last one; a turn out of order does nothing. */
  function Next(w: Wire, s: Store, turn: Turn, now: Time): Store {
    var s := s.(clock := now);
    match turn
    case Begin(id, path, body) =>
      if id in s.at then s
      else
        (match Check(w, s.h, path, body, now)
         case None => s
         case Some((signed, payload)) => s.(at := s.at[id := Verified(Job(path, body, signed, payload, now, now))]))
    case ReadClock(id) =>
      if id in s.at && s.at[id].Verified? then s.(at := s.at[id := Timed(s.at[id].job.(take := now))]) else s
    case TakeQuota(id) =>
      if !(id in s.at && s.at[id].Timed?) then s
      else
        var job := s.at[id].job;
        var kept := Trim(CallsOf(s.calls, job.signed.kid), job.take);
        if OverQuota(kept, job.take) then s.(calls := s.calls[job.signed.kid := kept], at := s.at - {id})
        else
          s.(h := s.h + [Called(job.signed.kid, job.take)], calls := s.calls[job.signed.kid := kept + [job.take]],
             at := s.at[id := Paid(job)])
    case TakeNonce(id) =>
      if !(id in s.at && s.at[id].Paid?) then s
      else
        var job := s.at[id].job;
        var young := Young(s.nonces, job.take);
        if job.signed.nonce in young then s.(nonces := young, at := s.at - {id})
        else
          s.(h := s.h + [Taken(job.signed.nonce, job.signed.ts, job.verify, job.take)],
             nonces := young[job.signed.nonce := job.take], at := s.at[id := Claimed(job)])
    case Aim(id) =>
      if id in s.at && s.at[id].Claimed?
        then s.(at := s.at[id := Sending(s.at[id].job, Tasks(w, s.h, s.at[id].job, now))])
        else s
    case Send(id, queueId) =>
      if !(id in s.at && s.at[id].Sending?) then s
      else if s.at[id].todo == [] then s.(at := s.at - {id})
      else
        var (job, todo) := (s.at[id].job, s.at[id].todo);
        var event :=
          match todo[0]
          case Note(e) => e
          case Deliver(inbox) => Put(inbox, Envelope(queueId, KindOf(job.path), job.body, Unix(now)), now);
        s.(h := s.h + [event], at := s.at[id := Sending(job, todo[1..])])
    case Fetch(inbox) => s.(h := s.h + [Drained(inbox, now)])
  }

  type Turns = seq<(Turn, Time)>

  function RunTurns(w: Wire, turns: Turns): Store {
    if turns == [] then EMPTY
    else Next(w, RunTurns(w, turns[..|turns| - 1]), turns[|turns| - 1].0, turns[|turns| - 1].1)
  }

  /** The clock never goes back, and a handler has the lock to take its nonce within 59 s of the reading
      it verified against. */
  ghost predicate Punctual(s: Store, turn: Turn, now: Time) {
    && s.clock <= now
    && (turn.TakeNonce? && turn.id in s.at && s.at[turn.id].Paid? ==> now - s.at[turn.id].job.verify <= 59 * SECOND)
  }

  ghost predicate AllPunctual(w: Wire, turns: Turns) {
    forall i :: 0 <= i < |turns| ==> Punctual(RunTurns(w, turns[..i]), turns[i].0, turns[i].1)
  }

  // ---------------------------------------------------------------- no replay

  /** What every handler at work is about. */
  ghost predicate JobOk(w: Wire, job: Job, clock: Time) {
    && w.decode(job.body) == Some(job.signed)
    && job.verify <= job.take <= clock
    && Unix(job.verify) <= job.signed.ts + MAX_SKEW_SECS && job.signed.ts <= Unix(job.verify) + MAX_SKEW_SECS
  }

  /** A nonce that was ever taken is remembered with the time of its last taking, or that time is as old as
      the memory; and no pair of nonce and time was taken twice. */
  ghost predicate Remembers(s: Store, nonce: MsgNonce, ts: u64) {
    && (nonce in s.nonces ==> LastTaken(s.h, nonce) == Some(s.nonces[nonce]))
    && (LastTaken(s.h, nonce).Some? && nonce !in s.nonces ==> s.clock - LastTaken(s.h, nonce).value >= NONCE_MEMORY)
    && CountTaken(s.h, nonce, ts) <= 1
    && (CountTaken(s.h, nonce, ts) == 1 ==>
          LastTaken(s.h, nonce).Some? && LastTaken(s.h, nonce).value >= (ts - MAX_SKEW_SECS) * SECOND)
  }

  ghost predicate NoneReplayed(s: Store) {
    forall nonce, ts: u64 :: Remembers(s, nonce, ts)
  }

  lemma LastTakenSnoc(h: History, e: Event, nonce: MsgNonce)
    ensures LastTaken(h + [e], nonce) == if e.Taken? && e.nonce == nonce then Some(e.at) else LastTaken(h, nonce)
  {
    assert Before(h + [e]) == h && Last(h + [e]) == e;
  }

  /** Anything but a taking, at a later moment, keeps what is remembered. */
  lemma OtherKeeps(s: Store, t: Store, e: Event, nonce: MsgNonce, ts: u64)
    requires Remembers(s, nonce, ts) && s.clock <= t.clock && t.nonces == s.nonces
    requires t.h == s.h || (t.h == s.h + [e] && !e.Taken?)
    ensures Remembers(t, nonce, ts)
  {
    hide LastTaken, CountTaken;
    LastTakenSnoc(s.h, e, nonce);
    CountTakenSnoc(s.h, e, nonce, ts);
  }

  /** Dropping old nonces keeps what is remembered. */
  lemma YoungKeeps(s: Store, t: Store, take: Time, nonce: MsgNonce, ts: u64)
    requires Remembers(s, nonce, ts) && take <= t.clock && s.clock <= t.clock && t.h == s.h
    requires t.nonces == Young(s.nonces, take)
    ensures Remembers(t, nonce, ts)
    ensures LastTaken(s.h, nonce).Some? && nonce !in t.nonces ==> t.clock - LastTaken(s.h, nonce).value >= NONCE_MEMORY
  {
    hide LastTaken, CountTaken;
  }

  /** A nonce that is not remembered any more was taken too long ago for this message to be a repeat. */
  lemma TakingIsNew(s: Store, job: Job, now: Time)
    requires Remembers(s, job.signed.nonce, job.signed.ts) && job.signed.nonce !in Young(s.nonces, job.take)
    requires job.verify <= job.take <= s.clock <= now && now - job.verify <= 59 * SECOND
    requires Unix(job.verify) <= job.signed.ts + MAX_SKEW_SECS && job.signed.ts <= Unix(job.verify) + MAX_SKEW_SECS
    ensures CountTaken(s.h, job.signed.nonce, job.signed.ts) == 0
    ensures LastTaken(s.h, job.signed.nonce).Some? ==> LastTaken(s.h, job.signed.nonce).value <= job.verify
    ensures job.take >= (job.signed.ts - MAX_SKEW_SECS) * SECOND
  {
    hide LastTaken, CountTaken;
    var young := s.(nonces := Young(s.nonces, job.take), clock := now);
    YoungKeeps(s, young, job.take, job.signed.nonce, job.signed.ts);
    SkewBounds(job.verify, if job.take <= now then now else job.take, job.signed.ts);
    SkewBounds(job.verify, job.take, job.signed.ts);
  }

  lemma TakeKeeps(s: Store, t: Store, job: Job, now: Time, nonce: MsgNonce, ts: u64)
    requires Remembers(s, nonce, ts) && Remembers(s, job.signed.nonce, job.signed.ts)
    requires Remembers(s, job.signed.nonce, ts)
    requires job.signed.nonce !in Young(s.nonces, job.take)
    requires job.verify <= job.take <= s.clock <= now && now - job.verify <= 59 * SECOND
    requires Unix(job.verify) <= job.signed.ts + MAX_SKEW_SECS && job.signed.ts <= Unix(job.verify) + MAX_SKEW_SECS
    requires t.h == s.h + [Taken(job.signed.nonce, job.signed.ts, job.verify, job.take)] && t.clock == now
    requires t.nonces == Young(s.nonces, job.take)[job.signed.nonce := job.take]
    ensures Remembers(t, nonce, ts)
  {
    hide LastTaken, CountTaken;
    TakingIsNew(s, job, now);
    LastTakenSnoc(s.h, Taken(job.signed.nonce, job.signed.ts, job.verify, job.take), nonce);
    CountTakenSnoc(s.h, Taken(job.signed.nonce, job.signed.ts, job.verify, job.take), nonce, ts);
    YoungKeeps(s, s.(nonces := Young(s.nonces, job.take), clock := now), job.take, nonce, ts);
  }

  /** What routing owes is no call, takes no nonce, puts nothing but the message, and never twice in one inbox. */
  ghost predicate TodoOk(todo: seq<Task>) {
    && (forall i :: 0 <= i < |todo| && todo[i].Note? ==>
          !todo[i].event.Called? && !todo[i].event.Taken? && !todo[i].event.Put?)
    && forall i, j :: 0 <= i < j < |todo| && todo[i].Deliver? ==> todo[i] != todo[j]
  }

  ghost predicate StageOk(w: Wire, stage: Stage, clock: Time) {
    JobOk(w, stage.job, clock) && (stage.Sending? ==> TodoOk(stage.todo))
  }

  ghost predicate StagesOk(w: Wire, s: Store) {
    forall id :: id in s.at ==> StageOk(w, s.at[id], s.clock)
  }

  lemma CheckedInSkew(w: Wire, h: History, path: Path, body: bytes, now: Time)
    requires Check(w, h, path, body, now).Some?
    ensures var admitted := Check(w, h, path, body, now).value;
            JobOk(w, Job(path, body, admitted.0, admitted.1, now, now), now)
  {
    hide DeviceOf, SigningBytes;
  }

  lemma TasksOk(w: Wire, h: History, job: Job, now: Time)
    ensures TodoOk(Tasks(w, h, job, now))
  {
    if job.payload.RevokeMsg? {
      InterestedExact(h, job.payload.fid, now, Zeros(16));
    }
  }

  lemma StepStages(w: Wire, s: Store, turn: Turn, now: Time)
    requires StagesOk(w, s) && s.clock <= now
    ensures StagesOk(w, Next(w, s, turn, now))
  {
    hide Check, Tasks, TodoOk, Young, Unix;
    var t := Next(w, s, turn, now);
    forall id | id in t.at
      ensures StageOk(w, t.at[id], now)
    {
      if id in s.at {
        StageLater(w, s.at[id], s.clock, now);
      }
      match turn
      case Begin(_, path, body) =>
        if Check(w, s.h, path, body, now).Some? {
          CheckedInSkew(w, s.h, path, body, now);
        }
      case Aim(i) =>
        if i == id && s.at[i].Claimed? {
          TasksOk(w, s.h, s.at[i].job, now);
        }
      case Send(i, _) =>
        if i == id && s.at[i].Sending? && s.at[i].todo != [] {
          TodoRest(s.at[i].todo);
        }
      case _ =>
    }
  }

  lemma StageLater(w: Wire, stage: Stage, clock: Time, now: Time)
    requires StageOk(w, stage, clock) && clock <= now
    ensures StageOk(w, stage, now)
  {
    hide TodoOk, Unix;
  }

  lemma TodoRest(todo: seq<Task>)
    requires TodoOk(todo) && todo != []
    ensures TodoOk(todo[1..])
    ensures todo[0].Note? ==> !todo[0].event.Called? && !todo[0].event.Taken? && !todo[0].event.Put?
    ensures todo[0].Deliver? ==> todo[0] !in todo[1..]
  {
  }

  /** What one turn appends, if anything. */
  lemma Appended(w: Wire, s: Store, turn: Turn, now: Time) returns (e: Event)
    requires StagesOk(w, s)
    ensures var t := Next(w, s, turn, now);
            && t.clock == now && (t.h == s.h || t.h == s.h + [e])
            && (!turn.TakeNonce? ==> t.nonces == s.nonces && !e.Taken?)
            && (!turn.TakeQuota? ==> t.calls == s.calls && !e.Called?)
            && (e.Put? && t.h != s.h ==>
                  && turn.Send? && turn.id in s.at && s.at[turn.id].Sending? && s.at[turn.id].todo != []
                  && s.at[turn.id].todo[0] == Deliver(e.inbox) && e.envelope.body == s.at[turn.id].job.body)
  {
    hide Check, Tasks, Young, TodoOk, Unix;
    var t := Next(w, s, turn, now);
    e := if |t.h| > |s.h| then t.h[|s.h|] else Drained(Owner([]), now);
    if turn.Send? && turn.id in s.at && s.at[turn.id].Sending? && s.at[turn.id].todo != [] {
      assert StageOk(w, s.at[turn.id], s.clock);
      TodoRest(s.at[turn.id].todo);
    }
  }

  lemma StepNoReplay(w: Wire, s: Store, turn: Turn, now: Time)
    requires NoneReplayed(s) && StagesOk(w, s) && Punctual(s, turn, now)
    ensures NoneReplayed(Next(w, s, turn, now))
  {
    hide Remembers, Check, Tasks, Young, TodoOk, Unix;
    var t := Next(w, s, turn, now);
    var e := Appended(w, s, turn, now);
    forall nonce, ts: u64
      ensures Remembers(t, nonce, ts)
    {
      assert Remembers(s, nonce, ts);
      if turn.TakeNonce? && turn.id in s.at && s.at[turn.id].Paid? {
        var job := s.at[turn.id].job;
        assert StageOk(w, s.at[turn.id], s.clock);
        if job.signed.nonce in Young(s.nonces, job.take) {
          YoungKeeps(s, t, job.take, nonce, ts);
        } else {
          assert Remembers(s, job.signed.nonce, job.signed.ts) && Remembers(s, job.signed.nonce, ts);
          TakeKeeps(s, t, job, now, nonce, ts);
        }
      } else {
        OtherKeeps(s, t, if e.Taken? then Drained(Owner([]), now) else e, nonce, ts);
      }
    }
  }

  lemma {:induction false} RunHolds(w: Wire, turns: Turns)
    requires AllPunctual(w, turns)
    ensures NoneReplayed(RunTurns(w, turns)) && StagesOk(w, RunTurns(w, turns))
  {
    if turns == [] {
      EmptyHolds(w);
    } else {
      hide NoneReplayed, StagesOk, Next, Punctual;
      var n := |turns| - 1;
      PunctualBefore(w, turns);
      RunHolds(w, turns[..n]);
      assert Punctual(RunTurns(w, turns[..n]), turns[n].0, turns[n].1);
      PunctualClock(RunTurns(w, turns[..n]), turns[n].0, turns[n].1);
      StepNoReplay(w, RunTurns(w, turns[..n]), turns[n].0, turns[n].1);
      StepStages(w, RunTurns(w, turns[..n]), turns[n].0, turns[n].1);
    }
  }

  lemma EmptyHolds(w: Wire)
    ensures NoneReplayed(EMPTY) && StagesOk(w, EMPTY)
  {
  }

  lemma PunctualClock(s: Store, turn: Turn, now: Time)
    requires Punctual(s, turn, now)
    ensures s.clock <= now
  {
  }

  lemma PunctualBefore(w: Wire, turns: Turns)
    requires AllPunctual(w, turns) && turns != []
    ensures AllPunctual(w, turns[..|turns| - 1])
  {
    hide Punctual, Next;
    var n := |turns| - 1;
    forall i | 0 <= i < n
      ensures Punctual(RunTurns(w, turns[..n][..i]), turns[..n][i].0, turns[..n][i].1)
    {
      assert turns[..n][..i] == turns[..i];
    }
  }

  /** However the handlers interleave, no two accepted submissions ever carry the same time and nonce, if
      each handler has the lock to take its nonce within 59 s of the reading it verified against. */
  lemma NoReplayInterleaved(w: Wire, turns: Turns, nonce: MsgNonce, ts: u64)
    requires AllPunctual(w, turns)
    ensures CountTaken(RunTurns(w, turns).h, nonce, ts) <= 1
  {
    RunHolds(w, turns);
    assert Remembers(RunTurns(w, turns), nonce, ts);
  }

  // ---------------------------------------------------------------- one copy

  /** A handler that has taken the nonce of these bytes and may still put them somewhere. */
  ghost predicate Carries(s: Store, id: nat, body: bytes) {
    id in s.at && (s.at[id].Claimed? || s.at[id].Sending?) && s.at[id].job.body == body
  }

  /** It has not put them in this inbox and may do so yet. */
  ghost predicate MayPut(s: Store, id: nat, body: bytes, inbox: Inbox) {
    Carries(s, id, body) && (s.at[id].Claimed? || Deliver(inbox) in s.at[id].todo)
  }

  ghost predicate TakenFor(w: Wire, s: Store, body: bytes) {
    w.decode(body).Some? && CountTaken(s.h, w.decode(body).value.nonce, w.decode(body).value.ts) > 0
  }

  /** Of these bytes there is at most one copy in each inbox and none where one may still be put; at most
      one handler carries them; and there is neither before their nonce was taken. */
  ghost predicate OneCopyOf(w: Wire, s: Store, body: bytes) {
    && (forall inbox :: CountPut(s.h, inbox, body) <= (if TakenFor(w, s, body) then 1 else 0))
    && (forall id :: Carries(s, id, body) ==> TakenFor(w, s, body))
    && (forall i, j :: Carries(s, i, body) && Carries(s, j, body) ==> i == j)
    && (forall id, inbox :: MayPut(s, id, body, inbox) ==> CountPut(s.h, inbox, body) == 0)
  }

  lemma CountPutSnoc(h: History, e: Event, inbox: Inbox, body: bytes)
    ensures CountPut(h + [e], inbox, body)
         == CountPut(h, inbox, body) + if e.Put? && e.inbox == inbox && e.envelope.body == body then 1 else 0
  {
    assert Before(h + [e]) == h && Last(h + [e]) == e;
  }

  /** A turn that starts no carrier and puts nothing keeps the one copy. */
  lemma QuietTurn(w: Wire, s: Store, t: Store, e: Event, body: bytes)
    requires OneCopyOf(w, s, body) && !e.Put?
    requires t.h == s.h || t.h == s.h + [e]
    requires forall id, inbox :: MayPut(t, id, body, inbox) ==> MayPut(s, id, body, inbox)
    requires forall id :: Carries(t, id, body) ==> Carries(s, id, body)
    ensures OneCopyOf(w, t, body)
  {
    hide CountPut, CountTaken, Carries, MayPut;
    forall inbox
      ensures CountPut(t.h, inbox, body) == CountPut(s.h, inbox, body)
    {
      CountPutSnoc(s.h, e, inbox, body);
    }
    if w.decode(body).Some? {
      CountTakenSnoc(s.h, e, w.decode(body).value.nonce, w.decode(body).value.ts);
    }
  }

  /** Taking a nonce makes one carrier, and there was no copy and no carrier before. */
  lemma ClaimTurn(w: Wire, s: Store, t: Store, id: nat, e: Event, body: bytes)
    requires OneCopyOf(w, s, body) && e.Taken? && t.h == s.h + [e]
    requires id in s.at && s.at[id].Paid? && t.at == s.at[id := Claimed(s.at[id].job)]
    requires w.decode(s.at[id].job.body) == Some(s.at[id].job.signed)
    requires e.nonce == s.at[id].job.signed.nonce && e.ts == s.at[id].job.signed.ts
    requires CountTaken(s.h, e.nonce, e.ts) == 0
    ensures OneCopyOf(w, t, body)
  {
    hide CountPut, CountTaken;
    forall inbox
      ensures CountPut(t.h, inbox, body) == CountPut(s.h, inbox, body)
    {
      CountPutSnoc(s.h, e, inbox, body);
    }
    if w.decode(body).Some? {
      CountTakenSnoc(s.h, e, w.decode(body).value.nonce, w.decode(body).value.ts);
    }
    assert forall k, inbox :: MayPut(t, k, body, inbox) ==> k == id || MayPut(s, k, body, inbox);
    assert forall k :: Carries(t, k, body) ==> k == id || Carries(s, k, body);
    assert TakenFor(w, s, body) ==> TakenFor(w, t, body);
    if s.at[id].job.body == body {
      assert !TakenFor(w, s, body) && TakenFor(w, t, body);
      assert forall k :: !Carries(s, k, body);
      assert forall inbox :: CountPut(s.h, inbox, body) == 0;
    } else {
      assert !Carries(t, id, body);
    }
  }

  /** Delivering puts the one copy where it was owed, and it is owed there no longer. */
  lemma DeliverTurn(w: Wire, s: Store, t: Store, id: nat, e: Event, body: bytes)
    requires OneCopyOf(w, s, body) && e.Put? && t.h == s.h + [e]
    requires id in s.at && s.at[id].Sending? && s.at[id].todo != [] && TodoOk(s.at[id].todo)
    requires s.at[id].todo[0] == Deliver(e.inbox) && e.envelope.body == s.at[id].job.body
    requires t.at == s.at[id := Sending(s.at[id].job, s.at[id].todo[1..])]
    ensures OneCopyOf(w, t, body)
  {
    hide CountPut, CountTaken, TodoOk;
    TodoRest(s.at[id].todo);
    if w.decode(body).Some? {
      CountTakenSnoc(s.h, e, w.decode(body).value.nonce, w.decode(body).value.ts);
    }
    assert forall k :: Carries(t, k, body) <==> Carries(s, k, body);
    if e.envelope.body == body {
      assert Carries(s, id, body) && MayPut(s, id, body, e.inbox);
    }
    forall inbox
      ensures CountPut(t.h, inbox, body)
           == CountPut(s.h, inbox, body) + if e.inbox == inbox && e.envelope.body == body then 1 else 0
    {
      CountPutSnoc(s.h, e, inbox, body);
    }
    forall k, inbox | MayPut(t, k, body, inbox)
      ensures CountPut(t.h, inbox, body) == 0
    {
      assert MayPut(s, k, body, inbox);
    }
  }

  lemma StepOneCopy(w: Wire, s: Store, turn: Turn, now: Time, body: bytes)
    requires OneCopyOf(w, s, body) && NoneReplayed(s) && StagesOk(w, s) && Punctual(s, turn, now)
    ensures OneCopyOf(w, Next(w, s, turn, now), body)
  {
    hide OneCopyOf, Remembers, Check, Tasks, Young, TodoOk, Unix, CountTaken, CountPut;
    var t := Next(w, s, turn, now);
    var e := Appended(w, s, turn, now);
    if turn.TakeNonce? && turn.id in s.at && s.at[turn.id].Paid? && t.h != s.h {
      var job := s.at[turn.id].job;
      assert StageOk(w, s.at[turn.id], s.clock);
      assert Remembers(s, job.signed.nonce, job.signed.ts);
      TakingIsNew(s, job, now);
      ClaimTurn(w, s, t, turn.id, t.h[|s.h|], body);
    } else if e.Put? && t.h != s.h {
      assert StageOk(w, s.at[turn.id], s.clock);
      DeliverTurn(w, s, t, turn.id, e, body);
    } else {
      CarriersStay(w, s, turn, now, body);
      QuietTurn(w, s, t, if e.Put? then Drained(Owner([]), now) else e, body);
    }
  }

  lemma CarriersStay(w: Wire, s: Store, turn: Turn, now: Time, body: bytes)
    requires !(turn.TakeNonce? && turn.id in s.at && s.at[turn.id].Paid? && Next(w, s, turn, now).h != s.h)
    ensures var t := Next(w, s, turn, now);
            && (forall id, inbox :: MayPut(t, id, body, inbox) ==> MayPut(s, id, body, inbox))
            && forall id :: Carries(t, id, body) ==> Carries(s, id, body)
  {
    hide Check, Tasks, Young, Unix;
  }

  lemma {:induction false} RunOneCopy(w: Wire, turns: Turns, body: bytes)
    requires AllPunctual(w, turns)
    ensures OneCopyOf(w, RunTurns(w, turns), body)
  {
    if turns != [] {
      hide NoneReplayed, StagesOk, Next, Punctual, OneCopyOf;
      var n := |turns| - 1;
      PunctualBefore(w, turns);
      RunHolds(w, turns[..n]);
      RunOneCopy(w, turns[..n], body);
      assert Punctual(RunTurns(w, turns[..n]), turns[n].0, turns[n].1);
      StepOneCopy(w, RunTurns(w, turns[..n]), turns[n].0, turns[n].1, body);
    }
  }

  /** However the handlers interleave and however often the same bytes are posted, no inbox ever gets a
      second copy of them. */
  lemma OneCopyInterleaved(w: Wire, turns: Turns, inbox: Inbox, body: bytes)
    requires AllPunctual(w, turns)
    ensures CountPut(RunTurns(w, turns).h, inbox, body) <= 1
  {
    RunOneCopy(w, turns, body);
  }
}
