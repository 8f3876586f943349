/** The relay's quota under handlers that run side by side (`take_quota` in `apps/relay/src/state.rs`). A
    handler reads the clock before it has the lock, so an older reading may come behind a newer one. */
module RelayQuota {
  import opened Bytes
  import opened Proto
  import opened RelaySpec
  import opened RelayRuns
  import opened RelayThreads

  /** The clock never goes back, and a handler has the lock to take its quota within this delay of reading
      the clock. */
  ghost predicate InTime(s: Store, turn: Turn, now: Time, delay: nat) {
    && s.clock <= now
    && (turn.TakeQuota? && turn.id in s.at && s.at[turn.id].Timed? ==> now - s.at[turn.id].job.take <= delay)
  }

  ghost predicate AllInTime(w: Wire, turns: Turns, delay: nat) {
    forall i :: 0 <= i < |turns| ==> InTime(RunTurns(w, turns[..i]), turns[i].0, turns[i].1, delay)
  }

  // ---------------------------------------------------------------- the bound

  /** What was dropped from a device's remembered calls came first, and more than an hour ago. */
  ghost predicate KeepsEnd(full: seq<Time>, kept: seq<Time>, clock: Time) {
    && |kept| <= |full| && full[|full| - |kept|..] == kept
    && forall i :: 0 <= i < |full| - |kept| ==> full[i] + HOUR < clock
  }

  ghost predicate Remembering(s: Store, kid: Kid) {
    KeepsEnd(Calls(s.h, kid), CallsOf(s.calls, kid), s.clock)
  }

  lemma {:induction false} TrimKeepsEnd(full: seq<Time>, kept: seq<Time>, take: Time, clock: Time)
    requires KeepsEnd(full, kept, clock) && take <= clock
    ensures KeepsEnd(full, Trim(kept, take), clock)
  {
    if kept != [] && take - kept[0] > HOUR {
      assert kept[1..] == full[|full| - |kept| + 1..];
      assert full[|full| - |kept|] == kept[0];
      TrimKeepsEnd(full, kept[1..], take, clock);
    }
  }

  lemma KeepsEndLater(full: seq<Time>, kept: seq<Time>, clock: Time, now: Time)
    requires KeepsEnd(full, kept, clock) && clock <= now
    ensures KeepsEnd(full, kept, now)
  {
  }

  lemma KeepsEndMore(full: seq<Time>, kept: seq<Time>, clock: Time, take: Time)
    requires KeepsEnd(full, kept, clock)
    ensures KeepsEnd(full + [take], kept + [take], clock)
  {
    var d := |full| - |kept|;
    assert (full + [take])[d..] == full[d..] + [take];
  }

  lemma {:induction false} CountInAppend(a: seq<Time>, b: seq<Time>, lo: int, hi: int)
    ensures CountIn(a + b, lo, hi) == CountIn(a, lo, hi) + CountIn(b, lo, hi)
  {
    if b == [] {
      assert a + b == a;
    } else {
      CountInAppend(a, b[..|b| - 1], lo, hi);
      assert (a + b)[..|a + b| - 1] == a + b[..|b| - 1];
    }
  }

  lemma {:induction false} NoneIn(times: seq<Time>, lo: int, hi: int)
    requires forall i :: 0 <= i < |times| ==> !(lo <= times[i] <= hi)
    ensures CountIn(times, lo, hi) == 0
  {
    if times != [] {
      NoneIn(times[..|times| - 1], lo, hi);
    }
  }

  lemma {:induction false} CountInAtMost(times: seq<Time>, lo: int, hi: int)
    ensures CountIn(times, lo, hi) <= |times|
  {
    if times != [] {
      CountInAtMost(times[..|times| - 1], lo, hi);
    }
  }

  /** A window that starts less than an hour before now sees only what is still remembered. */
  lemma WindowIsKept(full: seq<Time>, kept: seq<Time>, now: Time, lo: int, hi: int)
    requires KeepsEnd(full, kept, now) && now - HOUR <= lo
    ensures CountIn(full, lo, hi) == CountIn(kept, lo, hi)
  {
    var d := |full| - |kept|;
    assert full == full[..d] + kept;
    CountInAppend(full[..d], kept, lo, hi);
    NoneIn(full[..d], lo, hi);
  }

  /** One call under quota keeps the rate of every window that the delay leaves room for. */
  lemma AcceptKeepsRate(full: seq<Time>, kept: seq<Time>, take: Time, now: Time, delay: nat, span: nat, limit: nat)
    requires Rated(full, span, limit) && KeepsEnd(full, kept, now)
    requires take <= now <= take + delay && span + delay <= HOUR
    requires CountWithin(kept, take, span) < limit || |kept| < limit
    ensures Rated(full + [take], span, limit)
  {
    assert (full + [take])[..|full|] == full;
    forall lo, hi | hi - lo <= span
      ensures CountIn(full + [take], lo, hi) <= limit
    {
      assert CountIn(full, lo, hi) <= limit;
      if lo <= take <= hi {
        WindowIsKept(full, kept, now, lo, hi);
        WindowWithin(kept, lo, hi, take, span);
        CountInAtMost(kept, lo, hi);
      }
    }
  }

  /** The rates that hold with this delay. */
  ghost predicate RatesHold(s: Store, kid: Kid, delay: nat) {
    && (delay <= HOUR ==> Rated(Calls(s.h, kid), HOUR - delay, RATE_PER_HOUR))
    && (delay <= HOUR - MINUTE ==> Rated(Calls(s.h, kid), MINUTE, RATE_PER_MINUTE))
  }

  lemma CallsSnoc(h: History, e: Event, kid: Kid)
    ensures Calls(h + [e], kid) == Calls(h, kid) + if e.Called? && e.kid == kid then [e.at] else []
  {
    assert Before(h + [e]) == h && Last(h + [e]) == e;
  }

  lemma StepRates(w: Wire, s: Store, turn: Turn, now: Time, kid: Kid, delay: nat)
    requires StagesOk(w, s) && InTime(s, turn, now, delay) && Remembering(s, kid) && RatesHold(s, kid, delay)
    ensures Remembering(Next(w, s, turn, now), kid) && RatesHold(Next(w, s, turn, now), kid, delay)
  {
    hide Calls, Rated, CountWithin, Check, Tasks, Young, TodoOk, Unix, KeepsEnd, Trim;
    var t := Next(w, s, turn, now);
    KeepsEndLater(Calls(s.h, kid), CallsOf(s.calls, kid), s.clock, now);
    if turn.TakeQuota? && turn.id in s.at && s.at[turn.id].Timed? {
      assert StageOk(w, s.at[turn.id], s.clock);
      QuotaTurn(w, s, turn, now, kid, delay);
    } else {
      OtherTurn(w, s, turn, now, kid);
    }
  }

  lemma OtherTurn(w: Wire, s: Store, turn: Turn, now: Time, kid: Kid)
    requires StagesOk(w, s) && !(turn.TakeQuota? && turn.id in s.at && s.at[turn.id].Timed?)
    ensures var t := Next(w, s, turn, now);
            t.calls == s.calls && t.clock == now && Calls(t.h, kid) == Calls(s.h, kid)
  {
    hide Calls, StagesOk;
    var e := Appended(w, s, turn, now);
    CallsSnoc(s.h, e, kid);
    if turn.TakeQuota? {
      IdleQuota(w, s, turn, now);
    }
  }

  lemma IdleQuota(w: Wire, s: Store, turn: Turn, now: Time)
    requires turn.TakeQuota? && !(turn.id in s.at && s.at[turn.id].Timed?)
    ensures Next(w, s, turn, now) == s.(clock := now)
  {
  }

  lemma QuotaTurn(w: Wire, s: Store, turn: Turn, now: Time, kid: Kid, delay: nat)
    requires turn.TakeQuota? && turn.id in s.at && s.at[turn.id].Timed?
    requires var take := s.at[turn.id].job.take; take <= s.clock <= now <= take + delay
    requires KeepsEnd(Calls(s.h, kid), CallsOf(s.calls, kid), now) && RatesHold(s, kid, delay)
    ensures Remembering(Next(w, s, turn, now), kid) && RatesHold(Next(w, s, turn, now), kid, delay)
  {
    hide Calls, Rated, CountWithin, KeepsEnd, Trim, Unix;
    var job := s.at[turn.id].job;
    var full := Calls(s.h, kid);
    if job.signed.kid == kid {
      var kept := Trim(CallsOf(s.calls, kid), job.take);
      TrimKeepsEnd(full, CallsOf(s.calls, kid), job.take, now);
      CallsSnoc(s.h, Called(kid, job.take), kid);
      if !OverQuota(kept, job.take) {
        KeepsEndMore(full, kept, now, job.take);
        if delay <= HOUR {
          AcceptKeepsRate(full, kept, job.take, now, delay, HOUR - delay, RATE_PER_HOUR);
        }
        if delay <= HOUR - MINUTE {
          AcceptKeepsRate(full, kept, job.take, now, delay, MINUTE, RATE_PER_MINUTE);
        }
      }
    } else {
      CallsSnoc(s.h, Called(job.signed.kid, job.take), kid);
      assert full + [] == full;
    }
  }

  lemma InTimeBefore(w: Wire, turns: Turns, delay: nat)
    requires AllInTime(w, turns, delay) && turns != []
    ensures AllInTime(w, turns[..|turns| - 1], delay)
  {
    hide InTime, Next;
    var n := |turns| - 1;
    forall i | 0 <= i < n
      ensures InTime(RunTurns(w, turns[..n][..i]), turns[..n][i].0, turns[..n][i].1, delay)
    {
      assert turns[..n][..i] == turns[..i];
    }
  }

  lemma StartsUnder(w: Wire, kid: Kid, delay: nat)
    ensures StagesOk(w, EMPTY) && Remembering(EMPTY, kid) && RatesHold(EMPTY, kid, delay)
  {
  }

  lemma {:induction false} RunRates(w: Wire, turns: Turns, kid: Kid, delay: nat)
    requires AllInTime(w, turns, delay)
    ensures var s := RunTurns(w, turns); StagesOk(w, s) && Remembering(s, kid) && RatesHold(s, kid, delay)
  {
    if turns == [] {
      StartsUnder(w, kid, delay);
    } else {
      hide StagesOk, Remembering, RatesHold, Next;
      var n := |turns| - 1;
      InTimeBefore(w, turns, delay);
      RunRates(w, turns[..n], kid, delay);
      var s := RunTurns(w, turns[..n]);
      assert InTime(s, turns[n].0, turns[n].1, delay);
      StepRates(w, s, turns[n].0, turns[n].1, kid, delay);
      StepStages(w, s, turns[n].0, turns[n].1);
    }
  }

  /** However the handlers interleave, if each has the lock within this delay of its reading: any closed hour
      less the delay holds at most 300 accepted calls of a device, and any closed minute at most 30 while the
      delay is under 59 minutes. */
  lemma QuotaInterleaved(w: Wire, turns: Turns, kid: Kid, delay: nat)
    requires AllInTime(w, turns, delay)
    ensures delay <= 3600 * SECOND ==> Rated(Calls(RunTurns(w, turns).h, kid), 3600 * SECOND - delay, 300)
    ensures delay <= 3540 * SECOND ==> Rated(Calls(RunTurns(w, turns).h, kid), 60 * SECOND, 30)
  {
    hide Rated;
    RunRates(w, turns, kid, delay);
  }

  // ---------------------------------------------------------------- the delay matters

  /** A device that can announce itself at any time of these two hours. */
  ghost predicate AnnouncesAt(w: Wire, body: Time -> bytes, kid: Kid, base: Time) {
    forall h, t :: base <= t <= base + 2 * HOUR ==>
      Check(w, h, Devices, body(t), t).Some? && Check(w, h, Devices, body(t), t).value.0.kid == kid
  }

  /** There is such a device on some wire: its messages are as many bytes long as their time. */
  lemma SomeDeviceAnnounces() returns (w: Wire, body: Time -> bytes)
    ensures AnnouncesAt(w, body, Zeros(16), 0)
  {
    body := (t: Time) => seq(Unix(t), _ => 0);
    w := Wire(b => if |b| <= MAX_BODY_LEN then Some(Signed([], Zeros(16), Announce, |b|, Zeros(16), [])) else None,
              _ => Some(AnnounceMsg(Zeros(32), Zeros(32), None)), _ => Zeros(32), (_, _, _) => true, _ => Zeros(16));
    forall h, t | 0 <= t <= 2 * HOUR
      ensures Check(w, h, Devices, body(t), t).Some? && Check(w, h, Devices, body(t), t).value.0.kid == Zeros(16)
    {
      assert Unix(t) <= 7200;
    }
  }

  /** Thirty calls at once, every 61 seconds. */
  function CallTime(base: Time, i: nat): Time {
    base + i / 30 * (61 * SECOND)
  }

  function CallTimes(base: Time, n: nat): seq<Time> {
    seq(n, i requires 0 <= i < n => CallTime(base, i))
  }

  lemma CallTimesMore(base: Time, n: nat)
    ensures CallTimes(base, n + 1) == CallTimes(base, n) + [CallTime(base, n)]
    ensures |CallTimes(base, n)| == n && CallTimes(base, n + 1)[..n] == CallTimes(base, n)
  {
  }

  lemma CallTimeBounds(base: Time, i: nat)
    ensures base <= CallTime(base, i) <= CallTime(base, i + 1)
    ensures i < 300 ==> CallTime(base, i) <= base + 549 * SECOND
    ensures i < 30 ==> CallTime(base, i) == base
    ensures 30 <= i ==> CallTime(base, i) >= base + 61 * SECOND
  {
    assert i / 30 <= (i + 1) / 30;
  }

  lemma FarApart(base: Time, j: nat, i: nat)
    requires j / 30 < i / 30
    ensures CallTime(base, i) - CallTime(base, j) > MINUTE
  {
  }

  /** When the next call comes, fewer than thirty came within the minute. */
  lemma {:induction false} MinuteIsFree(base: Time, n: nat, i: nat)
    requires n <= i
    ensures CountWithin(CallTimes(base, n), CallTime(base, i), MINUTE)
         <= if n <= i / 30 * 30 then 0 else n - i / 30 * 30
  {
    hide CallTime;
    if n > 0 {
      MinuteIsFree(base, n - 1, i);
      CallTimesMore(base, n - 1);
      if n <= i / 30 * 30 {
        FarApart(base, n - 1, i);
      }
    }
  }

  lemma {:induction false} NoneWithin(times: seq<Time>, now: Time, span: nat)
    requires forall i :: 0 <= i < |times| ==> now - times[i] > span
    ensures CountWithin(times, now, span) == 0
  {
    if times != [] {
      NoneWithin(times[..|times| - 1], now, span);
    }
  }

  lemma TrimNothing(times: seq<Time>, now: Time)
    requires times != [] ==> now - times[0] <= HOUR
    ensures Trim(times, now) == times
  {
  }

  lemma {:induction false} TrimFront(times: seq<Time>, now: Time, k: nat)
    requires k < |times| && (forall i :: 0 <= i < k ==> now - times[i] > HOUR) && now - times[k] <= HOUR
    ensures Trim(times, now) == times[k..]
  {
    if k > 0 {
      TrimFront(times[1..], now, k - 1);
      assert times[1..][k - 1..] == times[k..];
    } else {
      assert times[0..] == times;
    }
  }

  lemma OneTurn(w: Wire, turns: Turns, turn: Turn, now: Time, delay: nat)
    requires AllInTime(w, turns, delay) && InTime(RunTurns(w, turns), turn, now, delay)
    ensures AllInTime(w, turns + [(turn, now)], delay)
    ensures RunTurns(w, turns + [(turn, now)]) == Next(w, RunTurns(w, turns), turn, now)
  {
    hide Next, InTime;
    var more := turns + [(turn, now)];
    assert more[..|turns|] == turns;
    forall i | 0 <= i < |more|
      ensures InTime(RunTurns(w, more[..i]), more[i].0, more[i].1, delay)
    {
      assert i < |turns| ==> more[..i] == turns[..i];
    }
  }

  /** A handler of this device that has read the clock. */
  ghost predicate Waits(s: Store, id: nat, kid: Kid, take: Time) {
    id in s.at && s.at[id].Timed? && s.at[id].job.signed.kid == kid && s.at[id].job.take == take
  }

  /** A new handler verifies its message and reads the clock. */
  lemma Arrives(w: Wire, turns: Turns, id: nat, body: Time -> bytes, kid: Kid, base: Time, t: Time, delay: nat)
    returns (more: Turns)
    requires AllInTime(w, turns, delay) && AnnouncesAt(w, body, kid, base) && base <= t <= base + 2 * HOUR
    requires id !in RunTurns(w, turns).at && RunTurns(w, turns).clock <= t
    ensures AllInTime(w, more, delay)
    ensures var s, m := RunTurns(w, turns), RunTurns(w, more);
            && m.h == s.h && m.calls == s.calls && m.clock == t && Waits(m, id, kid, t)
            && m.at.Keys == s.at.Keys + {id} && forall i :: i in s.at ==> m.at[i] == s.at[i]
  {
    hide Check, RunTurns, AllInTime;
    var s := RunTurns(w, turns);
    assert Check(w, s.h, Devices, body(t), t).Some? && Check(w, s.h, Devices, body(t), t).value.0.kid == kid;
    OneTurn(w, turns, Begin(id, Devices, body(t)), t, delay);
    var one := turns + [(Begin(id, Devices, body(t)), t)];
    OneTurn(w, one, ReadClock(id), t, delay);
    more := one + [(ReadClock(id), t)];
  }

  /** It takes its quota. */
  lemma Pays(w: Wire, turns: Turns, id: nat, kid: Kid, take: Time, now: Time, delay: nat) returns (more: Turns)
    requires AllInTime(w, turns, delay) && Waits(RunTurns(w, turns), id, kid, take)
    requires RunTurns(w, turns).clock <= now <= take + delay
    requires !OverQuota(Trim(CallsOf(RunTurns(w, turns).calls, kid), take), take)
    ensures AllInTime(w, more, delay)
    ensures var s, m := RunTurns(w, turns), RunTurns(w, more);
            && Calls(m.h, kid) == Calls(s.h, kid) + [take] && m.clock == now
            && CallsOf(m.calls, kid) == Trim(CallsOf(s.calls, kid), take) + [take]
            && m.at.Keys == s.at.Keys && forall i :: i in s.at && i != id ==> m.at[i] == s.at[i]
  {
    hide RunTurns, AllInTime, Trim, OverQuota, Calls;
    OneTurn(w, turns, TakeQuota(id), now, delay);
    more := turns + [(TakeQuota(id), now)];
    CallsSnoc(RunTurns(w, turns).h, Called(kid, take), kid);
  }

  /** So many calls of the device, and no other, have been accepted. */
  ghost predicate Filled(s: Store, kid: Kid, base: Time, n: nat) {
    && Calls(s.h, kid) == CallTimes(base, n) && CallsOf(s.calls, kid) == CallTimes(base, n)
    && s.clock <= CallTime(base, n) && (forall i :: i in s.at ==> i < n)
  }

  lemma {:induction false} Fills(w: Wire, body: Time -> bytes, kid: Kid, base: Time, n: nat, delay: nat)
    returns (turns: Turns)
    requires AnnouncesAt(w, body, kid, base) && n <= 300
    ensures AllInTime(w, turns, delay) && Filled(RunTurns(w, turns), kid, base, n)
  {
    hide AnnouncesAt, AllInTime, CallTime, CallTimes, Calls, OverQuota;
    if n == 0 {
      turns := [];
      NoCalls(w, kid, base, delay);
    } else {
      var t := CallTime(base, n - 1);
      var before := Fills(w, body, kid, base, n - 1, delay);
      CallTimeBounds(base, n - 1);
      var one := Arrives(w, before, n - 1, body, kid, base, t, delay);
      UnderQuota(base, n - 1);
      turns := Pays(w, one, n - 1, kid, t, t, delay);
      CallTimesMore(base, n - 1);
    }
  }

  lemma NoCalls(w: Wire, kid: Kid, base: Time, delay: nat)
    ensures AllInTime(w, [], delay) && Filled(RunTurns(w, []), kid, base, 0)
  {
  }

  lemma UnderQuota(base: Time, n: nat)
    requires n < 300
    ensures var t := CallTime(base, n);
            && Trim(CallTimes(base, n), t) == CallTimes(base, n) && !OverQuota(CallTimes(base, n), t)
  {
    CallTimeBounds(base, n);
    MinuteIsFree(base, n, n);
    TrimNothing(CallTimes(base, n), CallTime(base, n));
  }

  /** After an hour and a nanosecond the first thirty calls are forgotten. */
  lemma HourLater(base: Time)
    ensures var late := base + HOUR + 1;
            && Trim(CallTimes(base, 300), late) == CallTimes(base, 300)[30..]
            && !OverQuota(CallTimes(base, 300)[30..], late)
  {
    var late := base + HOUR + 1;
    var times := CallTimes(base, 300);
    forall i | 0 <= i < 300
      ensures times[i] <= base + 549 * SECOND && (i < 30 ==> times[i] == base) && (30 <= i ==> times[i] > base)
    {
      CallTimeBounds(base, i);
    }
    TrimFront(times, late, 30);
    NoneWithin(times[30..], late, MINUTE);
  }

  /** A reading from before that moment then finds room, although its own hour is full. */
  lemma StaleFindsRoom(base: Time, take: Time)
    requires base + 20 * MINUTE <= take <= base + HOUR
    ensures var kept := CallTimes(base, 300)[30..] + [base + HOUR + 1];
            Trim(kept, take) == kept && !OverQuota(kept, take)
  {
    var times := CallTimes(base, 300)[30..];
    var kept := times + [base + HOUR + 1];
    forall i | 0 <= i < 270
      ensures base <= times[i] <= base + 549 * SECOND
    {
      CallTimeBounds(base, 30 + i);
    }
    TrimNothing(kept, take);
    NoneWithin(times, take, MINUTE);
    assert kept[..270] == times;
  }

  lemma {:induction false} AllIn(times: seq<Time>, lo: int, hi: int)
    requires forall i :: 0 <= i < |times| ==> lo <= times[i] <= hi
    ensures CountIn(times, lo, hi) == |times|
  {
    if times != [] {
      AllIn(times[..|times| - 1], lo, hi);
    }
  }

  lemma OneTooMany(base: Time, take: Time)
    requires base + 20 * MINUTE <= take <= base + HOUR
    ensures CountIn(CallTimes(base, 300) + [base + HOUR + 1] + [take], base, take) == 301
  {
    var times := CallTimes(base, 300);
    forall i | 0 <= i < 300
      ensures base <= times[i] <= base + 549 * SECOND
    {
      CallTimeBounds(base, i);
    }
    AllIn(times, base, take);
    var one := times + [base + HOUR + 1];
    assert one[..300] == times && (one + [take])[..301] == one;
  }

  /** The hour less the delay is exact: with any delay up to forty minutes there are runs in which a window one
      nanosecond longer holds 301 accepted calls. Three hundred calls fill the hour; a handler that read the
      clock just after it lets the first of them be forgotten and goes ahead of one that read it before. */
  lemma QuotaDelayExact(w: Wire, body: Time -> bytes, kid: Kid, base: Time, delay: nat) returns (turns: Turns)
    requires AnnouncesAt(w, body, kid, base) && 1 <= delay <= 40 * MINUTE
    ensures AllInTime(w, turns, delay)
    ensures CountIn(Calls(RunTurns(w, turns).h, kid), base, base + (HOUR - delay + 1)) == 301
  {
    hide AnnouncesAt, AllInTime, CallTimes, Calls, OverQuota, Trim, RunTurns, Waits, CountIn;
    var take, late := base + (HOUR - delay + 1), base + HOUR + 1;
    var b := BothWait(w, body, kid, base, take, delay);
    HourLater(base);
    var c := Pays(w, b, 301, kid, late, late, delay);
    WaitsOn(RunTurns(w, b), RunTurns(w, c), 300, kid, take);
    StaleFindsRoom(base, take);
    turns := Pays(w, c, 300, kid, take, late, delay);
    OneTooMany(base, take);
  }

  /** The hour is full, and two more have read the clock: one just before its end, one just after. */
  lemma BothWait(w: Wire, body: Time -> bytes, kid: Kid, base: Time, take: Time, delay: nat) returns (b: Turns)
    requires AnnouncesAt(w, body, kid, base) && base + 20 * MINUTE <= take <= base + HOUR
    ensures AllInTime(w, b, delay)
    ensures var s := RunTurns(w, b);
            && Calls(s.h, kid) == CallTimes(base, 300) && CallsOf(s.calls, kid) == CallTimes(base, 300)
            && s.clock == base + HOUR + 1 && Waits(s, 300, kid, take) && Waits(s, 301, kid, base + HOUR + 1)
  {
    hide AnnouncesAt, AllInTime, CallTime, CallTimes, Calls, RunTurns, Waits;
    LastOfAll(base);
    var full := Fills(w, body, kid, base, 300, delay);
    var a := Arrives(w, full, 300, body, kid, base, take, delay);
    b := Arrives(w, a, 301, body, kid, base, base + HOUR + 1, delay);
    WaitsOn(RunTurns(w, a), RunTurns(w, b), 300, kid, take);
  }

  lemma WaitsOn(s: Store, t: Store, id: nat, kid: Kid, take: Time)
    requires Waits(s, id, kid, take) && (id in s.at ==> id in t.at && t.at[id] == s.at[id])
    ensures Waits(t, id, kid, take)
  {
  }

  lemma LastOfAll(base: Time)
    ensures CallTime(base, 300) == base + 610 * SECOND
  {
  }
}
