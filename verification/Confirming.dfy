/** When the system must verify the person before the key signs: the policy
    (`crates/zbacs-auth/src/policy.rs`) and the device signer that applies it to a run of writes
    (`DeviceUserOpSigner` in `apps/agent/src-tauri/src/chain.rs`). */
module Confirming {
  import opened Bytes
  import opened Permissions

  datatype Confirmation = NotRequired | OsUserVerification

  datatype Policy = Policy(editRequiresConfirmation: bool, burstLimit: u32, burstWindowSecs: u64) {

    /** `required`; the count is cut to 32 bits before it is compared. */
    function Required(permission: Permission, setting: Confirmation, recent: seq<u64>, now: u64): Confirmation {
      if setting == OsUserVerification then OsUserVerification
      else if editRequiresConfirmation && permission == Edit then OsUserVerification
      else if CountIn(recent, now - burstWindowSecs, now) % 0x1_0000_0000 >= burstLimit then OsUserVerification
      else NotRequired
    }
  }

  const DEFAULT_POLICY := Policy(true, 5, 600)

  /** How many of the times lie in the closed interval. A negative lower end does not matter: times
      are not negative, which is what the source's saturating subtraction relies on. */
  function CountIn(times: seq<u64>, from: int, to: int): (n: nat)
    ensures n <= |times|
  {
    if times == [] then 0
    else CountIn(times[..|times| - 1], from, to) + if from <= times[|times| - 1] <= to then 1 else 0
  }

  datatype Write = Register | Grant(permission: nat) | Revoke | BumpVersion

  function PermissionOf(code: nat): Permission {
    if code == 2 then Edit else ReadOnly
  }

  /** One signature that was made. */
  datatype Signing = Signing(write: Write, now: u64, confirmation: Confirmation)

  /** The times of the grants among the signatures. */
  function GrantTimes(history: seq<Signing>): (times: seq<u64>)
    ensures |times| <= |history|
  {
    if history == [] then []
    else
      var last := history[|history| - 1];
      GrantTimes(history[..|history| - 1]) + if last.write.Grant? then [last.now] else []
  }

  /** Signatures made one after the other under one policy, by a clock that never goes back. */
  ghost predicate Follows(p: Policy, setting: Confirmation, history: seq<Signing>) {
    && (forall i, j :: 0 <= i < j < |history| ==> history[i].now <= history[j].now)
    && forall i :: 0 <= i < |history| ==> Decided(p, setting, history, i)
  }

  ghost predicate Decided(p: Policy, setting: Confirmation, history: seq<Signing>, i: nat)
    requires i < |history|
  {
    var x := history[i];
    match x.write
    case Grant(code) => x.confirmation == p.Required(PermissionOf(code), setting, GrantTimes(history[..i]), x.now)
    case Register => x.confirmation == setting
    case Revoke => x.confirmation == setting
    case BumpVersion => x.confirmation == NotRequired
  }

  /** The device signer. */
  class Signer {
    const policy: Policy
    const setting: Confirmation
    var recent: seq<u64>
    ghost var history: seq<Signing>

    ghost predicate Valid()
      reads this
    {
      recent == GrantTimes(history) && Follows(policy, setting, history)
    }

    constructor (policy: Policy, setting: Confirmation)
      ensures Valid() && history == [] && this.policy == policy && this.setting == setting
    {
      this.policy, this.setting := policy, setting;
      recent, history := [], [];
    }

    /** `sign_user_op`. `signs` says whether the key signs at the confirmation asked for (the person
        may cancel); only a grant that was signed is remembered. */
    method SignUserOp(about: Write, now: u64, signs: Confirmation -> bool) returns (signed: Option<Confirmation>)
      requires Valid()
      requires forall i :: 0 <= i < |history| ==> history[i].now <= now
      modifies this
      ensures Valid()
      ensures match signed
              case Some(c) => signs(c) && history == old(history) + [Signing(about, now, c)]
              case None => history == old(history) && recent == old(recent)
    {
      var confirmation;
      match about {
        case Grant(code) =>
          confirmation := policy.Required(PermissionOf(code), setting, recent, now);
        case Register =>
          confirmation := setting;
        case Revoke =>
          confirmation := setting;
        case BumpVersion =>
          confirmation := NotRequired;
      }
      if !signs(confirmation) {
        return None;
      }
      if about.Grant? {
        recent := recent + [now];
      }
      ghost var before := history;
      history := before + [Signing(about, now, confirmation)];
      FollowsOneMore(policy, setting, before, Signing(about, now, confirmation));
      signed := Some(confirmation);
    }
  }

  lemma GrantTimesSnoc(history: seq<Signing>, x: Signing)
    ensures GrantTimes(history + [x]) == GrantTimes(history) + if x.write.Grant? then [x.now] else []
  {
    assert (history + [x])[..|history|] == history;
  }

  /** A decision looks only at what came before it. */
  lemma DecidedLonger(p: Policy, setting: Confirmation, history: seq<Signing>, n: nat, i: nat)
    requires i < n <= |history|
    ensures Decided(p, setting, history[..n], i) <==> Decided(p, setting, history, i)
  {
    assert history[..n][..i] == history[..i];
  }

  lemma FollowsOneMore(p: Policy, setting: Confirmation, history: seq<Signing>, x: Signing)
    requires Follows(p, setting, history)
    requires forall i :: 0 <= i < |history| ==> history[i].now <= x.now
    requires Decided(p, setting, history + [x], |history|)
    ensures Follows(p, setting, history + [x])
    ensures GrantTimes(history + [x]) == GrantTimes(history) + if x.write.Grant? then [x.now] else []
  {
    hide Decided, GrantTimes;
    GrantTimesSnoc(history, x);
    var more := history + [x];
    assert more[..|history|] == history;
    forall i | 0 <= i < |more|
      ensures Decided(p, setting, more, i)
    {
      if i < |history| {
        DecidedLonger(p, setting, more, |history|, i);
      }
    }
  }

  // ---------------------------------------------------------------- bursts

  /** Grants signed without the system asking, in the closed interval. */
  function Unconfirmed(history: seq<Signing>, from: int, to: int): nat {
    if history == [] then 0
    else
      var x := history[|history| - 1];
      Unconfirmed(history[..|history| - 1], from, to)
      + if x.write.Grant? && x.confirmation == NotRequired && from <= x.now <= to then 1 else 0
  }

  lemma FollowsPrefix(p: Policy, setting: Confirmation, history: seq<Signing>)
    requires history != [] && Follows(p, setting, history)
    ensures Follows(p, setting, history[..|history| - 1])
  {
    hide Decided;
    var n := |history| - 1;
    forall i | 0 <= i < n
      ensures Decided(p, setting, history[..n], i)
    {
      DecidedLonger(p, setting, history, n, i);
    }
  }

  lemma {:induction false} UnconfirmedAreGrants(history: seq<Signing>, from: int, to: int, from': int, to': int)
    requires from' <= from
    requires forall i :: 0 <= i < |history| ==> history[i].now <= to'
    ensures Unconfirmed(history, from, to) <= CountIn(GrantTimes(history), from', to')
  {
    if history != [] {
      var less := history[..|history| - 1];
      UnconfirmedAreGrants(less, from, to, from', to');
      if history[|history| - 1].write.Grant? {
        assert GrantTimes(history)[..|GrantTimes(history)| - 1] == GrantTimes(less);
      } else {
        assert GrantTimes(history) == GrantTimes(less);
      }
    }
  }

  /** The grants that were signed within a window's length before this one number fewer than 2^32. */
  ghost predicate Countable(p: Policy, history: seq<Signing>, i: nat)
    requires i < |history|
  {
    CountIn(GrantTimes(history[..i]), history[i].now - p.burstWindowSecs, history[i].now) < 0x1_0000_0000
  }

  lemma CountableBefore(p: Policy, history: seq<Signing>, n: nat)
    requires n <= |history| && forall i :: 0 <= i < |history| ==> Countable(p, history, i)
    ensures forall i :: 0 <= i < n ==> Countable(p, history[..n], i)
  {
    forall i | 0 <= i < n
      ensures Countable(p, history[..n], i)
    {
      assert Countable(p, history, i);
      assert history[..n][..i] == history[..i];
    }
  }

  /** In any life of the signer in which no window holds 2^32 grants, any closed window of the policy's
      length holds at most `burstLimit` grants signed without the system asking, and, where the policy
      asks for edits, no such grant is an Edit. */
  lemma {:induction false} BurstHolds(p: Policy, setting: Confirmation, history: seq<Signing>, from: u64)
    requires Follows(p, setting, history) && forall i :: 0 <= i < |history| ==> Countable(p, history, i)
    ensures Unconfirmed(history, from, from + p.burstWindowSecs) <= p.burstLimit
    ensures setting == OsUserVerification ==> Unconfirmed(history, from, from + p.burstWindowSecs) == 0
    ensures forall i :: 0 <= i < |history| && history[i].write.Grant? && history[i].confirmation == NotRequired ==>
              setting == NotRequired && (p.editRequiresConfirmation ==> history[i].write.permission != 2)
  {
    if history != [] {
      var n := |history| - 1;
      var less := history[..n];
      FollowsPrefix(p, setting, history);
      CountableBefore(p, history, n);
      BurstHolds(p, setting, less, from);
      assert Decided(p, setting, history, n) && Countable(p, history, n);
      assert forall i :: 0 <= i < n ==> less[i] == history[i];
      if from <= history[n].now <= from + p.burstWindowSecs {
        UnconfirmedAreGrants(less, from, from + p.burstWindowSecs, history[n].now - p.burstWindowSecs, history[n].now);
      }
    }
  }

  /** When the system asks, signature by signature: on a device set to ask, for everything but a bump, which is not
      a tap and never asks; on any other device only for a grant, namely for an Edit where the policy asks for
      edits, and for any grant that comes when the limit has been signed within the window before it. */
  lemma AskedExactly(p: Policy, setting: Confirmation, history: seq<Signing>, i: nat)
    requires Follows(p, setting, history) && i < |history| && Countable(p, history, i)
    ensures var x := history[i];
            var before := CountIn(GrantTimes(history[..i]), x.now - p.burstWindowSecs, x.now);
            x.confirmation == OsUserVerification <==>
            match x.write
            case BumpVersion => false
            case Register => setting == OsUserVerification
            case Revoke => setting == OsUserVerification
            case Grant(code) =>
              || setting == OsUserVerification
              || (p.editRequiresConfirmation && code == 2)
              || before >= p.burstLimit
  {
    assert Decided(p, setting, history, i);
  }

  /** Under the default policy, on a device that need not ask: every Edit is asked for, and any other grant from the
      sixth within ten minutes on. */
  lemma DefaultAsksExactly(history: seq<Signing>, i: nat)
    requires Follows(DEFAULT_POLICY, NotRequired, history) && i < |history| && history[i].write.Grant?
    requires Countable(DEFAULT_POLICY, history, i)
    ensures history[i].confirmation == OsUserVerification <==>
            || history[i].write.permission == 2
            || CountIn(GrantTimes(history[..i]), history[i].now - 600, history[i].now) >= 5
  {
    AskedExactly(DEFAULT_POLICY, NotRequired, history, i);
  }

  /** So on a device set to ask nothing that a person does is signed unasked. */
  lemma NothingUnasked(p: Policy, history: seq<Signing>, i: nat)
    requires Follows(p, OsUserVerification, history) && i < |history|
    ensures history[i].confirmation == NotRequired <==> history[i].write == BumpVersion
  {
    assert Decided(p, OsUserVerification, history, i);
  }

  // ---------------------------------------------------------------- restarts

  /** Grants signed without the system asking over several lives of the signer; what it remembers does not
      outlive it. */
  function UnconfirmedOver(lives: seq<seq<Signing>>, from: int, to: int): nat {
    if lives == [] then 0
    else UnconfirmedOver(lives[..|lives| - 1], from, to) + Unconfirmed(lives[|lives| - 1], from, to)
  }

  ghost predicate LifeOk(p: Policy, setting: Confirmation, history: seq<Signing>) {
    Follows(p, setting, history) && forall i :: 0 <= i < |history| ==> Countable(p, history, i)
  }

  /** Over several lives a window holds at most the limit for each of them. */
  lemma {:induction false} BurstOverRestarts(p: Policy, setting: Confirmation, lives: seq<seq<Signing>>, from: u64)
    requires forall i :: 0 <= i < |lives| ==> LifeOk(p, setting, lives[i])
    ensures UnconfirmedOver(lives, from, from + p.burstWindowSecs) <= |lives| * p.burstLimit
  {
    hide LifeOk, Unconfirmed;
    if lives != [] {
      var n := |lives| - 1;
      BurstOverRestarts(p, setting, lives[..n], from);
      BurstInLife(p, setting, lives[n], from);
      OneLifeMore(n, p.burstLimit);
    }
  }

  lemma BurstInLife(p: Policy, setting: Confirmation, history: seq<Signing>, from: u64)
    requires LifeOk(p, setting, history)
    ensures Unconfirmed(history, from, from + p.burstWindowSecs) <= p.burstLimit
  {
    BurstHolds(p, setting, history, from);
  }

  lemma OneLifeMore(n: nat, limit: nat)
    ensures (n + 1) * limit == n * limit + limit
  {
  }

  /** So many ReadOnly grants in the same second, each signed at the confirmation the policy asks for. */
  function Rush(p: Policy, n: nat, now: u64): (history: seq<Signing>)
    ensures |history| == n
    ensures forall i :: 0 <= i < n ==> history[i] == Signing(Grant(1), now, RushAsks(p, i))
  {
    seq(n, i requires 0 <= i < n => Signing(Grant(1), now, RushAsks(p, i)))
  }

  function RushAsks(p: Policy, i: nat): Confirmation {
    if i % 0x1_0000_0000 >= p.burstLimit then OsUserVerification else NotRequired
  }

  lemma {:induction false} RushTimes(p: Policy, n: nat, now: u64)
    ensures GrantTimes(Rush(p, n, now)) == seq(n, _ => now)
  {
    if n > 0 {
      RushTimes(p, n - 1, now);
      assert Rush(p, n, now)[..n - 1] == Rush(p, n - 1, now);
    }
  }

  lemma RushBefore(p: Policy, n: nat, now: u64, i: nat)
    requires i <= n
    ensures CountIn(GrantTimes(Rush(p, n, now)[..i]), now - p.burstWindowSecs, now) == i
  {
    assert Rush(p, n, now)[..i] == Rush(p, i, now);
    RushTimes(p, i, now);
    CountAll(seq(i, _ => now), now - p.burstWindowSecs, now);
  }

  lemma RushFollows(p: Policy, n: nat, now: u64)
    ensures Follows(p, NotRequired, Rush(p, n, now))
    ensures n <= 0x1_0000_0000 ==> LifeOk(p, NotRequired, Rush(p, n, now))
  {
    hide CountIn, GrantTimes;
    forall i | 0 <= i < n
      ensures Decided(p, NotRequired, Rush(p, n, now), i)
      ensures n <= 0x1_0000_0000 ==> Countable(p, Rush(p, n, now), i)
    {
      RushBefore(p, n, now, i);
    }
  }

  /** Of the first 2^32 grants of a rush the policy lets the limit through, and then again. */
  function Unasked(p: Policy, n: nat): nat {
    if n <= 0x1_0000_0000 then Least(n, p.burstLimit)
    else p.burstLimit + Least(n - 0x1_0000_0000, p.burstLimit)
  }

  function Least(a: nat, b: nat): nat {
    if a < b then a else b
  }

  lemma {:induction false} RushUnasked(p: Policy, n: nat, now: u64)
    requires n <= 0x2_0000_0000
    ensures Unconfirmed(Rush(p, n, now), now, now + p.burstWindowSecs) == Unasked(p, n)
  {
    if n > 0 {
      RushUnasked(p, n - 1, now);
      assert Rush(p, n, now)[..n - 1] == Rush(p, n - 1, now);
      LowBits(n - 1);
    }
  }

  lemma LowBits(i: nat)
    requires i < 0x2_0000_0000
    ensures i % 0x1_0000_0000 == if i < 0x1_0000_0000 then i else i - 0x1_0000_0000
  {
  }

  /** That bound is reached, under every policy and for any number of lives. */
  lemma {:induction false} RestartResetsBurst(p: Policy, n: nat, now: u64)
    ensures var lives := seq(n, _ => Rush(p, p.burstLimit, now));
            && (forall i :: 0 <= i < n ==> LifeOk(p, NotRequired, lives[i]))
            && UnconfirmedOver(lives, now, now + p.burstWindowSecs) == n * p.burstLimit
  {
    hide LifeOk, Unconfirmed, Rush;
    RushFollows(p, p.burstLimit, now);
    if n > 0 {
      RestartResetsBurst(p, n - 1, now);
      RushUnasked(p, p.burstLimit, now);
      OneLifeMore(n - 1, p.burstLimit);
      assert seq(n, _ => Rush(p, p.burstLimit, now))[..n - 1] == seq(n - 1, _ => Rush(p, p.burstLimit, now));
    }
  }

  // ---------------------------------------------------------------- where the 32-bit count goes wrong

  /** The decision on the count itself. */
  function RequiredInFull(p: Policy, permission: Permission, setting: Confirmation, recent: seq<u64>,
                          now: u64): Confirmation {
    if setting == OsUserVerification || (p.editRequiresConfirmation && permission == Edit)
       || CountIn(recent, now - p.burstWindowSecs, now) >= p.burstLimit
    then OsUserVerification else NotRequired
  }

  /** Cutting the count to 32 bits changes the decision exactly when the count matters, has reached
      the limit, and its low 32 bits are below the limit; it then always lets the grant through. */
  lemma TruncationExactly(p: Policy, permission: Permission, setting: Confirmation, recent: seq<u64>, now: u64)
    ensures var n := CountIn(recent, now - p.burstWindowSecs, now);
            p.Required(permission, setting, recent, now) != RequiredInFull(p, permission, setting, recent, now)
            <==> && setting == NotRequired && !(p.editRequiresConfirmation && permission == Edit)
                 && n >= 0x1_0000_0000 && n % 0x1_0000_0000 < p.burstLimit
    ensures RequiredInFull(p, permission, setting, recent, now) == NotRequired
            ==> p.Required(permission, setting, recent, now) == NotRequired
  {
  }

  lemma {:induction false} CountAll(times: seq<u64>, from: int, to: int)
    requires forall i :: 0 <= i < |times| ==> from <= times[i] <= to
    ensures CountIn(times, from, to) == |times|
  {
    if times != [] {
      CountAll(times[..|times| - 1], from, to);
    }
  }

  /** A run in which it goes wrong, under every policy: of 2^32 + m grants in one second the limit and m more
      are signed unasked. */
  lemma TruncationFails(p: Policy, m: nat, now: u64)
    requires m <= p.burstLimit
    ensures Follows(p, NotRequired, Rush(p, 0x1_0000_0000 + m, now))
    ensures Unconfirmed(Rush(p, 0x1_0000_0000 + m, now), now, now + p.burstWindowSecs) == p.burstLimit + m
  {
    RushFollows(p, 0x1_0000_0000 + m, now);
    RushUnasked(p, 0x1_0000_0000 + m, now);
  }
}
