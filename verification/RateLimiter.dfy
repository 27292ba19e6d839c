/** The failure counter behind the pairing lockout: per client address, with three different resets. */
module RateLimiter {
  import opened Schema

  const DEFAULT_MAX_ATTEMPTS := 5
  const DEFAULT_LOCKOUT := 15 * 60 * 1_000_000_000
  const MILLISECOND := 1_000_000

  /** One address's standing; instants and spans are in nanoseconds, and no lockout is the zero instant in Go. */
  datatype FailureState = FailureState(count: int, lockedUntil: Option<int>, lastFailure: int)

  datatype Limits = Limits(maxAttempts: int, lockout: int)

  predicate Working(l: Limits) {
    l.maxAttempts >= 1 && l.lockout >= 1
  }

  function Milliseconds(span: int): int
    requires span >= 0
  {
    span / MILLISECOND
  }

  // ------------------------------------------------------------------ what the methods do to the map

  predicate Locked(failures: map<string, FailureState>, ip: string, now: int) {
    ip in failures && failures[ip].lockedUntil.Some? && now < failures[ip].lockedUntil.value
  }

  function AfterCheck(failures: map<string, FailureState>, ip: string, now: int): map<string, FailureState> {
    if ip in failures && failures[ip].lockedUntil.Some? && !Locked(failures, ip, now) then failures - {ip} else failures
  }

  predicate Stale(l: Limits, st: FailureState, now: int) {
    st.lastFailure < now - 2 * l.lockout && (st.lockedUntil.Some? ==> now > st.lockedUntil.value)
  }

  /** More than two lockouts since the last failure, and no lockout that has not ended. */
  predicate LongAgo(lockout: int, st: FailureState, now: int) {
    st.lastFailure + lockout + lockout < now && (st.lockedUntil == None || st.lockedUntil.value < now)
  }

  function Swept(l: Limits, failures: map<string, FailureState>, now: int): map<string, FailureState> {
    map ip | ip in failures && !Stale(l, failures[ip], now) :: failures[ip]
  }

  function Bumped(l: Limits, failures: map<string, FailureState>, ip: string, now: int): FailureState {
    var st := if ip in failures then failures[ip] else FailureState(0, None, 0);
    FailureState(st.count + 1, if st.count + 1 >= l.maxAttempts then Some(now + l.lockout) else st.lockedUntil, now)
  }

  function AfterFailure(l: Limits, failures: map<string, FailureState>, ip: string,
                        now: int): map<string, FailureState> {
    var kept := Swept(l, failures, now);
    kept[ip := Bumped(l, kept, ip, now)]
  }

  /** A sweep never touches a lockout that is still on: at no later instant does any address get another answer. */
  lemma SweepKeepsLockouts(l: Limits, failures: map<string, FailureState>, now: int, ip: string, later: int)
    requires now <= later
    ensures Locked(Swept(l, failures, now), ip, later) <==> Locked(failures, ip, later)
  {
  }

  /** It does forget a partial count, exactly when the last failure is more than two lockouts ago. */
  lemma SweepForgetsOldCounts(l: Limits, failures: map<string, FailureState>, now: int, ip: string)
    requires Working(l) && ip in failures
    requires failures[ip].lockedUntil.Some? ==> failures[ip].lockedUntil.value == failures[ip].lastFailure + l.lockout
    ensures Bumped(l, Swept(l, failures, now), ip, now).count ==
            1 + (if failures[ip].lastFailure < now - 2 * l.lockout then 0 else failures[ip].count)
  {
  }

  class RateLimiter {
    const limits: Limits
    var failures: map<string, FailureState>

    predicate Valid() {
      Working(limits)
    }

    /** Values that are not positive stand for the defaults. */
    constructor (maxAttempts: int, lockout: int)
      ensures Valid() && failures == map[]
      ensures limits.maxAttempts == if maxAttempts <= 0 then 5 else maxAttempts
      ensures limits.lockout == if lockout <= 0 then 900_000_000_000 else lockout
    {
      limits := Limits(if maxAttempts <= 0 then DEFAULT_MAX_ATTEMPTS else maxAttempts,
                       if lockout <= 0 then DEFAULT_LOCKOUT else lockout);
      failures := map[];
    }

    /** Refuses a locked-out address with the milliseconds it has to wait; a lockout that has run out is forgotten. */
    method CheckLocked(ip: string, now: int) returns (retryAfter: Option<int>)
      modifies this`failures
      ensures failures == AfterCheck(old(failures), ip, now)
      ensures retryAfter.Some? <==> Locked(old(failures), ip, now)
      ensures retryAfter.Some? ==> retryAfter.value == Milliseconds(old(failures)[ip].lockedUntil.value - now)
      ensures failures - {ip} == old(failures) - {ip}
      ensures if ip !in old(failures) || old(failures)[ip].lockedUntil == None then
                retryAfter == None && failures == old(failures)
              else if now < old(failures)[ip].lockedUntil.value then
                retryAfter == Some((old(failures)[ip].lockedUntil.value - now) / 1_000_000) && failures == old(failures)
              else retryAfter == None && ip !in failures
    {
      if ip !in failures {
        return None;
      }
      var st := failures[ip];
      if st.lockedUntil.Some? && now < st.lockedUntil.value {
        return Some(Milliseconds(st.lockedUntil.value - now));
      }
      if st.lockedUntil.Some? {
        failures := failures - {ip};
      }
      retryAfter := None;
    }

    /** Counts a failure; the one that uses up the attempts locks the address out. */
    method Failed(ip: string, now: int) returns (retryAfter: Option<int>)
      requires Valid()
      modifies this`failures
      ensures failures == AfterFailure(limits, old(failures), ip, now)
      ensures retryAfter == if failures[ip].count >= limits.maxAttempts then Some(Milliseconds(limits.lockout))
                else None
      ensures forall other :: other != ip ==>
                && (other in failures <==>
                    other in old(failures) && !LongAgo(limits.lockout, old(failures)[other], now))
                && (other in failures ==> failures[other] == old(failures)[other])
      ensures ip in failures && failures[ip].lastFailure == now
      ensures var known := ip in old(failures) && !LongAgo(limits.lockout, old(failures)[ip], now);
              && failures[ip].count == 1 + (if known then old(failures)[ip].count else 0)
              && failures[ip].lockedUntil ==
                   (if failures[ip].count >= limits.maxAttempts then Some(now + limits.lockout)
                    else if known then old(failures)[ip].lockedUntil else None)
      ensures retryAfter ==
              if failures[ip].count >= limits.maxAttempts then Some(limits.lockout / 1_000_000) else None
    {
      SweepFailures(now);
      var st := if ip in failures then failures[ip] else FailureState(0, None, 0);
      st := st.(count := st.count + 1, lastFailure := now);
      var locked := st.count >= limits.maxAttempts;
      if locked {
        st := st.(lockedUntil := Some(now + limits.lockout));
      }
      failures := failures[ip := st];
      retryAfter := if locked then Some(Milliseconds(limits.lockout)) else None;
    }

    method ClearFailures(ip: string)
      modifies this`failures
      ensures failures == old(failures) - {ip}
    {
      failures := failures - {ip};
    }

    /** The loop over all records, in any order, that drops the stale ones. */
    method SweepFailures(now: int)
      modifies this`failures
      ensures failures == Swept(limits, old(failures), now)
      ensures forall ip :: ip in failures <==> ip in old(failures) && !LongAgo(limits.lockout, old(failures)[ip], now)
      ensures forall ip :: ip in failures ==> failures[ip] == old(failures)[ip]
    {
      var cutoff := now - 2 * limits.lockout;
      var todo := failures.Keys;
      ghost var was := failures;
      while todo != {}
        invariant todo <= was.Keys
        invariant forall ip :: ip in failures <==> ip in was && (ip in todo || !Stale(limits, was[ip], now))
        invariant forall ip :: ip in failures ==> failures[ip] == was[ip]
        decreases |todo|
      {
        var ip :| ip in todo;
        todo := todo - {ip};
        var st := failures[ip];
        if st.lastFailure < cutoff && (st.lockedUntil.None? || now > st.lockedUntil.value) {
          failures := failures - {ip};
        }
      }
    }
  }

  // ------------------------------------------------------------------ runs of redemptions

  /** What has been counted, in order. */
  datatype Event = Failure(ip: string, at: int) | Success(ip: string, at: int)

  datatype State = State(failures: map<string, FailureState>, log: seq<Event>, clock: int)

  /** How a redemption ends that is not refused: it is no guess at all, or a wrong one, or it pairs. */
  datatype Outcome = Ignored | Wrong | Paired

  datatype Attempt = Attempt(ip: string, checkedAt: int, doneAt: int, outcome: Outcome)

  /** One redemption from start to end, with no other one in between. */
  function Step(l: Limits, s: State, a: Attempt): State {
    if Locked(s.failures, a.ip, a.checkedAt) then s.(clock := a.doneAt)
    else
      var checked := s.(failures := AfterCheck(s.failures, a.ip, a.checkedAt), clock := a.doneAt);
      match a.outcome
      case Ignored => checked
      case Wrong => checked.(failures := AfterFailure(l, checked.failures, a.ip, a.doneAt),
                             log := s.log + [Failure(a.ip, a.doneAt)])
      case Paired => checked.(failures := checked.failures - {a.ip}, log := s.log + [Success(a.ip, a.doneAt)])
  }

  /** The clock never runs backwards. */
  predicate Timely(clock: int, attempts: seq<Attempt>)
    decreases |attempts|
  {
    attempts == [] || (clock <= attempts[0].checkedAt <= attempts[0].doneAt &&
                       Timely(attempts[0].doneAt, attempts[1..]))
  }

  function End(l: Limits, s: State, attempts: seq<Attempt>): State
    decreases |attempts|
  {
    if attempts == [] then s else End(l, Step(l, s, attempts[0]), attempts[1..])
  }

  predicate InWindow(e: Event, ip: string, from: int, span: int) {
    e.ip == ip && from <= e.at < from + span
  }

  /** The counted failures of one address in a window. */
  function FailuresIn(log: seq<Event>, ip: string, from: int, span: int): nat
    decreases |log|
  {
    if log == [] then 0
    else
      var last := log[|log| - 1];
      FailuresIn(log[..|log| - 1], ip, from, span) + if last.Failure? && InWindow(last, ip, from, span) then 1 else 0
  }

  ghost predicate NoSuccessIn(log: seq<Event>, ip: string, from: int, span: int) {
    forall e :: e in log && e.Success? ==> !InWindow(e, ip, from, span)
  }

  /** Where readings can be late, windows are shorter than a lockout, by the lag on either side. */
  ghost predicate WindowHolds(l: Limits, lag: nat, cap: int, log: seq<Event>, ip: string, from: int) {
    NoSuccessIn(log, ip, from, l.lockout - lag) ==> FailuresIn(log, ip, from, l.lockout - 2 * lag) <= cap
  }

  ghost predicate WindowsHold(l: Limits, lag: nat, cap: int, log: seq<Event>) {
    forall ip, from :: WindowHolds(l, lag, cap, log, ip, from)
  }

  // ------------------------------------------------------------------ the invariant

  /** The failures of one address from a position of the log on. */
  function FailuresSince(log: seq<Event>, ip: string, b: nat): nat
    decreases |log|
  {
    if |log| <= b then 0
    else
      var last := log[|log| - 1];
      FailuresSince(log[..|log| - 1], ip, b) + if last.Failure? && last.ip == ip then 1 else 0
  }

  /**
   * The clock is the latest reading the counters have seen: what is counted after it was read at most a lag
   * before it, and a success has no reading of its own.
   */
  ghost predicate Ordered(lag: nat, s: State) {
    && (forall i, j :: 0 <= i <= j < |s.log| ==>
          s.log[i].at <= s.log[j].at + if s.log[j].Success? then 0 else lag)
    && (forall i :: 0 <= i < |s.log| ==> s.log[i].at <= s.clock)
  }

  /** A failure that no window can share with a later one: a lockout has passed since, or a success. */
  ghost predicate Settled(l: Limits, lag: nat, s: State, i: nat)
    requires i < |s.log|
  {
    || s.log[i].at + l.lockout - lag <= s.clock
    || exists j :: i < j < |s.log| && s.log[j].Success? && s.log[j].ip == s.log[i].ip
  }

  /** From position b on, the log holds the failures of the address's record; all earlier ones are settled. */
  ghost predicate Epoch(l: Limits, lag: nat, s: State, ip: string, b: nat) {
    && b <= |s.log|
    && FailuresSince(s.log, ip, b) == (if ip in s.failures then s.failures[ip].count else 0)
    && (forall i :: 0 <= i < b && s.log[i].Failure? && s.log[i].ip == ip ==> Settled(l, lag, s, i))
    && (ip in s.failures ==>
          forall i :: b <= i < |s.log| && s.log[i].Failure? && s.log[i].ip == ip ==>
              s.log[i].at - lag <= s.failures[ip].lastFailure)
    && (ip !in s.failures ==> b == |s.log|)
  }

  ghost predicate HasEpoch(l: Limits, lag: nat, s: State, ip: string) {
    exists b :: Epoch(l, lag, s, ip, b)
  }

  /** A record is locked out exactly when its attempts are used up, for one lockout from the last failure. */
  predicate LocksFromLast(l: Limits, st: FailureState) {
    st.lockedUntil == if st.count >= l.maxAttempts then Some(st.lastFailure + l.lockout) else None
  }

  predicate WellKept(l: Limits, cap: int, st: FailureState, clock: int) {
    1 <= st.count <= cap && st.lastFailure <= clock && LocksFromLast(l, st)
  }

  /** No record and no window counts more failures than cap. */
  ghost predicate Inv(l: Limits, lag: nat, cap: int, s: State) {
    && Ordered(lag, s) && WindowsHold(l, lag, cap, s.log)
    && (forall ip :: ip in s.failures ==> WellKept(l, cap, s.failures[ip], s.clock))
    && (forall ip :: HasEpoch(l, lag, s, ip))
  }

  function Later(a: int, b: int): int {
    if a < b then b else a
  }

  lemma Grown(log: seq<Event>, e: Event, ip: string, b: nat)
    requires b <= |log|
    ensures FailuresSince(log + [e], ip, b) == FailuresSince(log, ip, b) + if e.Failure? && e.ip == ip then 1 else 0
  {
    assert (log + [e])[..|log|] == log;
  }

  lemma GrownWindow(log: seq<Event>, e: Event, ip: string, from: int, span: int)
    ensures FailuresIn(log + [e], ip, from, span) ==
            FailuresIn(log, ip, from, span) + if e.Failure? && InWindow(e, ip, from, span) then 1 else 0
  {
    assert (log + [e])[..|log|] == log;
  }

  lemma {:induction false} AllSince(log: seq<Event>, ip: string, b: nat, from: int, span: int)
    requires forall i :: 0 <= i < b && i < |log| && log[i].Failure? ==> !InWindow(log[i], ip, from, span)
    ensures FailuresIn(log, ip, from, span) <= FailuresSince(log, ip, b)
    decreases |log|
  {
    if log != [] {
      AllSince(log[..|log| - 1], ip, b, from, span);
    }
  }

  /** A window without a success that nearly reaches the clock starts after every settled failure. */
  lemma SettledIsOutside(l: Limits, lag: nat, s: State, i: nat, from: int)
    requires Ordered(lag, s) && i < |s.log| && Settled(l, lag, s, i)
    requires s.clock < from + l.lockout - lag && NoSuccessIn(s.log, s.log[i].ip, from, l.lockout - lag)
    ensures s.log[i].at < from
  {
    if s.log[i].at + l.lockout - lag > s.clock {
      var j :| i < j < |s.log| && s.log[j].Success? && s.log[j].ip == s.log[i].ip;
      assert s.log[j] in s.log;
    }
  }

  /** So it holds only failures of the current record. */
  lemma OpenWindow(l: Limits, lag: nat, s: State, ip: string, b: nat, from: int)
    requires Working(l) && Ordered(lag, s) && Epoch(l, lag, s, ip, b)
    requires s.clock < from + l.lockout - lag && NoSuccessIn(s.log, ip, from, l.lockout - lag)
    ensures FailuresIn(s.log, ip, from, l.lockout - 2 * lag) <= FailuresSince(s.log, ip, b)
  {
    hide Settled, NoSuccessIn, Ordered;
    forall i | 0 <= i < b && s.log[i].Failure?
      ensures !InWindow(s.log[i], ip, from, l.lockout - 2 * lag)
    {
      if s.log[i].ip == ip {
        SettledIsOutside(l, lag, s, i, from);
      }
    }
    AllSince(s.log, ip, b, from, l.lockout - 2 * lag);
  }

  // ------------------------------------------------------------------ the parts of a step

  /** Time passes, and records whose failures have settled are dropped: a lockout that ran out, or a sweep. */
  lemma DroppingKeepsInv(l: Limits, lag: nat, cap: int, s: State, s2: State)
    requires Working(l) && Inv(l, lag, cap, s) && s2.log == s.log && s2.clock >= s.clock
    requires s2.failures.Keys <= s.failures.Keys
    requires forall ip :: ip in s2.failures ==> s2.failures[ip] == s.failures[ip]
    requires forall ip :: ip in s.failures && ip !in s2.failures ==> s.failures[ip].lastFailure + l.lockout <= s2.clock
    ensures Inv(l, lag, cap, s2)
  {
    forall ip
      ensures HasEpoch(l, lag, s2, ip)
    {
      assert HasEpoch(l, lag, s, ip);
      var b :| Epoch(l, lag, s, ip, b);
      StillSettled(l, lag, s, s2);
      if ip in s.failures && ip !in s2.failures {
        FailuresSinceEnd(s.log, ip);
        assert Epoch(l, lag, s2, ip, |s.log|);
      } else {
        assert Epoch(l, lag, s2, ip, b);
      }
    }
  }

  lemma FailuresSinceEnd(log: seq<Event>, ip: string)
    ensures FailuresSince(log, ip, |log|) == 0
  {
  }

  lemma StillSettled(l: Limits, lag: nat, s: State, s2: State)
    requires s2.log == s.log && s2.clock >= s.clock
    ensures forall i :: 0 <= i < |s.log| && Settled(l, lag, s, i) ==> Settled(l, lag, s2, i)
  {
  }

  lemma AppendedSettled(l: Limits, lag: nat, s: State, s2: State, e: Event)
    requires s2.log == s.log + [e] && s2.clock >= s.clock
    ensures forall i :: 0 <= i < |s.log| && Settled(l, lag, s, i) ==> Settled(l, lag, s2, i)
    ensures e.Success? ==> forall i :: 0 <= i < |s.log| && s.log[i].ip == e.ip ==> Settled(l, lag, s2, i)
  {
    forall i | 0 <= i < |s.log| && Settled(l, lag, s, i)
      ensures Settled(l, lag, s2, i)
    {
      if s.log[i].at + l.lockout - lag > s.clock {
        var j :| i < j < |s.log| && s.log[j].Success? && s.log[j].ip == s.log[i].ip;
        assert s2.log[j] == s.log[j];
      }
    }
    if e.Success? {
      forall i | 0 <= i < |s.log| && s.log[i].ip == e.ip
        ensures Settled(l, lag, s2, i)
      {
        assert s2.log[|s.log|] == e;
      }
    }
  }

  /** A failure is counted, by a reading that may be late. */
  function Counted(l: Limits, s: State, ip: string, at: int): State {
    State(s.failures[ip := Bumped(l, s.failures, ip, at)], s.log + [Failure(ip, at)], Later(s.clock, at))
  }

  lemma FailureKeepsInv(l: Limits, lag: nat, cap: int, s: State, ip: string, at: int)
    requires Working(l) && Inv(l, lag, cap, s) && cap >= l.maxAttempts && s.clock - lag <= at
    requires ip in s.failures ==> s.failures[ip].count < cap
    ensures Inv(l, lag, cap, Counted(l, s, ip, at))
  {
    var s2 := Counted(l, s, ip, at);
    hide Epoch, Settled, WindowsHold;
    FailureKeepsWindows(l, lag, cap, s, ip, at);
    forall other
      ensures HasEpoch(l, lag, s2, other)
    {
      assert HasEpoch(l, lag, s, other);
      var b :| Epoch(l, lag, s, other, b);
      var b2 := FailureKeepsEpoch(l, lag, s, ip, at, other, b);
    }
  }

  lemma FailureKeepsEpoch(l: Limits, lag: nat, s: State, ip: string, at: int, other: string, b: nat) returns (b2: nat)
    requires Epoch(l, lag, s, other, b) && Ordered(lag, s) && s.clock - lag <= at
    ensures Epoch(l, lag, Counted(l, s, ip, at), other, b2)
  {
    hide Settled;
    var s2 := Counted(l, s, ip, at);
    AppendedSettled(l, lag, s, s2, Failure(ip, at));
    Grown(s.log, Failure(ip, at), other, b);
    b2 := if other in s2.failures then b else |s2.log|;
    if other !in s2.failures {
      FailuresSinceEnd(s2.log, other);
    }
  }

  lemma FailureKeepsWindows(l: Limits, lag: nat, cap: int, s: State, ip: string, at: int)
    requires Working(l) && Inv(l, lag, cap, s) && cap >= l.maxAttempts && s.clock - lag <= at
    requires ip in s.failures ==> s.failures[ip].count < cap
    ensures WindowsHold(l, lag, cap, s.log + [Failure(ip, at)])
  {
    var e := Failure(ip, at);
    var log2 := s.log + [e];
    forall other, from
      ensures WindowHolds(l, lag, cap, log2, other, from)
    {
      assert WindowHolds(l, lag, cap, s.log, other, from);
      assert NoSuccessIn(log2, other, from, l.lockout - lag) ==> NoSuccessIn(s.log, other, from, l.lockout - lag) by {
        assert forall x :: x in s.log ==> x in log2;
      }
      GrownWindow(s.log, e, other, from, l.lockout - 2 * lag);
      if InWindow(e, other, from, l.lockout - 2 * lag) && NoSuccessIn(log2, other, from, l.lockout - lag) {
        assert HasEpoch(l, lag, s, ip);
        var b :| Epoch(l, lag, s, ip, b);
        OpenWindow(l, lag, s, ip, b, from);
      }
    }
  }

  lemma SuccessKeepsInv(l: Limits, lag: nat, cap: int, s: State, ip: string)
    requires Working(l) && Inv(l, lag, cap, s)
    ensures Inv(l, lag, cap, State(s.failures - {ip}, s.log + [Success(ip, s.clock)], s.clock))
  {
    var e := Success(ip, s.clock);
    var s2 := State(s.failures - {ip}, s.log + [e], s.clock);
    assert WindowsHold(l, lag, cap, s2.log) by { SuccessKeepsWindows(l, lag, cap, s, ip); }
    hide WindowsHold, Settled;
    forall other
      ensures HasEpoch(l, lag, s2, other)
    {
      assert HasEpoch(l, lag, s, other);
      var b :| Epoch(l, lag, s, other, b);
      AppendedSettled(l, lag, s, s2, e);
      Grown(s.log, e, other, b);
      if other in s2.failures {
        assert Epoch(l, lag, s2, other, b);
      } else {
        FailuresSinceEnd(s2.log, other);
        assert Epoch(l, lag, s2, other, |s2.log|);
      }
    }
  }

  lemma SuccessKeepsWindows(l: Limits, lag: nat, cap: int, s: State, ip: string)
    requires WindowsHold(l, lag, cap, s.log)
    ensures WindowsHold(l, lag, cap, s.log + [Success(ip, s.clock)])
  {
    var e := Success(ip, s.clock);
    var log2 := s.log + [e];
    forall other, from
      ensures WindowHolds(l, lag, cap, log2, other, from)
    {
      assert WindowHolds(l, lag, cap, s.log, other, from);
      assert NoSuccessIn(log2, other, from, l.lockout - lag) ==> NoSuccessIn(s.log, other, from, l.lockout - lag) by {
        assert forall x :: x in s.log ==> x in log2;
      }
      GrownWindow(s.log, e, other, from, l.lockout - 2 * lag);
    }
  }

  lemma StepKeepsInv(l: Limits, s: State, a: Attempt)
    requires Working(l) && Inv(l, 0, l.maxAttempts, s) && s.clock <= a.checkedAt <= a.doneAt
    ensures Inv(l, 0, l.maxAttempts, Step(l, s, a))
  {
    hide Ordered, WindowsHold, Epoch;
    var failures := if Locked(s.failures, a.ip, a.checkedAt) then s.failures
        else AfterCheck(s.failures, a.ip, a.checkedAt);
    var checked := s.(failures := failures, clock := a.doneAt);
    DroppingKeepsInv(l, 0, l.maxAttempts, s, checked);
    if !Locked(s.failures, a.ip, a.checkedAt) {
      if a.outcome.Wrong? {
        var swept := checked.(failures := Swept(l, failures, a.doneAt));
        DroppingKeepsInv(l, 0, l.maxAttempts, checked, swept);
        FailureKeepsInv(l, 0, l.maxAttempts, swept, a.ip, a.doneAt);
      } else if a.outcome.Paired? {
        SuccessKeepsInv(l, 0, l.maxAttempts, checked, a.ip);
      }
    }
  }

  // ------------------------------------------------------------------ the theorems

  lemma {:induction false} EndInv(l: Limits, s: State, attempts: seq<Attempt>)
    requires Working(l) && Inv(l, 0, l.maxAttempts, s) && Timely(s.clock, attempts)
    ensures Inv(l, 0, l.maxAttempts, End(l, s, attempts))
    decreases |attempts|
  {
    if attempts != [] {
      hide Inv, Working;
      StepKeepsInv(l, s, attempts[0]);
      EndInv(l, Step(l, s, attempts[0]), attempts[1..]);
    }
  }

  lemma StartInv(l: Limits, clock: int)
    requires Working(l)
    ensures Inv(l, 0, l.maxAttempts, State(map[], [], clock))
  {
    var s := State(map[], [], clock);
    forall ip
      ensures HasEpoch(l, 0, s, ip)
    {
      assert Epoch(l, 0, s, ip, 0);
    }
  }

  /**
   * Redemptions one after the other, at times that never run backwards: a window as long as a lockout, with no
   * success of an address in it, holds at most maxAttempts of its failures, whatever resets fall into it.
   */
  lemma WindowBound(l: Limits, clock: int, attempts: seq<Attempt>, ip: string, from: int)
    requires Working(l) && Timely(clock, attempts)
    ensures var log := End(l, State(map[], [], clock), attempts).log;
            NoSuccessIn(log, ip, from, l.lockout) ==> FailuresIn(log, ip, from, l.lockout) <= l.maxAttempts
  {
    hide NoSuccessIn, FailuresIn, Ordered, Epoch, End;
    StartInv(l, clock);
    EndInv(l, State(map[], [], clock), attempts);
    assert WindowHolds(l, 0, l.maxAttempts, End(l, State(map[], [], clock), attempts).log, ip, from);
  }

  /** The record of n failures at one instant. */
  function Strikes(l: Limits, n: nat, clock: int): map<string, FailureState> {
    if n == 0 then map[]
    else map["" := FailureState(n, if n >= l.maxAttempts then Some(clock + l.lockout) else None, clock)]
  }

  lemma OneMoreStrike(l: Limits, s: State, n: nat)
    requires Working(l) && n < l.maxAttempts && s.failures == Strikes(l, n, s.clock)
    ensures Step(l, s, Attempt("", s.clock, s.clock, Wrong)) ==
            State(Strikes(l, n + 1, s.clock), s.log + [Failure("", s.clock)], s.clock)
  {
    assert AfterCheck(s.failures, "", s.clock) == s.failures;
    assert Swept(l, s.failures, s.clock) == s.failures;
  }

  /** The bound is reached: all the attempts can fall into one window. */
  lemma {:induction false} BoundIsReached(l: Limits, clock: int, n: nat) returns (attempts: seq<Attempt>)
    requires Working(l) && n <= l.maxAttempts
    ensures Timely(clock, attempts)
    ensures var s := End(l, State(map[], [], clock), attempts);
            && FailuresIn(s.log, "", clock, l.lockout) == n && NoSuccessIn(s.log, "", clock, l.lockout)
            && s.clock == clock && s.failures == Strikes(l, n, clock)
  {
    hide Strikes, Step, End;
    var start := State(map[], [], clock);
    if n == 0 {
      attempts := [];
      NoStrikes(l, clock);
    } else {
      var before := BoundIsReached(l, clock, n - 1);
      var a := Attempt("", clock, clock, Wrong);
      var s := End(l, start, before);
      OneMoreStrike(l, s, n - 1);
      attempts := before + [a];
      EndAppend(l, start, before, a);
      GrownWindow(s.log, Failure("", clock), "", clock, l.lockout);
    }
  }

  lemma NoStrikes(l: Limits, clock: int)
    ensures End(l, State(map[], [], clock), []) == State(Strikes(l, 0, clock), [], clock)
  {
  }

  lemma {:induction false} EndAppend(l: Limits, s: State, attempts: seq<Attempt>, a: Attempt)
    requires Timely(s.clock, attempts)
    requires End(l, s, attempts).clock <= a.checkedAt <= a.doneAt
    ensures End(l, s, attempts + [a]) == Step(l, End(l, s, attempts), a)
    ensures Timely(s.clock, attempts + [a])
    decreases |attempts|
  {
    if attempts == [] {
      assert ([a])[1..] == [];
    } else {
      assert (attempts + [a])[1..] == attempts[1..] + [a];
      EndAppend(l, Step(l, s, attempts[0]), attempts[1..], a);
    }
  }

  /**
   * A lockout stands until its instant: till then every redemption of the address is refused and nothing of
   * it is counted.
   */
  lemma {:induction false} LockoutStands(l: Limits, s: State, attempts: seq<Attempt>, ip: string)
    requires Working(l) && Timely(s.clock, attempts) && ip in s.failures && s.failures[ip].lockedUntil.Some?
    requires forall a :: a in attempts ==> a.doneAt < s.failures[ip].lockedUntil.value
    ensures var s2 := End(l, s, attempts);
            && ip in s2.failures && s2.failures[ip] == s.failures[ip]
            && s.log <= s2.log && forall i :: |s.log| <= i < |s2.log| ==> s2.log[i].ip != ip
    decreases |attempts|
  {
    if attempts != [] {
      StepKeepsLockout(l, s, attempts[0], ip);
      hide Step;
      LockoutStands(l, Step(l, s, attempts[0]), attempts[1..], ip);
    }
  }

  lemma StepKeepsLockout(l: Limits, s: State, a: Attempt, ip: string)
    requires Working(l) && ip in s.failures && s.failures[ip].lockedUntil.Some? && a.checkedAt <= a.doneAt
    requires a.doneAt < s.failures[ip].lockedUntil.value
    ensures var s2 := Step(l, s, a);
            && ip in s2.failures && s2.failures[ip] == s.failures[ip]
            && s.log <= s2.log && forall i :: |s.log| <= i < |s2.log| ==> s2.log[i].ip != ip
  {
  }

  /** And it ends then: the record is gone at the first check from that instant on, and the address starts afresh. */
  lemma LockoutEnds(l: Limits, s: State, a: Attempt)
    requires Working(l) && a.ip in s.failures && s.failures[a.ip].lockedUntil.Some? && a.outcome.Wrong?
    requires s.failures[a.ip].lockedUntil.value <= a.checkedAt <= a.doneAt
    ensures var s2 := Step(l, s, a);
            a.ip in s2.failures && s2.failures[a.ip].count == 1 && s2.log == s.log + [Failure(a.ip, a.doneAt)]
  {
  }

  /** A run in which a sweep turns the failure that would have locked the address out into a first one. */
  lemma SweepForgivesExists()
    ensures var l, first, last := Limits(2, 10), Attempt("a", 0, 0, Wrong), Attempt("a", 21, 21, Wrong);
            var s, end := End(l, State(map[], [], 0), [first]), End(l, State(map[], [], 0), [first, last]);
            && Timely(0, [first, last])
            && "a" in end.failures && end.failures["a"].count == 1 && !Locked(end.failures, "a", 21)
            && Bumped(l, s.failures, "a", 21) == FailureState(2, Some(31), 21)
  {
    var l, first, last := Limits(2, 10), Attempt("a", 0, 0, Wrong), Attempt("a", 21, 21, Wrong);
    assert [first, last][1..] == [last] && [last][1..] == [] && [first][1..] == [];
    var s1 := Step(l, State(map[], [], 0), first);
    assert s1.failures["a"] == FailureState(1, None, 0);
    assert End(l, s1, [last]) == Step(l, s1, last);
    assert "a" !in Swept(l, s1.failures, 21);
  }
}
