/**
 * The failure counter under redemptions that overlap. Both the check and the count read the clock first and take the
 * lock afterwards, so a reading can reach the counters late, after later ones.
 */
module ConcurrentLimiter {
  import opened Schema
  import opened RateLimiter

  /** A redemption with its reading for the check, one that has passed it, and one with its reading for the count. */
  datatype Call = Looked(ip: string, at: int) | Passed(ip: string) | Missed(ip: string, at: int)

  /** The counters, whose own clock is the latest reading they have seen; the redemptions; and the clock. */
  datatype Busy = Busy(s: State, calls: map<nat, Call>, clock: int)

  datatype Step =
    | Tick(now: int)
    | Enter(p: nat, ip: string)
    | Check(p: nat)
    | Leave(p: nat)
    | Clear(p: nat)
    | Miss(p: nat)
    | Count(p: nat)

  /** Every step is one reading of the clock, or one use of the lock with a reading taken before. */
  function Next(l: Limits, b: Busy, step: Step): Busy {
    match step
    case Tick(now) => if b.clock <= now then b.(clock := now) else b
    case Enter(p, ip) => if p in b.calls then b else b.(calls := b.calls[p := Looked(ip, b.clock)])
    case Check(p) => if p in b.calls && b.calls[p].Looked? then Checked(b, p) else b
    case Leave(p) => if p in b.calls && b.calls[p].Passed? then b.(calls := b.calls - {p}) else b
    case Clear(p) => if p in b.calls && b.calls[p].Passed? then Cleared(b, p) else b
    case Miss(p) =>
      if p in b.calls && b.calls[p].Passed? then b.(calls := b.calls[p := Missed(b.calls[p].ip, b.clock)]) else b
    case Count(p) =>
      if p in b.calls && b.calls[p].Missed? then
        b.(s := WithFailure(l, b.s, b.calls[p].ip, b.calls[p].at), calls := b.calls - {p})
      else b
  }

  function Checked(b: Busy, p: nat): Busy
    requires p in b.calls && b.calls[p].Looked?
  {
    var ip, at := b.calls[p].ip, b.calls[p].at;
    if Locked(b.s.failures, ip, at) then b.(calls := b.calls - {p})
    else
      b.(s := State(AfterCheck(b.s.failures, ip, at), b.s.log, Later(b.s.clock, at)), calls := b.calls[p := Passed(ip)])
  }

  /** A success reads no clock: it is logged at the latest reading the counters have seen. */
  function Cleared(b: Busy, p: nat): Busy
    requires p in b.calls
  {
    var ip := b.calls[p].ip;
    b.(s := State(b.s.failures - {ip}, b.s.log + [Success(ip, b.s.clock)], b.s.clock), calls := b.calls - {p})
  }

  function WithFailure(l: Limits, s: State, ip: string, at: int): (s2: State)
    ensures s2.failures == AfterFailure(l, s.failures, ip, at) && s2.log == s.log + [Failure(ip, at)]
  {
    Counted(l, s.(failures := Swept(l, s.failures, at)), ip, at)
  }

  function End(l: Limits, b: Busy, steps: seq<Step>): Busy
    decreases |steps|
  {
    if steps == [] then b else End(l, Next(l, b, steps[0]), steps[1..])
  }

  function Start(clock: int): Busy {
    Busy(State(map[], [], clock), map[], clock)
  }

  /** The redemptions of an address that have passed their check and have not ended. */
  function UnderWay(calls: map<nat, Call>, ip: string): set<nat> {
    set p | p in calls && calls[p].ip == ip && !calls[p].Looked?
  }

  /** The reading a step uses is at most a lag behind the latest one used before it. */
  predicate InTime(lag: nat, b: Busy, step: Step) {
    match step
    case Check(p) => p in b.calls && b.calls[p].Looked? ==> b.s.clock - lag <= b.calls[p].at
    case Count(p) => p in b.calls && b.calls[p].Missed? ==> b.s.clock - lag <= b.calls[p].at
    case _ => true
  }

  ghost predicate AtMost(n: nat, b: Busy) {
    forall ip :: |UnderWay(b.calls, ip)| <= n
  }

  /**
   * A run in which no address ever has more than n redemptions under way and no reading is used late by more than
   * the lag. With a lag of 0, readings never fall in the order in which the lock is taken.
   */
  ghost predicate Run(l: Limits, n: nat, lag: nat, b: Busy, steps: seq<Step>)
    decreases |steps|
  {
    AtMost(n, b) && (steps == [] || (InTime(lag, b, steps[0]) && Run(l, n, lag, Next(l, b, steps[0]), steps[1..])))
  }

  /**
   * What the counters see of a redemption is its readings: the check decides by the one taken on entering, and the
   * count is made for the one taken when the guess turned out wrong, however late either is used.
   */
  lemma ReadingsDecide(l: Limits, b: Busy, p: nat, ip: string)
    ensures p !in b.calls ==> var b2 := Next(l, b, Enter(p, ip));
                              p in b2.calls && b2.calls[p] == Looked(ip, b.clock) && b2.s == b.s
    ensures p in b.calls && b.calls[p].Looked? && b.calls[p].ip == ip ==>
              var at, b2 := b.calls[p].at, Next(l, b, Check(p));
              var known := ip in b.s.failures && b.s.failures[ip].lockedUntil.Some?;
              && (p !in b2.calls <==> known && at < b.s.failures[ip].lockedUntil.value)
              && (p in b2.calls ==> b2.calls[p] == Passed(ip))
              && (ip in b2.s.failures <==>
                  ip in b.s.failures && (known ==> at < b.s.failures[ip].lockedUntil.value))
              && (ip in b2.s.failures ==> b2.s.failures[ip] == b.s.failures[ip])
              && b2.s.failures - {ip} == b.s.failures - {ip} && b2.s.log == b.s.log
    ensures p in b.calls && b.calls[p] == Passed(ip) ==>
              && Next(l, b, Miss(p)) == b.(calls := b.calls[p := Missed(ip, b.clock)])
              && ip !in Next(l, b, Clear(p)).s.failures
              && Next(l, b, Clear(p)).s.failures - {ip} == b.s.failures - {ip}
    ensures p in b.calls && b.calls[p].Missed? && b.calls[p].ip == ip ==>
              var b2 := Next(l, b, Count(p));
              && p !in b2.calls && b2.s.log == b.s.log + [Failure(ip, b.calls[p].at)]
              && ip in b2.s.failures && b2.s.failures[ip].lastFailure == b.calls[p].at
  {
  }

  // ------------------------------------------------------------------ the invariant

  /** Once an address is locked out, only the redemptions under way can still add to its count. */
  predicate Bounded(l: Limits, cap: int, b: Busy, ip: string) {
    ip in b.s.failures && b.s.failures[ip].lockedUntil.Some? ==>
      b.s.failures[ip].count + |UnderWay(b.calls, ip)| <= cap
  }

  ghost predicate BusyInv(l: Limits, lag: nat, cap: int, b: Busy) {
    Inv(l, lag, cap, b.s) && forall ip :: Bounded(l, cap, b, ip)
  }

  lemma Changed(calls: map<nat, Call>, p: nat, to: Call, other: string)
    ensures p !in calls && to.Looked? ==> UnderWay(calls[p := to], other) == UnderWay(calls, other)
    ensures p in calls && to.ip == calls[p].ip && (calls[p].Looked? <==> to.Looked?) ==>
              UnderWay(calls[p := to], other) == UnderWay(calls, other)
    ensures p in calls && to.ip == calls[p].ip && other != to.ip ==>
              UnderWay(calls[p := to], other) == UnderWay(calls, other)
  {
  }

  lemma Ended(calls: map<nat, Call>, p: nat, other: string)
    requires p in calls
    ensures |UnderWay(calls - {p}, other)| ==
            |UnderWay(calls, other)| - if calls[p].ip == other && !calls[p].Looked? then 1 else 0
  {
    if calls[p].ip == other && !calls[p].Looked? {
      assert UnderWay(calls - {p}, other) == UnderWay(calls, other) - {p};
    } else {
      assert UnderWay(calls - {p}, other) == UnderWay(calls, other);
    }
  }

  lemma CheckKeepsInv(l: Limits, lag: nat, cap: int, b: Busy, p: nat)
    requires Working(l) && BusyInv(l, lag, cap, b) && p in b.calls && b.calls[p].Looked?
    ensures BusyInv(l, lag, cap, Checked(b, p))
  {
    hide Ordered, WindowsHold, HasEpoch, UnderWay;
    var b2 := Checked(b, p);
    DroppingKeepsInv(l, lag, cap, b.s, b2.s);
    forall other
      ensures Bounded(l, cap, b2, other)
    {
      assert Bounded(l, cap, b, other);
      Ended(b.calls, p, other);
      Changed(b.calls, p, Passed(b.calls[p].ip), other);
    }
  }

  lemma CountKeepsInv(l: Limits, n: nat, lag: nat, b: Busy, p: nat)
    requires Working(l) && n >= 1 && BusyInv(l, lag, l.maxAttempts + n - 1, b) && AtMost(n, b)
    requires p in b.calls && b.calls[p].Missed? && InTime(lag, b, Count(p))
    ensures BusyInv(l, lag, l.maxAttempts + n - 1, Next(l, b, Count(p)))
  {
    hide Ordered, WindowsHold, HasEpoch, UnderWay;
    var cap, ip, at := l.maxAttempts + n - 1, b.calls[p].ip, b.calls[p].at;
    var b2 := Next(l, b, Count(p));
    Ended(b.calls, p, ip);
    assert Bounded(l, cap, b, ip) && |UnderWay(b.calls, ip)| <= n;
    var swept := State(Swept(l, b.s.failures, at), b.s.log, Later(b.s.clock, at));
    DroppingKeepsInv(l, lag, cap, b.s, swept);
    FailureKeepsInv(l, lag, cap, swept, ip, at);
    forall other
      ensures Bounded(l, cap, b2, other)
    {
      assert Bounded(l, cap, b, other);
      Ended(b.calls, p, other);
    }
  }

  lemma NextKeepsInv(l: Limits, n: nat, lag: nat, b: Busy, step: Step)
    requires Working(l) && n >= 1 && BusyInv(l, lag, l.maxAttempts + n - 1, b) && AtMost(n, b) && InTime(lag, b, step)
    ensures BusyInv(l, lag, l.maxAttempts + n - 1, Next(l, b, step))
  {
    hide Inv, UnderWay, AtMost;
    match step
    case Check(p) => if p in b.calls && b.calls[p].Looked? { CheckKeepsInv(l, lag, l.maxAttempts + n - 1, b, p); }
    case Count(p) => if p in b.calls && b.calls[p].Missed? { CountKeepsInv(l, n, lag, b, p); }
    case Clear(p) =>
      if p in b.calls && b.calls[p].Passed? {
        SuccessKeepsInv(l, lag, l.maxAttempts + n - 1, b.s, b.calls[p].ip);
        StaysBounded(l, l.maxAttempts + n - 1, b, step);
      }
    case _ => StaysBounded(l, l.maxAttempts + n - 1, b, step);
  }

  /** The other steps let no record grow and no more redemptions get under way. */
  lemma StaysBounded(l: Limits, cap: int, b: Busy, step: Step)
    requires !step.Check? && !step.Count? && forall ip :: Bounded(l, cap, b, ip)
    ensures forall ip :: Bounded(l, cap, Next(l, b, step), ip)
  {
    hide UnderWay;
    forall ip
      ensures Bounded(l, cap, Next(l, b, step), ip)
    {
      assert Bounded(l, cap, b, ip);
      match step
      case Tick(_) =>
      case Enter(p, to) => Changed(b.calls, p, Looked(to, b.clock), ip);
      case Miss(p) => if p in b.calls { Changed(b.calls, p, Missed(b.calls[p].ip, b.clock), ip); }
      case Leave(p) => if p in b.calls { Ended(b.calls, p, ip); }
      case Clear(p) => if p in b.calls { Ended(b.calls, p, ip); }
    }
  }

  lemma StartInv(l: Limits, n: nat, lag: nat, clock: int)
    requires Working(l) && n >= 1
    ensures BusyInv(l, lag, l.maxAttempts + n - 1, Start(clock))
  {
    var s := Start(clock).s;
    forall ip
      ensures HasEpoch(l, lag, s, ip)
    {
      assert Epoch(l, lag, s, ip, 0);
    }
  }

  lemma {:induction false} EndInv(l: Limits, n: nat, lag: nat, b: Busy, steps: seq<Step>)
    requires Working(l) && n >= 1 && BusyInv(l, lag, l.maxAttempts + n - 1, b) && Run(l, n, lag, b, steps)
    ensures BusyInv(l, lag, l.maxAttempts + n - 1, End(l, b, steps))
    decreases |steps|
  {
    hide BusyInv, Next, AtMost, InTime;
    if steps != [] {
      NextKeepsInv(l, n, lag, b, steps[0]);
      EndInv(l, n, lag, Next(l, b, steps[0]), steps[1..]);
    }
  }

  /**
   * However redemptions overlap: if an address never has more than n under way and no reading is used late by more
   * than the lag, a window as long as a lockout less two lags, without a success of the address in it or in the lag
   * after it, holds at most maxAttempts + n - 1 of its failures, by their readings, and no count is ever larger.
   * With a lag of 0 that is a window as long as a lockout.
   */
  lemma OverlappingWindowBound(l: Limits, n: nat, lag: nat, clock: int, steps: seq<Step>, ip: string, from: int)
    requires Working(l) && n >= 1 && Run(l, n, lag, Start(clock), steps)
    ensures var s := End(l, Start(clock), steps).s;
            && (NoSuccessIn(s.log, ip, from, l.lockout - lag) ==>
                FailuresIn(s.log, ip, from, l.lockout - 2 * lag) <= l.maxAttempts + n - 1)
            && (ip in s.failures ==> s.failures[ip].count <= l.maxAttempts + n - 1)
  {
    hide NoSuccessIn, FailuresIn, Ordered, HasEpoch, Run, End;
    StartInv(l, n, lag, clock);
    EndInv(l, n, lag, Start(clock), steps);
    assert WindowHolds(l, lag, l.maxAttempts + n - 1, End(l, Start(clock), steps).s.log, ip, from);
  }

  // ------------------------------------------------------------------ what a late reading does

  ghost predicate AllLockFromLast(l: Limits, failures: map<string, FailureState>) {
    forall ip :: ip in failures ==> LocksFromLast(l, failures[ip])
  }

  lemma {:induction false} LockoutsRunFromLast(l: Limits, b: Busy, steps: seq<Step>)
    requires Working(l) && AllLockFromLast(l, b.s.failures)
    ensures AllLockFromLast(l, End(l, b, steps).s.failures)
    decreases |steps|
  {
    hide Next, AllLockFromLast;
    if steps != [] {
      NextLocksFromLast(l, b, steps[0]);
      LockoutsRunFromLast(l, Next(l, b, steps[0]), steps[1..]);
    }
  }

  lemma NextLocksFromLast(l: Limits, b: Busy, step: Step)
    requires Working(l) && AllLockFromLast(l, b.s.failures)
    ensures AllLockFromLast(l, Next(l, b, step).s.failures)
  {
  }

  /** At some instant from the reading on, the address was locked out before and no longer is. */
  ghost predicate Shortened(failures: map<string, FailureState>, failures2: map<string, FailureState>, ip: string,
                            at: int) {
    exists t :: at <= t && Locked(failures, ip, t) && !Locked(failures2, ip, t)
  }

  /**
   * In every run, counting a failure shortens a lockout if and only if it is the address's own, and the reading is
   * earlier than the last one counted for it.
   */
  lemma ShortensExactlyWhen(l: Limits, clock: int, steps: seq<Step>, p: nat, ip: string)
    requires Working(l) && var b := End(l, Start(clock), steps); p in b.calls && b.calls[p].Missed?
    ensures var b := End(l, Start(clock), steps);
            Shortened(b.s.failures, Next(l, b, Count(p)).s.failures, ip, b.calls[p].at) <==>
            ip == b.calls[p].ip && ip in b.s.failures && b.s.failures[ip].lockedUntil.Some?
            && b.calls[p].at < b.s.failures[ip].lastFailure
  {
    hide End;
    LockoutsRunFromLast(l, Start(clock), steps);
    var b := End(l, Start(clock), steps);
    var at, b2 := b.calls[p].at, Next(l, b, Count(p));
    if ip == b.calls[p].ip && ip in b.s.failures && b.s.failures[ip].lockedUntil.Some?
      && at < b.s.failures[ip].lastFailure
    {
      var t := at + l.lockout;
      assert Locked(b.s.failures, ip, t) && !Locked(b2.s.failures, ip, t);
    }
  }

  // ------------------------------------------------------------------ runs that go to the bound and past it

  lemma {:induction false} RunAppend(l: Limits, n: nat, lag: nat, b: Busy, steps: seq<Step>, more: seq<Step>)
    requires Run(l, n, lag, b, steps) && Run(l, n, lag, End(l, b, steps), more)
    ensures Run(l, n, lag, b, steps + more) && End(l, b, steps + more) == End(l, End(l, b, steps), more)
    decreases |steps|
  {
    hide Next, AtMost, InTime;
    if steps == [] {
      assert steps + more == more;
    } else {
      assert (steps + more)[1..] == steps[1..] + more;
      RunAppend(l, n, lag, Next(l, b, steps[0]), steps[1..], more);
    }
  }

  /** A redemption that comes as far as its reading for the count. */
  function Guess(p: nat, ip: string): seq<Step> {
    [Enter(p, ip), Check(p), Miss(p)]
  }

  /** The address is the only one, and its redemptions are numbered below n. */
  predicate Numbered(n: nat, calls: map<nat, Call>, ip: string) {
    forall p :: p in calls ==> calls[p].ip == ip && p < n
  }

  lemma NumberedAreFew(n: nat, b: Busy, ip: string)
    requires Numbered(n, b.calls, ip)
    ensures AtMost(n, b)
  {
    forall other
      ensures |UnderWay(b.calls, other)| <= n
    {
      Few(UnderWay(b.calls, other), n);
    }
  }

  lemma {:induction false} Few(s: set<nat>, n: nat)
    requires forall p :: p in s ==> p < n
    ensures |s| <= n
  {
    if n > 0 {
      Few(s - {n - 1}, n - 1);
    } else {
      assert s == {};
    }
  }

  lemma Guessed(l: Limits, n: nat, lag: nat, b: Busy, p: nat, ip: string)
    requires Numbered(n, b.calls, ip) && p < n && p !in b.calls && !Locked(b.s.failures, ip, b.clock)
    requires b.s.clock <= b.clock
    ensures Run(l, n, lag, b, Guess(p, ip))
    ensures End(l, b, Guess(p, ip)) ==
            b.(s := State(AfterCheck(b.s.failures, ip, b.clock), b.s.log, b.clock),
               calls := b.calls[p := Missed(ip, b.clock)])
  {
    hide AtMost, AfterCheck;
    var b1 := b.(calls := b.calls[p := Looked(ip, b.clock)]);
    var s2 := State(AfterCheck(b.s.failures, ip, b.clock), b.s.log, b.clock);
    var b2 := Busy(s2, b.calls[p := Passed(ip)], b.clock);
    var b3 := Busy(s2, b.calls[p := Missed(ip, b.clock)], b.clock);
    assert Next(l, b, Enter(p, ip)) == b1;
    assert Next(l, b1, Check(p)) == b2 by { assert b1.calls[p := Passed(ip)] == b2.calls; }
    assert Next(l, b2, Miss(p)) == b3 by { assert b2.calls[p := Missed(ip, b.clock)] == b3.calls; }
    NumberedAreFew(n, b, ip);
    NumberedAreFew(n, b1, ip);
    NumberedAreFew(n, b2, ip);
    NumberedAreFew(n, b3, ip);
    assert Guess(p, ip)[1..] == [Check(p), Miss(p)] && [Check(p), Miss(p)][1..] == [Miss(p)] && [Miss(p)][1..] == [];
    hide Next;
    assert Run(l, n, lag, b3, []) && End(l, b3, []) == b3;
    assert Run(l, n, lag, b2, [Miss(p)]) && End(l, b2, [Miss(p)]) == b3;
    assert Run(l, n, lag, b1, [Check(p), Miss(p)]) && End(l, b1, [Check(p), Miss(p)]) == b3;
  }

  lemma CountedOne(l: Limits, n: nat, lag: nat, b: Busy, p: nat, ip: string, at: int)
    requires Numbered(n, b.calls, ip) && p in b.calls && b.calls[p] == Missed(ip, at) && b.s.clock - lag <= at
    ensures Run(l, n, lag, b, [Count(p)])
    ensures End(l, b, [Count(p)]) == b.(s := WithFailure(l, b.s, ip, at), calls := b.calls - {p})
  {
    hide AtMost;
    var b2 := Next(l, b, Count(p));
    NumberedAreFew(n, b, ip);
    NumberedAreFew(n, b2, ip);
    assert [Count(p)][1..] == [];
    assert Run(l, n, lag, b2, []);
  }

  /** Redemptions with their reading for the count, all of one instant. */
  function Waiting(j: nat, clock: int): (calls: map<nat, Call>)
    ensures forall p: nat :: p in calls <==> p < j
    ensures forall p :: p in calls ==> calls[p] == Missed("", clock)
  {
    if j == 0 then map[] else Waiting(j - 1, clock)[j - 1 := Missed("", clock)]
  }

  function Counts(k: nat, clock: int): seq<Event> {
    if k == 0 then [] else Counts(k - 1, clock) + [Failure("", clock)]
  }

  /** After k counted failures, with j redemptions waiting to be counted, all at one instant. */
  function Pressed(l: Limits, k: nat, j: nat, clock: int): Busy {
    Busy(State(Strikes(l, k, clock), Counts(k, clock), clock), Waiting(j, clock), clock)
  }

  lemma OneMoreWaits(l: Limits, n: nat, k: nat, j: nat, clock: int)
    requires Working(l) && k < l.maxAttempts && j < n
    ensures Run(l, n, 0, Pressed(l, k, j, clock), Guess(j, ""))
    ensures End(l, Pressed(l, k, j, clock), Guess(j, "")) == Pressed(l, k, j + 1, clock)
  {
    hide End, Run;
    Guessed(l, n, 0, Pressed(l, k, j, clock), j, "");
    assert Waiting(j, clock)[j := Missed("", clock)] == Waiting(j + 1, clock);
  }

  lemma OneMoreCounts(l: Limits, n: nat, k: nat, j: nat, clock: int)
    requires Working(l) && j < n
    ensures Run(l, n, 0, Pressed(l, k, j + 1, clock), [Count(j)])
    ensures End(l, Pressed(l, k, j + 1, clock), [Count(j)]) == Pressed(l, k + 1, j, clock)
  {
    hide End, Run;
    CountedOne(l, n, 0, Pressed(l, k, j + 1, clock), j, "", clock);
    assert Waiting(j + 1, clock) - {j} == Waiting(j, clock);
    assert Swept(l, Strikes(l, k, clock), clock) == Strikes(l, k, clock);
  }

  /** Such a state is reached as long as all who wait have passed before the lockout. */
  lemma {:induction false} Reached(l: Limits, n: nat, k: nat, j: nat, clock: int) returns (steps: seq<Step>)
    requires Working(l) && n >= 1 && j <= n && k + j <= l.maxAttempts - 1 + n
    ensures Run(l, n, 0, Start(clock), steps) && End(l, Start(clock), steps) == Pressed(l, k, j, clock)
    decreases 2 * k + j
  {
    hide Pressed, Guess;
    if k == 0 && j == 0 {
      steps := [];
      NothingReached(l, n, clock);
    } else if k < l.maxAttempts && j > 0 {
      var before := Reached(l, n, k, j - 1, clock);
      hide Run, End;
      OneMoreWaits(l, n, k, j - 1, clock);
      RunAppend(l, n, 0, Start(clock), before, Guess(j - 1, ""));
      steps := before + Guess(j - 1, "");
    } else {
      var before := Reached(l, n, k - 1, j + 1, clock);
      hide Run, End;
      OneMoreCounts(l, n, k - 1, j, clock);
      RunAppend(l, n, 0, Start(clock), before, [Count(j)]);
      steps := before + [Count(j)];
    }
  }

  lemma NothingReached(l: Limits, n: nat, clock: int)
    ensures Run(l, n, 0, Start(clock), []) && End(l, Start(clock), []) == Pressed(l, 0, 0, clock)
  {
    NumberedAreFew(n, Start(clock), "");
    assert Waiting(0, clock) == map[];
  }

  lemma {:induction false} CountsInWindow(k: nat, clock: int, span: int)
    requires span >= 1
    ensures FailuresIn(Counts(k, clock), "", clock, span) == k && NoSuccessIn(Counts(k, clock), "", clock, span)
  {
    if k > 0 {
      CountsInWindow(k - 1, clock, span);
      GrownWindow(Counts(k - 1, clock), Failure("", clock), "", clock, span);
    }
  }

  /** The bound for readings in order is reached, for every limit and every number of redemptions. */
  lemma OverlappingBoundIsReached(l: Limits, n: nat, clock: int) returns (steps: seq<Step>)
    requires Working(l) && n >= 1
    ensures Run(l, n, 0, Start(clock), steps)
    ensures var log := End(l, Start(clock), steps).s.log;
            && NoSuccessIn(log, "", clock, l.lockout)
            && FailuresIn(log, "", clock, l.lockout) == l.maxAttempts + n - 1
  {
    hide Run, End, Counts, Strikes, FailuresIn, NoSuccessIn, Waiting;
    steps := Reached(l, n, l.maxAttempts + n - 1, 0, clock);
    CountsInWindow(l.maxAttempts + n - 1, clock, l.lockout);
  }

  /** A redemption from its start to its count, while the clock stands still. */
  function Strike(p: nat, ip: string): seq<Step> {
    Guess(p, ip) + [Count(p)]
  }

  lemma Struck(l: Limits, n: nat, lag: nat, b: Busy, p: nat, ip: string)
    requires Numbered(n, b.calls, ip) && p < n && p !in b.calls && !Locked(b.s.failures, ip, b.clock)
    requires b.s.clock <= b.clock
    ensures Run(l, n, lag, b, Strike(p, ip))
    ensures End(l, b, Strike(p, ip)) ==
            b.(s := WithFailure(l, State(AfterCheck(b.s.failures, ip, b.clock), b.s.log, b.clock), ip, b.clock))
  {
    hide Run, End, Guess, AfterCheck, WithFailure;
    Guessed(l, n, lag, b, p, ip);
    var b2 := End(l, b, Guess(p, ip));
    CountedOne(l, n, lag, b2, p, ip, b.clock);
    RunAppend(l, n, lag, b, Guess(p, ip), [Count(p)]);
    assert b2.calls - {p} == b.calls;
  }

  const SMALL := Limits(2, 10)

  /** A redemption of "a" enters at 0 and reads 4 for its count. */
  const EARLY: seq<Step> := [Enter(0, "a"), Check(0), Tick(4), Miss(0), Tick(5)]

  /** Two more are counted at 5 and lock the address out till 15; then the early one with its reading. */
  const LATE: seq<Step> := EARLY + Strike(1, "a") + Strike(1, "a") + [Count(0)]

  /** At 14 two again. */
  const LATER: seq<Step> := [Tick(14)] + Strike(0, "a") + Strike(0, "a")

  lemma AfterEarly()
    ensures Run(SMALL, 2, 1, Start(0), EARLY)
    ensures End(SMALL, Start(0), EARLY) == Busy(State(map[], [], 0), map[0 := Missed("a", 4)], 5)
  {
    var s := State(map[], [], 0);
    var b1 := Busy(s, map[0 := Looked("a", 0)], 0);
    var b2 := Busy(s, map[0 := Passed("a")], 0);
    var b3 := Busy(s, map[0 := Passed("a")], 4);
    var b4 := Busy(s, map[0 := Missed("a", 4)], 4);
    var b5 := Busy(s, map[0 := Missed("a", 4)], 5);
    assert Next(SMALL, Start(0), EARLY[0]) == b1 && Next(SMALL, b1, EARLY[1]) == b2 && Next(SMALL, b2, EARLY[2]) == b3;
    assert Next(SMALL, b3, EARLY[3]) == b4 && Next(SMALL, b4, EARLY[4]) == b5;
    hide Next, AtMost;
    NumberedAreFew(2, Start(0), "a");
    NumberedAreFew(2, b1, "a");
    NumberedAreFew(2, b2, "a");
    NumberedAreFew(2, b3, "a");
    NumberedAreFew(2, b4, "a");
    NumberedAreFew(2, b5, "a");
    assert EARLY[5..] == [];
    assert EARLY[4..][1..] == EARLY[5..] && EARLY[3..][1..] == EARLY[4..] && EARLY[2..][1..] == EARLY[3..];
    assert EARLY[1..][1..] == EARLY[2..];
    assert Run(SMALL, 2, 1, b5, EARLY[5..]) && End(SMALL, b5, EARLY[5..]) == b5;
    assert Run(SMALL, 2, 1, b4, EARLY[4..]) && End(SMALL, b4, EARLY[4..]) == b5;
    assert Run(SMALL, 2, 1, b3, EARLY[3..]) && End(SMALL, b3, EARLY[3..]) == b5;
    assert Run(SMALL, 2, 1, b2, EARLY[2..]) && End(SMALL, b2, EARLY[2..]) == b5;
    assert Run(SMALL, 2, 1, b1, EARLY[1..]) && End(SMALL, b1, EARLY[1..]) == b5;
  }

  lemma AfterLate()
    ensures Run(SMALL, 2, 1, Start(0), LATE)
    ensures End(SMALL, Start(0), LATE) ==
            Busy(State(map["a" := FailureState(3, Some(14), 4)],
                       [Failure("a", 5), Failure("a", 5), Failure("a", 4)], 5), map[], 5)
  {
    AfterEarly();
    hide Run, End, Strike, EARLY;
    var calls := map[0 := Missed("a", 4)];
    var b := Busy(State(map[], [], 0), calls, 5);
    var b1 := Busy(State(map["a" := FailureState(1, None, 5)], [Failure("a", 5)], 5), calls, 5);
    var b2 := Busy(State(map["a" := FailureState(2, Some(15), 5)], [Failure("a", 5), Failure("a", 5)], 5), calls, 5);
    Struck(SMALL, 2, 1, b, 1, "a");
    RunAppend(SMALL, 2, 1, Start(0), EARLY, Strike(1, "a"));
    assert End(SMALL, b, Strike(1, "a")) == b1;
    Struck(SMALL, 2, 1, b1, 1, "a");
    RunAppend(SMALL, 2, 1, Start(0), EARLY + Strike(1, "a"), Strike(1, "a"));
    assert End(SMALL, b1, Strike(1, "a")) == b2;
    CountedOne(SMALL, 2, 1, b2, 0, "a", 4);
    RunAppend(SMALL, 2, 1, Start(0), EARLY + Strike(1, "a") + Strike(1, "a"), [Count(0)]);
  }

  /**
   * A run with two attempts, a lockout of 10, at most 2 redemptions under way, and one reading used late by 1: the
   * window from 5 to 15 holds 4 failures by their readings and no success, one more than readings in order allow.
   */
  lemma LateReadingExists()
    ensures Run(SMALL, 2, 1, Start(0), LATE + LATER)
    ensures var log := End(SMALL, Start(0), LATE + LATER).s.log;
            NoSuccessIn(log, "a", 5, 10) && FailuresIn(log, "a", 5, 10) == 4
  {
    AfterLate();
    var log := [Failure("a", 5), Failure("a", 5), Failure("a", 4)];
    var b := Busy(State(map["a" := FailureState(3, Some(14), 4)], log, 5), map[], 5);
    AfterLater(b);
    hide Run, End, Strike, LATE, LATER;
    RunAppend(SMALL, 2, 1, Start(0), LATE, LATER);
    var log1, log2 := log[..1], log[..2];
    assert log1 == [] + [log[0]] && log2 == log1 + [log[1]] && log == log2 + [log[2]];
    GrownWindow([], log[0], "a", 5, 10);
    GrownWindow(log1, log[1], "a", 5, 10);
    GrownWindow(log2, log[2], "a", 5, 10);
    GrownWindow(log, Failure("a", 14), "a", 5, 10);
    GrownWindow(log + [Failure("a", 14)], Failure("a", 14), "a", 5, 10);
  }

  /** Two failures at 14, right after a lockout till then. */
  lemma AfterLater(b: Busy)
    requires b.s.failures == map["a" := FailureState(3, Some(14), 4)] && b.calls == map[]
    requires b.clock <= 14 && b.s.clock <= 14
    ensures Run(SMALL, 2, 1, b, LATER)
    ensures End(SMALL, b, LATER).s.log == b.s.log + [Failure("a", 14)] + [Failure("a", 14)]
  {
    var b1 := b.(clock := 14);
    assert Next(SMALL, b, Tick(14)) == b1;
    NumberedAreFew(2, b, "a");
    NumberedAreFew(2, b1, "a");
    assert [Tick(14)][1..] == [];
    hide AtMost, Strike;
    assert Run(SMALL, 2, 1, b1, []) && Run(SMALL, 2, 1, b, [Tick(14)]);
    assert End(SMALL, b1, []) == b1 && End(SMALL, b, [Tick(14)]) == b1;
    hide Run, End;
    Struck(SMALL, 2, 1, b1, 0, "a");
    RunAppend(SMALL, 2, 1, b, [Tick(14)], Strike(0, "a"));
    var b2 := End(SMALL, b1, Strike(0, "a"));
    assert b2.s.failures == map["a" := FailureState(1, None, 14)];
    Struck(SMALL, 2, 1, b2, 0, "a");
    RunAppend(SMALL, 2, 1, b, [Tick(14)] + Strike(0, "a"), Strike(0, "a"));
  }
}
