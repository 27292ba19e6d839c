/** The job queue: the order in which jobs are claimed, and a pool of workers that may crash. */
module JobQueue {
  import opened Folds
  import opened Relational

  // ------------------------------------------------------------------ claim order

  function DueJobs(jobs: map<nat, Job>, now: int): set<nat> {
    set id | id in jobs && Due(jobs, now, id)
  }

  /** Among jobs that are due there is exactly one to claim next. */
  lemma {:induction false} NextAmong(jobs: map<nat, Job>, s: set<nat>) returns (id: nat)
    requires Keyed(jobs) && s != {} && forall i :: i in s ==> i in jobs
    ensures id in s && forall other :: other in s && other != id ==> Before(jobs[id], jobs[other])
  {
    var x :| x in s;
    if s == {x} {
      id := x;
    } else {
      var y := NextAmong(jobs, s - {x});
      id := if Before(jobs[x], jobs[y]) then x else y;
      forall other | other in s && other != id
        ensures Before(jobs[id], jobs[other])
      {
        BeforeIsStrict(jobs[x], jobs[y], jobs[other]);
        BeforeIsStrict(jobs[y], jobs[x], jobs[other]);
      }
    }
  }

  lemma NextIsUnique(jobs: map<nat, Job>, now: int, i: nat, j: nat)
    requires IsNext(jobs, now, i) && IsNext(jobs, now, j)
    ensures i == j
  {
    BeforeIsStrict(jobs[i], jobs[j], jobs[i]);
  }

  /** ClaimJob answers not-found exactly when nothing is due, and else takes the next job and only that. */
  lemma ClaimTakesNext(db: Db, now: int)
    requires Keyed(db.jobs)
    ensures ClaimJob(db, now).1 == NotFound <==> DueJobs(db.jobs, now) == {}
    ensures DueJobs(db.jobs, now) == {} ==> ClaimJob(db, now).0 == db
    ensures DueJobs(db.jobs, now) != {} ==>
              var (db2, reply) := ClaimJob(db, now);
              && reply.JobIs? && IsNext(db.jobs, now, reply.job.jobID)
              && reply.job == Claimed(db.jobs[reply.job.jobID], now)
              && db2 == db.(jobs := db.jobs[reply.job.jobID := reply.job])
    ensures ClaimJob(db, now).1 == NotFound <==>
            forall id :: id in db.jobs ==> !(db.jobs[id].state == Queued && db.jobs[id].nextAttemptAtMs <= now)
    ensures ClaimJob(db, now).1 != NotFound ==>
              var r := ClaimJob(db, now).1;
              && r.JobIs? && r.job.jobID in db.jobs
              && var j := db.jobs[r.job.jobID];
                 && j.state == Queued && j.nextAttemptAtMs <= now
                 && r.job == j.(state := Running, attempts := j.attempts + 1, updatedAt := now)
                 && (forall id :: id in db.jobs && db.jobs[id].state == Queued && db.jobs[id].nextAttemptAtMs <= now
                                  && id != j.jobID ==>
                         || j.priority < db.jobs[id].priority
                         || (j.priority == db.jobs[id].priority && j.nextAttemptAtMs < db.jobs[id].nextAttemptAtMs)
                         || (j.priority == db.jobs[id].priority && j.nextAttemptAtMs == db.jobs[id].nextAttemptAtMs
                             && j.jobID < id))
  {
    var due := DueJobs(db.jobs, now);
    if due != {} {
      var id := NextAmong(db.jobs, due);
      assert IsNext(db.jobs, now, id);
      NextIsLeast(db.jobs, now, ClaimJob(db, now).1.job.jobID);
      assert id in due;
    } else {
      assert forall id :: Due(db.jobs, now, id) ==> id in due;
      assert forall id :: id in db.jobs && db.jobs[id].state == Queued && db.jobs[id].nextAttemptAtMs <= now ==>
                            Due(db.jobs, now, id);
    }
  }

  /** Claiming over and over at one instant, until nothing is due. */
  ghost function Drain(db: Db, now: int): (r: (Db, seq<Job>))
    requires Keyed(db.jobs)
    decreases |DueJobs(db.jobs, now)|
  {
    ClaimTakesNext(db, now);
    var (db2, reply) := ClaimJob(db, now);
    if reply == NotFound then (db2, [])
    else
      ClaimedIsGone(db, now, reply.job.jobID);
      var rest := Drain(db2, now);
      (rest.0, [reply.job] + rest.1)
  }

  lemma ClaimedIsGone(db: Db, now: int, id: nat)
    requires Due(db.jobs, now, id)
    ensures var jobs2 := db.jobs[id := Claimed(db.jobs[id], now)];
            DueJobs(jobs2, now) == DueJobs(db.jobs, now) - {id} && |DueJobs(jobs2, now)| < |DueJobs(db.jobs, now)|
  {
    var jobs2 := db.jobs[id := Claimed(db.jobs[id], now)];
    assert id in DueJobs(db.jobs, now);
    assert DueJobs(jobs2, now) == DueJobs(db.jobs, now) - {id};
  }

  function Ids(claimed: seq<Job>): set<nat> {
    set i | 0 <= i < |claimed| :: claimed[i].jobID
  }

  /** The jobs that are due, each claimed once, in strictly ascending order. */
  ghost predicate InOrder(jobs: map<nat, Job>, now: int, claimed: seq<Job>) {
    && |claimed| == |DueJobs(jobs, now)| && Ids(claimed) == DueJobs(jobs, now)
    && (forall i :: 0 <= i < |claimed| ==>
          claimed[i].jobID in jobs && claimed[i] == Claimed(jobs[claimed[i].jobID], now))
    && (forall i, j :: 0 <= i < j < |claimed| ==> Before(jobs[claimed[i].jobID], jobs[claimed[j].jobID]))
  }

  lemma {:induction false} DrainsAscending(db: Db, now: int)
    requires Keyed(db.jobs)
    ensures var (end, claimed) := Drain(db, now);
            && InOrder(db.jobs, now, claimed)
            && ClaimJob(end, now) == (end, NotFound)
            && end == db.(jobs := end.jobs) && end.jobs.Keys == db.jobs.Keys
            && (forall id :: id in db.jobs ==>
                  end.jobs[id] == if id in DueJobs(db.jobs, now) then Claimed(db.jobs[id], now) else db.jobs[id])
    decreases |DueJobs(db.jobs, now)|
  {
    hide Before, ClaimJob, InOrder;
    ClaimTakesNext(db, now);
    var (db2, reply) := ClaimJob(db, now);
    if reply != NotFound {
      var id := reply.job.jobID;
      ClaimedIsGone(db, now, id);
      DrainsAscending(db2, now);
      InOrderStep(db.jobs, now, id, Drain(db2, now).1);
    } else {
      InOrderNone(db.jobs, now);
    }
  }

  /**
   * Repeated claims at one instant return exactly the jobs that are queued and due, each once: an earlier one has a
   * lower priority, or the same and an earlier next attempt, or the same of both and a lower number. Then there is
   * nothing to claim, and no other job has changed.
   */
  lemma DrainsInOrder(db: Db, now: int)
    requires Keyed(db.jobs)
    ensures var (end, claimed) := Drain(db, now);
            && ClaimJob(end, now) == (end, NotFound) && end == db.(jobs := end.jobs) && end.jobs.Keys == db.jobs.Keys
            && (forall id :: id in db.jobs ==>
                  var j := db.jobs[id];
                  end.jobs[id] == if j.state == Queued && j.nextAttemptAtMs <= now
                                  then j.(state := Running, attempts := j.attempts + 1, updatedAt := now) else j)
    ensures var claimed := Drain(db, now).1;
            && |claimed| == |set id | id in db.jobs && db.jobs[id].state == Queued
                                      && db.jobs[id].nextAttemptAtMs <= now|
            && (forall id :: id in db.jobs && db.jobs[id].state == Queued && db.jobs[id].nextAttemptAtMs <= now <==>
                               exists i :: 0 <= i < |claimed| && claimed[i].jobID == id)
            && (forall i :: 0 <= i < |claimed| ==>
                  var j := db.jobs[claimed[i].jobID];
                  claimed[i] == j.(state := Running, attempts := j.attempts + 1, updatedAt := now))
            && (forall i, k :: 0 <= i < k < |claimed| ==>
                  || claimed[i].priority < claimed[k].priority
                  || (claimed[i].priority == claimed[k].priority
                      && claimed[i].nextAttemptAtMs < claimed[k].nextAttemptAtMs)
                  || (claimed[i].priority == claimed[k].priority
                      && claimed[i].nextAttemptAtMs == claimed[k].nextAttemptAtMs
                      && claimed[i].jobID < claimed[k].jobID))
  {
    hide Drain, ClaimJob;
    DrainsAscending(db, now);
    assert DueJobs(db.jobs, now) ==
           set id | id in db.jobs && db.jobs[id].state == Queued && db.jobs[id].nextAttemptAtMs <= now;
    var claimed := Drain(db, now).1;
    forall id
      ensures id in db.jobs && db.jobs[id].state == Queued && db.jobs[id].nextAttemptAtMs <= now <==>
              exists i :: 0 <= i < |claimed| && claimed[i].jobID == id
    {
      assert id in DueJobs(db.jobs, now) <==> id in Ids(claimed);
    }
  }

  lemma InOrderNone(jobs: map<nat, Job>, now: int)
    requires DueJobs(jobs, now) == {}
    ensures InOrder(jobs, now, [])
  {
  }

  /** One claim in front of the claims of what it leaves. */
  lemma InOrderStep(jobs: map<nat, Job>, now: int, id: nat, rest: seq<Job>)
    requires Keyed(jobs) && IsNext(jobs, now, id)
    requires var jobs2 := jobs[id := Claimed(jobs[id], now)];
             InOrder(jobs2, now, rest) && DueJobs(jobs2, now) == DueJobs(jobs, now) - {id}
    ensures InOrder(jobs, now, [Claimed(jobs[id], now)] + rest)
  {
    hide Before, Ids, DueJobs, Claimed, Due;
    KeyedAt(jobs, id, now);
    IdsCons(Claimed(jobs[id], now), rest);
    assert |DueJobs(jobs, now)| == 1 + |DueJobs(jobs, now) - {id}|;
    RestFacts(jobs, now, id, rest);
    OrderCons(jobs, id, Claimed(jobs[id], now), rest);
  }

  lemma RestFacts(jobs: map<nat, Job>, now: int, id: nat, rest: seq<Job>)
    requires Keyed(jobs) && IsNext(jobs, now, id)
    requires var jobs2 := jobs[id := Claimed(jobs[id], now)];
             InOrder(jobs2, now, rest) && DueJobs(jobs2, now) == DueJobs(jobs, now) - {id}
    ensures Claimed(jobs[id], now).jobID == id
    ensures forall i :: 0 <= i < |rest| ==>
              && rest[i].jobID in jobs && rest[i].jobID != id && rest[i] == Claimed(jobs[rest[i].jobID], now)
              && Before(jobs[id], jobs[rest[i].jobID])
    ensures forall i, j :: 0 <= i < j < |rest| ==> Before(jobs[rest[i].jobID], jobs[rest[j].jobID])
  {
    hide Before;
    forall i | 0 <= i < |rest|
      ensures rest[i].jobID in DueJobs(jobs, now) && rest[i].jobID != id
    {
      assert rest[i].jobID in Ids(rest);
    }
  }

  lemma OrderCons(jobs: map<nat, Job>, id: nat, first: Job, rest: seq<Job>)
    requires id in jobs && first.jobID == id
    requires forall i :: 0 <= i < |rest| ==> rest[i].jobID in jobs && Before(jobs[id], jobs[rest[i].jobID])
    requires forall i, j :: 0 <= i < j < |rest| ==> Before(jobs[rest[i].jobID], jobs[rest[j].jobID])
    ensures var claimed := [first] + rest;
            forall i, j :: 0 <= i < j < |claimed| ==>
              claimed[i].jobID in jobs && claimed[j].jobID in jobs &&
                Before(jobs[claimed[i].jobID], jobs[claimed[j].jobID])
  {
    hide Before;
    var claimed := [first] + rest;
    forall i, j | 0 <= i < j < |claimed|
      ensures claimed[i].jobID in jobs && claimed[j].jobID in jobs
      ensures Before(jobs[claimed[i].jobID], jobs[claimed[j].jobID])
    {
      assert claimed[j] == rest[j - 1];
      assert claimed[i] == if i == 0 then first else rest[i - 1];
    }
  }

  lemma IdsCons(j: Job, rest: seq<Job>)
    ensures Ids([j] + rest) == {j.jobID} + Ids(rest)
  {
    var claimed := [j] + rest;
    forall id | id in {j.jobID} + Ids(rest)
      ensures id in Ids(claimed)
    {
      if id == j.jobID {
        assert claimed[0].jobID == id;
      } else {
        var i :| 0 <= i < |rest| && rest[i].jobID == id;
        assert claimed[i + 1].jobID == id;
      }
    }
  }

  lemma KeyedAt(jobs: map<nat, Job>, id: nat, now: int)
    requires Keyed(jobs) && Due(jobs, now, id)
    ensures id in jobs && id in DueJobs(jobs, now) && jobs[id].jobID == id
  {
  }

  // ------------------------------------------------------------------ a pool of workers

  /**
   * The database, the job each worker holds, and whether the daemon is up; with a record of how often each
   * job has been claimed and requeued, and of both totals.
   */
  datatype Pool = Pool(
    db: Db, holders: map<nat, nat>, up: bool,
    claims: map<nat, int>, requeues: map<nat, int>, totalClaims: int, totalRequeued: int)

  datatype Step =
    | Enqueue(j: NewJob, now: int)
    | Claim(worker: nat, now: int)
    | Complete(worker: nat, now: int)
    | Fail(worker: nat, cause: string, next: int, now: int)
    | Crash
    | Start(now: int)

  /** One step; a worker finishes only the job it holds, and starting up requeues what a crash left running. */
  ghost predicate Next(maxAttempts: int, s: Pool, s2: Pool, step: Step) {
    match step
    case Enqueue(j, now) =>
      && s.up
      && var (db2, reply) := EnqueueJob(s.db, j, now);
         reply.IdIs? && s2 == s.(db := db2, claims := s.claims[reply.id := 0], requeues := s.requeues[reply.id := 0])
    case Claim(w, now) =>
      && s.up && w !in s.holders
      && var (db2, reply) := ClaimJob(s.db, now);
         if reply.JobIs? then
           var id := reply.job.jobID;
           && id in s.claims
           && s2 == s.(db := db2, holders := s.holders[w := id], claims := s.claims[id := s.claims[id] + 1],
                       totalClaims := s.totalClaims + 1)
         else s2 == s
    case Complete(w, now) =>
      && s.up && w in s.holders
      && s2 == s.(db := CompleteJob(s.db, s.holders[w], now).0, holders := s.holders - {w})
    case Fail(w, cause, next, now) =>
      && s.up && w in s.holders
      && s2 == s.(db := FailJob(s.db, s.holders[w], cause, next, maxAttempts, now).0, holders := s.holders - {w})
    case Crash =>
      s2 == s.(holders := map[], up := false)
    case Start(now) =>
      && !s.up
      && var (db2, reply) := RequeueRunningJobs(s.db, now);
         reply.Number? && s2 == s.(db := db2, up := true, requeues := Bumped(s.requeues, RunningJobs(s.db.jobs)),
                                   totalRequeued := s.totalRequeued + reply.n)
  }

  function Bumped(counts: map<nat, int>, ids: set<nat>): map<nat, int> {
    map id | id in counts :: counts[id] + if id in ids then 1 else 0
  }

  const EMPTY_POOL := Pool(EMPTY_DB, map[], true, map[], map[], 0, 0)

  ghost predicate Run(maxAttempts: int, states: seq<Pool>, steps: seq<Step>) {
    && |states| == |steps| + 1 && states[0] == EMPTY_POOL
    && forall i :: 0 <= i < |steps| ==> Next(maxAttempts, states[i], states[i + 1], steps[i])
  }

  function Of(counts: map<nat, int>): nat -> int {
    id => if id in counts then counts[id] else 0
  }

  /** What a job may have used up: one attempt less than the budget while it waits for another. */
  predicate WithinBudget(maxAttempts: int, j: Job, claims: int, requeues: int) {
    && j.attempts == claims && 0 <= claims && 0 <= requeues
    && j.attempts <= maxAttempts + requeues
    && (j.state == Queued ==> j.attempts <= maxAttempts - 1 + requeues)
  }

  ghost predicate Inv(maxAttempts: int, s: Pool) {
    && Books(s) && Held(s)
    && (forall id :: id in s.db.jobs ==> WithinBudget(maxAttempts, s.db.jobs[id], s.claims[id], s.requeues[id]))
  }

  /** The records cover exactly the jobs and add up to the totals. */
  ghost predicate Books(s: Pool) {
    && Keyed(s.db.jobs) && (forall id :: id in s.db.jobs ==> id <= s.db.lastJobID)
    && s.claims.Keys == s.db.jobs.Keys && s.requeues.Keys == s.db.jobs.Keys
    && s.totalClaims == Sum(Of(s.claims), s.db.jobs.Keys)
    && s.totalRequeued == Sum(Of(s.requeues), s.db.jobs.Keys)
  }

  /** While the daemon is up a job is running exactly when a worker holds it, and no two workers hold one job. */
  ghost predicate Held(s: Pool) {
    && (forall w :: w in s.holders ==> s.holders[w] in s.db.jobs && s.db.jobs[s.holders[w]].state == Running)
    && (forall v, w :: v in s.holders && w in s.holders && s.holders[v] == s.holders[w] ==> v == w)
    && (s.up ==> forall id :: id in s.db.jobs && s.db.jobs[id].state == Running ==>
        exists w :: w in s.holders && s.holders[w] == id)
    && (!s.up ==> s.holders == map[])
  }

  lemma SumOfNew(counts: map<nat, int>, id: nat)
    requires id !in counts
    ensures Sum(Of(counts[id := 0]), counts.Keys + {id}) == Sum(Of(counts), counts.Keys)
  {
    SumSame(Of(counts), Of(counts[id := 0]), counts.Keys);
    SumAdds(Of(counts[id := 0]), counts.Keys, id);
  }

  lemma SumOfBump(counts: map<nat, int>, ids: set<nat>)
    requires ids <= counts.Keys
    ensures Sum(Of(Bumped(counts, ids)), counts.Keys) == Sum(Of(counts), counts.Keys) + |ids|
  {
    SumPlus(Of(counts), Indicator(ids), Of(Bumped(counts, ids)), counts.Keys);
    SumIndicator(ids, counts.Keys);
    assert ids * counts.Keys == ids;
  }

  lemma EnqueueKeepsInv(m: int, s: Pool, s2: Pool, j: NewJob, now: int)
    requires m >= 1 && Inv(m, s) && Next(m, s, s2, Enqueue(j, now))
    ensures Inv(m, s2)
  {
    hide Sum, Of, Held;
    var id := s.db.lastJobID + 1;
    SumOfNew(s.claims, id);
    SumOfNew(s.requeues, id);
    assert s2.db.jobs.Keys == s.db.jobs.Keys + {id};
    EnqueueHolds(s, s2, id);
  }

  lemma EnqueueHolds(s: Pool, s2: Pool, id: nat)
    requires Held(s) && s.up && s2.up && id !in s.db.jobs && s2.holders == s.holders
    requires id in s2.db.jobs && s2.db.jobs[id].state == Queued && s2.db.jobs == s.db.jobs[id := s2.db.jobs[id]]
    ensures Held(s2)
  {
    forall i | i in s2.db.jobs && s2.db.jobs[i].state == Running
      ensures exists w :: w in s2.holders && s2.holders[w] == i
    {
      assert i in s.db.jobs && s.db.jobs[i].state == Running;
    }
  }

  lemma ClaimKeepsInv(m: int, s: Pool, s2: Pool, w: nat, now: int)
    requires m >= 1 && Inv(m, s) && Next(m, s, s2, Claim(w, now))
    ensures Inv(m, s2)
  {
    hide Inv, ClaimJob, DueJobs, IsNext;
    assert Keyed(s.db.jobs) by { InvBooks(m, s); }
    ClaimTakesNext(s.db, now);
    var reply := ClaimJob(s.db, now).1;
    if reply.JobIs? {
      NextIsQueued(s.db.jobs, now, reply.job.jobID);
      ClaimedKeepsInv(m, s, s2, w, reply.job.jobID, now);
    }
  }

  lemma InvBooks(m: int, s: Pool)
    requires Inv(m, s)
    ensures Keyed(s.db.jobs)
  {
    hide Sum, Of, Held, WithinBudget;
  }

  lemma ClaimedKeepsInv(m: int, s: Pool, s2: Pool, w: nat, id: nat, now: int)
    requires Inv(m, s) && s.up && w !in s.holders && id in s.db.jobs && id in s.claims && s.db.jobs[id].state == Queued
    requires s2 == s.(db := s.db.(jobs := s.db.jobs[id := Claimed(s.db.jobs[id], now)]), holders := s.holders[w := id],
                      claims := s.claims[id := s.claims[id] + 1], totalClaims := s.totalClaims + 1)
    ensures Inv(m, s2)
  {
    hide Sum, Of, Held, WithinBudget;
    assert s2.db.jobs.Keys == s.db.jobs.Keys;
    SumOfOneMore(s.claims, id);
    ClaimHolds(s, s2, w, id);
    ClaimedBudget(m, s.db.jobs[id], now, s.claims[id], s.requeues[id]);
  }

  lemma ClaimedBudget(m: int, j: Job, now: int, claims: int, requeues: int)
    requires WithinBudget(m, j, claims, requeues) && j.state == Queued
    ensures WithinBudget(m, Claimed(j, now), claims + 1, requeues)
  {
  }

  lemma SumOfOneMore(counts: map<nat, int>, id: nat)
    requires id in counts
    ensures Sum(Of(counts[id := counts[id] + 1]), counts.Keys) == Sum(Of(counts), counts.Keys) + 1
  {
    SumChanges(Of(counts), Of(counts[id := counts[id] + 1]), counts.Keys, id);
  }

  lemma ClaimHolds(s: Pool, s2: Pool, w: nat, id: nat)
    requires Held(s) && s.up && s2.up && w !in s.holders && id in s.db.jobs && s.db.jobs[id].state == Queued
    requires s2.holders == s.holders[w := id] && s2.db.jobs.Keys == s.db.jobs.Keys
    requires s2.db.jobs[id].state == Running && forall i :: i in s.db.jobs && i != id ==> s2.db.jobs[i] == s.db.jobs[i]
    ensures Held(s2)
  {
    forall i | i in s2.db.jobs && s2.db.jobs[i].state == Running
      ensures exists v :: v in s2.holders && s2.holders[v] == i
    {
      if i == id {
        assert s2.holders[w] == i;
      } else {
        var v :| v in s.holders && s.holders[v] == i;
        assert v in s2.holders && s2.holders[v] == i;
      }
    }
  }

  lemma ReleaseKeepsInv(m: int, s: Pool, s2: Pool, w: nat)
    requires m >= 1 && Inv(m, s) && s.up && w in s.holders
    requires var id := s.holders[w];
             && s2 == s.(db := s2.db, holders := s.holders - {w})
             && s2.db.lastJobID == s.db.lastJobID && s2.db.jobs.Keys == s.db.jobs.Keys
             && (forall i :: i in s.db.jobs && i != id ==> s2.db.jobs[i] == s.db.jobs[i])
             && id in s.db.jobs && s2.db.jobs[id].jobID == id && s2.db.jobs[id].attempts == s.db.jobs[id].attempts
             && s2.db.jobs[id].state != Running && (s2.db.jobs[id].state == Queued ==> s.db.jobs[id].attempts < m)
    ensures Inv(m, s2)
  {
    hide Sum, Of, Held, WithinBudget;
    ReleaseHolds(s, s2, w);
    assert WithinBudget(m, s2.db.jobs[s.holders[w]], s.claims[s.holders[w]], s.requeues[s.holders[w]]) by {
      ReleasedBudget(m, s.db.jobs[s.holders[w]], s2.db.jobs[s.holders[w]], s.claims[s.holders[w]],
                     s.requeues[s.holders[w]]);
    }
  }

  lemma ReleasedBudget(m: int, j: Job, j2: Job, claims: int, requeues: int)
    requires WithinBudget(m, j, claims, requeues) && j2.attempts == j.attempts
    requires (j2.state == Queued ==> j.attempts < m)
    ensures WithinBudget(m, j2, claims, requeues)
  {
  }

  lemma ReleaseHolds(s: Pool, s2: Pool, w: nat)
    requires Held(s) && s.up && s2.up && w in s.holders && s2.holders == s.holders - {w}
    requires s2.db.jobs.Keys == s.db.jobs.Keys && s.holders[w] in s.db.jobs && s2.db.jobs[s.holders[w]].state != Running
    requires forall i :: i in s.db.jobs && i != s.holders[w] ==> s2.db.jobs[i] == s.db.jobs[i]
    ensures Held(s2)
  {
    forall i | i in s2.db.jobs && s2.db.jobs[i].state == Running
      ensures exists v :: v in s2.holders && s2.holders[v] == i
    {
      var v :| v in s.holders && s.holders[v] == i;
      assert v in s2.holders && s2.holders[v] == i;
    }
  }

  lemma StartKeepsInv(m: int, s: Pool, s2: Pool, now: int)
    requires m >= 1 && Inv(m, s) && Next(m, s, s2, Start(now))
    ensures Inv(m, s2)
  {
    hide Sum, Of;
    SumOfBump(s.requeues, RunningJobs(s.db.jobs));
    assert s2.db.jobs.Keys == s.db.jobs.Keys;
  }

  lemma NextKeepsInv(m: int, s: Pool, s2: Pool, step: Step)
    requires m >= 1 && Inv(m, s) && Next(m, s, s2, step)
    ensures Inv(m, s2)
  {
    hide Sum, Of;
    match step
    case Enqueue(j, now) => EnqueueKeepsInv(m, s, s2, j, now);
    case Claim(w, now) => ClaimKeepsInv(m, s, s2, w, now);
    case Complete(w, now) => ReleaseKeepsInv(m, s, s2, w);
    case Fail(w, cause, next, now) => ReleaseKeepsInv(m, s, s2, w);
    case Crash =>
    case Start(now) => StartKeepsInv(m, s, s2, now);
  }

  lemma {:induction false} RunInv(m: int, states: seq<Pool>, steps: seq<Step>, i: nat)
    requires m >= 1 && Run(m, states, steps) && i < |states|
    ensures Inv(m, states[i])
  {
    if i > 0 {
      hide Inv, Next;
      RunInv(m, states, steps, i - 1);
      NextKeepsInv(m, states[i - 1], states[i], steps[i - 1]);
    }
  }

  /**
   * In every state of every run: while the daemon is up, a job is running exactly when one worker holds it;
   * its attempts are its claims, and at most the budget plus the times a crash had it requeued; so all claims
   * together are at most the budget for every job plus all rows requeued.
   */
  lemma AttemptsAreBudgeted(m: int, states: seq<Pool>, steps: seq<Step>, i: nat)
    requires m >= 1 && Run(m, states, steps) && i < |states|
    ensures var s := states[i];
            && (s.up ==> forall id :: id in s.db.jobs ==>
                  (s.db.jobs[id].state == Running <==> exists w :: w in s.holders && s.holders[w] == id))
            && (forall v, w :: v in s.holders && w in s.holders && s.holders[v] == s.holders[w] ==> v == w)
            && s.claims.Keys == s.db.jobs.Keys && s.requeues.Keys == s.db.jobs.Keys
            && (forall id :: id in s.db.jobs ==>
                  s.db.jobs[id].attempts == s.claims[id] && s.claims[id] <= m + s.requeues[id])
            && s.totalClaims <= m * |s.db.jobs| + s.totalRequeued
  {
    hide Sum, Of, Run;
    RunInv(m, states, steps, i);
    ClaimsAddUp(m, states[i]);
  }

  lemma ClaimsAddUp(m: int, s: Pool)
    requires Inv(m, s)
    ensures s.totalClaims <= m * |s.db.jobs| + s.totalRequeued
  {
    var ids := s.db.jobs.Keys;
    var budget := (id: nat) => m;
    var cap := (id: nat) => m + Of(s.requeues)(id);
    forall id | id in ids
      ensures Of(s.claims)(id) <= cap(id)
    {
      assert id in s.db.jobs && WithinBudget(m, s.db.jobs[id], s.claims[id], s.requeues[id]);
    }
    SumBounded(Of(s.claims), cap, ids);
    SumPlus(budget, Of(s.requeues), cap, ids);
    SumConst(budget, m, ids);
    assert |ids| == |s.db.jobs|;
  }

  predicate GivenUp(s: Pool, id: nat) {
    id in s.db.jobs && s.db.jobs[id].state == Failed
  }

  /** A worker reports that the job it holds has failed, with its attempts used up. */
  predicate GivesUp(maxAttempts: int, s: Pool, step: Step, id: nat) {
    && step.Fail? && step.worker in s.holders && s.holders[step.worker] == id
    && id in s.db.jobs && s.db.jobs[id].attempts >= maxAttempts
  }

  lemma RunStep(m: int, states: seq<Pool>, steps: seq<Step>, i: nat)
    requires Run(m, states, steps) && i < |states| - 1
    ensures |states| == |steps| + 1 && Next(m, states[i], states[i + 1], steps[i])
  {
    hide Next;
  }

  lemma StepGivesUp(m: int, s: Pool, s2: Pool, step: Step, id: nat)
    requires Inv(m, s) && Next(m, s, s2, step)
    ensures GivenUp(s2, id) <==> GivenUp(s, id) || GivesUp(m, s, step, id)
  {
    hide Sum, Of, WithinBudget;
    if step.Claim? {
      hide ClaimJob, DueJobs, IsNext, Held;
      ClaimTakesNext(s.db, step.now);
      var reply := ClaimJob(s.db, step.now).1;
      if reply.JobIs? {
        NextIsQueued(s.db.jobs, step.now, reply.job.jobID);
      }
    }
  }

  ghost predicate SomeGivesUp(m: int, states: seq<Pool>, steps: seq<Step>, k: nat, id: nat)
    requires k <= |steps| < |states|
  {
    exists i :: 0 <= i < k && GivesUp(m, states[i], steps[i], id)
  }

  lemma OneMoreStep(m: int, states: seq<Pool>, steps: seq<Step>, k: nat, id: nat)
    requires 0 < k <= |steps| < |states|
    ensures SomeGivesUp(m, states, steps, k, id) <==>
            SomeGivesUp(m, states, steps, k - 1, id) || GivesUp(m, states[k - 1], steps[k - 1], id)
  {
    hide GivesUp;
  }

  lemma {:induction false} GivenUpSoFar(m: int, states: seq<Pool>, steps: seq<Step>, k: nat, id: nat)
    requires m >= 1 && Run(m, states, steps) && k <= |steps| < |states|
    ensures GivenUp(states[k], id) <==> SomeGivesUp(m, states, steps, k, id)
    decreases k
  {
    hide Inv, Next, GivesUp, Run, SomeGivesUp;
    if k == 0 {
      NoneGivenUp(m, states, steps, id);
    } else {
      hide GivenUp;
      RunStep(m, states, steps, k - 1);
      GivenUpSoFar(m, states, steps, k - 1, id);
      RunInv(m, states, steps, k - 1);
      StepGivesUp(m, states[k - 1], states[k], steps[k - 1], id);
      OneMoreStep(m, states, steps, k, id);
    }
  }

  lemma NoneGivenUp(m: int, states: seq<Pool>, steps: seq<Step>, id: nat)
    requires Run(m, states, steps)
    ensures !GivenUp(states[0], id) && !SomeGivesUp(m, states, steps, 0, id)
  {
    hide Next;
  }

  /**
   * When a job is given up, in every run: it is failed in a state exactly when some step before was a failure
   * reported by the worker holding it, with all attempts used up. No claim, crash or restart ever does it.
   */
  lemma GivenUpExactlyWhen(m: int, states: seq<Pool>, steps: seq<Step>, k: nat, id: nat)
    requires m >= 1 && Run(m, states, steps) && k < |states|
    ensures GivenUp(states[k], id) <==> exists i :: 0 <= i < k && GivesUp(m, states[i], steps[i], id)
  {
    hide Next, GivenUp, GivesUp;
    GivenUpSoFar(m, states, steps, k, id);
  }

  /** A worker that holds nothing can claim the next job, the daemon can crash under it, and start again. */
  lemma CrashCycle(m: int, s: Pool, id: nat, w: nat, now: int) returns (s1: Pool, s2: Pool, s3: Pool)
    requires Inv(m, s) && s.up && s.holders == map[] && IsNext(s.db.jobs, now, id)
    ensures Next(m, s, s1, Claim(w, now)) && Next(m, s1, s2, Crash) && Next(m, s2, s3, Start(now))
    ensures s3.up && s3.holders == map[]
    ensures s3.db.jobs == s.db.jobs[id := s.db.jobs[id].(attempts := s.db.jobs[id].attempts + 1, updatedAt := now)]
  {
    hide Inv, IsNext, ClaimJob, Requeued, RunningJobs, Bumped;
    IdlePool(m, s);
    NextIsQueued(s.db.jobs, now, id);
    ClaimIs(s.db, now, id);
    s1 := s.(db := s.db.(jobs := s.db.jobs[id := Claimed(s.db.jobs[id], now)]),
             holders := s.holders[w := id], claims := s.claims[id := s.claims[id] + 1],
             totalClaims := s.totalClaims + 1);
    s2 := s1.(holders := map[], up := false);
    var (db3, number) := RequeueRunningJobs(s2.db, now);
    s3 := s2.(db := db3, up := true, requeues := Bumped(s2.requeues, RunningJobs(s2.db.jobs)),
              totalRequeued := s2.totalRequeued + number.n);
    RequeueOne(s.db.jobs, id, now);
  }

  lemma IdlePool(m: int, s: Pool)
    requires Inv(m, s) && s.up && s.holders == map[]
    ensures Keyed(s.db.jobs) && s.claims.Keys == s.db.jobs.Keys
    ensures forall i :: i in s.db.jobs ==> s.db.jobs[i].state != Running
  {
    hide Sum, Of, WithinBudget;
    NoneRunning(s);
  }

  lemma ClaimIs(db: Db, now: int, id: nat)
    requires Keyed(db.jobs) && IsNext(db.jobs, now, id)
    ensures id in db.jobs && db.jobs[id].jobID == id
    ensures ClaimJob(db, now) == (db.(jobs := db.jobs[id := Claimed(db.jobs[id], now)]),
                                  JobIs(Claimed(db.jobs[id], now)))
  {
    hide Before, ClaimJob;
    ClaimTakesNext(db, now);
    assert id in DueJobs(db.jobs, now);
    NextIsUnique(db.jobs, now, id, ClaimJob(db, now).1.job.jobID);
  }

  lemma NoneRunning(s: Pool)
    requires Held(s) && s.up && s.holders == map[]
    ensures forall i :: i in s.db.jobs ==> s.db.jobs[i].state != Running
  {
  }

  /** Claiming a job and having it requeued costs it an attempt and nothing else. */
  lemma RequeueOne(jobs: map<nat, Job>, id: nat, now: int)
    requires id in jobs && jobs[id].state == Queued && forall i :: i in jobs ==> jobs[i].state != Running
    ensures Requeued(jobs[id := Claimed(jobs[id], now)], now) ==
            jobs[id := jobs[id].(attempts := jobs[id].attempts + 1, updatedAt := now)]
  {
    var a := Requeued(jobs[id := Claimed(jobs[id], now)], now);
    var b := jobs[id := jobs[id].(attempts := jobs[id].attempts + 1, updatedAt := now)];
    assert a.Keys == b.Keys;
    forall i | i in a
      ensures a[i] == b[i]
    {
      if i != id {
        assert jobs[i].state != Running;
      }
    }
  }

  /** A stretch of a run in which no failure is reported. */
  ghost predicate NoFailures(m: int, states: seq<Pool>, steps: seq<Step>) {
    && |states| == |steps| + 1
    && forall i :: 0 <= i < |steps| ==> Next(m, states[i], states[i + 1], steps[i]) && !steps[i].Fail?
  }

  lemma Prepend(m: int, s: Pool, step: Step, states: seq<Pool>, steps: seq<Step>)
    requires NoFailures(m, states, steps) && states != [] && Next(m, s, states[0], step) && !step.Fail?
    ensures NoFailures(m, [s] + states, [step] + steps)
    ensures ([s] + states)[|states|] == states[|states| - 1]
  {
    hide Next;
    var all, allSteps := [s] + states, [step] + steps;
    forall i | 0 <= i < |allSteps|
      ensures Next(m, all[i], all[i + 1], allSteps[i]) && !allSteps[i].Fail?
    {
      if i > 0 {
        assert all[i] == states[i - 1] && all[i + 1] == states[i] && allSteps[i] == steps[i - 1];
      }
    }
  }

  /** From an idle pool, the job to claim next can crash the daemon any number of times and is still queued. */
  lemma {:induction false} CrashRounds(m: int, s: Pool, id: nat, w: nat, now: int, n: nat)
    returns (states: seq<Pool>, steps: seq<Step>)
    requires m >= 1 && Inv(m, s) && s.up && s.holders == map[] && IsNext(s.db.jobs, now, id)
    ensures NoFailures(m, states, steps) && states[0] == s
    ensures var end := states[|states| - 1];
            && end.up && id in end.db.jobs && end.db.jobs[id].state == Queued
            && end.db.jobs[id].attempts == s.db.jobs[id].attempts + n
    decreases n
  {
    NextIsQueued(s.db.jobs, now, id);
    if n == 0 {
      states, steps := [s], [];
    } else {
      hide Inv, Next, IsNext, NoFailures;
      var s1, s2, s3 := CrashRound(m, s, id, w, now);
      var more, moreSteps := CrashRounds(m, s3, id, w, now, n - 1);
      NonEmpty(m, more, moreSteps);
      states, steps := [s] + ([s1] + ([s2] + more)), [Claim(w, now)] + ([Crash] + ([Start(now)] + moreSteps));
      PrependThree(m, s, s1, s2, now, w, more, moreSteps);
    }
  }

  lemma PrependThree(m: int, s: Pool, s1: Pool, s2: Pool, now: int, w: nat, states: seq<Pool>, steps: seq<Step>)
    requires NoFailures(m, states, steps) && states != []
    requires Next(m, s, s1, Claim(w, now)) && Next(m, s1, s2, Crash) && Next(m, s2, states[0], Start(now))
    ensures var all := [s] + ([s1] + ([s2] + states));
            NoFailures(m, all, [Claim(w, now)] + ([Crash] + ([Start(now)] + steps)))
            && all[|all| - 1] == states[|states| - 1]
  {
    hide Next, NoFailures;
    Prepend(m, s2, Start(now), states, steps);
    Prepend(m, s1, Crash, [s2] + states, [Start(now)] + steps);
    Prepend(m, s, Claim(w, now), [s1] + ([s2] + states), [Crash] + ([Start(now)] + steps));
  }

  /** A round of claim, crash and restart leads back to where it started, one attempt later. */
  lemma CrashRound(m: int, s: Pool, id: nat, w: nat, now: int) returns (s1: Pool, s2: Pool, s3: Pool)
    requires m >= 1 && Inv(m, s) && s.up && s.holders == map[] && IsNext(s.db.jobs, now, id)
    ensures Next(m, s, s1, Claim(w, now)) && Next(m, s1, s2, Crash) && Next(m, s2, s3, Start(now))
    ensures Inv(m, s3) && s3.up && s3.holders == map[] && IsNext(s3.db.jobs, now, id)
    ensures id in s.db.jobs && id in s3.db.jobs && s3.db.jobs[id].attempts == s.db.jobs[id].attempts + 1
  {
    hide Inv, Next, IsNext;
    NextIsQueued(s.db.jobs, now, id);
    s1, s2, s3 := CrashCycle(m, s, id, w, now);
    NextKeepsInv(m, s, s1, Claim(w, now));
    NextKeepsInv(m, s1, s2, Crash);
    NextKeepsInv(m, s2, s3, Start(now));
    StillNext(s.db.jobs, now, id, s3.db.jobs);
  }

  lemma NonEmpty(m: int, states: seq<Pool>, steps: seq<Step>)
    requires NoFailures(m, states, steps)
    ensures states != []
  {
  }

  lemma NextIsQueued(jobs: map<nat, Job>, now: int, id: nat)
    requires IsNext(jobs, now, id)
    ensures id in jobs && jobs[id].state == Queued
  {
  }

  lemma StillNext(jobs: map<nat, Job>, now: int, id: nat, jobs2: map<nat, Job>)
    requires IsNext(jobs, now, id)
    requires jobs2 == jobs[id := jobs[id].(attempts := jobs[id].attempts + 1, updatedAt := now)]
    ensures IsNext(jobs2, now, id) && id in jobs2
  {
    assert forall other :: Due(jobs2, now, other) && other != id ==> Due(jobs, now, other);
  }

  /**
   * A job that crashes the daemon is documented to reach its maximum all the same. Here is a run, from the empty
   * queue and for every maximum and every n, in which one job is enqueued, crashes the daemon n times, and is
   * queued again.
   */
  lemma CrashesNeverExhaust(m: int, j: NewJob, w: nat, now: int, n: nat) returns (states: seq<Pool>, steps: seq<Step>)
    requires m >= 1 && j.nextAttemptAtMs <= now
    ensures Run(m, states, steps) && (forall step :: step in steps ==> !step.Fail?)
    ensures var end := states[|states| - 1];
            && end.up && 1 in end.db.jobs && end.db.jobs[1].state == Queued && end.db.jobs[1].attempts == n
  {
    var s := Enqueued(m, j, now);
    hide Inv, Next, IsNext, NoFailures;
    var rounds, roundSteps := CrashRounds(m, s, 1, w, now, n);
    NonEmpty(m, rounds, roundSteps);
    Prepend(m, EMPTY_POOL, Enqueue(j, now), rounds, roundSteps);
    states, steps := [EMPTY_POOL] + rounds, [Enqueue(j, now)] + roundSteps;
    FailureFree(m, states, steps);
  }

  lemma FailureFree(m: int, states: seq<Pool>, steps: seq<Step>)
    requires NoFailures(m, states, steps) && states != [] && states[0] == EMPTY_POOL
    ensures Run(m, states, steps) && forall step :: step in steps ==> !step.Fail?
  {
    hide Next;
  }

  lemma Enqueued(m: int, j: NewJob, now: int) returns (s: Pool)
    requires m >= 1 && j.nextAttemptAtMs <= now
    ensures Next(m, EMPTY_POOL, s, Enqueue(j, now)) && Inv(m, s) && s.up && s.holders == map[]
    ensures IsNext(s.db.jobs, now, 1) && s.db.jobs[1].attempts == 0
  {
    s := EMPTY_POOL.(db := EnqueueJob(EMPTY_DB, j, now).0, claims := map[1 := 0], requeues := map[1 := 0]);
    assert s.claims == EMPTY_POOL.claims[1 := 0] && s.requeues == EMPTY_POOL.requeues[1 := 0];
    EmptyInv(m);
    EnqueueKeepsInv(m, EMPTY_POOL, s, j, now);
  }

  lemma EmptyInv(m: int)
    ensures Inv(m, EMPTY_POOL)
  {
  }
}
