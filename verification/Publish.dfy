/** Publishing the newest known release by compare-and-set, from any number of calls at once. */
module Publish {
  import opened Schema

  datatype UpdateInfo = UpdateInfo(versionCode: int, versionName: string, sha256: string, downloadUrl: string)

  /** The newer of what is published and what is offered; the one already there wins a tie. */
  function Better(state: Option<UpdateInfo>, info: UpdateInfo): Option<UpdateInfo> {
    if state.Some? && state.value.versionCode >= info.versionCode then state else Some(info)
  }

  function Best(state: Option<UpdateInfo>, offers: seq<UpdateInfo>): Option<UpdateInfo>
    decreases |offers|
  {
    if offers == [] then state else Better(Best(state, offers[..|offers| - 1]), offers[|offers| - 1])
  }

  /** The best of some offers is one of them, or what was there; nothing is newer, and nothing as new came before it. */
  lemma {:induction false} BestIsNewest(state: Option<UpdateInfo>, offers: seq<UpdateInfo>)
    ensures var best := Best(state, offers);
            && (best == state || exists i :: 0 <= i < |offers| && best == Some(offers[i]))
            && (best == None <==> state == None && offers == [])
            && (forall i :: 0 <= i < |offers| ==> offers[i].versionCode <= best.value.versionCode)
            && (state.Some? ==> state.value.versionCode <= best.value.versionCode)
            && (state.Some? && state.value.versionCode == best.value.versionCode ==> best == state)
    decreases |offers|
  {
    if offers != [] {
      var k := |offers| - 1;
      BestIsNewest(state, offers[..k]);
      assert forall i :: 0 <= i < k ==> offers[..k][i] == offers[i];
    }
  }

  predicate AtMost(info: UpdateInfo, state: Option<UpdateInfo>) {
    state.Some? && info.versionCode <= state.value.versionCode
  }

  predicate NoLower(state: Option<UpdateInfo>, state2: Option<UpdateInfo>) {
    state.Some? ==> AtMost(state.value, state2)
  }

  /** What a call leaves when k other offers came in before it was through. */
  predicate PublishedWell(was: Option<UpdateInfo>, others: seq<UpdateInfo>, k: nat, info: UpdateInfo,
                          state: Option<UpdateInfo>)
    requires k <= |others|
  {
    && state.Some? && info.versionCode <= state.value.versionCode
    && (state == was || state == Some(info) || exists i :: 0 <= i < |others| && state == Some(others[i]))
    && (was.Some? ==> was.value.versionCode <= state.value.versionCode)
    && (was.Some? && was.value.versionCode == state.value.versionCode ==> state == was)
    && (k == 0 ==> state == if was.Some? && info.versionCode <= was.value.versionCode then was else Some(info))
  }

  class UpdateAvailability {
    var state: Option<UpdateInfo>

    constructor ()
      ensures state == None
    {
      state := None;
    }

    /** Structural comparison, as StateFlow does it. */
    method CompareAndSet(seen: Option<UpdateInfo>, update: UpdateInfo) returns (ok: bool)
      modifies this
      ensures ok == (old(state) == seen) && state == if ok then Some(update) else old(state)
    {
      ok := state == seen;
      if ok {
        state := Some(update);
      }
    }

    /**
     * The retry loop, with one other call's offer coming in before each compare-and-set, as long as there are any:
     * it ends, and leaves the best of what was there, of the offers that came in, and of its own.
     */
    method Publish(info: UpdateInfo, others: seq<UpdateInfo>)
      modifies this
      ensures exists k :: 0 <= k <= |others| && state == Better(Best(old(state), others[..k]), info)
      ensures state.Some? && info.versionCode <= state.value.versionCode
      ensures state == old(state) || state == Some(info) || exists i :: 0 <= i < |others| && state == Some(others[i])
      ensures old(state).Some? ==> old(state).value.versionCode <= state.value.versionCode
      ensures old(state).Some? && old(state).value.versionCode == state.value.versionCode ==> state == old(state)
      ensures others == [] ==>
                state == if old(state).Some? && info.versionCode <= old(state).value.versionCode then old(state)
                         else Some(info)
    {
      forall k | 0 <= k <= |others|
        ensures PublishedWell(old(state), others, k, info, Better(Best(old(state), others[..k]), info))
      {
        BestIsNewest(old(state), others[..k]);
      }
      hide Best;
      var i := 0;
      while true
        invariant 0 <= i <= |others| && state == Best(old(state), others[..i])
        decreases |others| - i
      {
        var seen := state;
        if seen.Some? && seen.value.versionCode >= info.versionCode {
          return;
        }
        if i < |others| {
          assert others[..i + 1][..i] == others[..i];
          state := Better(state, others[i]);
          i := i + 1;
        }
        var ok := CompareAndSet(seen, info);
        if ok {
          return;
        }
      }
    }
  }

  // ------------------------------------------------------------------ interleaved calls

  /**
   * A call between its steps: the writes there had been when it began and when it last read, and how often it
   * retried.
   */
  datatype Call =
    | Reading(info: UpdateInfo, began: nat, retries: nat)
    | Comparing(info: UpdateInfo, seen: Option<UpdateInfo>, readAt: nat, began: nat, retries: nat)

  datatype State = State(
    published: Option<UpdateInfo>, calls: map<nat, Call>, offered: set<UpdateInfo>, started: nat, writes: nat)

  datatype Step = Start(p: nat, info: UpdateInfo) | Read(p: nat) | Cas(p: nat)

  function Next(s: State, step: Step): State {
    match step
    case Start(p, info) =>
      if p in s.calls then s
      else s.(calls := s.calls[p := Reading(info, s.writes, 0)], offered := s.offered + {info},
              started := s.started + 1)
    case Read(p) =>
      if p !in s.calls || !s.calls[p].Reading? then s
      else
        var c := s.calls[p];
        if AtMost(c.info, s.published) then s.(calls := s.calls - {p})
        else s.(calls := s.calls[p := Comparing(c.info, s.published, s.writes, c.began, c.retries)])
    case Cas(p) =>
      if p !in s.calls || !s.calls[p].Comparing? then s
      else
        var c := s.calls[p];
        if s.published == c.seen then s.(published := Some(c.info), calls := s.calls - {p}, writes := s.writes + 1)
        else s.(calls := s.calls[p := Reading(c.info, c.began, c.retries + 1)])
  }

  function After(s: State, steps: seq<Step>): State
    decreases |steps|
  {
    if steps == [] then s else After(Next(s, steps[0]), steps[1..])
  }

  const START := State(None, map[], {}, 0, 0)

  /** Everything offered is published, or below what is, or still under way. */
  ghost predicate Offers(s: State) {
    && (s.published.Some? ==> s.published.value in s.offered)
    && (forall p :: p in s.calls ==> s.calls[p].info in s.offered)
    && (forall info :: info in s.offered ==> AtMost(info, s.published) || UnderWay(s, info))
  }

  ghost predicate UnderWay(s: State, info: UpdateInfo) {
    exists p :: p in s.calls && s.calls[p].info == info
  }

  /** What a call has seen is lower than its offer, and stands until someone writes; each retry took a write. */
  predicate Accounted(s: State, c: Call) {
    && c.began <= s.writes
    && (c.Reading? ==> c.retries <= s.writes - c.began)
    && (c.Comparing? ==> c.began <= c.readAt <= s.writes && c.retries <= c.readAt - c.began)
    && (c.Comparing? ==> !AtMost(c.info, c.seen) && (c.readAt == s.writes ==> c.seen == s.published))
  }

  ghost predicate Inv(s: State) {
    && Offers(s) && (forall p :: p in s.calls ==> Accounted(s, s.calls[p])) && s.writes + |s.calls| <= s.started
  }

  lemma StartKeepsInv(s: State, p: nat, info: UpdateInfo)
    requires Inv(s) && p !in s.calls
    ensures Inv(Next(s, Start(p, info)))
  {
    hide Offers;
    var s2 := Next(s, Start(p, info));
    assert s2.calls.Keys == s.calls.Keys + {p} && |s2.calls| == |s2.calls.Keys| && |s.calls| == |s.calls.Keys|;
    StartKeepsOffers(s, p, s2.calls[p]);
  }

  lemma StartKeepsOffers(s: State, p: nat, c: Call)
    requires Offers(s) && p !in s.calls
    ensures Offers(s.(calls := s.calls[p := c], offered := s.offered + {c.info}, started := s.started + 1))
  {
    var s2 := s.(calls := s.calls[p := c], offered := s.offered + {c.info}, started := s.started + 1);
    hide AtMost;
    assert UnderWay(s2, c.info) by { assert p in s2.calls && s2.calls[p].info == c.info; }
    forall i | i in s.offered
      ensures AtMost(i, s2.published) || UnderWay(s2, i)
    {
      if UnderWay(s, i) {
        var q :| q in s.calls && s.calls[q].info == i;
        assert q in s2.calls && s2.calls[q].info == i;
      }
    }
  }

  /** A call that stays keeps its offer under way. */
  lemma StepKeepsOffers(s: State, s2: State, p: nat)
    requires Offers(s) && p in s.calls && s2.offered == s.offered && NoLower(s.published, s2.published)
    requires s2.published == s.published || s2.published == Some(s.calls[p].info)
    requires if p in s2.calls then s2.calls == s.calls[p := s2.calls[p]] && s2.calls[p].info == s.calls[p].info
             else s2.calls == s.calls - {p} && AtMost(s.calls[p].info, s2.published)
    ensures Offers(s2)
  {
    forall i | i in s2.offered
      ensures AtMost(i, s2.published) || UnderWay(s2, i)
    {
      if UnderWay(s, i) {
        var q :| q in s.calls && s.calls[q].info == i;
        assert q in s2.calls ==> s2.calls[q].info == i;
      }
    }
  }

  lemma CallsShrink(calls: map<nat, Call>, p: nat, c: Call)
    requires p in calls
    ensures |calls - {p}| == |calls| - 1 && |calls[p := c]| == |calls|
  {
    assert (calls - {p}).Keys == calls.Keys - {p} && calls[p := c].Keys == calls.Keys;
    assert |(calls - {p}).Keys| == |calls - {p}| && |calls[p := c].Keys| == |calls[p := c]| && |calls.Keys| == |calls|;
  }

  lemma NextKeepsInv(s: State, step: Step)
    requires Inv(s)
    ensures Inv(Next(s, step)) && NoLower(s.published, Next(s, step).published)
  {
    hide Offers;
    var s2 := Next(s, step);
    if step.Start? {
      if step.p !in s.calls {
        StartKeepsInv(s, step.p, step.info);
      }
    } else if step.p in s.calls && s2 != s {
      CallsShrink(s.calls, step.p, if step.p in s2.calls then s2.calls[step.p] else s.calls[step.p]);
      assert Accounted(s, s.calls[step.p]);
      StepKeepsOffers(s, s2, step.p);
    }
  }

  lemma {:induction false} AfterInv(s: State, steps: seq<Step>)
    requires Inv(s)
    ensures Inv(After(s, steps)) && NoLower(s.published, After(s, steps).published)
    decreases |steps|
  {
    if steps != [] {
      hide Inv, Next;
      NextKeepsInv(s, steps[0]);
      AfterInv(Next(s, steps[0]), steps[1..]);
    }
  }

  /** However calls interleave, the published version code never goes down from one state of a run to a later one. */
  lemma {:induction false} NeverDowngraded(steps: seq<Step>, i: nat, j: nat)
    requires i <= j <= |steps|
    ensures var earlier, later := After(START, steps[..i]).published, After(START, steps[..j]).published;
            earlier.Some? ==> later.Some? && earlier.value.versionCode <= later.value.versionCode
  {
    hide Inv;
    StartInv();
    AfterInv(START, steps[..i]);
    AfterSplit(START, steps[..i], steps[i..j]);
    assert steps[..i] + steps[i..j] == steps[..j];
    AfterInv(After(START, steps[..i]), steps[i..j]);
  }

  /** A step of a run publishes nothing, or the offer of a call under way, and that is strictly newer. */
  lemma OnlyRaised(steps: seq<Step>, step: Step)
    ensures var s, s2 := After(START, steps), Next(After(START, steps), step);
            s2.published == s.published
            || (&& s2.published.Some? && (exists p :: p in s.calls && s.calls[p].info == s2.published.value)
                && (s.published.Some? ==> s.published.value.versionCode < s2.published.value.versionCode))
  {
    StartInv();
    AfterInv(START, steps);
    var s := After(START, steps);
    if step.Cas? && step.p in s.calls {
      assert Accounted(s, s.calls[step.p]);
    }
  }

  lemma StartInv()
    ensures Inv(START)
  {
  }

  lemma {:induction false} AfterSplit(s: State, a: seq<Step>, b: seq<Step>)
    ensures After(s, a + b) == After(After(s, a), b)
    decreases |a|
  {
    if a == [] {
      assert a + b == b;
    } else {
      assert (a + b)[1..] == a[1..] + b;
      AfterSplit(Next(s, a[0]), a[1..], b);
    }
  }

  /** Once every call has returned, the published release is one of those offered, and none offered is newer. */
  lemma EndsAtTheMaximum(steps: seq<Step>)
    ensures var s := After(START, steps);
            s.calls == map[] && s.offered != {} ==>
              s.published.Some? && s.published.value in s.offered && forall info ::
                info in s.offered ==> info.versionCode <= s.published.value.versionCode
  {
    StartInv();
    AfterInv(START, steps);
    var s := After(START, steps);
    if s.calls == map[] && s.offered != {} {
      var info :| info in s.offered;
      assert AtMost(info, s.published);
    }
  }

  /**
   * A call retries only because another one's compare-and-set succeeded after it read: its retries are at most
   * the writes since it began, and every write ends a call, so there are never more than the calls started.
   */
  lemma RetriesAreOthersWrites(steps: seq<Step>, p: nat)
    ensures var s := After(START, steps);
            p in s.calls ==>
              && s.calls[p].retries <= s.writes - s.calls[p].began
              && s.writes + 1 <= s.started
              && (s.calls[p].Comparing? && Next(s, Cas(p)).writes == s.writes ==> s.calls[p].readAt < s.writes)
  {
    StartInv();
    AfterInv(START, steps);
    var s := After(START, steps);
    if p in s.calls {
      assert Accounted(s, s.calls[p]);
      assert s.calls != map[];
    }
  }
}
