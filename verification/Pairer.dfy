/** Issuing and redeeming pairing codes, one call at a time, over the store and the rate limiter. */
module Pairer {
  import opened Schema
  import opened Relational
  import opened MemStore
  import opened RateLimiter
  import CodeDraws
  import Sanitize

  const MAX_DEVICE_NAME_LEN := 64
  const DEFAULT_CODE_TTL := 10 * 60 * 1_000_000_000

  datatype IssueReply =
    | Issued(code: string, expiresAtMs: int)
    | NoUnusedCode | NoRandomness | StillDrawing | NotStored

  datatype PairRequest = PairRequest(code: string, deviceName: string, platform: string, appVersionCode: int,
                                     clientIP: string)

  /** Which calls on the store fail, without an effect, for reasons of its own. */
  datatype Faults = Faults(lookup: bool, count: bool, burn: bool, enrol: bool)

  /** The same for issuing: whether the sweep works, and the draws that cannot be inserted. */
  datatype IssueLuck = IssueLuck(sweeps: bool, fails: set<nat>)

  /**
   * What a call reads off the clock on its way: at the lockout check, at the expiry check, in the store when the
   * code is burned, and last, when a failure is counted or the device is enrolled; and the random values it
   * draws, if they can be drawn; and what fails on it. Only the store's reading is in milliseconds.
   */
  datatype Readings = Readings(
    checked: int, looked: int, burnedMs: int, done: int, token: Option<string>, deviceID: Option<string>,
    faults: Faults)

  datatype PairReply =
    | Enrolled(token: string, deviceID: string, pairedAtMs: int)
    | CodeInvalid
    | CodeExpired
    | RateLimited(retryAfterMs: int)
    | NoRandomValue
    | StoreFailed

  /** time.Time.UnixMilli */
  function UnixMilli(at: int): int {
    at / MILLISECOND
  }

  function TrimSpace(s: string): string {
    TrimSpaceRight(TrimSpaceLeft(s))
  }

  function TrimSpaceLeft(s: string): string {
    if s != "" && Sanitize.IsSpace(s[0]) then TrimSpaceLeft(s[1..]) else s
  }

  function TrimSpaceRight(s: string): string {
    if s != "" && Sanitize.IsSpace(s[|s| - 1]) then TrimSpaceRight(s[..|s| - 1]) else s
  }

  function TruncateRunes(s: string, n: nat): string {
    if |s| <= n then s else s[..n]
  }

  /** t is s without the white space at either end. */
  predicate IsTrimmed(s: string, t: string) {
    && (exists i, j :: 0 <= i <= j <= |s| && t == s[i..j] && (forall c :: c in s[..i] ==> Sanitize.IsSpace(c))
                       && forall c :: c in s[j..] ==> Sanitize.IsSpace(c))
    && (t != "" ==> !Sanitize.IsSpace(t[0]) && !Sanitize.IsSpace(t[|t| - 1]))
  }

  lemma {:induction false} TrimLeftStops(s: string) returns (i: nat)
    ensures i <= |s| && TrimSpaceLeft(s) == s[i..] && forall c :: c in s[..i] ==> Sanitize.IsSpace(c)
    ensures i < |s| ==> !Sanitize.IsSpace(s[i])
  {
    hide Sanitize.IsSpace;
    if s != "" && Sanitize.IsSpace(s[0]) {
      i := TrimLeftStops(s[1..]);
      assert s[..i + 1] == [s[0]] + s[1..][..i];
      i := i + 1;
    } else {
      i := 0;
    }
  }

  lemma {:induction false} TrimRightStops(s: string) returns (j: nat)
    ensures j <= |s| && TrimSpaceRight(s) == s[..j] && forall c :: c in s[j..] ==> Sanitize.IsSpace(c)
    ensures j > 0 ==> !Sanitize.IsSpace(s[j - 1])
  {
    hide Sanitize.IsSpace;
    j := |s|;
    if s != "" && Sanitize.IsSpace(s[|s| - 1]) {
      var front := s[..|s| - 1];
      j := TrimRightStops(front);
      assert s[j..] == front[j..] + [s[|s| - 1]] && s[..j] == front[..j];
    } else {
      assert s[..j] == s;
    }
  }

  lemma TrimSpaceTrims(s: string)
    ensures IsTrimmed(s, TrimSpace(s))
  {
    hide Sanitize.IsSpace;
    var i := TrimLeftStops(s);
    var j := TrimRightStops(s[i..]);
    var t := TrimSpace(s);
    assert t == s[i..][..j] == s[i..i + j] && s[i + j..] == s[i..][j..];
    if t != "" {
      assert t[0] == s[i] && t[|t| - 1] == s[i..][j - 1];
    }
  }

  /** What a guess is worth against the stored codes, before anything is written. */
  datatype Verdict = Malformed | Unknown | Used | Expired | Good

  ghost predicate IsCode(s: string) {
    exists v: nat :: v < CodeDraws.SPACE && s == CodeDraws.Print(v)
  }

  ghost function Judge(codes: map<string, PairingCode>, code: string, hash: string, nowMs: int): Verdict {
    if !IsCode(code) then Malformed
    else if hash !in codes then Unknown
    else if codes[hash].usedAtMs != 0 then Used
    else if nowMs >= codes[hash].expiresAtMs then Expired
    else Good
  }

  /** A wrong guess leaves its mark on the code it named, if it can, and on nothing else in the store. */
  function AfterWrongGuess(m: Mem, v: Verdict, hash: string, countFails: bool): Mem {
    if (v.Used? || v.Expired?) && !countFails && hash in m.pairingCodes then
      m.(pairingCodes := m.pairingCodes[hash := m.pairingCodes[hash].(attempts := m.pairingCodes[hash].attempts + 1)])
    else m
  }

  /** A good one burns the code and then enrols the device, as far as the store and the draws let it. */
  function AfterGoodGuess(m: Mem, codeHash: string, req: PairRequest, r: Readings, hash: string -> string): Mem {
    if codeHash !in m.pairingCodes || r.faults.burn then m
    else
      var burned := m.(pairingCodes := m.pairingCodes[codeHash := m.pairingCodes[codeHash].(usedAtMs := r.burnedMs)]);
      if r.token.None? || r.deviceID.None? || r.faults.enrol || r.deviceID.value in m.devices then burned
      else burned.(devices := m.devices[r.deviceID.value := NewDevice(req, r, hash)])
  }

  function NewDevice(req: PairRequest, r: Readings, hash: string -> string): Device
    requires r.token.Some? && r.deviceID.Some?
  {
    Device(r.deviceID.value, TruncateRunes(TrimSpace(req.deviceName), MAX_DEVICE_NAME_LEN), hash(r.token.value),
           TrimSpace(req.platform), req.appVersionCode, UnixMilli(r.done), 0, 0)
  }

  predicate Blank(req: PairRequest) {
    TrimSpace(req.deviceName) == "" || TrimSpace(req.platform) == ""
  }

  function Refusal(l: Limits, count: int, want: PairReply): PairReply
    requires Working(l)
  {
    if count >= l.maxAttempts then RateLimited(Milliseconds(l.lockout)) else want
  }

  /** The store and the failure counters. */
  datatype Server = Server(mem: Mem, failures: map<string, FailureState>)

  /** What one redemption does, from start to end. */
  ghost predicate Redeemed(l: Limits, hash: string -> string, s: Server, s2: Server, req: PairRequest, r: Readings,
                           reply: PairReply)
    requires Working(l)
  {
    var checked := Server(s.mem, AfterCheck(s.failures, req.clientIP, r.checked));
    if Locked(s.failures, req.clientIP, r.checked) then
      reply == RateLimited(Milliseconds(s.failures[req.clientIP].lockedUntil.value - r.checked)) && s2 == s
    else if Blank(req) then reply == CodeInvalid && s2 == checked
    else Guessed(l, hash, checked, s2, req, r, reply)
  }

  /** A guess: a wrong one is counted, a good one burns the code, enrols the device and clears the count. */
  ghost predicate Guessed(l: Limits, hash: string -> string, s: Server, s2: Server, req: PairRequest, r: Readings,
                          reply: PairReply)
    requires Working(l)
  {
    var codeHash := hash(req.code);
    var verdict := Judge(s.mem.pairingCodes, req.code, codeHash, UnixMilli(r.looked));
    if !verdict.Malformed? && r.faults.lookup then reply == StoreFailed && s2 == s
    else if !verdict.Good? then
      && s2 == Server(AfterWrongGuess(s.mem, verdict, codeHash, r.faults.count),
                      AfterFailure(l, s.failures, req.clientIP, r.done))
      && reply == Refusal(l, s2.failures[req.clientIP].count, if verdict.Expired? then CodeExpired else CodeInvalid)
    else
      && s2.mem == AfterGoodGuess(s.mem, codeHash, req, r, hash)
      && (if r.faults.burn then reply == StoreFailed && s2.failures == s.failures
          else if r.token.None? || r.deviceID.None? then reply == NoRandomValue && s2.failures == s.failures
          else if r.faults.enrol || r.deviceID.value in s.mem.devices then
            reply == StoreFailed && s2.failures == s.failures
          else reply == Enrolled(r.token.value, r.deviceID.value, UnixMilli(r.done))
               && s2.failures == s.failures - {req.clientIP})
  }

  // ------------------------------------------------------------------ issuing

  /** The first k draws are all codes that are stored already, as inserting each of them finds. */
  predicate AllStored(hash: string -> string, codes: map<string, PairingCode>, draws: seq<seq<CodeDraws.Read>>,
                      fails: set<nat>, k: nat)
    requires k <= |draws|
  {
    forall i :: 0 <= i < k ==> CodeDraws.Generated(draws[i]).Code? && i !in fails
                               && hash(CodeDraws.Generated(draws[i]).value) in codes
  }

  lemma NoDrawYet(hash: string -> string, codes: map<string, PairingCode>, draws: seq<seq<CodeDraws.Read>>,
                  fails: set<nat>)
    ensures AllStored(hash, codes, draws, fails, 0)
  {
  }

  /** One more draw decides the call, or is one more stored code. */
  lemma OneDraw(hash: string -> string, codes: map<string, PairingCode>, draws: seq<seq<CodeDraws.Read>>,
                fails: set<nat>, k: nat, expiresAtMs: int)
    requires k < |draws| && AllStored(hash, codes, draws, fails, k)
    ensures match CodeDraws.Generated(draws[k])
            case Failed => Decides(hash, codes, draws, fails, k, NoRandomness)
            case StillDrawing => Decides(hash, codes, draws, fails, k, StillDrawing)
            case Code(c) =>
              if k in fails then Decides(hash, codes, draws, fails, k, NotStored)
              else if hash(c) in codes then AllStored(hash, codes, draws, fails, k + 1)
              else Decides(hash, codes, draws, fails, k, Issued(c, expiresAtMs))
  {
    hide CodeDraws.Generated;
  }

  function SweptCodes(m: Mem, now: int, sweeps: bool): map<string, PairingCode> {
    if sweeps then m.pairingCodes - MemStore.Expired(m.pairingCodes, UnixMilli(now)) else m.pairingCodes
  }

  /** Draw k decides: the draws before it are stored codes, and it is a new code, or there is none to be stored. */
  predicate Decides(hash: string -> string, codes: map<string, PairingCode>, draws: seq<seq<CodeDraws.Read>>,
                    fails: set<nat>, k: nat, reply: IssueReply)
    requires k < |draws|
  {
    && AllStored(hash, codes, draws, fails, k)
    && match CodeDraws.Generated(draws[k])
       case Code(c) =>
         if k in fails then reply == NotStored else hash(c) !in codes && reply.Issued? && reply.code == c
       case Failed => reply == NoRandomness
       case StillDrawing => reply == StillDrawing
  }

  /** What one call of IssueCode does. */
  ghost predicate IssuedBy(ttl: int, hash: string -> string, m: Mem, m2: Mem, now: int,
                           draws: seq<seq<CodeDraws.Read>>, luck: IssueLuck, reply: IssueReply) {
    var swept := SweptCodes(m, now, luck.sweeps);
    && m2 == m.(pairingCodes :=
         if reply.Issued? then swept[hash(reply.code) := PairingCode(hash(reply.code), reply.expiresAtMs, 0, 0)]
             else swept)
    && (reply.Issued? ==> reply.expiresAtMs == UnixMilli(now + ttl))
    && (if reply == NoUnusedCode then AllStored(hash, swept, draws, luck.fails, |draws|)
        else exists k: nat :: k < |draws| && Decides(hash, swept, draws, luck.fails, k, reply))
  }

  /**
   * When a code is issued and when not: the call gives up exactly when every draw is a stored code; a code that
   * is issued has the right form, was not stored, and comes from one of the accepted draws of that very code.
   */
  lemma IssuesExactlyWhen(ttl: int, hash: string -> string, m: Mem, m2: Mem, now: int,
                          draws: seq<seq<CodeDraws.Read>>, luck: IssueLuck, reply: IssueReply)
    requires IssuedBy(ttl, hash, m, m2, now, draws, luck, reply)
    ensures var swept := SweptCodes(m, now, luck.sweeps);
            && (reply == NoUnusedCode <==> AllStored(hash, swept, draws, luck.fails, |draws|))
            && (reply.Issued? <==> exists k: nat :: k < |draws| && AllStored(hash, swept, draws, luck.fails, k)
                                                    && k !in luck.fails && FreshDraw(hash, swept, draws[k]))
            && (reply.Issued? ==> hash(reply.code) !in swept && IsCode(reply.code))
    ensures reply.Issued? ==> exists d, q :: d in draws && q in d && q.Bytes?
                                             && CodeDraws.BigEndian(q) in CodeDraws.DrawsOf(reply.code)
  {
    hide SweptCodes, IsCode, CodeDraws.DrawsOf, CodeDraws.BigEndian;
    var swept := SweptCodes(m, now, luck.sweeps);
    if reply != NoUnusedCode {
      var k: nat :| k < |draws| && Decides(hash, swept, draws, luck.fails, k, reply);
      assert draws[k] in draws;
      if reply.Issued? {
        GeneratedIsCode(draws[k]);
        CodeDraws.GeneratedIsAccepted(draws[k]);
      }
    }
  }

  /** The same, column by column: what becomes of every stored code, and what is stored anew. */
  lemma IssuedByColumns(ttl: int, hash: string -> string, m: Mem, m2: Mem, now: int,
                        draws: seq<seq<CodeDraws.Read>>, luck: IssueLuck, reply: IssueReply)
    requires IssuedBy(ttl, hash, m, m2, now, draws, luck, reply)
    ensures m2 == m.(pairingCodes := m2.pairingCodes)
    ensures forall h :: h in m.pairingCodes && !(reply.Issued? && h == hash(reply.code)) ==>
              (h in m2.pairingCodes <==> luck.sweeps ==> m.pairingCodes[h].expiresAtMs >= now / 1_000_000)
              && (h in m2.pairingCodes ==> m2.pairingCodes[h] == m.pairingCodes[h])
    ensures forall h :: h in m2.pairingCodes && h !in m.pairingCodes ==> reply.Issued? && h == hash(reply.code)
    ensures reply.Issued? ==>
              var h := hash(reply.code);
              && reply.expiresAtMs == (now + ttl) / 1_000_000 && h in m2.pairingCodes
              && m2.pairingCodes[h].codeHash == h && m2.pairingCodes[h].expiresAtMs == reply.expiresAtMs
              && m2.pairingCodes[h].usedAtMs == 0 && m2.pairingCodes[h].attempts == 0
              && (h in m.pairingCodes ==> luck.sweeps && m.pairingCodes[h].expiresAtMs < now / 1_000_000)
  {
    hide AllStored;
  }

  predicate FreshDraw(hash: string -> string, codes: map<string, PairingCode>, draw: seq<CodeDraws.Read>) {
    CodeDraws.Generated(draw).Code? && hash(CodeDraws.Generated(draw).value) !in codes
  }

  lemma {:induction false} GeneratedIsCode(draws: seq<CodeDraws.Read>)
    ensures CodeDraws.Generated(draws).Code? ==> IsCode(CodeDraws.Generated(draws).value)
    decreases |draws|
  {
    hide CodeDraws.Print, CodeDraws.BigEndian;
    if draws != [] && draws[0].Bytes? {
      var v := CodeDraws.BigEndian(draws[0]);
      if v < CodeDraws.LIMIT {
        CodeDraws.PrintFolds(v);
        assert CodeDraws.Print(v) == CodeDraws.Print(v % CodeDraws.SPACE);
      } else {
        GeneratedIsCode(draws[1..]);
      }
    }
  }

  // ------------------------------------------------------------------ redeeming

  /** The limiter sees a redemption as one step of its own run. */
  function OutcomeOf(reply: PairReply, req: PairRequest): Outcome {
    if reply.Enrolled? then Paired
    else if Blank(req) || reply.StoreFailed? || reply.NoRandomValue? then Ignored
    else Wrong
  }

  lemma RedemptionIsAStep(l: Limits, hash: string -> string, s: Server, s2: Server, req: PairRequest, r: Readings,
                          reply: PairReply, log: seq<Event>, clock: int)
    requires Working(l) && Redeemed(l, hash, s, s2, req, r, reply)
    ensures s2.failures ==
            Step(l, State(s.failures, log, clock),
                 Attempt(req.clientIP, r.checked, r.done, OutcomeOf(reply, req))).failures
  {
    hide AfterWrongGuess, AfterGoodGuess, Blank, Judge;
  }

  /**
   * A device is enrolled exactly when a stored, unspent, unexpired code is presented, in full, by an address that
   * is not locked out, and a token and an unused id can be drawn.
   */
  lemma EnrolsExactlyWhen(l: Limits, hash: string -> string, s: Server, s2: Server, req: PairRequest, r: Readings,
                          reply: PairReply)
    requires Working(l) && Redeemed(l, hash, s, s2, req, r, reply)
    ensures reply.Enrolled? <==>
            && !Locked(s.failures, req.clientIP, r.checked) && !Blank(req)
            && r.token.Some? && r.deviceID.Some? && r.deviceID.value !in s.mem.devices
            && !r.faults.lookup && !r.faults.burn && !r.faults.enrol
            && IsCode(req.code) && hash(req.code) in s.mem.pairingCodes
            && s.mem.pairingCodes[hash(req.code)].usedAtMs == 0
            && UnixMilli(r.looked) < s.mem.pairingCodes[hash(req.code)].expiresAtMs
    ensures s2.mem.devices != s.mem.devices <==> reply.Enrolled?
  {
    hide IsCode, Blank, AfterFailure, NewDevice;
  }

  // ------------------------------------------------------------------ runs of both calls

  datatype ServerCall =
    | Issue(now: int, draws: seq<seq<CodeDraws.Read>>, luck: IssueLuck, issue: IssueReply)
    | Redeem(req: PairRequest, r: Readings, pair: PairReply)

  /** One call, with the answer it got; the store's clock never shows 0. */
  ghost predicate Served(l: Limits, ttl: int, hash: string -> string, s: Server, s2: Server, c: ServerCall)
    requires Working(l)
  {
    match c
    case Issue(now, draws, luck, reply) =>
      IssuedBy(ttl, hash, s.mem, s2.mem, now, draws, luck, reply) && s2.failures == s.failures
    case Redeem(req, r, reply) => Redeemed(l, hash, s, s2, req, r, reply) && r.burnedMs != 0
  }

  ghost predicate Run(l: Limits, ttl: int, hash: string -> string, states: seq<Server>, calls: seq<ServerCall>)
    requires Working(l)
  {
    && |states| == |calls| + 1
    && forall i :: 0 <= i < |calls| ==> Served(l, ttl, hash, states[i], states[i + 1], calls[i])
  }

  /** No device can be enrolled with this code as the store stands. */
  predicate Spent(m: Mem, codeHash: string) {
    codeHash in m.pairingCodes ==> m.pairingCodes[codeHash].usedAtMs != 0
  }

  predicate Enrols(hash: string -> string, c: ServerCall, codeHash: string) {
    c.Redeem? && c.pair.Enrolled? && hash(c.req.code) == codeHash
  }

  predicate Issues(hash: string -> string, c: ServerCall, codeHash: string) {
    c.Issue? && c.issue.Issued? && hash(c.issue.code) == codeHash
  }

  lemma IssueKeepsSpent(ttl: int, hash: string -> string, m: Mem, m2: Mem, now: int, draws: seq<seq<CodeDraws.Read>>,
                        luck: IssueLuck, reply: IssueReply, codeHash: string)
    requires IssuedBy(ttl, hash, m, m2, now, draws, luck, reply) && Spent(m, codeHash)
    ensures !(reply.Issued? && hash(reply.code) == codeHash) ==> Spent(m2, codeHash)
  {
    hide AllStored, Decides;
  }

  lemma GuessKeepsSpent(m: Mem, v: Verdict, req: PairRequest, r: Readings, hash: string -> string, codeHash: string)
    requires r.burnedMs != 0
    ensures Spent(m, codeHash) ==> Spent(AfterWrongGuess(m, v, hash(req.code), r.faults.count), codeHash)
    ensures Spent(m, codeHash) ==> Spent(AfterGoodGuess(m, hash(req.code), req, r, hash), codeHash)
    ensures hash(req.code) == codeHash && !r.faults.burn ==>
              Spent(AfterGoodGuess(m, hash(req.code), req, r, hash), codeHash)
  {
    hide NewDevice;
  }

  lemma RedemptionKeepsSpent(l: Limits, hash: string -> string, s: Server, s2: Server, req: PairRequest, r: Readings,
                             reply: PairReply, codeHash: string)
    requires Working(l) && Redeemed(l, hash, s, s2, req, r, reply) && r.burnedMs != 0
    ensures Spent(s.mem, codeHash) ==> Spent(s2.mem, codeHash) && !(reply.Enrolled? && hash(req.code) == codeHash)
    ensures reply.Enrolled? && hash(req.code) == codeHash ==> Spent(s2.mem, codeHash)
  {
    hide IsCode, Blank, AfterFailure, AfterWrongGuess, AfterGoodGuess, Milliseconds, UnixMilli;
    var v := Judge(s.mem.pairingCodes, req.code, hash(req.code), UnixMilli(r.looked));
    GuessKeepsSpent(s.mem, v, req, r, hash, codeHash);
    if Locked(s.failures, req.clientIP, r.checked) || Blank(req) || (!v.Malformed? && r.faults.lookup) {
      assert s2.mem == s.mem && !reply.Enrolled?;
    } else {
      assert s2.mem == if v.Good? then AfterGoodGuess(s.mem, hash(req.code), req, r, hash)
               else AfterWrongGuess(s.mem, v, hash(req.code), r.faults.count);
      assert !v.Good? || r.faults.burn ==> !reply.Enrolled?;
    }
  }

  lemma CallKeepsSpent(l: Limits, ttl: int, hash: string -> string, s: Server, s2: Server, c: ServerCall,
                       codeHash: string)
    requires Working(l) && Served(l, ttl, hash, s, s2, c)
    ensures Spent(s.mem, codeHash) && !Issues(hash, c, codeHash) ==>
              Spent(s2.mem, codeHash) && !Enrols(hash, c, codeHash)
    ensures Enrols(hash, c, codeHash) ==> Spent(s2.mem, codeHash)
  {
    hide Spent, IssuedBy, Redeemed;
    match c
    case Issue(now, draws, luck, reply) =>
      if Spent(s.mem, codeHash) {
        IssueKeepsSpent(ttl, hash, s.mem, s2.mem, now, draws, luck, reply, codeHash);
      }
    case Redeem(req, r, reply) => RedemptionKeepsSpent(l, hash, s, s2, req, r, reply, codeHash);
  }

  /** A spent code enrols no one, call after call, until it is issued again. */
  lemma {:induction false} SpentUntilIssued(l: Limits, ttl: int, hash: string -> string, states: seq<Server>,
                                            calls: seq<ServerCall>,
                                            i: nat, j: nat, codeHash: string)
    requires Working(l) && Run(l, ttl, hash, states, calls) && i <= j <= |calls| && Spent(states[i].mem, codeHash)
    requires forall k :: i <= k < j ==> !Issues(hash, calls[k], codeHash)
    ensures Spent(states[j].mem, codeHash) && forall k :: i <= k < j ==> !Enrols(hash, calls[k], codeHash)
    decreases j
  {
    hide Served, Spent, Enrols, Issues;
    if i < j {
      SpentUntilIssued(l, ttl, hash, states, calls, i, j - 1, codeHash);
      CallKeepsSpent(l, ttl, hash, states[j - 1], states[j], calls[j - 1], codeHash);
    }
  }

  /**
   * Single use, over any sequence of calls: between two calls that enrol a device with the same code there is
   * one that issued it anew.
   */
  lemma CodesAreSingleUse(l: Limits, ttl: int, hash: string -> string, states: seq<Server>, calls: seq<ServerCall>,
                          i: nat, j: nat, codeHash: string)
    requires Working(l) && Run(l, ttl, hash, states, calls) && i < j < |calls|
    requires Enrols(hash, calls[i], codeHash) && Enrols(hash, calls[j], codeHash)
    ensures exists k :: i < k < j && Issues(hash, calls[k], codeHash)
  {
    hide Served, Spent, Enrols, Issues;
    CallKeepsSpent(l, ttl, hash, states[i], states[i + 1], calls[i], codeHash);
    if forall k :: i < k < j ==> !Issues(hash, calls[k], codeHash) {
      SpentUntilIssued(l, ttl, hash, states, calls, i + 1, j, codeHash);
      CallKeepsSpent(l, ttl, hash, states[j], states[j + 1], calls[j], codeHash);
      EnrolmentIssuesNothing(hash, calls[j], codeHash);
      assert false;
    }
  }

  lemma EnrolmentIssuesNothing(hash: string -> string, c: ServerCall, codeHash: string)
    requires Enrols(hash, c, codeHash)
    ensures !Issues(hash, c, codeHash)
  {
  }

  // ------------------------------------------------------------------ the same, column by column

  /**
   * A device that was enrolled: its token is the one that was handed out, its name the first 64 characters of the
   * trimmed one, and everything else as it was asked for; no other device and no other code has changed.
   */
  ghost predicate EnrolledAs(s: Mem, s2: Mem, req: PairRequest, r: Readings, hash: string -> string, token: string,
                             id: string, at: int) {
    && r.token == Some(token) && r.deviceID == Some(id) && at == r.done / 1_000_000
    && id !in s.devices && id in s2.devices && s2.devices - {id} == s.devices
    && s2.devices[id].deviceID == id && s2.devices[id].tokenHash == hash(token) && s2.devices[id].createdAt == at
    && s2.devices[id].appVersionCode == req.appVersionCode
    && s2.devices[id].lastSeenAt == 0 && s2.devices[id].revokedAt == 0
    && IsTrimmed(req.platform, s2.devices[id].platform)
    && (exists name :: IsTrimmed(req.deviceName, name)
                       && s2.devices[id].name == if |name| <= 64 then name else name[..64])
    && hash(req.code) in s.pairingCodes
    && s2 == s.(devices := s2.devices, pairingCodes :=
         s.pairingCodes[hash(req.code) := s.pairingCodes[hash(req.code)].(usedAtMs := r.burnedMs)])
  }

  lemma GoodGuessEnrols(m: Mem, req: PairRequest, r: Readings, hash: string -> string)
    requires r.token.Some? && r.deviceID.Some? && r.deviceID.value !in m.devices && hash(req.code) in m.pairingCodes
    requires !r.faults.burn && !r.faults.enrol
    ensures EnrolledAs(m, AfterGoodGuess(m, hash(req.code), req, r, hash), req, r, hash, r.token.value,
                       r.deviceID.value, UnixMilli(r.done))
  {
    hide IsTrimmed, TrimSpace;
    TrimSpaceTrims(req.deviceName);
    TrimSpaceTrims(req.platform);
    var m2 := AfterGoodGuess(m, hash(req.code), req, r, hash);
    assert m2.devices - {r.deviceID.value} == m.devices;
    var name := TrimSpace(req.deviceName);
    assert m2.devices[r.deviceID.value].name == if |name| <= 64 then name else name[..64];
  }

  /** Every answer of a redemption, in the columns of the code, and what becomes of code, devices and counters. */
  lemma RedeemedByColumns(l: Limits, hash: string -> string, s: Server, s2: Server, req: PairRequest, r: Readings,
                          reply: PairReply)
    requires Working(l) && Redeemed(l, hash, s, s2, req, r, reply)
    ensures var ip, h, codes := req.clientIP, hash(req.code), s.mem.pairingCodes;
            if ip in s.failures && s.failures[ip].lockedUntil.Some? && r.checked < s.failures[ip].lockedUntil.value then
              reply == RateLimited((s.failures[ip].lockedUntil.value - r.checked) / 1_000_000) && s2 == s
            else if TrimSpace(req.deviceName) == "" || TrimSpace(req.platform) == "" then
              reply == CodeInvalid && s2.mem == s.mem
            else if |req.code| != 6 || exists c :: c in req.code && !('0' <= c <= '9') then
              s2.mem == s.mem && Refused(l, s2, ip, r.done, CodeInvalid, reply)
            else if r.faults.lookup then reply == StoreFailed && s2.mem == s.mem
            else if h !in codes then s2.mem == s.mem && Refused(l, s2, ip, r.done, CodeInvalid, reply)
            else if codes[h].usedAtMs != 0 || r.looked / 1_000_000 >= codes[h].expiresAtMs then
              && Refused(l, s2, ip, r.done, if codes[h].usedAtMs != 0 then CodeInvalid else CodeExpired, reply)
              && s2.mem == s.mem.(pairingCodes := codes[h := codes[h].(
                   attempts := codes[h].attempts + if r.faults.count then 0 else 1)])
            else Accepted(hash, s, s2, req, r, reply)
  {
    hide Accepted, EnrolledAs, TrimSpace, AfterFailure, AfterCheck, AfterGoodGuess, IsCode;
    CodeIsSixDigits(req.code);
    var checked := Server(s.mem, AfterCheck(s.failures, req.clientIP, r.checked));
    CountedNow(l, checked.failures, req.clientIP, r.done);
    if !Locked(s.failures, req.clientIP, r.checked) && !Blank(req)
      && Judge(s.mem.pairingCodes, req.code, hash(req.code), UnixMilli(r.looked)).Good? && !r.faults.lookup
    {
      GoodByColumns(l, hash, checked, s2, req, r, reply);
      assert Accepted(hash, s, s2, req, r, reply) by { SameStore(hash, checked, s, s2, req, r, reply); }
    }
  }

  /** A good code: burned, unless that fails, and then the device enrolled, unless something is missing for it. */
  ghost predicate Accepted(hash: string -> string, s: Server, s2: Server, req: PairRequest, r: Readings,
                           reply: PairReply) {
    var h, codes := hash(req.code), s.mem.pairingCodes;
    h in codes &&
    if r.faults.burn then reply == StoreFailed && s2.mem == s.mem
    else if r.token == None || r.deviceID == None || r.faults.enrol || r.deviceID.value in s.mem.devices then
      && reply == (if r.token == None || r.deviceID == None then NoRandomValue else StoreFailed)
      && s2.mem == s.mem.(pairingCodes := codes[h := codes[h].(usedAtMs := r.burnedMs)])
    else
      && reply.Enrolled? && req.clientIP !in s2.failures
      && EnrolledAs(s.mem, s2.mem, req, r, hash, reply.token, reply.deviceID, reply.pairedAtMs)
  }

  lemma SameStore(hash: string -> string, a: Server, b: Server, s2: Server, req: PairRequest, r: Readings,
                  reply: PairReply)
    requires Accepted(hash, a, s2, req, r, reply) && a.mem == b.mem
    ensures Accepted(hash, b, s2, req, r, reply)
  {
    hide EnrolledAs;
  }

  lemma GoodByColumns(l: Limits, hash: string -> string, s: Server, s2: Server, req: PairRequest, r: Readings,
                      reply: PairReply)
    requires Working(l) && Guessed(l, hash, s, s2, req, r, reply) && !r.faults.lookup
    requires Judge(s.mem.pairingCodes, req.code, hash(req.code), UnixMilli(r.looked)).Good?
    ensures Accepted(hash, s, s2, req, r, reply)
  {
    hide EnrolledAs, TrimSpace, AfterFailure, IsCode, NewDevice;
    if r.token.Some? && r.deviceID.Some? && r.deviceID.value !in s.mem.devices && !r.faults.burn && !r.faults.enrol {
      GoodGuessEnrols(s.mem, req, r, hash);
    }
  }

  lemma CountedNow(l: Limits, failures: map<string, FailureState>, ip: string, now: int)
    ensures ip in AfterFailure(l, failures, ip, now) && AfterFailure(l, failures, ip, now)[ip].lastFailure == now
  {
  }

  /** A failure has been counted, and is answered by the lockout once the attempts are used up. */
  predicate Refused(l: Limits, s2: Server, ip: string, at: int, want: PairReply, reply: PairReply) {
    && ip in s2.failures && s2.failures[ip].lastFailure == at
    && reply == if s2.failures[ip].count >= l.maxAttempts then RateLimited(l.lockout / 1_000_000) else want
  }

  lemma CodeIsSixDigits(s: string)
    ensures IsCode(s) <==> |s| == 6 && forall c :: c in s ==> '0' <= c <= '9'
  {
    hide CodeDraws.Print;
    if IsCode(s) {
      var v: nat :| v < CodeDraws.SPACE && s == CodeDraws.Print(v);
      CodeDraws.PrintFits(v);
    } else if |s| == 6 && forall c :: c in s ==> '0' <= c <= '9' {
      assert forall i :: 0 <= i < |s| ==> s[i] in s;
      CodeDraws.CodesArePrinted(s);
    }
  }

  class Pairer {
    const store: MemStore
    const limiter: RateLimiter
    const codeTTL: int
    const hash: string -> string

    ghost predicate Valid()
      reads store, limiter
    {
      store.Valid() && limiter.Valid() && codeTTL > 0
    }

    constructor (store: MemStore, limiter: RateLimiter, codeTTL: int, hash: string -> string)
      requires store.Valid() && limiter.Valid()
      ensures Valid() && this.store == store && this.limiter == limiter && this.hash == hash
      ensures this.codeTTL == if codeTTL <= 0 then 600_000_000_000 else codeTTL
    {
      this.store, this.limiter, this.hash := store, limiter, hash;
      this.codeTTL := if codeTTL <= 0 then DEFAULT_CODE_TTL else codeTTL;
    }

    /**
     * Sweeps expired codes, draws until a code's hash is not stored yet, at most three times, and stores it.
     * Each draw reads its own stretch of the random source.
     */
    method IssueCode(now: int, draws: seq<seq<CodeDraws.Read>>, luck: IssueLuck) returns (r: IssueReply)
      requires Valid() && |draws| == 3
      modifies store`pairingCodes
      ensures Valid()
      ensures IssuedBy(codeTTL, hash, old(store.State()), store.State(), now, draws, luck, r)
    {
      if luck.sweeps {
        var removed := store.DeletePairingCodesBefore(UnixMilli(now));
      }
      var expiresAt := UnixMilli(now + codeTTL);
      ghost var swept := store.pairingCodes;
      assert swept == SweptCodes(old(store.State()), now, luck.sweeps);
      hide SweptCodes, CodeDraws.Generated, AllStored, Decides;
      var attempt := 0;
      NoDrawYet(hash, swept, draws, luck.fails);
      while attempt < CodeDraws.ISSUE_RETRIES
        invariant 0 <= attempt <= CodeDraws.ISSUE_RETRIES && store.Valid() && store.pairingCodes == swept
        invariant AllStored(hash, swept, draws, luck.fails, attempt)
      {
        var drawn := CodeDraws.GeneratePairingCode(draws[attempt]);
        OneDraw(hash, swept, draws, luck.fails, attempt, expiresAt);
        if drawn.Failed? {
          return NoRandomness;
        }
        if drawn.StillDrawing? {
          return StillDrawing;
        }
        if attempt in luck.fails {
          return NotStored;
        }
        var reply := store.InsertPairingCode(PairingCode(hash(drawn.value), expiresAt, 0, 0));
        if reply == Done {
          return Issued(drawn.value, expiresAt);
        }
        attempt := attempt + 1;
      }
      r := NoUnusedCode;
    }

    /**
     * Redeems a code and enrols a device. A locked-out address and a blank name or platform change nothing but the
     * expired lockout; a wrong guess is counted; a good one burns the code, enrols the device and clears the count.
     */
    method Pair(req: PairRequest, r: Readings) returns (reply: PairReply)
      requires Valid()
      modifies store, limiter
      ensures Valid()
      ensures Redeemed(limiter.limits, hash, Server(old(store.State()), old(limiter.failures)),
                       Server(store.State(), limiter.failures), req, r, reply)
      ensures reply.Enrolled? ==>
                && req.clientIP !in limiter.failures
                && EnrolledAs(old(store.State()), store.State(), req, r, hash, reply.token, reply.deviceID,
                              reply.pairedAtMs)
      ensures !reply.Enrolled? ==> store.devices == old(store.devices)
    {
      ghost var before := Server(store.State(), limiter.failures);
      var wait := limiter.CheckLocked(req.clientIP, r.checked);
      if wait.Some? {
        return RateLimited(wait.value);
      }
      hide TrimSpace, Guessed;
      var name := TrimSpace(req.deviceName);
      if name == "" || TrimSpace(req.platform) == "" {
        return CodeInvalid;
      }
      reply := Guess(req, r, TruncateRunes(name, MAX_DEVICE_NAME_LEN));
      hide Redeemed, EnrolledAs;
      RedeemedByColumns(limiter.limits, hash, before, Server(store.State(), limiter.failures), req, r, reply);
    }

    /** The part of a redemption after the checks that count nothing. */
    method Guess(req: PairRequest, r: Readings, name: string) returns (reply: PairReply)
      requires Valid() && name == TruncateRunes(TrimSpace(req.deviceName), MAX_DEVICE_NAME_LEN)
      modifies store, limiter`failures
      ensures Valid()
      ensures Guessed(limiter.limits, hash, Server(old(store.State()), old(limiter.failures)),
                      Server(store.State(), limiter.failures), req, r, reply)
    {
      hide TrimSpace, TruncateRunes, AfterFailure, AfterGoodGuess, Refusal;
      var valid := CodeDraws.ValidCodeFormat(req.code);
      assert valid <==> IsCode(req.code);
      if !valid {
        reply := Failed(req.clientIP, r.done, CodeInvalid);
        return;
      }
      hide IsCode;
      var codeHash := hash(req.code);
      if r.faults.lookup {
        return StoreFailed;
      }
      var found := store.PairingCodeByHash(codeHash);
      if found == NotFound {
        reply := Failed(req.clientIP, r.done, CodeInvalid);
        return;
      }
      var pc := found.code;
      if pc.usedAtMs != 0 {
        reply := CountedFailure(req.clientIP, codeHash, r.done, Used, r.faults.count, CodeInvalid);
        return;
      }
      if UnixMilli(r.looked) >= pc.expiresAtMs {
        reply := CountedFailure(req.clientIP, codeHash, r.done, Expired, r.faults.count, CodeExpired);
        return;
      }
      reply := Enrol(req, r, name, codeHash);
    }

    /** The answer to a wrong guess: the lockout once the attempts are used up. */
    method Failed(ip: string, now: int, want: PairReply) returns (reply: PairReply)
      requires limiter.Valid()
      modifies limiter`failures
      ensures limiter.failures == AfterFailure(limiter.limits, old(limiter.failures), ip, now) && ip in limiter.failures
      ensures reply == Refusal(limiter.limits, limiter.failures[ip].count, want)
    {
      var wait := limiter.Failed(ip, now);
      reply := if wait.Some? then RateLimited(wait.value) else want;
    }

    /** A wrong guess at a stored code is counted on the code as well; if that fails the answer is the same. */
    method CountedFailure(ip: string, codeHash: string, now: int, v: Verdict, countFails: bool,
                          want: PairReply) returns (reply: PairReply)
      requires Valid() && codeHash in store.pairingCodes && (v.Used? || v.Expired?)
      modifies store`pairingCodes, limiter`failures
      ensures Valid() && store.State() == AfterWrongGuess(old(store.State()), v, codeHash, countFails)
      ensures limiter.failures == AfterFailure(limiter.limits, old(limiter.failures), ip, now) && ip in limiter.failures
      ensures reply == Refusal(limiter.limits, limiter.failures[ip].count, want)
    {
      hide AfterFailure, Refusal;
      if !countFails {
        var attempts := store.IncrementPairingCodeAttempts(codeHash);
      }
      reply := Failed(ip, now, want);
    }

    /** Burns the code before anything is minted, then enrols the device. */
    method Enrol(req: PairRequest, r: Readings, name: string, codeHash: string) returns (reply: PairReply)
      requires Valid() && codeHash in store.pairingCodes && store.pairingCodes[codeHash].usedAtMs == 0
      requires codeHash == hash(req.code)
      requires name == TruncateRunes(TrimSpace(req.deviceName), MAX_DEVICE_NAME_LEN)
      modifies store, limiter`failures
      ensures Valid()
      ensures store.State() == AfterGoodGuess(old(store.State()), codeHash, req, r, hash)
      ensures if r.faults.burn then reply == StoreFailed && limiter.failures == old(limiter.failures)
              else if r.token.None? || r.deviceID.None? then
                reply == NoRandomValue && limiter.failures == old(limiter.failures)
              else if r.faults.enrol || r.deviceID.value in old(store.devices) then
                reply == StoreFailed && limiter.failures == old(limiter.failures)
              else reply == Enrolled(r.token.value, r.deviceID.value, UnixMilli(r.done))
                   && limiter.failures == old(limiter.failures) - {req.clientIP}
      ensures reply.Enrolled? ==> EnrolledAs(old(store.State()), store.State(), req, r, hash, reply.token,
                                             reply.deviceID, reply.pairedAtMs)
    {
      hide TrimSpace, TruncateRunes, EnrolledAs;
      if r.token.Some? && r.deviceID.Some? && r.deviceID.value !in store.devices && !r.faults.burn && !r.faults.enrol {
        GoodGuessEnrols(store.State(), req, r, hash);
      }
      if r.faults.burn {
        return StoreFailed;
      }
      var burned := store.MarkPairingCodeUsed(codeHash, r.burnedMs);
      if r.token.None? || r.deviceID.None? {
        return NoRandomValue;
      }
      var now := UnixMilli(r.done);
      if r.faults.enrol {
        return StoreFailed;
      }
      var device := Device(
        r.deviceID.value, name, hash(r.token.value), TrimSpace(req.platform), req.appVersionCode, now, 0, 0);
      var enrolled := store.InsertDevice(device);
      if enrolled != Done {
        return StoreFailed;
      }
      limiter.ClearFailures(req.clientIP);
      reply := Enrolled(r.token.value, r.deviceID.value, now);
    }
  }
}
