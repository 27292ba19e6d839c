/** Issuing and redeeming pairing codes, interleaved step by step: every device is paid for by a code of its own. */
module PairingProtocol {
  import opened Schema
  import opened Folds
  import opened Relational
  import opened CodeDraws

  /** How far one call has come. A call that has returned is no process any more. */
  datatype Process =
    | Issuing(now: int)
    | Drawing(expiresAt: int, tries: nat)
    | Looked(hash: string, code: PairingCode)
    | Checked(hash: string)
    | Burned(row: nat)

  /**
   * The database, the calls under way, and the clock; with a record of which inserted row each stored code is,
   * how many rows have ever been inserted, which have been burned, and which row each device was charged to.
   */
  datatype State = State(
    db: Db, calls: map<nat, Process>, clock: int,
    rows: map<string, nat>, issued: nat, burned: set<nat>, chargedTo: map<string, nat>)

  datatype Step =
    | Tick(now: int)
    | StartIssue(p: nat)
    | Sweep(p: nat, reached: bool)
    | Insert(p: nat, hash: string)
    | Lookup(p: nat, hash: string)
    | Check(p: nat)
    | Burn(p: nat)
    | Enrol(p: nat, d: Device)
    | Die(p: nat)
    | Crash

  /** Every step is one clock reading, one transaction, or the loss of a call or of all. */
  function Next(ttl: int, s: State, step: Step): State {
    match step
    case Tick(now) => if s.clock <= now then s.(clock := now) else s
    case StartIssue(p) => if p in s.calls then s else s.(calls := s.calls[p := Issuing(s.clock)])
    case Sweep(p, reached) => if p in s.calls && s.calls[p].Issuing? then AfterSweep(ttl, s, p, reached) else s
    case Insert(p, hash) => if p in s.calls && s.calls[p].Drawing? then AfterInsert(s, p, hash) else s
    case Lookup(p, hash) => if p in s.calls then s else AfterLookup(s, p, hash)
    case Check(p) => if p in s.calls && s.calls[p].Looked? then AfterCheck(s, p) else s
    case Burn(p) => if p in s.calls && s.calls[p].Checked? then AfterBurn(s, p) else s
    case Enrol(p, d) => if p in s.calls && s.calls[p].Burned? then AfterEnrol(s, p, d) else s
    case Die(p) => s.(calls := s.calls - {p})
    case Crash => s.(calls := map[])
  }

  /** Codes that expired before the call read the clock go; the sweep is housekeeping, and may fail. */
  function AfterSweep(ttl: int, s: State, p: nat, reached: bool): State
    requires p in s.calls && s.calls[p].Issuing?
  {
    var now := s.calls[p].now;
    var db2 := if reached then DeletePairingCodesBefore(s.db, now).0 else s.db;
    s.(db := db2, rows := s.rows - (s.rows.Keys - db2.codes.Keys),
       calls := s.calls[p := Drawing(now + ttl, ISSUE_RETRIES)])
  }

  /** A draw that hits a stored code is drawn again, a few times. */
  function AfterInsert(s: State, p: nat, hash: string): State
    requires p in s.calls && s.calls[p].Drawing?
  {
    var (db2, reply) := InsertPairingCode(s.db, PairingCode(hash, s.calls[p].expiresAt, 0, 0));
    if reply == Done then
      s.(db := db2, rows := s.rows[hash := s.issued], issued := s.issued + 1, calls := s.calls - {p})
    else if s.calls[p].tries > 1 then
      s.(calls := s.calls[p := Drawing(s.calls[p].expiresAt, s.calls[p].tries - 1)])
    else s.(calls := s.calls - {p})
  }

  function AfterLookup(s: State, p: nat, hash: string): State {
    match PairingCodeByHash(s.db, hash)
    case CodeIs(code) => s.(calls := s.calls[p := Looked(hash, code)])
    case _ => s
  }

  /** The check looks at the row as it was; a spent or expired code only has its attempts counted. */
  function AfterCheck(s: State, p: nat): State
    requires p in s.calls && s.calls[p].Looked?
  {
    var code := s.calls[p].code;
    if code.usedAtMs != 0 || s.clock >= code.expiresAtMs then
      s.(db := IncrementPairingCodeAttempts(s.db, s.calls[p].hash).0, calls := s.calls - {p})
    else s.(calls := s.calls[p := Checked(s.calls[p].hash)])
  }

  /** The burn takes whichever row is there now. */
  function AfterBurn(s: State, p: nat): State
    requires p in s.calls && s.calls[p].Checked?
  {
    var hash := s.calls[p].hash;
    var (db2, reply) := MarkPairingCodeUsed(s.db, hash, s.clock);
    if reply == Done && hash in s.rows then
      s.(db := db2, burned := s.burned + {s.rows[hash]}, calls := s.calls[p := Burned(s.rows[hash])])
    else s.(calls := s.calls - {p})
  }

  function AfterEnrol(s: State, p: nat, d: Device): State
    requires p in s.calls && s.calls[p].Burned?
  {
    var (db2, reply) := InsertDevice(s.db, d);
    if reply == Done then
      s.(db := db2, chargedTo := s.chargedTo[d.deviceID := s.calls[p].row], calls := s.calls - {p})
    else s.(calls := s.calls - {p})
  }

  function After(ttl: int, s: State, steps: seq<Step>): State
    decreases |steps|
  {
    if steps == [] then s else After(ttl, Next(ttl, s, steps[0]), steps[1..])
  }

  const START := State(EMPTY_DB, map[], 1, map[], 0, {}, map[])

  // ------------------------------------------------------------------ the invariant

  /** The stored codes are rows of their own, and a row is marked used exactly when it has been burned. */
  ghost predicate RowsKept(codes: map<string, CodeRow>, rows: map<string, nat>, issued: nat, burned: set<nat>) {
    && rows.Keys == codes.Keys
    && (forall h :: h in rows ==> rows[h] < issued && (codes[h].usedAt.Some? <==> rows[h] in burned))
    && (forall g, h :: g in rows && h in rows && rows[g] == rows[h] ==> g == h)
    && (forall r :: r in burned ==> r < issued)
  }

  /** A burned row is in the hands of one call or one device. */
  ghost predicate ChargesKept(devices: map<string, Device>, chargedTo: map<string, nat>, burned: set<nat>,
                              calls: map<nat, Process>) {
    && chargedTo.Keys == devices.Keys
    && (forall d :: d in chargedTo ==> chargedTo[d] in burned)
    && (forall c, d :: c in chargedTo && d in chargedTo && chargedTo[c] == chargedTo[d] ==> c == d)
    && (forall p :: Holds(calls, p) ==> calls[p].row in burned)
    && (forall p, d :: Holds(calls, p) && d in chargedTo ==> chargedTo[d] != calls[p].row)
    && (forall p, q :: Holds(calls, p) && Holds(calls, q) && calls[p].row == calls[q].row ==> p == q)
  }

  predicate Holds(calls: map<nat, Process>, p: nat) {
    p in calls && calls[p].Burned?
  }

  /** No call has read the clock in the future. */
  ghost predicate ReadInThePast(calls: map<nat, Process>, clock: int) {
    clock > 0 && forall p :: p in calls && calls[p].Issuing? ==> calls[p].now <= clock
  }

  ghost predicate Inv(s: State) {
    && RowsKept(s.db.codes, s.rows, s.issued, s.burned)
    && ChargesKept(s.db.devices, s.chargedTo, s.burned, s.calls)
    && ReadInThePast(s.calls, s.clock)
  }

  lemma RowSwept(s: State, now: int)
    requires RowsKept(s.db.codes, s.rows, s.issued, s.burned)
    ensures var codes2 := s.db.codes - ExpiredCodes(s.db.codes, now);
            RowsKept(codes2, s.rows - (s.rows.Keys - codes2.Keys), s.issued, s.burned)
  {
  }

  lemma RowInserted(s: State, hash: string, row: CodeRow)
    requires RowsKept(s.db.codes, s.rows, s.issued, s.burned) && row.usedAt == None
    ensures RowsKept(s.db.codes[hash := row], s.rows[hash := s.issued], s.issued + 1, s.burned)
  {
  }

  lemma RowCounted(s: State, hash: string, attempts: int)
    requires RowsKept(s.db.codes, s.rows, s.issued, s.burned) && hash in s.db.codes
    ensures RowsKept(s.db.codes[hash := s.db.codes[hash].(attempts := attempts)], s.rows, s.issued, s.burned)
  {
  }

  lemma RowBurned(s: State, hash: string, now: int)
    requires RowsKept(s.db.codes, s.rows, s.issued, s.burned) && hash in s.db.codes && s.db.codes[hash].usedAt == None
    ensures hash in s.rows && s.rows[hash] !in s.burned
    ensures RowsKept(s.db.codes[hash := s.db.codes[hash].(usedAt := Some(now))], s.rows, s.issued,
                     s.burned + {s.rows[hash]})
  {
  }

  /** A call that holds no row can move on, and any call can be lost. */
  lemma CallMoves(s: State, p: nat, to: Process)
    requires ChargesKept(s.db.devices, s.chargedTo, s.burned, s.calls) && ReadInThePast(s.calls, s.clock)
    ensures ChargesKept(s.db.devices, s.chargedTo, s.burned, s.calls - {p}) && ReadInThePast(s.calls - {p}, s.clock)
    ensures ChargesKept(s.db.devices, s.chargedTo, s.burned, map[]) && ReadInThePast(map[], s.clock)
    ensures !to.Burned? ==> ChargesKept(s.db.devices, s.chargedTo, s.burned, s.calls[p := to])
    ensures (to.Issuing? ==> to.now <= s.clock) ==> ReadInThePast(s.calls[p := to], s.clock)
  {
  }

  lemma CallBurns(s: State, p: nat, row: nat)
    requires ChargesKept(s.db.devices, s.chargedTo, s.burned, s.calls) && row !in s.burned
    ensures ChargesKept(s.db.devices, s.chargedTo, s.burned + {row}, s.calls[p := Burned(row)])
  {
  }

  lemma CallEnrols(s: State, p: nat, d: Device)
    requires ChargesKept(s.db.devices, s.chargedTo, s.burned, s.calls) && Holds(s.calls, p)
    requires d.deviceID !in s.db.devices
    ensures ChargesKept(s.db.devices[d.deviceID := d], s.chargedTo[d.deviceID := s.calls[p].row], s.burned,
                        s.calls - {p})
  {
  }

  lemma IssueKeepsInv(ttl: int, s: State, step: Step)
    requires Inv(s) && (step.Sweep? || step.Insert?)
    ensures Inv(Next(ttl, s, step))
  {
    hide RowsKept, ChargesKept, ReadInThePast, ExpiredCodes;
    var p := step.p;
    if p in s.calls && step.Sweep? && s.calls[p].Issuing? {
      CallMoves(s, p, Drawing(s.calls[p].now + ttl, ISSUE_RETRIES));
      RowSwept(s, s.calls[p].now);
      NothingSwept(s);
    }
    if p in s.calls && step.Insert? && s.calls[p].Drawing? {
      CallMoves(s, p, Drawing(s.calls[p].expiresAt, if s.calls[p].tries > 1 then s.calls[p].tries - 1 else 0));
      RowInserted(s, step.hash, CodeRow(s.calls[p].expiresAt, None, 0));
    }
  }

  lemma NothingSwept(s: State)
    requires RowsKept(s.db.codes, s.rows, s.issued, s.burned)
    ensures s.rows - (s.rows.Keys - s.db.codes.Keys) == s.rows
  {
  }

  lemma PairKeepsInv(ttl: int, s: State, step: Step)
    requires Inv(s) && (step.Check? || step.Burn? || step.Enrol?)
    ensures Inv(Next(ttl, s, step))
  {
    hide RowsKept, ChargesKept, ReadInThePast;
    var p := step.p;
    if p in s.calls && step.Check? && s.calls[p].Looked? {
      var hash := s.calls[p].hash;
      CallMoves(s, p, Checked(hash));
      if hash in s.db.codes {
        RowCounted(s, hash, s.db.codes[hash].attempts + 1);
      }
    }
    if p in s.calls && step.Burn? && s.calls[p].Checked? {
      var hash := s.calls[p].hash;
      CallMoves(s, p, Checked(hash));
      if hash in s.db.codes && s.db.codes[hash].usedAt == None {
        RowBurned(s, hash, s.clock);
        CallMoves(s, p, Burned(s.rows[hash]));
        CallBurns(s, p, s.rows[hash]);
      }
    }
    if p in s.calls && step.Enrol? && s.calls[p].Burned? {
      CallMoves(s, p, s.calls[p]);
      if step.d.deviceID !in s.db.devices {
        CallEnrols(s, p, step.d);
      }
    }
  }

  lemma NextKeepsInv(ttl: int, s: State, step: Step)
    requires Inv(s)
    ensures Inv(Next(ttl, s, step))
  {
    if step.Sweep? || step.Insert? {
      hide Inv, Next;
      IssueKeepsInv(ttl, s, step);
    } else if step.Check? || step.Burn? || step.Enrol? {
      hide Inv, Next;
      PairKeepsInv(ttl, s, step);
    } else {
      hide RowsKept, ChargesKept, ReadInThePast, AfterSweep, AfterInsert, AfterCheck, AfterBurn, AfterEnrol;
      match step
      case Tick(now) => ClockMoves(s.calls, s.clock, now);
      case StartIssue(p) => CallMoves(s, p, Issuing(s.clock));
      case Lookup(p, hash) => if hash in s.db.codes { CallMoves(s, p, Looked(hash, ScanCode(hash, s.db.codes[hash]))); }
      case Die(p) => CallMoves(s, p, Issuing(s.clock));
      case Crash => CallMoves(s, 0, Issuing(s.clock));
    }
  }

  lemma ClockMoves(calls: map<nat, Process>, clock: int, now: int)
    requires ReadInThePast(calls, clock)
    ensures clock <= now ==> ReadInThePast(calls, now)
  {
  }

  lemma {:induction false} AfterInv(ttl: int, s: State, steps: seq<Step>)
    requires Inv(s)
    ensures Inv(After(ttl, s, steps))
    decreases |steps|
  {
    if steps != [] {
      hide Inv, Next;
      NextKeepsInv(ttl, s, steps[0]);
      AfterInv(ttl, Next(ttl, s, steps[0]), steps[1..]);
    }
  }

  // ------------------------------------------------------------------ the theorems

  /**
   * Whatever way calls interleave, however many are lost, and whether or not the same digits are issued again:
   * every enrolled device is charged to an inserted row of its own, so there are never more devices than codes.
   */
  lemma DevicesArePaidFor(ttl: int, steps: seq<Step>)
    ensures var s := After(ttl, START, steps);
            && (forall d :: d in s.db.devices ==> d in s.chargedTo && s.chargedTo[d] < s.issued)
            && (forall c, d :: c in s.db.devices && d in s.db.devices && c != d ==> s.chargedTo[c] != s.chargedTo[d])
            && |s.db.devices| <= s.issued
  {
    AfterInv(ttl, START, steps);
    hide After;
    var s := After(ttl, START, steps);
    Pigeonhole(s.chargedTo, s.issued);
    assert |s.chargedTo| == |s.chargedTo.Keys| == |s.db.devices.Keys| == |s.db.devices|;
  }

  lemma ClockGrows(ttl: int, s: State, step: Step)
    ensures s.clock <= Next(ttl, s, step).clock
  {
    hide DeletePairingCodesBefore, InsertPairingCode, MarkPairingCodeUsed, InsertDevice, IncrementPairingCodeAttempts;
  }

  lemma {:induction false} ClockAlwaysGrows(ttl: int, s: State, steps: seq<Step>)
    ensures s.clock <= After(ttl, s, steps).clock
    decreases |steps|
  {
    if steps != [] {
      hide Next;
      ClockGrows(ttl, s, steps[0]);
      ClockAlwaysGrows(ttl, Next(ttl, s, steps[0]), steps[1..]);
    }
  }

  /** The row of a code and its expiry are as they were. */
  ghost predicate Kept(s: State, s2: State, h: string) {
    && h in s.db.codes && h in s.rows
    && h in s2.db.codes && s2.db.codes[h].expiresAt == s.db.codes[h].expiresAt
    && h in s2.rows && s2.rows[h] == s.rows[h]
  }

  lemma SweepKeepsUnexpired(ttl: int, s: State, p: nat, reached: bool, h: string)
    requires ReadInThePast(s.calls, s.clock) && h in s.rows && h in s.db.codes && s.db.codes[h].expiresAt >= s.clock
    requires p in s.calls && s.calls[p].Issuing?
    ensures Kept(s, AfterSweep(ttl, s, p, reached), h)
  {
  }

  lemma InsertKeepsRows(s: State, p: nat, hash: string, h: string)
    requires h in s.rows && h in s.db.codes && p in s.calls && s.calls[p].Drawing?
    ensures Kept(s, AfterInsert(s, p, hash), h)
  {
  }

  lemma CheckKeepsRows(s: State, p: nat, h: string)
    requires h in s.rows && h in s.db.codes && p in s.calls && s.calls[p].Looked?
    ensures Kept(s, AfterCheck(s, p), h)
  {
  }

  lemma BurnKeepsRows(s: State, p: nat, h: string)
    requires h in s.rows && h in s.db.codes && p in s.calls && s.calls[p].Checked?
    ensures Kept(s, AfterBurn(s, p), h)
  {
  }

  lemma EnrolKeepsRows(s: State, p: nat, d: Device, h: string)
    requires h in s.rows && h in s.db.codes && p in s.calls && s.calls[p].Burned?
    ensures Kept(s, AfterEnrol(s, p, d), h)
  {
  }

  /** One step keeps a code that has not expired, and its row. */
  lemma StepKeepsUnexpired(ttl: int, s: State, step: Step, h: string)
    requires Inv(s) && h in s.db.codes && s.db.codes[h].expiresAt >= s.clock
    ensures Kept(s, Next(ttl, s, step), h)
  {
    RowKnown(s, h);
    hide RowsKept, ChargesKept, AfterSweep, AfterInsert, AfterCheck, AfterBurn, AfterEnrol;
    match step
    case Sweep(p, reached) => if p in s.calls && s.calls[p].Issuing? { SweepKeepsUnexpired(ttl, s, p, reached, h); }
    case Insert(p, hash) => if p in s.calls && s.calls[p].Drawing? { InsertKeepsRows(s, p, hash, h); }
    case Check(p) => if p in s.calls && s.calls[p].Looked? { CheckKeepsRows(s, p, h); }
    case Burn(p) => if p in s.calls && s.calls[p].Checked? { BurnKeepsRows(s, p, h); }
    case Enrol(p, d) => if p in s.calls && s.calls[p].Burned? { EnrolKeepsRows(s, p, d, h); }
    case _ =>
  }

  lemma RowKnown(s: State, h: string)
    requires Inv(s) && h in s.db.codes
    ensures h in s.rows
  {
    hide ChargesKept, ReadInThePast;
  }

  /**
   * So, in every run, a code is still there, as the same row, at any instant up to its expiry: no sweep takes
   * it early.
   */
  lemma {:induction false} UnexpiredCodesStay(ttl: int, s: State, steps: seq<Step>, h: string)
    requires Inv(s) && h in s.db.codes && h in s.rows && s.db.codes[h].expiresAt >= After(ttl, s, steps).clock
    ensures Kept(s, After(ttl, s, steps), h)
    decreases |steps|
  {
    if steps != [] {
      ClockAlwaysGrows(ttl, s, steps);
      hide Next, Inv;
      NextKeepsInv(ttl, s, steps[0]);
      StepKeepsUnexpired(ttl, s, steps[0], h);
      UnexpiredCodesStay(ttl, Next(ttl, s, steps[0]), steps[1..], h);
    }
  }

  /**
   * Why charges go to rows and not to lookups: a call whose code is swept and issued again before it burns
   * takes the new row.
   */
  lemma BurnTakesTheReissuedRow(ttl: int, s: State, p: nat, q: nat, h: string)
    requires p in s.calls && s.calls[p] == Checked(h) && q in s.calls && s.calls[q].Drawing? && h !in s.db.codes
    ensures var s2 := Next(ttl, Next(ttl, s, Insert(q, h)), Burn(p));
            && s2.issued == s.issued + 1 && s2.burned == s.burned + {s.issued}
            && p in s2.calls && s2.calls[p] == Burned(s.issued)
  {
    var s1 := Next(ttl, s, Insert(q, h));
    assert h in s1.rows && s1.rows[h] == s.issued && s1.calls[p] == Checked(h);
  }

  lemma {:induction false} AfterAppend(ttl: int, s: State, steps: seq<Step>, more: seq<Step>)
    ensures After(ttl, s, steps + more) == After(ttl, After(ttl, s, steps), more)
    decreases |steps|
  {
    hide Next;
    if steps == [] {
      assert steps + more == more;
    } else {
      assert (steps + more)[1..] == steps[1..] + more;
      AfterAppend(ttl, Next(ttl, s, steps[0]), steps[1..], more);
    }
  }

  function Issue(p: nat, h: string): seq<Step> {
    [StartIssue(p), Sweep(p, true), Insert(p, h)]
  }

  /** A call that issues a code sweeps all that are stored, if they have expired. */
  lemma SweptAll(ttl: int, s: State, p: nat)
    requires p !in s.calls && ExpiredCodes(s.db.codes, s.clock) == s.db.codes.Keys == s.rows.Keys
    ensures Next(ttl, Next(ttl, s, StartIssue(p)), Sweep(p, true)) ==
            s.(db := s.db.(codes := map[]), rows := map[],
               calls := s.calls[p := Drawing(s.clock + ttl, ISSUE_RETRIES)])
  {
    hide ExpiredCodes;
    var s1 := s.(calls := s.calls[p := Issuing(s.clock)]);
    assert s.db.codes - s.db.codes.Keys == map[] && s.rows - (s.rows.Keys - {}) == map[];
    assert AfterSweep(ttl, s1, p, true).calls == s.calls[p := Drawing(s.clock + ttl, ISSUE_RETRIES)];
  }

  lemma Issued(ttl: int, s: State, p: nat, h: string)
    requires p !in s.calls && ExpiredCodes(s.db.codes, s.clock) == s.db.codes.Keys == s.rows.Keys
    ensures After(ttl, s, Issue(p, h)) ==
            s.(db := s.db.(codes := map[h := CodeRow(s.clock + ttl, None, 0)]), rows := map[h := s.issued],
               issued := s.issued + 1)
  {
    hide ExpiredCodes, After, Next;
    SweptAll(ttl, s, p);
    var calls := s.calls[p := Drawing(s.clock + ttl, ISSUE_RETRIES)];
    InsertedOne(ttl, s.(db := s.db.(codes := map[]), rows := map[], calls := calls), p, h);
    assert calls - {p} == s.calls;
    ThreeSteps(ttl, s, Issue(p, h));
  }

  lemma InsertedOne(ttl: int, s: State, p: nat, h: string)
    requires p in s.calls && s.calls[p].Drawing? && s.db.codes == map[] && s.rows == map[]
    ensures Next(ttl, s, Insert(p, h)) ==
            s.(db := s.db.(codes := map[h := CodeRow(s.calls[p].expiresAt, None, 0)]), rows := map[h := s.issued],
               issued := s.issued + 1, calls := s.calls - {p})
  {
  }

  lemma ThreeSteps(ttl: int, s: State, steps: seq<Step>)
    requires |steps| == 3
    ensures After(ttl, s, steps) == Next(ttl, Next(ttl, Next(ttl, s, steps[0]), steps[1]), steps[2])
  {
    hide Next;
    assert steps[1..][1..][1..] == [];
    assert After(ttl, s, steps) == After(ttl, Next(ttl, Next(ttl, s, steps[0]), steps[1]), steps[1..][1..]);
  }

  /** A call looks up a code and finds it good; then the code expires. */
  lemma LookedUp(ttl: int, s: State, p: nat, h: string, now: int)
    requires p !in s.calls && h in s.db.codes && s.db.codes[h].usedAt == None
    requires s.clock < s.db.codes[h].expiresAt && s.clock <= now
    ensures After(ttl, s, [Lookup(p, h), Check(p), Tick(now)]) == s.(calls := s.calls[p := Checked(h)], clock := now)
  {
    var s1 := Next(ttl, s, Lookup(p, h));
    var s2 := Next(ttl, s1, Check(p));
    assert s2.calls == s.calls[p := Checked(h)];
    hide After;
    ThreeSteps(ttl, s, [Lookup(p, h), Check(p), Tick(now)]);
  }

  /**
   * Such a run from the start: a code is issued and found good by call 1, expires, is swept and issued again, and
   * call 1, which checked row 0, burns row 1.
   */
  lemma ReissueExists(ttl: nat, h: string) returns (steps: seq<Step>)
    requires ttl >= 1
    ensures steps == Issue(0, h) + [Lookup(1, h), Check(1), Tick(ttl + 2)] + Issue(2, h) + [Burn(1)]
    ensures var s := After(ttl, START, steps);
            s.rows == map[h := 1] && s.burned == {1} && s.calls == map[1 := Burned(1)]
  {
    hide After, Next;
    var look := [Lookup(1, h), Check(1), Tick(ttl + 2)];
    var s1 := START.(db := EMPTY_DB.(codes := map[h := CodeRow(1 + ttl, None, 0)]), rows := map[h := 0], issued := 1);
    var s2 := s1.(calls := map[1 := Checked(h)], clock := ttl + 2);
    var s3 := s2.(db := EMPTY_DB.(codes := map[h := CodeRow(2 * ttl + 2, None, 0)]), rows := map[h := 1], issued := 2);
    steps := Issue(0, h) + look + Issue(2, h) + [Burn(1)];
    Issued(ttl, START, 0, h);
    LookedUp(ttl, s1, 1, h, ttl + 2);
    Issued(ttl, s2, 2, h);
    BurnedOne(ttl, s3, 1, h);
    AfterAppend(ttl, START, Issue(0, h), look);
    AfterAppend(ttl, START, Issue(0, h) + look, Issue(2, h));
    AfterAppend(ttl, START, Issue(0, h) + look + Issue(2, h), [Burn(1)]);
  }

  lemma BurnedOne(ttl: int, s: State, p: nat, h: string)
    requires p in s.calls && s.calls[p] == Checked(h) && h in s.db.codes && h in s.rows
    requires s.db.codes[h].usedAt == None
    ensures var s2 := After(ttl, s, [Burn(p)]);
            s2.rows == s.rows && s2.burned == s.burned + {s.rows[h]} && s2.calls == s.calls[p := Burned(s.rows[h])]
  {
    assert [Burn(p)][1..] == [];
  }

  // ------------------------------------------------------------------ what a call must have gone through

  /** Where an earlier step of a run took some call on. */
  ghost predicate Went(ttl: int, steps: seq<Step>, k: nat, step: Step, s: State) {
    k < |steps| && steps[k] == step && s == After(ttl, START, steps[..k])
  }

  lemma WentBefore(ttl: int, steps: seq<Step>, last: Step, k: nat, step: Step, s: State)
    ensures Went(ttl, steps, k, step, s) ==> Went(ttl, steps + [last], k, step, s)
    ensures After(ttl, START, steps + [last]) == Next(ttl, After(ttl, START, steps), last)
    ensures Went(ttl, steps + [last], |steps|, last, After(ttl, START, steps))
  {
    hide Next;
    assert (steps + [last])[..|steps|] == steps;
    if k < |steps| {
      assert (steps + [last])[..k] == steps[..k];
    }
    AfterAppend(ttl, START, steps, [last]);
    assert [last][1..] == [];
    assert After(ttl, After(ttl, START, steps), [last]) == Next(ttl, After(ttl, START, steps), last);
  }

  lemma CheckedBy(ttl: int, s: State, step: Step, p: nat, h: string)
    requires var s2 := Next(ttl, s, step); p in s2.calls && s2.calls[p] == Checked(h)
    ensures || (p in s.calls && s.calls[p] == Checked(h))
            || (&& step == Check(p) && p in s.calls && s.calls[p].Looked? && s.calls[p].hash == h
                && s.calls[p].code.usedAtMs == 0 && s.clock < s.calls[p].code.expiresAtMs)
  {
    hide DeletePairingCodesBefore;
  }

  /** A call that is about to burn a code found it unspent and unexpired at the moment of its check. */
  lemma {:induction false} CheckedInTime(ttl: int, steps: seq<Step>, p: nat, h: string) returns (k: nat, s: State)
    requires var end := After(ttl, START, steps); p in end.calls && end.calls[p] == Checked(h)
    ensures Went(ttl, steps, k, Check(p), s)
    ensures p in s.calls && s.calls[p].Looked? && s.calls[p].hash == h
    ensures s.calls[p].code.usedAtMs == 0 && s.clock < s.calls[p].code.expiresAtMs
    decreases |steps|
  {
    hide Next, After;
    NothingYet(ttl);
    var front, last := steps[..|steps| - 1], steps[|steps| - 1];
    assert steps == front + [last];
    var before := After(ttl, START, front);
    WentBefore(ttl, front, last, 0, last, before);
    CheckedBy(ttl, before, last, p, h);
    if p in before.calls && before.calls[p] == Checked(h) {
      k, s := CheckedInTime(ttl, front, p, h);
      WentBefore(ttl, front, last, k, Check(p), s);
    } else {
      k, s := |front|, before;
    }
  }

  lemma NothingYet(ttl: int)
    ensures After(ttl, START, []) == START && START.calls == map[] && START.db == EMPTY_DB
  {
  }

  lemma BurnedBy(ttl: int, s: State, step: Step, p: nat, row: nat)
    requires var s2 := Next(ttl, s, step); p in s2.calls && s2.calls[p] == Burned(row)
    ensures || (p in s.calls && s.calls[p] == Burned(row))
            || (&& step == Burn(p) && p in s.calls && s.calls[p].Checked?
                && s.calls[p].hash in s.db.codes && s.db.codes[s.calls[p].hash].usedAt == None
                && s.calls[p].hash in s.rows && s.rows[s.calls[p].hash] == row)
  {
    hide DeletePairingCodesBefore;
  }

  /** A call that holds a burned row took it, unspent, for a code it had checked. */
  lemma {:induction false} BurnedOnce(ttl: int, steps: seq<Step>, p: nat, row: nat) returns (k: nat, s: State)
    requires var end := After(ttl, START, steps); p in end.calls && end.calls[p] == Burned(row)
    ensures Went(ttl, steps, k, Burn(p), s)
    ensures p in s.calls && s.calls[p].Checked? && s.calls[p].hash in s.db.codes && s.calls[p].hash in s.rows
    ensures s.db.codes[s.calls[p].hash].usedAt == None && s.rows[s.calls[p].hash] == row
    decreases |steps|
  {
    hide Next, After;
    NothingYet(ttl);
    var front, last := steps[..|steps| - 1], steps[|steps| - 1];
    assert steps == front + [last];
    var before := After(ttl, START, front);
    WentBefore(ttl, front, last, 0, last, before);
    BurnedBy(ttl, before, last, p, row);
    if p in before.calls && before.calls[p] == Burned(row) {
      k, s := BurnedOnce(ttl, front, p, row);
      WentBefore(ttl, front, last, k, Burn(p), s);
    } else {
      k, s := |front|, before;
    }
  }

  lemma OthersEnrolNoOne(ttl: int, s: State, step: Step)
    requires !step.Enrol?
    ensures Next(ttl, s, step).db.devices == s.db.devices && Next(ttl, s, step).chargedTo == s.chargedTo
  {
    hide ExpiredCodes;
  }

  lemma EnrolledBy(ttl: int, s: State, step: Step, id: string)
    requires id in Next(ttl, s, step).db.devices
    ensures || (id in s.db.devices && Next(ttl, s, step).db.devices[id] == s.db.devices[id]
                && (id in s.chargedTo <==> id in Next(ttl, s, step).chargedTo)
                && (id in s.chargedTo ==> Next(ttl, s, step).chargedTo[id] == s.chargedTo[id]))
            || (&& step.Enrol? && step.d.deviceID == id && step.p in s.calls && s.calls[step.p].Burned?
                && Next(ttl, s, step).db.devices[id] == step.d
                && id in Next(ttl, s, step).chargedTo && Next(ttl, s, step).chargedTo[id] == s.calls[step.p].row)
  {
    if !step.Enrol? {
      OthersEnrolNoOne(ttl, s, step);
      hide Next;
    }
  }

  /**
   * How a device comes to be enrolled, in any run: some call enrolled it, which before that burned the row the device
   * is charged to, unspent till then, and before that had found a code with that hash unspent and unexpired.
   */
  lemma {:induction false} EveryDeviceWasEarned(ttl: int, steps: seq<Step>, id: string)
    returns (i: nat, j: nat, k: nat, p: nat, checked: State, burned: State, enrolled: State)
    requires var end := After(ttl, START, steps); id in end.db.devices
    ensures i < j < k && Went(ttl, steps, i, Check(p), checked) && Went(ttl, steps, j, Burn(p), burned)
    ensures k < |steps| && steps[k].Enrol? && steps[k].p == p && Went(ttl, steps, k, steps[k], enrolled)
    ensures var end := After(ttl, START, steps);
            && steps[k].d == end.db.devices[id] && id in end.chargedTo
            && p in burned.calls && burned.calls[p].Checked?
            && var h := burned.calls[p].hash;
               && h in burned.rows && burned.rows[h] == end.chargedTo[id]
               && h in burned.db.codes && burned.db.codes[h].usedAt == None
               && p in checked.calls && checked.calls[p].Looked? && checked.calls[p].hash == h
               && checked.calls[p].code.usedAtMs == 0 && checked.clock < checked.calls[p].code.expiresAtMs
    decreases |steps|
  {
    hide Next, After;
    NothingYet(ttl);
    var front, last := steps[..|steps| - 1], steps[|steps| - 1];
    assert steps == front + [last];
    var before := After(ttl, START, front);
    WentBefore(ttl, front, last, 0, last, before);
    EnrolledBy(ttl, before, last, id);
    if last.Enrol? && last.d.deviceID == id && last.p in before.calls && before.calls[last.p].Burned?
      && After(ttl, START, steps).db.devices[id] == last.d && id in After(ttl, START, steps).chargedTo
      && After(ttl, START, steps).chargedTo[id] == before.calls[last.p].row
    {
      p, k, enrolled := last.p, |front|, before;
      j, burned := BurnedOnce(ttl, front, p, before.calls[p].row);
      i, checked := CheckedInTime(ttl, front[..j], p, burned.calls[p].hash);
      assert front[..j][..i] == front[..i];
      WentBefore(ttl, front, last, j, Burn(p), burned);
      WentBefore(ttl, front, last, i, Check(p), checked);
    } else {
      i, j, k, p, checked, burned, enrolled := EveryDeviceWasEarned(ttl, front, id);
      WentBefore(ttl, front, last, i, Check(p), checked);
      WentBefore(ttl, front, last, j, Burn(p), burned);
      WentBefore(ttl, front, last, k, steps[k], enrolled);
    }
  }

  // ------------------------------------------------------------------ issuing, column by column

  /**
   * What issuing does to the stored codes: the call reads the clock when it starts; a sweep takes exactly the codes
   * that had expired by then; a new code is stored unspent and with its expiry; a stored one is left alone, and
   * drawn again as long as there are tries, three in all.
   */
  lemma IssueExactly(ttl: int, s: State, p: nat, h: string)
    ensures p !in s.calls ==>
              var s2 := Next(ttl, s, StartIssue(p));
              s2.calls == s.calls[p := Issuing(s.clock)] && s2.db == s.db
    ensures p in s.calls && s.calls[p].Issuing? ==>
              var s2 := Next(ttl, s, Sweep(p, true));
              && (h in s2.db.codes <==> h in s.db.codes && s.db.codes[h].expiresAt >= s.calls[p].now)
              && (h in s2.db.codes ==> s2.db.codes[h] == s.db.codes[h])
              && p in s2.calls && s2.calls[p] == Drawing(s.calls[p].now + ttl, 3)
    ensures p in s.calls && s.calls[p].Drawing? ==>
              var s2 := Next(ttl, s, Insert(p, h));
              && h in s2.db.codes && s2.db.codes - {h} == s.db.codes - {h}
              && (h in s.db.codes ==> s2.db == s.db && (p in s2.calls <==> s.calls[p].tries > 1)
                                      && (p in s2.calls ==>
                                            s2.calls[p] == Drawing(s.calls[p].expiresAt, s.calls[p].tries - 1)))
              && (h !in s.db.codes ==>
                    && p !in s2.calls && s2.db.codes[h].expiresAt == s.calls[p].expiresAt
                    && s2.db.codes[h].usedAt == None && s2.db.codes[h].attempts == 0)
  {
    if p in s.calls && s.calls[p].Drawing? {
      assert Next(ttl, s, Insert(p, h)).db.codes - {h} == s.db.codes - {h};
    }
  }

  /** What a redemption leaves of a code row: a lookup nothing, a late check one attempt more, a burn its instant. */
  lemma RedeemExactly(ttl: int, s: State, p: nat, h: string)
    ensures p !in s.calls && h in s.db.codes ==>
              var s2 := Next(ttl, s, Lookup(p, h));
              && s2.db == s.db && p in s2.calls && s2.calls[p].Looked? && s2.calls[p].hash == h
              && s2.calls[p].code.expiresAtMs == s.db.codes[h].expiresAt
              && (s.db.codes[h].usedAt == None ==> s2.calls[p].code.usedAtMs == 0)
              && (s.db.codes[h].usedAt.Some? ==> s2.calls[p].code.usedAtMs == s.db.codes[h].usedAt.value)
    ensures p in s.calls && s.calls[p].Looked? && s.calls[p].hash == h && h in s.db.codes ==>
              var s2, late := Next(ttl, s, Check(p)),
                              s.calls[p].code.usedAtMs != 0 || s.clock >= s.calls[p].code.expiresAtMs;
              && h in s2.db.codes && s2.db.codes[h].attempts == s.db.codes[h].attempts + (if late then 1 else 0)
              && s2.db.codes[h].usedAt == s.db.codes[h].usedAt && (p in s2.calls <==> !late)
    ensures p in s.calls && s.calls[p] == Checked(h) && h in s.db.codes && h in s.rows ==>
              var s2 := Next(ttl, s, Burn(p));
              && h in s2.db.codes
              && s2.db.codes[h].usedAt == (if s.db.codes[h].usedAt == None then Some(s.clock) else s.db.codes[h].usedAt)
  {
  }
}
