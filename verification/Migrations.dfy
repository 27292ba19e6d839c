/** Forward-only schema migrations: what a binary carries, and what any sequence of binaries does to a database. */
module Migrations {
  import opened Schema
  import opened Text
  import Listings

  const MAX_INT := 0x7fff_ffff_ffff_ffff

  datatype Entry = Entry(name: string, isDir: bool, body: string)

  datatype Migration = Migration(version: nat, name: string, sql: string)

  datatype Listing = Listed(all: seq<Migration>) | Unlisted

  // ------------------------------------------------------------------ numbers and names

  /** strconv.Atoi: an optional sign, at least one digit, nothing else, within 64 bits. */
  function Atoi(s: string): Option<int> {
    var digits := if s != "" && (s[0] == '+' || s[0] == '-') then s[1..] else s;
    if digits == "" || !Digits(digits) then None
    else
      var magnitude: int := DecimalValue(digits);
      var n := if s[0] == '-' then -magnitude else magnitude;
      if -MAX_INT - 1 <= n <= MAX_INT then Some(n) else None
  }

  function Itoa(n: nat): string {
    if n == 0 then "0" else ZeroPadded(n, 0)
  }

  /** The version that was recorded is the version that is read back. */
  lemma AtoiItoa(n: nat)
    requires n <= MAX_INT
    ensures Atoi(Itoa(n)) == Some(n)
  {
    if n > 0 {
      hide ZeroPadded;
      ZeroPaddedValue(n, 0);
    } else {
      assert DecimalValue("0") == 0;
    }
  }

  /** Exactly the decimal numerals of 64-bit numbers, with or without a sign, are read, for the number they denote. */
  lemma AtoiExactly(s: string, n: int)
    ensures Atoi(s) == Some(n) <==>
            && -0x8000_0000_0000_0000 <= n < 0x8000_0000_0000_0000
            && ((s != "" && Digits(s) && n == DecimalValue(s))
                || (|s| > 1 && s[0] == '+' && Digits(s[1..]) && n == DecimalValue(s[1..]))
                || (|s| > 1 && s[0] == '-' && Digits(s[1..]) && n + DecimalValue(s[1..]) == 0))
  {
    hide DecimalValue;
    assert s != "" && (s[0] == '+' || s[0] == '-') ==> !Digits(s);
  }

  /** A number is recorded without a sign and without leading zeros. */
  lemma ItoaIsPlain(n: nat)
    ensures Itoa(n) != "" && Digits(Itoa(n)) && DecimalValue(Itoa(n)) == n && (Itoa(n)[0] == '0' <==> n == 0)
    ensures n == 0 ==> Itoa(n) == "0"
  {
    if n > 0 {
      ZeroPaddedValue(n, 0);
      FirstDigit(n);
    } else {
      assert DecimalValue("0") == 0;
    }
  }

  lemma {:induction false} FirstDigit(n: nat)
    requires n > 0
    ensures ZeroPadded(n, 0)[0] != '0'
  {
    if n >= 10 {
      FirstDigit(n / 10);
      assert ZeroPadded(n, 0)[0] == ZeroPadded(n / 10, 0)[0];
    } else {
      assert ZeroPadded(n / 10, 0) == "";
    }
  }

  /** What comes before the first underscore. */
  function Prefix(name: string): Option<string> {
    if name == "" then None
    else if name[0] == '_' then Some("")
    else
      match Prefix(name[1..])
      case None => None
      case Some(p) => Some([name[0]] + p)
  }

  function ParseVersion(name: string): (v: Option<nat>)
    ensures v.Some? ==> 0 < v.value <= MAX_INT
  {
    match Prefix(name)
    case None => None
    case Some(p) =>
      if p == "" then None
      else
        match Atoi(p)
        case None => None
        case Some(n) => if n <= 0 then None else Some(n as nat)
  }

  lemma {:induction false} PrefixExactly(name: string, p: string)
    ensures Prefix(name) == Some(p) <==> '_' !in p && p + "_" <= name
  {
    if name == "" {
    } else if name[0] == '_' {
      assert p + "_" <= name && p != "" ==> p[0] == '_' && p[0] in p;
    } else {
      if p != "" {
        PrefixExactly(name[1..], p[1..]);
        assert p == [p[0]] + p[1..] && name == [name[0]] + name[1..];
        assert p[0] == name[0] ==> (p + "_" <= name <==> p[1..] + "_" <= name[1..]) by {
          assert p + "_" == [p[0]] + (p[1..] + "_");
        }
        if p + "_" <= name {
          assert p[0] == name[0];
        }
      }
    }
  }

  lemma NothingIsNoNumber()
    ensures Atoi("") == None
  {
  }

  /** A version is a positive number before the first underscore. */
  lemma ParsesExactly(name: string, v: nat)
    ensures ParseVersion(name) == Some(v) <==>
            v > 0 && exists p :: '_' !in p && p + "_" <= name && Atoi(p) == Some(v)
  {
    hide Atoi, Prefix;
    NothingIsNoNumber();
    forall p
      ensures Prefix(name) == Some(p) <==> '_' !in p && p + "_" <= name
    {
      PrefixExactly(name, p);
    }
  }

  /** A file name made from a version, padded to any width, is parsed back to it. */
  lemma {:induction false} NamesParse(v: nat, width: nat, rest: string)
    requires 0 < v <= MAX_INT
    ensures ParseVersion(ZeroPadded(v, width) + "_" + rest) == Some(v)
  {
    var p := ZeroPadded(v, width);
    hide ZeroPadded, DecimalValue;
    CutAfter(p, rest);
    assert p + "_" + rest == p + ("_" + rest);
    ZeroPaddedValue(v, width);
  }

  lemma {:induction false} CutAfter(p: string, rest: string)
    requires Digits(p)
    ensures Prefix(p + ("_" + rest)) == Some(p)
  {
    if p != "" {
      assert (p + ("_" + rest))[1..] == p[1..] + ("_" + rest);
      CutAfter(p[1..], rest);
      assert [p[0]] + p[1..] == p;
    }
  }

  // ------------------------------------------------------------------ the migrations of a binary

  predicate Wanted(e: Entry) {
    !e.isDir && |e.name| >= 4 && e.name[|e.name| - 4..] == ".sql"
  }

  lemma WantedExactly(e: Entry)
    ensures Wanted(e) <==> !e.isDir && exists stem :: e.name == stem + ".sql"
  {
    var n := |e.name|;
    if Wanted(e) {
      assert e.name == e.name[..n - 4] + ".sql";
    }
    if stem :| e.name == stem + ".sql" {
      assert e.name[n - 4..] == ".sql";
    }
  }

  predicate Ascending(ms: seq<Migration>) {
    forall i, j :: 0 <= i < j < |ms| ==> ms[i].version < ms[j].version
  }

  /** A packaging mistake: a file without a positive version, or two files that share one. */
  ghost predicate Misnamed(entries: seq<Entry>) {
    || (exists e :: e in entries && Wanted(e) && ParseVersion(e.name).None?)
    || exists i, j :: 0 <= i < j < |entries| && SameVersion(entries[i], entries[j])
  }

  predicate SameVersion(e: Entry, f: Entry) {
    Wanted(e) && Wanted(f) && ParseVersion(e.name).Some? && ParseVersion(e.name) == ParseVersion(f.name)
  }

  function Loaded(e: Entry): Migration
    requires ParseVersion(e.name).Some?
  {
    Migration(ParseVersion(e.name).value, e.name, e.body)
  }

  /** The migrations of some entries, each file's once. */
  ghost predicate Collected(entries: seq<Entry>, ms: seq<Migration>) {
    && (forall e :: e in entries && Wanted(e) ==> ParseVersion(e.name).Some? && Loaded(e) in ms)
    && (forall m :: m in ms ==> exists e :: e in entries && Wanted(e) && ParseVersion(e.name).Some? && Loaded(e) == m)
  }

  lemma CollectNothing(prefix: seq<Entry>, e: Entry, ms: seq<Migration>)
    requires Collected(prefix, ms) && !Misnamed(prefix) && !Wanted(e)
    ensures Collected(prefix + [e], ms) && !Misnamed(prefix + [e])
  {
    hide ParseVersion, Wanted;
    forall m | m in ms
      ensures exists f :: f in prefix + [e] && Wanted(f) && ParseVersion(f.name).Some? && Loaded(f) == m
    {
      var f :| f in prefix && Wanted(f) && ParseVersion(f.name).Some? && Loaded(f) == m;
      assert f in prefix + [e];
    }
  }

  predicate HasVersion(ms: seq<Migration>, v: nat) {
    exists m :: m in ms && m.version == v
  }

  lemma CollectOne(prefix: seq<Entry>, e: Entry, ms: seq<Migration>)
    requires Collected(prefix, ms) && !Misnamed(prefix)
    requires Wanted(e) && ParseVersion(e.name).Some? && !HasVersion(ms, ParseVersion(e.name).value)
    ensures Collected(prefix + [e], ms + [Loaded(e)]) && !Misnamed(prefix + [e])
  {
    hide ParseVersion, Wanted;
    var all, ms2 := prefix + [e], ms + [Loaded(e)];
    forall m | m in ms2
      ensures exists f :: f in all && Wanted(f) && ParseVersion(f.name).Some? && Loaded(f) == m
    {
      if m in ms {
        var f :| f in prefix && Wanted(f) && ParseVersion(f.name).Some? && Loaded(f) == m;
        assert f in all;
      } else {
        assert e in all;
      }
    }
    forall i, j | 0 <= i < j < |all|
      ensures !SameVersion(all[i], all[j])
    {
      if j == |prefix| {
        NewVersion(prefix, e, ms, all[i]);
      }
    }
  }

  lemma NewVersion(prefix: seq<Entry>, e: Entry, ms: seq<Migration>, f: Entry)
    requires Collected(prefix, ms) && f in prefix
    requires ParseVersion(e.name).Some? && !HasVersion(ms, ParseVersion(e.name).value)
    ensures !SameVersion(f, e)
  {
    hide ParseVersion, Wanted;
    if Wanted(f) && ParseVersion(f.name).Some? {
      assert Loaded(f) in ms;
    }
  }

  lemma TwiceIsMisnamed(entries: seq<Entry>, i: nat, ms: seq<Migration>)
    requires i < |entries| && Collected(entries[..i], ms)
    requires Wanted(entries[i]) && ParseVersion(entries[i].name).Some?
    requires HasVersion(ms, ParseVersion(entries[i].name).value)
    ensures Misnamed(entries)
  {
    hide ParseVersion, Wanted;
    var m :| m in ms && m.version == ParseVersion(entries[i].name).value;
    var f :| f in entries[..i] && Wanted(f) && ParseVersion(f.name).Some? && Loaded(f) == m;
    var j :| 0 <= j < i && entries[..i][j] == f;
    assert SameVersion(entries[j], entries[i]);
  }

  /** Distinct versions, in any order. */
  ghost predicate Distinct(ms: seq<Migration>) {
    forall i, j :: 0 <= i < j < |ms| ==> ms[i].version != ms[j].version
  }

  predicate ByVersion(a: Migration, b: Migration) {
    a.version < b.version
  }

  function SortedByVersion(ms: seq<Migration>): seq<Migration> {
    Listings.Sorted(ms, ByVersion)
  }

  lemma SortedAscends(ms: seq<Migration>)
    requires Distinct(ms)
    ensures Ascending(SortedByVersion(ms)) && |SortedByVersion(ms)| == |ms|
    ensures forall x :: x in SortedByVersion(ms) <==> x in ms
  {
    assert Listings.Orders(ByVersion, Listings.Elements(ms));
    Listings.SortedInOrder(ms, ByVersion);
    var s := SortedByVersion(ms);
    forall i, j | 0 <= i < j < |s|
      ensures s[i].version < s[j].version
    {
      assert ByVersion(s[i], s[j]);
    }
  }

  lemma CollectedAnyOrder(entries: seq<Entry>, ms: seq<Migration>, ms2: seq<Migration>)
    requires Collected(entries, ms) && forall x :: x in ms2 <==> x in ms
    ensures Collected(entries, ms2)
  {
    hide ParseVersion, Wanted;
  }

  /**
   * Lists the embedded migrations in strictly ascending version order, one for every .sql file; or fails,
   * exactly when the files are misnamed.
   */
  method All(entries: seq<Entry>) returns (r: Listing)
    ensures r.Unlisted? <==> Misnamed(entries)
    ensures r.Listed? ==> Ascending(r.all) && Collected(entries, r.all)
    ensures r.Listed? ==>
              && (forall i, j :: 0 <= i < j < |r.all| ==> r.all[i].version < r.all[j].version)
              && (forall e :: e in entries && Wanted(e) ==> exists m :: m in r.all && Carries(m, e))
              && (forall m :: m in r.all ==> exists e :: e in entries && Wanted(e) && Carries(m, e))
  {
    hide ParseVersion, Misnamed, Collected, Wanted, SortedByVersion;
    var out: seq<Migration> := [];
    var seen: map<nat, string> := map[];
    var i := 0;
    NothingCollected();
    while i < |entries|
      invariant 0 <= i <= |entries|
      invariant Collected(entries[..i], out) && !Misnamed(entries[..i])
      invariant Distinct(out) && forall v :: v in seen <==> HasVersion(out, v)
    {
      var e := entries[i];
      assert entries[..i + 1] == entries[..i] + [e];
      if !Wanted(e) {
        CollectNothing(entries[..i], e, out);
        i := i + 1;
        continue;
      }
      var version := ParseVersion(e.name);
      if version.None? {
        NamelessIsMisnamed(entries, i);
        return Unlisted;
      }
      if version.value in seen {
        TwiceIsMisnamed(entries, i, out);
        return Unlisted;
      }
      CollectOne(entries[..i], e, out);
      SeenOneMore(out, Loaded(e));
      seen := seen[version.value := e.name];
      out := out + [Loaded(e)];
      i := i + 1;
    }
    assert entries[..|entries|] == entries;
    SortedAscends(out);
    CollectedAnyOrder(entries, out, SortedByVersion(out));
    r := Listed(SortedByVersion(out));
    CollectedCarries(entries, r.all);
  }

  /** The migration is that file's: its name, its text, and its version. */
  predicate Carries(m: Migration, e: Entry) {
    m.name == e.name && m.sql == e.body && ParseVersion(e.name) == Some(m.version)
  }

  lemma CollectedCarries(entries: seq<Entry>, ms: seq<Migration>)
    requires Collected(entries, ms)
    ensures forall e :: e in entries && Wanted(e) ==> exists m :: m in ms && Carries(m, e)
    ensures forall m :: m in ms ==> exists e :: e in entries && Wanted(e) && Carries(m, e)
  {
    hide ParseVersion, Wanted;
    forall e | e in entries && Wanted(e)
      ensures exists m :: m in ms && Carries(m, e)
    {
      assert Carries(Loaded(e), e);
    }
  }

  lemma NothingCollected()
    ensures Collected([], []) && !Misnamed([])
  {
  }

  lemma NamelessIsMisnamed(entries: seq<Entry>, i: nat)
    requires i < |entries| && Wanted(entries[i]) && ParseVersion(entries[i].name).None?
    ensures Misnamed(entries)
  {
    hide ParseVersion, Wanted;
    assert entries[i] in entries;
  }

  lemma SeenOneMore(ms: seq<Migration>, m: Migration)
    requires Distinct(ms) && !HasVersion(ms, m.version)
    ensures Distinct(ms + [m]) && forall v :: HasVersion(ms + [m], v) <==> v == m.version || HasVersion(ms, v)
  {
    forall v
      ensures HasVersion(ms + [m], v) <==> v == m.version || HasVersion(ms, v)
    {
      assert m in ms + [m];
      if HasVersion(ms, v) {
        var x :| x in ms && x.version == v;
        assert x in ms + [m];
      }
    }
    forall i | 0 <= i < |ms|
      ensures ms[i].version != m.version
    {
      assert ms[i] in ms;
    }
  }

  // ------------------------------------------------------------------ migrating a database

  /** The recorded version, as the text in server_meta, and every version that was ever committed, in order. */
  datatype Progress = Progress(recorded: Option<string>, history: seq<nat>)

  /** One call: what the binary lists, whether backups are kept and work, and which migrations fail this time. */
  datatype Attempt = Attempt(listing: Listing, backups: bool, backupWorks: bool, broken: set<nat>)

  function SchemaVersion(recorded: Option<string>): Option<int> {
    match recorded
    case None => Some(0)
    case Some(raw) => Atoi(raw)
  }

  function Pending(all: seq<Migration>, current: int): seq<Migration> {
    if all == [] then []
    else if all[0].version > current then [all[0]] + Pending(all[1..], current)
    else Pending(all[1..], current)
  }

  /** Migrations are applied in order up to the first that fails. */
  function Applied(pending: seq<Migration>, broken: set<nat>): seq<nat> {
    if pending == [] || pending[0].version in broken then []
    else [pending[0].version] + Applied(pending[1..], broken)
  }

  /** The versions one call commits. */
  function Committed(d: Progress, a: Attempt): seq<nat> {
    if a.listing.Unlisted? || SchemaVersion(d.recorded).None? then []
    else
      var current := SchemaVersion(d.recorded).value;
      if current > 0 && a.backups && !a.backupWorks then [] else Applied(Pending(a.listing.all, current), a.broken)
  }

  function Advanced(d: Progress, versions: seq<nat>): Progress {
    if versions == [] then d
    else Progress(Some(Itoa(versions[|versions| - 1])), d.history + versions)
  }

  /** The listing and the recorded version can be read, and whatever is pending is backed up and works. */
  predicate Succeeds(recorded: Option<string>, a: Attempt) {
    && a.listing.Listed? && SchemaVersion(recorded).Some?
    && var current := SchemaVersion(recorded).value;
       var pending := Pending(a.listing.all, current);
       && (forall m :: m in pending ==> m.version !in a.broken)
       && (pending != [] && current > 0 && a.backups ==> a.backupWorks)
  }

  /**
   * What one call commits, version by version: all that is newer than the recorded one, up to the first that fails;
   * and nothing when the listing or the recorded version cannot be read, or a backup that is due fails.
   */
  lemma CommitsExactly(d: Progress, a: Attempt, v: nat)
    requires Shipped(a)
    ensures v in Committed(d, a) <==>
            && a.listing.Listed? && SchemaVersion(d.recorded).Some?
            && var current := SchemaVersion(d.recorded).value;
               && (current > 0 && a.backups ==> a.backupWorks)
               && (exists m :: m in a.listing.all && m.version == v) && v > current
               && forall m :: m in a.listing.all && current < m.version <= v ==> m.version !in a.broken
    ensures SchemaVersion(None) == Some(0) && forall raw :: SchemaVersion(Some(raw)) == Atoi(raw)
  {
    hide Atoi;
    if a.listing.Listed? && SchemaVersion(d.recorded).Some? {
      var current := SchemaVersion(d.recorded).value;
      var pending := Pending(a.listing.all, current);
      PendingIsNewer(a.listing.all, current);
      AppliedExactly(pending, a.broken, v);
    }
  }

  lemma {:induction false} AppliedExactly(pending: seq<Migration>, broken: set<nat>, v: nat)
    requires Ascending(pending)
    ensures v in Applied(pending, broken) <==>
            && (exists m :: m in pending && m.version == v)
            && forall m :: m in pending && m.version <= v ==> m.version !in broken
  {
    if pending != [] {
      var first, rest := pending[0], pending[1..];
      AppliedExactly(rest, broken, v);
      assert pending == [first] + rest;
      assert forall m :: m in rest ==> first.version < m.version;
    }
  }

  class Database {
    var recorded: Option<string>
    ghost var history: seq<nat>

    ghost function State(): Progress
      reads this
    {
      Progress(recorded, history)
    }

    constructor ()
      ensures State() == Progress(None, [])
    {
      recorded, history := None, [];
    }

    /** Runs one migration and records its version in the same transaction. */
    method ApplyOne(m: Migration, broken: set<nat>) returns (ok: bool)
      modifies this
      ensures ok == (m.version !in broken)
      ensures State() == if ok then Advanced(old(State()), [m.version]) else old(State())
    {
      if m.version in broken {
        return false;
      }
      recorded := Some(Itoa(m.version));
      history := history + [m.version];
      ok := true;
    }

    method Migrate(a: Attempt) returns (applied: seq<nat>, ok: bool)
      modifies this
      ensures applied == Committed(old(State()), a) && State() == Advanced(old(State()), applied)
      ensures history == old(history) + applied
      ensures recorded == if applied == [] then old(recorded) else Some(Itoa(applied[|applied| - 1]))
      ensures ok <==> Succeeds(old(recorded), a)
      ensures ok ==> |applied| == |Pending(a.listing.all, SchemaVersion(old(recorded)).value)|
    {
      applied := [];
      if a.listing.Unlisted? {
        return [], false;
      }
      var current := SchemaVersion(recorded);
      if current.None? {
        return [], false;
      }
      var pending := Filter(a.listing.all, current.value);
      if |pending| == 0 {
        return [], true;
      }
      if current.value > 0 && a.backups && !a.backupWorks {
        return [], false;
      }
      applied, ok := ApplyAll(pending, a.broken);
    }

    /** The loop that applies what is pending, up to the first failure. */
    method ApplyAll(pending: seq<Migration>, broken: set<nat>) returns (applied: seq<nat>, ok: bool)
      modifies this
      ensures applied == Applied(pending, broken) && State() == Advanced(old(State()), applied)
      ensures ok ==> |applied| == |pending|
      ensures ok <==> forall m :: m in pending ==> m.version !in broken
    {
      applied := [];
      var i := 0;
      ghost var start := State();
      hide Itoa, Advanced, Applied;
      AdvancedTwice(start, [], 0);
      assert pending[0..] == pending;
      while i < |pending|
        invariant 0 <= i <= |pending| && |applied| == i && State() == Advanced(start, applied)
        invariant Applied(pending, broken) == applied + Applied(pending[i..], broken)
        invariant forall j :: 0 <= j < i ==> pending[j].version !in broken
      {
        AppliedStep(pending, broken, i);
        var done := ApplyOne(pending[i], broken);
        if !done {
          assert pending[i] in pending;
          return applied, false;
        }
        AdvancedTwice(start, applied, pending[i].version);
        applied := applied + [pending[i].version];
        i := i + 1;
      }
      AppliedStep(pending, broken, i);
      ok := true;
    }

    static lemma AppliedStep(pending: seq<Migration>, broken: set<nat>, i: nat)
      requires i <= |pending|
      ensures Applied(pending[i..], broken) ==
              if i == |pending| || pending[i].version in broken then []
              else [pending[i].version] + Applied(pending[i + 1..], broken)
    {
      if i < |pending| {
        assert pending[i..][0] == pending[i] && pending[i..][1..] == pending[i + 1..];
      }
    }

    static lemma AdvancedTwice(d: Progress, versions: seq<nat>, v: nat)
      ensures Advanced(d, []) == d
      ensures Advanced(Advanced(d, versions), [v]) == Advanced(d, versions + [v])
    {
      hide Itoa;
    }

    /** The loop that keeps what is newer than the recorded version. */
    static method Filter(all: seq<Migration>, current: int) returns (pending: seq<Migration>)
      ensures pending == Pending(all, current)
    {
      pending := [];
      var i := 0;
      while i < |all|
        invariant 0 <= i <= |all| && Pending(all, current) == pending + Pending(all[i..], current)
      {
        assert all[i..][0] == all[i] && all[i..][1..] == all[i + 1..];
        if all[i].version > current {
          pending := pending + [all[i]];
        }
        i := i + 1;
      }
    }
  }

  // ------------------------------------------------------------------ any sequence of binaries

  function AfterAll(d: Progress, attempts: seq<Attempt>): Progress
    decreases |attempts|
  {
    if attempts == [] then d else AfterAll(Advanced(d, Committed(d, attempts[0])), attempts[1..])
  }

  /** What each binary carries is a strictly ascending list of versions from 1 up, as All promises. */
  predicate Shipped(a: Attempt) {
    a.listing.Listed? ==> Ascending(a.listing.all) && forall m :: m in a.listing.all ==> 0 < m.version <= MAX_INT
  }

  predicate Increasing(vs: seq<nat>) {
    forall i, j :: 0 <= i < j < |vs| ==> vs[i] < vs[j]
  }

  function Last(history: seq<nat>): nat {
    if history == [] then 0 else history[|history| - 1]
  }

  /** The recorded version is the last one committed, and the committed versions strictly increase. */
  ghost predicate Inv(d: Progress) {
    && Increasing(d.history) && (forall v :: v in d.history ==> 0 < v <= MAX_INT)
    && d.recorded == if d.history == [] then None else Some(Itoa(Last(d.history)))
  }

  lemma RecordedIsLast(d: Progress)
    requires Inv(d)
    ensures SchemaVersion(d.recorded) == Some(Last(d.history))
  {
    hide Atoi, Itoa;
    if d.history != [] {
      assert d.history[|d.history| - 1] in d.history;
      AtoiItoa(Last(d.history));
    }
  }

  lemma {:induction false} PendingHolds(all: seq<Migration>, current: int, m: Migration)
    ensures m in Pending(all, current) <==> m in all && m.version > current
  {
    if all != [] {
      PendingHolds(all[1..], current, m);
    }
  }

  lemma AscendingCons(m: Migration, ms: seq<Migration>)
    requires Ascending(ms) && forall x :: x in ms ==> m.version < x.version
    ensures Ascending([m] + ms)
  {
    forall i, j | 0 <= i < j < |[m] + ms|
      ensures ([m] + ms)[i].version < ([m] + ms)[j].version
    {
      assert ms[j - 1] in ms;
    }
  }

  lemma {:induction false} PendingIsNewer(all: seq<Migration>, current: int)
    requires Ascending(all)
    ensures Ascending(Pending(all, current))
    ensures forall m :: m in Pending(all, current) <==> m in all && m.version > current
  {
    forall m
      ensures m in Pending(all, current) <==> m in all && m.version > current
    {
      PendingHolds(all, current, m);
    }
    if all != [] {
      PendingIsNewer(all[1..], current);
      assert forall m :: m in all[1..] ==> all[0].version < m.version;
      hide Ascending;
      AscendingCons(all[0], Pending(all[1..], current));
    }
  }

  lemma {:induction false} AppliedIncreases(pending: seq<Migration>, broken: set<nat>)
    requires Ascending(pending)
    ensures Increasing(Applied(pending, broken)) && |Applied(pending, broken)| <= |pending|
    ensures forall i :: 0 <= i < |Applied(pending, broken)| ==>
              Applied(pending, broken)[i] == pending[i].version && pending[i].version !in broken
    ensures |Applied(pending, broken)| < |pending| ==> pending[|Applied(pending, broken)|].version in broken
  {
    if pending != [] && pending[0].version !in broken {
      AppliedIncreases(pending[1..], broken);
    }
  }

  lemma AttemptKeepsInv(d: Progress, a: Attempt)
    requires Inv(d) && Shipped(a)
    ensures Inv(Advanced(d, Committed(d, a)))
    ensures d.history <= Advanced(d, Committed(d, a)).history
    ensures forall v :: v in Committed(d, a) ==> Last(d.history) < v
  {
    hide Atoi, Itoa, Applied, Pending;
    RecordedIsLast(d);
    if Committed(d, a) != [] {
      var pending := Pending(a.listing.all, Last(d.history));
      PendingIsNewer(a.listing.all, Last(d.history));
      AppliedIncreases(pending, a.broken);
      var applied := Applied(pending, a.broken);
      forall v | v in applied
        ensures Last(d.history) < v <= MAX_INT
      {
        var i :| 0 <= i < |applied| && applied[i] == v;
        assert pending[i] in pending;
      }
      HistoryGrows(d.history, applied);
    }
  }

  lemma HistoryGrows(history: seq<nat>, applied: seq<nat>)
    requires Increasing(history) && Increasing(applied) && forall v :: v in applied ==> Last(history) < v
    ensures Increasing(history + applied)
  {
    forall i, j | 0 <= i < j < |history + applied|
      ensures (history + applied)[i] < (history + applied)[j]
    {
      if i < |history| <= j {
        assert applied[j - |history|] in applied;
        assert history[i] <= Last(history);
      }
    }
  }

  /**
   * Whatever binaries are put in front of a database, and whichever of their migrations fail: the committed
   * versions strictly increase, so none is committed twice; the recorded version is the last of them, and never
   * falls; and what was committed stays committed.
   */
  lemma {:induction false} ForwardOnly(d: Progress, attempts: seq<Attempt>)
    requires Inv(d) && forall a :: a in attempts ==> Shipped(a)
    ensures var end := AfterAll(d, attempts);
            && Increasing(end.history) && d.history <= end.history
            && SchemaVersion(end.recorded) == Some(Last(end.history)) && Last(d.history) <= Last(end.history)
            && Inv(end)
    decreases |attempts|
  {
    hide Inv, Shipped, Committed, Advanced, SchemaVersion;
    if attempts == [] {
      InvParts(d);
    } else {
      assert attempts[0] in attempts;
      var d2 := Advanced(d, Committed(d, attempts[0]));
      AttemptKeepsInv(d, attempts[0]);
      InvParts(d2);
      ForwardOnly(d2, attempts[1..]);
      LastGrows(d.history, d2.history);
    }
  }

  lemma LastGrows(history: seq<nat>, history2: seq<nat>)
    requires history <= history2 && Increasing(history2)
    ensures Last(history) <= Last(history2)
  {
  }

  lemma InvParts(d: Progress)
    requires Inv(d)
    ensures Increasing(d.history) && SchemaVersion(d.recorded) == Some(Last(d.history))
  {
    RecordedIsLast(d);
  }

  /** A call that commits all that is pending leaves nothing for a binary whose versions it covers. */
  lemma NothingLeft(d: Progress, a: Attempt, b: Attempt)
    requires Inv(d) && Shipped(a) && Shipped(b) && a.listing.Listed? && b.listing.Listed?
    requires |Committed(d, a)| == |Pending(a.listing.all, Last(d.history))|
    requires forall m :: m in b.listing.all ==> exists n :: n in a.listing.all && n.version >= m.version
    ensures Committed(Advanced(d, Committed(d, a)), b) == []
  {
    hide Atoi, Itoa, Applied, Pending;
    var d2 := Advanced(d, Committed(d, a));
    AttemptKeepsInv(d, a);
    RecordedIsLast(d);
    RecordedIsLast(d2);
    var pending := Pending(a.listing.all, Last(d.history));
    PendingIsNewer(a.listing.all, Last(d.history));
    AppliedIncreases(pending, a.broken);
    forall m | m in b.listing.all
      ensures m.version <= Last(d2.history)
    {
      var n :| n in a.listing.all && n.version >= m.version;
      if n.version > Last(d.history) {
        assert n in pending;
        CoversPending(d, a, pending, n);
      } else {
        LastGrows(d.history, d2.history);
      }
    }
    PendingIsNewer(b.listing.all, Last(d2.history));
    NothingNewer(Pending(b.listing.all, Last(d2.history)), b.broken);
  }

  lemma CoversPending(d: Progress, a: Attempt, pending: seq<Migration>, n: Migration)
    requires n in pending && Ascending(pending) && |Committed(d, a)| == |pending|
    requires forall i :: 0 <= i < |pending| ==> Committed(d, a)[i] == pending[i].version
    ensures n.version <= Last(Advanced(d, Committed(d, a)).history)
  {
    hide Committed;
  }

  lemma NothingNewer(pending: seq<Migration>, broken: set<nat>)
    requires forall m :: m !in pending
    ensures Applied(pending, broken) == []
  {
    if pending != [] {
      assert pending[0] in pending;
    }
  }

  /** The price of it: a version that was passed over, because a newer one was committed first, is never committed. */
  lemma {:induction false} PassedOverForGood(d: Progress, attempts: seq<Attempt>, v: nat)
    requires Inv(d) && (forall a :: a in attempts ==> Shipped(a)) && v <= Last(d.history)
    ensures v in AfterAll(d, attempts).history <==> v in d.history
    decreases |attempts|
  {
    if attempts != [] {
      hide Inv, Shipped, Committed;
      assert attempts[0] in attempts;
      var d2 := Advanced(d, Committed(d, attempts[0]));
      AttemptKeepsInv(d, attempts[0]);
      InvParts(d2);
      LastGrows(d.history, d2.history);
      PassedOverForGood(d2, attempts[1..], v);
    }
  }
}
