// The migration runner and the reviewed migrations of internal/credentialstore
// (migration_runner.go, postgres.go, reviewed_migration.go).

module Migrations {
  import opened Base
  import opened Ordering

  /** A checksum stands for the body it is the SHA-256 of. */
  datatype Migration = Migration(version: Text, checksum: Text)

  /**
   * The committed database: whether the ledger table exists, its rows, whether
   * credential tables exist, and the versions whose bodies took effect, in order.
   */
  datatype Database = Database(ledgerExists: bool, ledger: map<Text, Text>, tables: bool, effects: seq<Text>)

  const FIRST: Text := [0x30, 0x30, 0x30, 0x31]  // "0001"

  function Versions(ms: seq<Migration>): (r: seq<Text>)
    ensures |r| == |ms| && forall i | 0 <= i < |r| :: r[i] == ms[i].version
  {
    seq(|ms|, i requires 0 <= i < |ms| => ms[i].version)
  }

  predicate DistinctVersions(ms: seq<Migration>)
  {
    forall i, j | 0 <= i < j < |ms| :: ms[i].version != ms[j].version
  }

  // ----- one transaction -----

  /** What applyMigration decides from the rows it reads. */
  datatype Plan = Apply | AlreadyApplied | Refuse

  function PlanFor(db: Database, m: Migration): Plan
  {
    if !db.ledgerExists then Refuse
    else if m.version in db.ledger then if db.ledger[m.version] == m.checksum then AlreadyApplied else Refuse
    else if m.version == FIRST && db.tables then Refuse
    else Apply
  }

  /** The body and its ledger row, in one transaction. */
  function Applied(db: Database, m: Migration): Database
  {
    db.(ledger := db.ledger[m.version := m.checksum],
        tables := db.tables || m.version == FIRST,
        effects := db.effects + [m.version])
  }

  /** How the outside world treats an attempt. */
  datatype Fate =
    | Commits       // the commit is made and answered
    | LosesAnswer   // the commit is made, its answer is lost
    | Contends      // lock timeout or deadlock: rolled back
    | Fails         // any other error, or a crash, before the commit

  datatype Result = Succeeded | Contention | Failed

  /** What a transaction of the runner does: make the ledger table, or apply a migration. */
  datatype Work = MakeLedger | ApplyOne(m: Migration)

  /** The database the work leaves, if the work does not refuse. */
  function Worked(db: Database, work: Work): Option<Database>
  {
    match work
    case MakeLedger => Some(db.(ledgerExists := true))
    case ApplyOne(m) =>
      match PlanFor(db, m)
      case Refuse => None
      case AlreadyApplied => Some(db)
      case Apply => Some(Applied(db, m))
  }

  /** One attempt: the work, then the commit. */
  function Attempt(db: Database, work: Work, fate: Fate): (Database, Result)
  {
    if fate.Contends? then (db, Contention)
    else if fate.Fails? || Worked(db, work).None? then (db, Failed)
    else (Worked(db, work).value, if fate.Commits? then Succeeded else Failed)
  }

  const LOCK_ATTEMPTS := 8

  /** The fate that ends a transaction: the first that is not contention before a full wait, or the last allowed. */
  function LastFate(fates: seq<Fate>, waits: seq<bool>): Fate
    requires |fates| == |waits| > 0
  {
    if |fates| == 1 || !fates[0].Contends? || !waits[0] then fates[0] else LastFate(fates[1..], waits[1..])
  }

  lemma NextFate(fates: seq<Fate>, waits: seq<bool>, k: nat)
    requires k < |fates| == |waits|
    ensures LastFate(fates[k..], waits[k..]) ==
            if k + 1 == |fates| || !fates[k].Contends? || !waits[k] then fates[k] else LastFate(fates[k + 1..], waits[k + 1..])
  {
    assert k + 1 < |fates| ==> fates[k..][1..] == fates[k + 1..] && waits[k..][1..] == waits[k + 1..];
  }

  /** A database that no migration will refuse: recorded ones have this binary's checksum, and a first one finds no tables. */
  predicate Accepts(db: Database, ms: seq<Migration>)
  {
    forall i | 0 <= i < |ms| ::
      if ms[i].version in db.ledger then db.ledger[ms[i].version] == ms[i].checksum
      else ms[i].version == [0x30, 0x30, 0x30, 0x31] ==> !db.tables
  }

  /** What a run has left as it was: the rows of what is still to come, and the tables until they are made. */
  predicate Untouched(before: Database, after: Database, ms: seq<Migration>, i: nat)
  {
    && (forall j | i <= j < |ms| ::
          (ms[j].version in after.ledger <==> ms[j].version in before.ledger)
          && (ms[j].version in after.ledger ==> after.ledger[ms[j].version] == before.ledger[ms[j].version]))
    && (after.tables == before.tables || exists j | 0 <= j < i && j < |ms| :: ms[j].version == FIRST)
  }

  lemma StepDecides(start: Database, db: Database, ms: seq<Migration>, i: nat)
    requires i < |ms| && DistinctVersions(ms) && db.ledgerExists && Untouched(start, db, ms, i)
    ensures Worked(db, ApplyOne(ms[i])).None? ==> !Accepts(start, ms)
    ensures Worked(db, ApplyOne(ms[i])).Some? ==>
              && Untouched(start, Worked(db, ApplyOne(ms[i])).value, ms, i + 1)
              && (Accepts(start, ms[..i]) ==> Accepts(start, ms[..i + 1]))
  {
    var m := ms[i];
    assert forall j | 0 <= j < i :: ms[j].version != m.version;
    if Worked(db, ApplyOne(m)).Some? {
      var after := Worked(db, ApplyOne(m)).value;
      if after.tables != start.tables && db.tables == start.tables {
        assert m.version == FIRST;
      }
      assert forall j | i < j < |ms| :: ms[j].version != m.version;
      assert ms[..i + 1] == ms[..i] + [m];
    }
  }

  /** What holds of a database that only these migrations, in this order, have changed. */
  predicate Consistent(db: Database, ms: seq<Migration>)
  {
    && |db.effects| <= |ms| && db.effects == Versions(ms)[..|db.effects|]
    && (forall v | v in db.ledger :: v in db.effects)
    && (forall v | v in db.effects :: v in db.ledger)
  }

  /** The first n migrations are in the ledger under this binary's checksums. */
  predicate Proven(db: Database, ms: seq<Migration>, n: nat)
    requires n <= |ms|
  {
    forall i | 0 <= i < n :: ms[i].version in db.ledger && db.ledger[ms[i].version] == ms[i].checksum
  }

  /** Later databases keep every row and every effect. */
  predicate Extends(before: Database, after: Database)
  {
    && before.effects <= after.effects
    && forall v | v in before.ledger :: v in after.ledger && after.ledger[v] == before.ledger[v]
  }

  /** A migration with everything before it in effect is either in effect or next. */
  lemma ApplyKeepsConsistent(db: Database, ms: seq<Migration>, i: nat)
    requires i < |ms| && DistinctVersions(ms) && Consistent(db, ms) && i <= |db.effects|
    requires ms[i].version !in db.ledger
    ensures i == |db.effects|
    ensures Consistent(Applied(db, ms[i]), ms) && Extends(db, Applied(db, ms[i]))
  {
    assert forall j | 0 <= j < |db.effects| :: db.effects[j] == ms[j].version && db.effects[j] in db.ledger;
    var after := Applied(db, ms[i]);
    assert Versions(ms)[..i + 1] == Versions(ms)[..i] + [ms[i].version];
    assert forall v :: v in after.effects <==> v in db.effects || v == ms[i].version;
  }

  lemma WorkKeeps(db: Database, ms: seq<Migration>, i: nat)
    requires i < |ms| && DistinctVersions(ms) && Consistent(db, ms) && Proven(db, ms, i)
    requires Worked(db, ApplyOne(ms[i])).Some?
    ensures var after := Worked(db, ApplyOne(ms[i])).value;
            Consistent(after, ms) && Extends(db, after) && Proven(after, ms, i + 1)
  {
    ProvenIsInEffect(db, ms, i);
    if PlanFor(db, ms[i]).Apply? {
      ApplyKeepsConsistent(db, ms, i);
    }
  }

  lemma ProvenIsInEffect(db: Database, ms: seq<Migration>, n: nat)
    requires n <= |ms| && DistinctVersions(ms) && Consistent(db, ms) && Proven(db, ms, n)
    ensures n <= |db.effects|
  {
    RecordedIsInEffect(db, ms, n);
  }

  lemma RecordedIsInEffect(db: Database, ms: seq<Migration>, n: nat)
    requires n <= |ms| && DistinctVersions(ms) && Consistent(db, ms)
    requires forall i | 0 <= i < n :: ms[i].version in db.ledger
    ensures n <= |db.effects|
  {
    assert |db.effects| < n ==> ms[|db.effects|].version in db.effects;
  }

  // ----- the runner's loops -----

  class Server {
    var db: Database

    constructor (initial: Database)
      ensures db == initial
    {
      db := initial;
    }

    method MigrationAttempt(work: Work, fate: Fate) returns (result: Result)
      modifies this
      ensures (db, result) == Attempt(old(db), work, fate)
    {
      if fate.Contends? {
        return Contention;
      }
      if fate.Fails? {
        return Failed;
      }
      match work {
        case MakeLedger =>
          db := db.(ledgerExists := true);
        case ApplyOne(m) =>
          if !db.ledgerExists {
            return Failed;
          }
          if m.version in db.ledger {
            if db.ledger[m.version] != m.checksum {
              return Failed;
            }
          } else {
            if m.version == FIRST && db.tables {
              return Failed;
            }
            db := Applied(db, m);
          }
      }
      return if fate.Commits? then Succeeded else Failed;
    }

    /**
     * Contention is retried from the top after a wait, at most eight times; anything
     * else is final. `waits` says whether each wait ends before its context does.
     */
    method InMigrationTransaction(work: Work, fates: seq<Fate>, waits: seq<bool>) returns (ok: bool, attempts: nat)
      requires |fates| == |waits| == LOCK_ATTEMPTS
      modifies this
      ensures 1 <= attempts <= LOCK_ATTEMPTS && forall k | 0 <= k < attempts - 1 :: fates[k].Contends? && waits[k]
      ensures attempts < LOCK_ATTEMPTS && fates[attempts - 1].Contends? ==> !waits[attempts - 1]
      ensures fates[attempts - 1] == LastFate(fates, waits)
      ensures ok <==> LastFate(fates, waits).Commits? && Worked(old(db), work).Some?
      ensures db == Attempt(old(db), work, fates[attempts - 1]).0
    {
      attempts := 0;
      assert fates[0..] == fates && waits[0..] == waits;
      while true
        invariant attempts < LOCK_ATTEMPTS && db == old(db)
        invariant LastFate(fates[attempts..], waits[attempts..]) == LastFate(fates, waits)
        invariant forall k | 0 <= k < attempts :: fates[k].Contends? && waits[k]
        decreases LOCK_ATTEMPTS - attempts
      {
        NextFate(fates, waits, attempts);
        var result := MigrationAttempt(work, fates[attempts]);
        attempts := attempts + 1;
        if result.Succeeded? {
          return true, attempts;
        }
        if !result.Contention? {
          return false, attempts;
        }
        if attempts == LOCK_ATTEMPTS {
          return false, attempts;
        }
        if !waits[attempts - 1] {
          return false, attempts;
        }
      }
    }

    /** A whole run: the ledger table, then each migration in its own transaction. */
    method Migrate(ms: seq<Migration>, ledgerFates: seq<Fate>, fates: seq<seq<Fate>>, waits: seq<seq<bool>>)
      returns (ok: bool)
      requires DistinctVersions(ms) && Consistent(db, ms)
      requires |ledgerFates| == LOCK_ATTEMPTS && |fates| == |ms| && forall f | f in fates :: |f| == LOCK_ATTEMPTS
      requires |waits| == |ms| + 1 && forall w | w in waits :: |w| == LOCK_ATTEMPTS
      modifies this
      ensures Consistent(db, ms) && Extends(old(db), db)
      ensures ok ==> db.ledgerExists && Proven(db, ms, |ms|) && db.effects == Versions(ms)
      ensures ok <==> && Accepts(old(db), ms) && LastFate(ledgerFates, waits[0]).Commits?
                      && forall i | 0 <= i < |ms| :: LastFate(fates[i], waits[i + 1]).Commits?
    {
      hide Consistent;
      hide Extends;
      hide Proven;
      hide Worked;
      hide Accepts;
      hide Underway;
      hide LastFate;
      var attempts: nat;
      ghost var start := db;
      MigrateStart(db, ms);
      ok, attempts := InMigrationTransaction(MakeLedger, ledgerFates, waits[0]);
      if !ok {
        return;
      }
      for i := 0 to |ms|
        invariant Underway(start, db, ms, i)
        invariant forall j | 0 <= j < i :: LastFate(fates[j], waits[j + 1]).Commits?
      {
        assert fates[i] in fates;
        MigrateStep(start, db, ms, i);
        ok, attempts := InMigrationTransaction(ApplyOne(ms[i]), fates[i], waits[i + 1]);
        if !ok {
          return;
        }
      }
      MigrateEnd(start, db, ms);
      return true;
    }
  }

  /** A run from a database to another, with the first i migrations proven. */
  predicate Underway(start: Database, db: Database, ms: seq<Migration>, i: nat)
  {
    && i <= |ms| && db.ledgerExists && Consistent(db, ms) && Extends(start, db) && Proven(db, ms, i)
    && Untouched(start, db, ms, i) && Accepts(start, ms[..i])
  }

  lemma MigrateStart(db: Database, ms: seq<Migration>)
    requires Consistent(db, ms)
    ensures var after := db.(ledgerExists := true);
            && Extends(db, db) && Worked(db, MakeLedger) == Some(after)
            && Consistent(after, ms) && Extends(db, after) && Underway(db, after, ms, 0)
  {
  }

  lemma MigrateStep(start: Database, db: Database, ms: seq<Migration>, i: nat)
    requires i < |ms| && DistinctVersions(ms) && Underway(start, db, ms, i)
    ensures Consistent(db, ms) && Extends(start, db)
    ensures var after := Worked(db, ApplyOne(ms[i]));
            && (after == None ==> !Accepts(start, ms))
            && (after.Some? ==> Underway(start, after.value, ms, i + 1)
                                && Consistent(after.value, ms) && Extends(start, after.value))
  {
    hide Untouched;
    hide Accepts;
    StepDecides(start, db, ms, i);
    if Worked(db, ApplyOne(ms[i])).Some? {
      WorkKeeps(db, ms, i);
      ExtendsTransitive(start, db, Worked(db, ApplyOne(ms[i])).value);
    }
  }

  lemma MigrateEnd(start: Database, db: Database, ms: seq<Migration>)
    requires DistinctVersions(ms) && Underway(start, db, ms, |ms|)
    ensures db.ledgerExists && Consistent(db, ms) && Extends(start, db) && Proven(db, ms, |ms|)
    ensures db.effects == Versions(ms) && Accepts(start, ms)
  {
    ProvenIsInEffect(db, ms, |ms|);
    assert Versions(ms)[..|ms|] == Versions(ms);
    assert ms[..|ms|] == ms;
  }

  lemma ExtendsTransitive(a: Database, b: Database, c: Database)
    requires Extends(a, b) && Extends(b, c)
    ensures Extends(a, c)
  {
  }

  /**
   * The wait before the next attempt: a random point of [0, 1) below a second
   * that doubles with each attempt, up to thirty. Seconds, as reals.
   */
  function LockRetryDelay(attempt: nat, random: real): (delay: real)
    requires attempt >= 1 && 0.0 <= random < 1.0
    ensures 0.0 <= delay < 30.0
    ensures attempt <= 5 ==> delay < DoublingCeiling(attempt)
  {
    var ceiling := if attempt < 6 && DoublingCeiling(attempt) < 30.0 then DoublingCeiling(attempt) else 30.0;
    Part(random, ceiling)
  }

  function Part(random: real, whole: real): (r: real)
    requires 0.0 <= random < 1.0 && whole > 0.0
    ensures 0.0 <= r < whole
  {
    random * whole
  }

  /** One second, doubled for each attempt after the first. */
  function DoublingCeiling(attempt: nat): (seconds: real)
    requires attempt >= 1
    ensures seconds >= 1.0
  {
    if attempt == 1 then 1.0 else 2.0 * DoublingCeiling(attempt - 1)
  }

  /** The waits of the seven retries reach to 1, 2, 4, 8 and 16 seconds, and then to 30. */
  lemma RetryWaits(random: real)
    requires 0.0 <= random < 1.0
    ensures LockRetryDelay(1, random) == random && LockRetryDelay(2, random) == random * 2.0
    ensures LockRetryDelay(3, random) == random * 4.0 && LockRetryDelay(4, random) == random * 8.0
    ensures LockRetryDelay(5, random) == random * 16.0
    ensures forall attempt | attempt >= 6 :: LockRetryDelay(attempt, random) == random * 30.0
  {
    assert DoublingCeiling(2) == 2.0 && DoublingCeiling(3) == 4.0 && DoublingCeiling(4) == 8.0 && DoublingCeiling(5) == 16.0;
  }
}

/** Any number of runs at once, interleaved transaction by transaction. */
module MigrationRuns {
  import opened Base
  import opened Ordering
  import opened Migrations

  /**
   * A run stands before its ledger step (`next == -1`) or before a migration. A
   * transaction that is open has read the ledger and holds its plan.
   */
  datatype Run = Run(next: int, open: Option<Plan>, attempt: nat, alive: bool)

  datatype System = System(db: Database, runs: map<nat, Run>)

  datatype Event =
    | Start(id: nat)
    | Ledger(id: nat, fate: Fate)
    | Read(id: nat)
    | Close(id: nat, fate: Fate)
    | Cancel(id: nat)

  /**
   * A transaction closes. Its insert meets the primary key: if the version has
   * been recorded since it read, the whole transaction rolls back and fails.
   */
  function CloseOn(db: Database, m: Migration, plan: Plan, fate: Fate): (Database, Result)
  {
    match fate
    case Contends => (db, Contention)
    case Fails => (db, Failed)
    case _ =>
      if plan.Refuse? || (plan.Apply? && m.version in db.ledger) then (db, Failed)
      else
        (if plan.Apply? then Applied(db, m) else db, if fate.Commits? then Succeeded else Failed)
  }

  function After(run: Run, result: Result): Run
  {
    match result
    case Succeeded => Run(run.next + 1, None, 1, true)
    case Contention =>
      if run.attempt >= LOCK_ATTEMPTS then run.(open := None, alive := false)
      else run.(open := None, attempt := run.attempt + 1)
    case Failed => run.(open := None, alive := false)
  }

  function Step(sys: System, ms: seq<Migration>, e: Event): System
  {
    match e
    case Start(id) => if id in sys.runs then sys else sys.(runs := sys.runs[id := Run(-1, None, 1, true)])
    case Ledger(id, fate) =>
      if id !in sys.runs || !sys.runs[id].alive || sys.runs[id].next != -1 then sys
      else
        var committed := fate.Commits? || fate.LosesAnswer?;
        var result := if fate.Commits? then Succeeded else if fate.Contends? then Contention else Failed;
        System(if committed then sys.db.(ledgerExists := true) else sys.db,
               sys.runs[id := After(sys.runs[id], result)])
    case Read(id) =>
      if id !in sys.runs then sys
      else
        var run := sys.runs[id];
        if !run.alive || run.open.Some? || !(0 <= run.next < |ms|) then sys
        else sys.(runs := sys.runs[id := run.(open := Some(PlanFor(sys.db, ms[run.next])))])
    case Close(id, fate) =>
      if id !in sys.runs then sys
      else
        var run := sys.runs[id];
        if !run.alive || run.open.None? || !(0 <= run.next < |ms|) then sys
        else
          var (db, result) := CloseOn(sys.db, ms[run.next], run.open.value, fate);
          System(db, sys.runs[id := After(run, result)])
    case Cancel(id) =>
      if id !in sys.runs then sys
      else sys.(runs := sys.runs[id := sys.runs[id].(open := None, alive := false)])
  }

  function Steps(sys: System, ms: seq<Migration>, events: seq<Event>): System
    decreases |events|
  {
    if events == [] then sys else Steps(Step(sys, ms, events[0]), ms, events[1..])
  }

  /** What a run knows: everything before its place is recorded under this binary's checksums. */
  predicate Sound(db: Database, ms: seq<Migration>, run: Run)
  {
    && -1 <= run.next <= |ms| && (run.next > 0 ==> Proven(db, ms, run.next))
    && (run.open == Some(AlreadyApplied) && run.next >= 0 && run.next < |ms| ==> Proven(db, ms, run.next + 1))
  }

  predicate Invariant(sys: System, ms: seq<Migration>)
  {
    Consistent(sys.db, ms) && forall id | id in sys.runs :: Sound(sys.db, ms, sys.runs[id])
  }

  lemma SoundLater(before: Database, after: Database, ms: seq<Migration>, run: Run)
    requires Sound(before, ms, run) && Extends(before, after)
    ensures Sound(after, ms, run)
  {
  }

  /** Closing keeps what is recorded consistent, and a success records the run's migration. */
  lemma CloseKeeps(db: Database, ms: seq<Migration>, run: Run, fate: Fate)
    requires DistinctVersions(ms) && Consistent(db, ms) && Sound(db, ms, run)
    requires run.open.Some? && 0 <= run.next < |ms|
    ensures var (after, result) := CloseOn(db, ms[run.next], run.open.value, fate);
            && Consistent(after, ms) && Extends(db, after) && Sound(after, ms, After(run, result))
  {
    hide Consistent;
    hide Extends;
    hide Proven;
    hide Applied;
    ExtendsSelf(db, ms, db.ledgerExists);
    var m := ms[run.next];
    if run.open.value.Apply? && m.version !in db.ledger {
      ApplyProves(db, ms, run.next);
    }
  }

  lemma ApplyProves(db: Database, ms: seq<Migration>, i: nat)
    requires i < |ms| && DistinctVersions(ms) && Consistent(db, ms) && (i > 0 ==> Proven(db, ms, i))
    requires ms[i].version !in db.ledger
    ensures Consistent(Applied(db, ms[i]), ms) && Extends(db, Applied(db, ms[i]))
    ensures Proven(Applied(db, ms[i]), ms, i + 1) && (i > 0 ==> Proven(Applied(db, ms[i]), ms, i))
  {
    ProvenIsInEffect(db, ms, i);
    ApplyKeepsConsistent(db, ms, i);
  }

  lemma StepKeeps(sys: System, ms: seq<Migration>, e: Event)
    requires DistinctVersions(ms) && Invariant(sys, ms)
    ensures Invariant(Step(sys, ms, e), ms) && Extends(sys.db, Step(sys, ms, e).db)
  {
    hide Consistent;
    hide Extends;
    hide Proven;
    var next := Step(sys, ms, e);
    ExtendsSelf(sys.db, ms, sys.db.ledgerExists);
    match e {
      case Start(id) =>
      case Ledger(id, fate) =>
        ExtendsSelf(sys.db, ms, true);
      case Read(id) =>
        if id in sys.runs {
          ReadIsSound(sys, ms, id);
        }
      case Close(id, fate) =>
        if next != sys {
          CloseKeeps(sys.db, ms, sys.runs[id], fate);
        }
      case Cancel(id) =>
    }
    forall id | id in sys.runs
      ensures Sound(next.db, ms, sys.runs[id])
    {
      SoundLater(sys.db, next.db, ms, sys.runs[id]);
    }
  }

  lemma ExtendsSelf(db: Database, ms: seq<Migration>, ledgerExists: bool)
    requires Consistent(db, ms)
    ensures Extends(db, db.(ledgerExists := ledgerExists)) && Consistent(db.(ledgerExists := ledgerExists), ms)
  {
  }

  /** A plan read as already applied is a proof of it. */
  lemma ReadIsSound(sys: System, ms: seq<Migration>, id: nat)
    requires Invariant(sys, ms) && id in sys.runs
    ensures id in Step(sys, ms, Read(id)).runs && Sound(sys.db, ms, Step(sys, ms, Read(id)).runs[id])
  {
  }

  lemma {:induction false} StepsKeep(sys: System, ms: seq<Migration>, events: seq<Event>)
    requires DistinctVersions(ms) && Invariant(sys, ms)
    ensures Invariant(Steps(sys, ms, events), ms) && Extends(sys.db, Steps(sys, ms, events).db)
    decreases |events|
  {
    hide Step;
    hide Invariant;
    if events == [] {
      InvariantExtends(sys, ms);
    } else {
      StepKeeps(sys, ms, events[0]);
      StepsKeep(Step(sys, ms, events[0]), ms, events[1..]);
      ExtendsTransitive(sys.db, Step(sys, ms, events[0]).db, Steps(sys, ms, events).db);
    }
  }

  lemma InvariantExtends(sys: System, ms: seq<Migration>)
    requires Invariant(sys, ms)
    ensures Extends(sys.db, sys.db)
  {
  }

  /**
   * From any database these migrations could have left, through any interleaving
   * of runs that fail, contend, crash, are cancelled or lose a commit's answer: each body takes
   * effect at most once and in order, the ledger names exactly the versions in
   * effect, and a run that has finished leaves every migration recorded.
   */
  lemma EachBodyAtMostOnce(db: Database, ms: seq<Migration>, events: seq<Event>)
    requires DistinctVersions(ms) && Consistent(db, ms)
    ensures var end := Steps(System(db, map[]), ms, events);
            && (forall i, j | 0 <= i < j < |end.db.effects| :: end.db.effects[i] != end.db.effects[j])
            && (forall v | v in end.db.ledger :: v in end.db.effects)
            && (forall v | v in end.db.effects :: v in end.db.ledger)
            && end.db.effects <= Versions(ms) && db.effects <= end.db.effects
            && forall id | id in end.runs && end.runs[id].next == |ms| > 0 ::
                 Proven(end.db, ms, |ms|) && end.db.effects == Versions(ms)
  {
    hide Steps;
    StepsKeep(System(db, map[]), ms, events);
    var end := Steps(System(db, map[]), ms, events);
    assert forall i | 0 <= i < |end.db.effects| :: end.db.effects[i] == Versions(ms)[i];
    forall id | id in end.runs && end.runs[id].next == |ms| > 0
      ensures Proven(end.db, ms, |ms|) && end.db.effects == Versions(ms)
    {
      assert Sound(end.db, ms, end.runs[id]);
      ProvenIsInEffect(end.db, ms, |ms|);
    }
  }

  // ----- a run that nothing disturbs -----

  /** One migration's transaction, read and committed. */
  function Transactions(id: nat, n: nat): seq<Event>
  {
    if n == 0 then [] else [Read(id), Close(id, Commits)] + Transactions(id, n - 1)
  }

  function WholeRun(id: nat, n: nat): seq<Event> { [Start(id), Ledger(id, Commits)] + Transactions(id, n) }

  lemma StepsFirst(sys: System, ms: seq<Migration>, e: Event, rest: seq<Event>)
    ensures Steps(sys, ms, [e] + rest) == Steps(Step(sys, ms, e), ms, rest)
  {
    hide Step;
    assert ([e] + rest)[1..] == rest;
  }

  /** Applying what is accepted leaves the rest accepted. */
  lemma AppliedAccepts(db: Database, ms: seq<Migration>, i: nat)
    requires i < |ms| && DistinctVersions(ms) && db.ledgerExists && Accepts(db, ms)
    ensures Worked(db, ApplyOne(ms[i])).Some? && Accepts(Worked(db, ApplyOne(ms[i])).value, ms)
    ensures Worked(db, ApplyOne(ms[i])).value.ledgerExists
  {
    assert forall j | 0 <= j < |ms| && j != i :: ms[j].version != ms[i].version;
  }

  /** A transaction that is read and committed with no other event between does its work. */
  lemma OneTransaction(sys: System, ms: seq<Migration>, id: nat, i: nat)
    requires i < |ms| && DistinctVersions(ms) && sys.db.ledgerExists && Accepts(sys.db, ms)
    requires id in sys.runs && sys.runs[id] == Run(i, None, 1, true)
    ensures Worked(sys.db, ApplyOne(ms[i])).Some?
    ensures Step(Step(sys, ms, Read(id)), ms, Close(id, Commits))
         == System(Worked(sys.db, ApplyOne(ms[i])).value, sys.runs[id := Run(i + 1, None, 1, true)])
  {
    hide Accepts;
    AppliedAccepts(sys.db, ms, i);
    var read := sys.runs[id := Run(i, Some(PlanFor(sys.db, ms[i])), 1, true)];
    assert Step(sys, ms, Read(id)) == System(sys.db, read);
    assert read[id := Run(i + 1, None, 1, true)] == sys.runs[id := Run(i + 1, None, 1, true)];
  }

  lemma {:induction false} TransactionsFinish(sys: System, ms: seq<Migration>, id: nat, i: nat)
    requires i <= |ms| && DistinctVersions(ms) && sys.db.ledgerExists && Accepts(sys.db, ms)
    requires id in sys.runs && sys.runs[id] == Run(i, None, 1, true)
    ensures var end := Steps(sys, ms, Transactions(id, |ms| - i));
            id in end.runs && end.runs[id].next == |ms| && end.runs[id].alive
    decreases |ms| - i
  {
    hide Step;
    hide Accepts;
    if i < |ms| {
      var rest := Transactions(id, |ms| - i - 1);
      var next := Step(Step(sys, ms, Read(id)), ms, Close(id, Commits));
      assert [Read(id), Close(id, Commits)] + rest == [Read(id)] + ([Close(id, Commits)] + rest);
      StepsFirst(sys, ms, Read(id), [Close(id, Commits)] + rest);
      StepsFirst(Step(sys, ms, Read(id)), ms, Close(id, Commits), rest);
      OneTransaction(sys, ms, id, i);
      AppliedAccepts(sys.db, ms, i);
      TransactionsFinish(next, ms, id, i + 1);
    }
  }

  /**
   * A new run left alone, whatever other runs have been doing, ends with every
   * migration in effect and recorded, if no recorded checksum differs and a first
   * migration still to come finds no tables.
   */
  lemma LoneRunFinishes(sys: System, ms: seq<Migration>, id: nat)
    requires DistinctVersions(ms) && Invariant(sys, ms) && id !in sys.runs && Accepts(sys.db, ms)
    ensures var end := Steps(sys, ms, WholeRun(id, |ms|));
            && id in end.runs && end.runs[id].next == |ms| && end.db.effects == Versions(ms) && Proven(end.db, ms, |ms|)
  {
    hide Steps;
    hide Consistent;
    var db := sys.db.(ledgerExists := true);
    var begun := System(sys.db, sys.runs[id := Run(-1, None, 1, true)]);
    var ready := System(db, sys.runs[id := Run(0, None, 1, true)]);
    var events := WholeRun(id, |ms|);
    assert events == [Start(id)] + ([Ledger(id, Commits)] + Transactions(id, |ms|));
    StepsFirst(sys, ms, Start(id), [Ledger(id, Commits)] + Transactions(id, |ms|));
    assert Step(sys, ms, Start(id)) == begun;
    StepsFirst(begun, ms, Ledger(id, Commits), Transactions(id, |ms|));
    assert begun.runs[id := Run(0, None, 1, true)] == ready.runs;
    assert Step(begun, ms, Ledger(id, Commits)) == ready;
    TransactionsFinish(ready, ms, id, 0);
    StepsKeep(sys, ms, events);
    FinishedIsProven(Steps(sys, ms, events), ms, id);
  }

  lemma FinishedIsProven(sys: System, ms: seq<Migration>, id: nat)
    requires DistinctVersions(ms) && Invariant(sys, ms) && id in sys.runs && sys.runs[id].next == |ms|
    ensures sys.db.effects == Versions(ms) && Proven(sys.db, ms, |ms|)
  {
    assert Sound(sys.db, ms, sys.runs[id]);
    ProvenIsInEffect(sys.db, ms, |ms|);
    assert Versions(ms)[..|ms|] == Versions(ms);
  }
}

/** The two reviewed migrations: a ledger proof, then at most one application. */
module ReviewedMigration {
  import opened Base
  import opened Ordering
  import opened Migrations

  /** Every row is a known version under this binary's checksum. */
  predicate OnlyKnown(ledger: map<Text, Text>, ms: seq<Migration>)
  {
    forall v | v in ledger :: exists i :: 0 <= i < |ms| && ms[i].version == v && ms[i].checksum == ledger[v]
  }

  /** Every version up to the reviewed one, save perhaps the reviewed one, is recorded. */
  predicate OnlyReviewedPending(ledger: map<Text, Text>, ms: seq<Migration>, reviewed: Text)
  {
    forall i | 0 <= i < |ms| && !Less(reviewed, ms[i].version) && ms[i].version != reviewed :: ms[i].version in ledger
  }

  /** The versions up to the reviewed one that are not recorded, in order. */
  function PendingOf(ledger: map<Text, Text>, ms: seq<Migration>, reviewed: Text): seq<Text>
  {
    if ms == [] then []
    else
      var front, last := ms[..|ms| - 1], ms[|ms| - 1];
      if !Less(reviewed, last.version) && last.version !in ledger then PendingOf(ledger, front, reviewed) + [last.version]
      else PendingOf(ledger, front, reviewed)
  }

  /** The proof loop: known rows are deleted from a copy of the ledger as they are checked. */
  method ProveLedger(ledger: map<Text, Text>, ms: seq<Migration>, reviewed: Text) returns (pending: Option<seq<Text>>)
    requires DistinctVersions(ms)
    ensures pending.Some? <==> OnlyKnown(ledger, ms)
    ensures pending.Some? ==> pending.value == PendingOf(ledger, ms, reviewed)
  {
    var applied := ledger;
    var listed: seq<Text> := [];
    for i := 0 to |ms|
      invariant forall v :: v in applied <==> v in ledger && forall j | 0 <= j < i :: ms[j].version != v
      invariant forall v | v in applied :: applied[v] == ledger[v]
      invariant forall j | 0 <= j < i && ms[j].version in ledger :: ledger[ms[j].version] == ms[j].checksum
      invariant listed == PendingOf(ledger, ms[..i], reviewed)
    {
      var m := ms[i];
      assert ms[..i + 1][..i] == ms[..i];
      if m.version in applied && applied[m.version] != m.checksum {
        ForeignChecksum(ledger, ms, i);
        return None;
      }
      if !Less(reviewed, m.version) && m.version !in applied {
        listed := listed + [m.version];
      }
      applied := applied - {m.version};
    }
    assert ms[..|ms|] == ms;
    if applied != map[] {
      ghost var v :| v in applied;
      assert v in ledger;
      return None;
    }
    return Some(listed);
  }

  lemma ForeignChecksum(ledger: map<Text, Text>, ms: seq<Migration>, i: nat)
    requires DistinctVersions(ms) && i < |ms| && ms[i].version in ledger && ledger[ms[i].version] != ms[i].checksum
    ensures !OnlyKnown(ledger, ms)
  {
  }

  /** At most the reviewed version is pending exactly when all the others up to it are recorded. */
  lemma {:induction false} PendingIsReviewed(ledger: map<Text, Text>, ms: seq<Migration>, reviewed: Text)
    requires DistinctVersions(ms)
    ensures forall v :: v in PendingOf(ledger, ms, reviewed) <==>
              v !in ledger && exists i :: 0 <= i < |ms| && ms[i].version == v && !Less(reviewed, v)
    ensures forall i, j | 0 <= i < j < |PendingOf(ledger, ms, reviewed)| ::
              PendingOf(ledger, ms, reviewed)[i] != PendingOf(ledger, ms, reviewed)[j]
  {
    if ms != [] {
      var front, last := ms[..|ms| - 1], ms[|ms| - 1];
      PendingIsReviewed(ledger, front, reviewed);
      assert forall i | 0 <= i < |front| :: front[i] == ms[i] && ms[i].version != last.version;
    }
  }

  /**
   * What the transaction reads besides the ledger. The path of 0020 reads the
   * existing authority before and after, whether the claim table exists and whether
   * only its owner may use it; the path of 0021 reads whether the unpin mutation is
   * granted exactly to credential administration. A failed read is `None` or false.
   */
  datatype Readings =
    | Scoped(before: Option<Text>, claimTable: Option<bool>, privateBefore: bool, after: Option<Text>, privateAfter: bool)
    | Unpin(granted: bool)

  /** What the readings must be, by whether the reviewed version is pending. */
  predicate Admissible(readings: Readings, pending: bool, inspectOnly: bool)
  {
    match readings
    case Scoped(before, claimTable, privateBefore, after, privateAfter) =>
      && before.Some? && claimTable == Some(!pending) && (!pending ==> privateBefore)
      && (inspectOnly || (after == before && privateAfter))
    case Unpin(granted) => granted || (inspectOnly && pending)
  }

  /** Inspect or apply; a commit may be made, lost or refused. */
  method Review(db: Database, ms: seq<Migration>, k: nat, inspectOnly: bool, readings: Readings, fate: Fate)
    returns (ok: bool, after: Database, pending: seq<Text>)
    requires DistinctVersions(ms) && k < |ms| && ms[k].version != FIRST
    ensures ok ==> OnlyKnown(after.ledger, ms) && OnlyReviewedPending(after.ledger, ms, ms[k].version)
    ensures ok && !inspectOnly ==> ms[k].version in after.ledger
    ensures ok && inspectOnly ==> after == db && (pending == [] <==> ms[k].version in db.ledger)
    ensures after == db || (!inspectOnly && ms[k].version !in db.ledger && after == Applied(db, ms[k])
                            && OnlyKnown(db.ledger, ms) && OnlyReviewedPending(db.ledger, ms, ms[k].version)
                            && Admissible(readings, true, false))
    ensures ok <==> && db.ledgerExists
                    && OnlyKnown(db.ledger, ms) && OnlyReviewedPending(db.ledger, ms, ms[k].version)
                    && Admissible(readings, ms[k].version !in db.ledger, inspectOnly)
                    && (inspectOnly || fate.Commits?)
  {
    var reviewed := ms[k].version;
    pending := [];
    if !db.ledgerExists {
      return false, db, pending;
    }
    var proof := ProveLedger(db.ledger, ms, reviewed);
    if proof == None {
      return false, db, pending;
    }
    pending := proof.value;
    OnlyOnePending(db.ledger, ms, k);
    if pending != [] && pending != [reviewed] {
      return false, db, pending;
    }
    if readings.Scoped? {
      if readings.before == None || readings.claimTable == None || readings.claimTable.value != (pending == []) {
        return false, db, pending;
      }
      if readings.claimTable.value && !readings.privateBefore {
        return false, db, pending;
      }
      if inspectOnly {
        return true, db, pending;
      }
    } else if inspectOnly && pending != [] {
      return true, db, pending;
    }
    var working := db;
    if pending != [] && !inspectOnly {
      working := Applied(db, ms[k]);
      AppliedIsKnown(db, ms, k);
    }
    if readings.Scoped? {
      if readings.after != readings.before || !readings.privateAfter {
        return false, db, pending;
      }
    } else {
      if !readings.granted {
        return false, db, pending;
      }
      if inspectOnly {
        return true, db, pending;
      }
    }
    if fate.Contends? || fate.Fails? {
      return false, db, pending;
    }
    return fate.Commits?, working, pending;
  }

  lemma OnlyOnePending(ledger: map<Text, Text>, ms: seq<Migration>, k: nat)
    requires DistinctVersions(ms) && k < |ms|
    ensures var pending := PendingOf(ledger, ms, ms[k].version);
            && (pending == [] || pending == [ms[k].version] <==> OnlyReviewedPending(ledger, ms, ms[k].version))
            && (OnlyReviewedPending(ledger, ms, ms[k].version) ==> (pending == [] <==> ms[k].version in ledger))
  {
    var reviewed := ms[k].version;
    var pending := PendingOf(ledger, ms, reviewed);
    PendingIsReviewed(ledger, ms, reviewed);
    LessTotal(reviewed, reviewed);
    assert reviewed in pending <==> reviewed !in ledger;
    if OnlyReviewedPending(ledger, ms, reviewed) {
      forall i | 0 <= i < |pending|
        ensures pending[i] == reviewed
      {
        assert pending[i] in pending;
      }
      assert pending != [] ==> pending[0] == pending[|pending| - 1];
    } else {
      var i :| 0 <= i < |ms| && !Less(reviewed, ms[i].version) && ms[i].version != reviewed && ms[i].version !in ledger;
      assert ms[i].version in pending;
    }
  }

  lemma AppliedIsKnown(db: Database, ms: seq<Migration>, k: nat)
    requires DistinctVersions(ms) && k < |ms|
    requires OnlyKnown(db.ledger, ms) && OnlyReviewedPending(db.ledger, ms, ms[k].version)
    ensures var after := Applied(db, ms[k]);
            OnlyKnown(after.ledger, ms) && OnlyReviewedPending(after.ledger, ms, ms[k].version)
  {
    var after := Applied(db, ms[k]);
    forall v | v in after.ledger
      ensures exists i :: 0 <= i < |ms| && ms[i].version == v && ms[i].checksum == after.ledger[v]
    {
      if v == ms[k].version {
        assert ms[k].checksum == after.ledger[v];
      }
    }
  }

  /** On an ordered list, the reviewed path keeps the ledger a prefix like the runner does. */
  lemma ReviewKeepsPrefix(db: Database, ms: seq<Migration>, k: nat)
    requires DistinctVersions(ms) && k < |ms| && Consistent(db, ms)
    requires forall i, j | 0 <= i < j < |ms| :: Less(ms[i].version, ms[j].version)
    requires OnlyReviewedPending(db.ledger, ms, ms[k].version) && ms[k].version !in db.ledger
    ensures Consistent(Applied(db, ms[k]), ms)
  {
    forall i | 0 <= i < k
      ensures ms[i].version in db.ledger
    {
      LessTotal(ms[i].version, ms[k].version);
      LessTotal(ms[k].version, ms[i].version);
    }
    RecordedIsInEffect(db, ms, k);
    ApplyKeepsConsistent(db, ms, k);
  }
}
