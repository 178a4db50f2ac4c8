/**
  Several workers sharing one try-lock (app/jobs/tasks.py, `advisory_lock`, `run_scan_cycle`): at
  most one is ever scanning, and unless a death or an exception between a delivery and its commit
  loses the record, nobody hears of a finding twice.
*/
module ScanWorkers {
  import opened Prelude

  type Id = nat

  type Finding = nat

  // ---------- the lock, and what a sweep reports ----------

  class AdvisoryLock {
    var owner: Option<Id>

    method TryAcquire(w: Id) returns (acquired: bool)
      modifies this
      ensures acquired <==> old(owner).None?
      ensures owner == if acquired then Some(w) else old(owner)
    {
      acquired := owner.None?;
      if acquired {
        owner := Some(w);
      }
    }

    method Unlock()
      modifies this
      ensures owner.None?
    {
      owner := None;
    }
  }

  /** What happens when a due target is scanned; the digest is only tried for new matches of a known user. */
  datatype TargetOutcome =
    | ScanCrashed
    | Scanned(failed: bool, newMatches: nat, userKnown: bool, digest: DigestOutcome)

  /** `told` is what went out: all that was covered, or what one channel sent before another crashed. */
  datatype DigestOutcome = Covered(told: set<Finding>) | DigestCrashed(told: set<Finding>)

  datatype Stats = Stats(targets: nat, failed: nat, newMatches: nat, emails: nat)

  const NOTHING := Stats(0, 0, 0, 0)

  predicate Emails(t: TargetOutcome) {
    t.Scanned? && t.newMatches > 0 && t.userKnown && t.digest.Covered? && t.digest.told != {}
  }

  function Count(targets: seq<TargetOutcome>, p: TargetOutcome -> bool): nat {
    if targets == [] then 0
    else Count(targets[..|targets| - 1], p) + (if p(targets[|targets| - 1]) then 1 else 0)
  }

  function NewMatches(targets: seq<TargetOutcome>): nat {
    if targets == [] then 0
    else
      var last := targets[|targets| - 1];
      NewMatches(targets[..|targets| - 1]) + (if last.Scanned? then last.newMatches else 0)
  }

  /** The figures reported for a sweep that got the lock. */
  ghost predicate Reports(s: Stats, targets: seq<TargetOutcome>) {
    && s.targets == Count(targets, (t: TargetOutcome) => t.Scanned?)
    && s.failed == Count(targets, (t: TargetOutcome) => t.ScanCrashed? || t.failed)
    && s.newMatches == NewMatches(targets)
    && s.emails == Count(targets, (t: TargetOutcome) => Emails(t))
  }

  lemma {:induction false} CountsPartition(
    targets: seq<TargetOutcome>, p: TargetOutcome -> bool, q: TargetOutcome -> bool)
    requires forall t :: p(t) <==> !q(t)
    ensures Count(targets, p) + Count(targets, q) == |targets|
    decreases |targets|
  {
    if targets != [] {
      CountsPartition(targets[..|targets| - 1], p, q);
    }
  }

  /** Every target is either scanned or crashed, and every crash is counted as a failure. */
  lemma SweepAccountsForEveryTarget(s: Stats, targets: seq<TargetOutcome>)
    requires Reports(s, targets)
    ensures s.targets + Count(targets, (t: TargetOutcome) => t.ScanCrashed?) == |targets|
    ensures Count(targets, (t: TargetOutcome) => t.ScanCrashed?) <= s.failed
    ensures s.emails <= s.targets
  {
    CountsPartition(targets, (t: TargetOutcome) => t.Scanned?, (t: TargetOutcome) => t.ScanCrashed?);
    CountIsMonotone(targets, (t: TargetOutcome) => t.ScanCrashed?, (t: TargetOutcome) => t.ScanCrashed? || t.failed);
    CountIsMonotone(targets, (t: TargetOutcome) => Emails(t), (t: TargetOutcome) => t.Scanned?);
  }

  lemma {:induction false} CountIsMonotone(
    targets: seq<TargetOutcome>, p: TargetOutcome -> bool, q: TargetOutcome -> bool)
    requires forall t :: p(t) ==> q(t)
    ensures Count(targets, p) <= Count(targets, q)
    decreases |targets|
  {
    if targets != [] {
      CountIsMonotone(targets[..|targets| - 1], p, q);
    }
  }

  // ---------- many workers ----------

  /** `Delivered` is after a digest and before the commit that records it. */
  datatype Phase = Outside | Declined | Holding | Delivered

  /** `pending` is what this worker has told people and not yet committed. */
  datatype Worker = Worker(phase: Phase, pending: set<Finding>)

  /** `recorded` is the committed guard; `sent` counts every notification that went out, by worker. */
  datatype Cluster = Cluster(
    owner: Option<Id>,
    workers: map<Id, Worker>,
    recorded: set<Finding>,
    sent: multiset<(Id, Finding)>)

  datatype Action =
    | TryLock(w: Id)
    | GiveUp(w: Id)
    | ScanCrash(w: Id)
    | ScanAndTell(w: Id, news: set<Finding>)
    | TellAndCrash(w: Id, news: set<Finding>)
    | ScanUntold(w: Id)
    | Commit(w: Id)
    | Release(w: Id)
    | Die(w: Id)

  predicate Enabled(c: Cluster, a: Action) {
    a.w in c.workers &&
    var phase := c.workers[a.w].phase;
    match a
    case TryLock(_) => phase == Outside
    case GiveUp(_) => phase == Declined
    case ScanCrash(_) | ScanAndTell(_, _) | TellAndCrash(_, _) | ScanUntold(_) | Release(_) => phase == Holding
    case Commit(_) => phase == Delivered
    case Die(_) => phase == Holding || phase == Delivered
  }

  function Tagged(w: Id, fs: set<Finding>): multiset<(Id, Finding)> {
    multiset(set f | f in fs :: (w, f))
  }

  function Next(c: Cluster, a: Action): Cluster
    requires Enabled(c, a)
  {
    var w := a.w;
    match a
    case TryLock(_) =>
      if c.owner.None? then c.(owner := Some(w), workers := c.workers[w := Worker(Holding, {})])
      else c.(workers := c.workers[w := Worker(Declined, {})])
    case GiveUp(_) => c.(workers := c.workers[w := Worker(Outside, {})])
    case ScanCrash(_) => c.(workers := c.workers[w := Worker(Holding, {})])
    case ScanAndTell(_, news) =>
      // The digest sends only what is not recorded as told.
      var told := news - c.recorded;
      c.(workers := c.workers[w := Worker(Delivered, told)], sent := c.sent + Tagged(w, told))
    case TellAndCrash(_, news) =>
      // Some channel sent, then an exception left the digest before it marked anything.
      c.(workers := c.workers[w := Worker(Delivered, {})], sent := c.sent + Tagged(w, news - c.recorded))
    case ScanUntold(_) => c.(workers := c.workers[w := Worker(Delivered, {})])
    case Commit(_) => c.(workers := c.workers[w := Worker(Holding, {})], recorded := c.recorded + c.workers[w].pending)
    case Release(_) | Die(_) => c.(owner := None, workers := c.workers[w := Worker(Outside, {})])
  }

  /** What has been told and will never be recorded, because of this action. */
  function LostBy(c: Cluster, a: Action): set<Finding>
    requires Enabled(c, a)
  {
    if a.Die? then c.workers[a.w].pending
    else if a.TellAndCrash? then a.news - c.recorded
    else {}
  }

  predicate AllEnabled(c: Cluster, run: seq<Action>)
    decreases |run|
  {
    run == [] || (Enabled(c, run[0]) && AllEnabled(Next(c, run[0]), run[1..]))
  }

  predicate LosesNothing(c: Cluster, run: seq<Action>)
    requires AllEnabled(c, run)
    decreases |run|
  {
    run == [] || (LostBy(c, run[0]) == {} && LosesNothing(Next(c, run[0]), run[1..]))
  }

  function Run(c: Cluster, run: seq<Action>): Cluster
    requires AllEnabled(c, run)
    decreases |run|
  {
    if run == [] then c else Run(Next(c, run[0]), run[1..])
  }

  /** Any number of workers, none inside, nothing sent yet. */
  predicate Initial(c: Cluster) {
    && c.owner.None? && c.sent == multiset{}
    && forall w :: w in c.workers ==> c.workers[w] == Worker(Outside, {})
  }

  // ---------- one cycle, as one worker runs it ----------

  function ScanAction(w: Id, t: TargetOutcome): Action
    requires t.Scanned?
  {
    if t.newMatches > 0 && t.userKnown then
      match t.digest
      case Covered(told) => ScanAndTell(w, told)
      case DigestCrashed(told) => TellAndCrash(w, told)
    else ScanUntold(w)
  }

  /** What a sweep does inside the lock, target by target; each scanned target is committed by itself. */
  function TargetActions(w: Id, targets: seq<TargetOutcome>): seq<Action> {
    if targets == [] then []
    else
      var last := targets[|targets| - 1];
      TargetActions(w, targets[..|targets| - 1])
      + (if last.ScanCrashed? then [ScanCrash(w)] else [ScanAction(w, last), Commit(w)])
  }

  function Sweep(w: Id, targets: seq<TargetOutcome>): seq<Action> {
    [TryLock(w)] + TargetActions(w, targets) + [Release(w)]
  }

  /** Without the lock: nothing scanned, nothing sent, the holder undisturbed. With it: a full sweep, then release. */
  method RunScanCycle(lock: AdvisoryLock, w: Id, targets: seq<TargetOutcome>)
    returns (stats: Stats, ghost swept: bool, ghost actions: seq<Action>)
    modifies lock
    ensures swept <==> old(lock.owner).None?
    ensures lock.owner == old(lock.owner)
    ensures if swept then Reports(stats, targets) else stats == NOTHING
    ensures actions == if swept then Sweep(w, targets) else [TryLock(w), GiveUp(w)]
  {
    stats := NOTHING;
    var acquired := lock.TryAcquire(w);
    swept, actions := acquired, [TryLock(w)];
    if !acquired {
      actions := actions + [GiveUp(w)];
      return;
    }
    for i := 0 to |targets|
      invariant Reports(stats, targets[..i])
      invariant lock.owner == Some(w)
      invariant actions == [TryLock(w)] + TargetActions(w, targets[..i])
    {
      assert targets[..i + 1][..i] == targets[..i];
      if targets[i].ScanCrashed? {
        actions := actions + [ScanCrash(w)];
        stats := stats.(failed := stats.failed + 1);
        continue;
      }
      stats := stats.(targets := stats.targets + 1);
      if targets[i].failed {
        stats := stats.(failed := stats.failed + 1);
      }
      stats := stats.(newMatches := stats.newMatches + targets[i].newMatches);
      if targets[i].newMatches > 0 && targets[i].userKnown {
        match targets[i].digest
        case Covered(told) =>
          stats := stats.(emails := stats.emails + if told != {} then 1 else 0);
          actions := actions + [ScanAndTell(w, told)];
        case DigestCrashed(told) =>
          actions := actions + [TellAndCrash(w, told)];
      } else {
        actions := actions + [ScanUntold(w)];
      }
      actions := actions + [Commit(w)];
    }
    assert targets[..|targets|] == targets;
    lock.Unlock();
    actions := actions + [Release(w)];
  }

  lemma {:induction false} RunConcat(c: Cluster, xs: seq<Action>, ys: seq<Action>)
    requires AllEnabled(c, xs) && AllEnabled(Run(c, xs), ys)
    ensures AllEnabled(c, xs + ys) && Run(c, xs + ys) == Run(Run(c, xs), ys)
    decreases |xs|
  {
    if xs == [] {
      assert xs + ys == ys;
    } else {
      assert (xs + ys)[1..] == xs[1..] + ys;
      RunConcat(Next(c, xs[0]), xs[1..], ys);
    }
  }

  lemma RunOne(c: Cluster, a: Action)
    requires Enabled(c, a)
    ensures AllEnabled(c, [a]) && Run(c, [a]) == Next(c, a)
  {
    assert [a][1..] == [];
    assert AllEnabled(Next(c, a), []) && Run(Next(c, a), []) == Next(c, a);
  }

  ghost predicate Owns(c: Cluster, w: Id) {
    w in c.workers && c.workers[w] == Worker(Holding, {}) && c.owner == Some(w)
  }

  lemma OneTargetRuns(c: Cluster, w: Id, t: TargetOutcome)
    requires Owns(c, w)
    ensures
      var actions := if t.ScanCrashed? then [ScanCrash(w)] else [ScanAction(w, t), Commit(w)];
      AllEnabled(c, actions) && Owns(Run(c, actions), w)
  {
    if t.ScanCrashed? {
      RunOne(c, ScanCrash(w));
    } else {
      var d := Next(c, ScanAction(w, t));
      RunOne(c, ScanAction(w, t));
      RunOne(d, Commit(w));
      RunConcat(c, [ScanAction(w, t)], [Commit(w)]);
      assert [ScanAction(w, t)] + [Commit(w)] == [ScanAction(w, t), Commit(w)];
    }
  }

  lemma {:induction false} TargetsRun(c: Cluster, w: Id, targets: seq<TargetOutcome>)
    requires Owns(c, w)
    ensures AllEnabled(c, TargetActions(w, targets)) && Owns(Run(c, TargetActions(w, targets)), w)
    decreases |targets|
  {
    if targets != [] {
      var front, last := targets[..|targets| - 1], targets[|targets| - 1];
      var actions := if last.ScanCrashed? then [ScanCrash(w)] else [ScanAction(w, last), Commit(w)];
      TargetsRun(c, w, front);
      OneTargetRuns(Run(c, TargetActions(w, front)), w, last);
      RunConcat(c, TargetActions(w, front), actions);
    }
  }

  /** A whole cycle is a run of the cluster, and leaves the lock as it found it. */
  lemma SweepIsARun(c: Cluster, w: Id, targets: seq<TargetOutcome>)
    requires w in c.workers && c.workers[w] == Worker(Outside, {})
    ensures
      var actions := if c.owner.None? then Sweep(w, targets) else [TryLock(w), GiveUp(w)];
      && AllEnabled(c, actions)
      && Run(c, actions).owner == c.owner
      && w in Run(c, actions).workers && Run(c, actions).workers[w] == Worker(Outside, {})
      && (c.owner.Some? ==> Run(c, actions) == c)
  {
    var d := Next(c, TryLock(w));
    RunOne(c, TryLock(w));
    if c.owner.None? {
      TargetsRun(d, w, targets);
      var e := Run(d, TargetActions(w, targets));
      RunConcat(c, [TryLock(w)], TargetActions(w, targets));
      RunOne(e, Release(w));
      RunConcat(c, [TryLock(w)] + TargetActions(w, targets), [Release(w)]);
    } else {
      RunOne(d, GiveUp(w));
      RunConcat(c, [TryLock(w)], [GiveUp(w)]);
      assert [TryLock(w)] + [GiveUp(w)] == [TryLock(w), GiveUp(w)];
      assert Next(d, GiveUp(w)).workers == c.workers;
    }
  }

  // ---------- mutual exclusion ----------

  predicate Inside(c: Cluster, w: Id) {
    w in c.workers && (c.workers[w].phase == Holding || c.workers[w].phase == Delivered)
  }

  /** The owner, and only the owner, is between acquire and release. */
  ghost predicate LockHolds(c: Cluster) {
    && (forall w :: w in c.workers && Inside(c, w) ==> c.owner == Some(w))
    && (c.owner.Some? ==> Inside(c, c.owner.value))
    && (forall w :: w in c.workers && c.workers[w].pending != {} ==> c.workers[w].phase == Delivered)
  }

  lemma StepKeepsLock(c: Cluster, a: Action)
    requires Enabled(c, a) && LockHolds(c)
    ensures LockHolds(Next(c, a))
  {
  }

  lemma {:induction false} LockHoldsThroughout(c: Cluster, run: seq<Action>)
    requires AllEnabled(c, run) && LockHolds(c)
    ensures LockHolds(Run(c, run))
    decreases |run|
  {
    if run != [] {
      StepKeepsLock(c, run[0]);
      LockHoldsThroughout(Next(c, run[0]), run[1..]);
    }
  }

  /** In every reachable state at most one worker is between acquire and release, deaths included. */
  lemma AtMostOneInside(c: Cluster, run: seq<Action>, v: Id, w: Id)
    requires Initial(c) && AllEnabled(c, run)
    requires Inside(Run(c, run), v) && Inside(Run(c, run), w)
    ensures v == w
  {
    LockHoldsThroughout(c, run);
  }

  /** Only the owner sends, records or gives the lock back; a declined worker can only leave. */
  lemma OnlyTheOwnerActs(c: Cluster, a: Action)
    requires Enabled(c, a) && LockHolds(c)
    ensures Next(c, a).sent != c.sent ==> c.owner == Some(a.w)
    ensures Next(c, a).recorded != c.recorded ==> c.owner == Some(a.w)
    ensures c.owner.Some? && Next(c, a).owner != c.owner ==> c.owner == Some(a.w)
    ensures c.workers[a.w].phase == Declined ==>
      a.GiveUp? && Next(c, a).owner == c.owner && Next(c, a).sent == c.sent && Next(c, a).recorded == c.recorded
  {
  }

  // ---------- nobody hears twice ----------

  /** Everything told is recorded, or about to be by the worker that told it; and told once. */
  ghost predicate ToldOnce(c: Cluster) {
    && LockHolds(c)
    && (forall w, f :: (w, f) in c.sent ==> f in c.recorded || (w in c.workers && f in c.workers[w].pending))
    && (forall w, f :: w in c.workers && f in c.workers[w].pending ==> f !in c.recorded)
    && (forall w, f :: c.sent[(w, f)] <= 1)
    && (forall v, w, f :: (v, f) in c.sent && (w, f) in c.sent ==> v == w)
  }

  lemma TaggedCounts(w: Id, fs: set<Finding>, v: Id, f: Finding)
    ensures Tagged(w, fs)[(v, f)] == if v == w && f in fs then 1 else 0
  {
    var s := set f | f in fs :: (w, f);
    assert (v, f) in s <==> v == w && f in fs;
  }

  /** What the owner is about to tell has not been told by anyone. */
  lemma NewsIsNew(c: Cluster, w: Id, f: Finding, v: Id)
    requires ToldOnce(c) && w in c.workers && c.workers[w].phase == Holding && f !in c.recorded
    ensures (v, f) !in c.sent
  {
    if (v, f) in c.sent {
      assert v in c.workers && f in c.workers[v].pending;
      assert Inside(c, v) && Inside(c, w);
      assert false;
    }
  }

  lemma TellingKeepsToldOnce(c: Cluster, a: Action)
    requires Enabled(c, a) && ToldOnce(c) && a.ScanAndTell?
    ensures ToldOnce(Next(c, a))
  {
    var d, told := Next(c, a), a.news - c.recorded;
    StepKeepsLock(c, a);
    forall v, f ensures d.sent[(v, f)] == c.sent[(v, f)] + (if v == a.w && f in told then 1 else 0) {
      TaggedCounts(a.w, told, v, f);
    }
    forall v: Id, f | f in told ensures (v, f) !in c.sent {
      NewsIsNew(c, a.w, f, v);
    }
    assert c.workers[a.w].pending == {};
  }

  /** A digest that crashes having told only what is already recorded is like one that told nothing. */
  lemma HarmlessCrash(c: Cluster, w: Id, news: set<Finding>)
    requires Enabled(c, TellAndCrash(w, news)) && news <= c.recorded
    ensures Next(c, TellAndCrash(w, news)) == Next(c, ScanUntold(w))
  {
    assert Tagged(w, news - c.recorded) == multiset{};
  }

  lemma SilentStepKeepsToldOnce(c: Cluster, a: Action)
    requires Enabled(c, a) && ToldOnce(c) && !a.ScanAndTell? && !a.TellAndCrash? && LostBy(c, a) == {}
    ensures ToldOnce(Next(c, a))
  {
    StepKeepsLock(c, a);
  }

  lemma StepKeepsToldOnce(c: Cluster, a: Action)
    requires Enabled(c, a) && ToldOnce(c) && LostBy(c, a) == {}
    ensures ToldOnce(Next(c, a))
  {
    if a.ScanAndTell? {
      TellingKeepsToldOnce(c, a);
    } else if a.TellAndCrash? {
      forall f | f in a.news ensures f in c.recorded {
        assert f !in LostBy(c, a);
      }
      HarmlessCrash(c, a.w, a.news);
      SilentStepKeepsToldOnce(c, ScanUntold(a.w));
    } else {
      SilentStepKeepsToldOnce(c, a);
    }
  }

  lemma {:induction false} ToldOnceThroughout(c: Cluster, run: seq<Action>)
    requires AllEnabled(c, run) && LosesNothing(c, run) && ToldOnce(c)
    ensures ToldOnce(Run(c, run))
    decreases |run|
  {
    if run != [] {
      StepKeepsToldOnce(c, run[0]);
      ToldOnceThroughout(Next(c, run[0]), run[1..]);
    }
  }

  /**
    However many workers interleave: if no death or exception loses a record, every finding is sent
    at most once, by one worker.
  */
  lemma NoFindingIsSentTwice(c: Cluster, run: seq<Action>, v: Id, w: Id, f: Finding)
    requires Initial(c) && AllEnabled(c, run) && LosesNothing(c, run)
    ensures Run(c, run).sent[(w, f)] <= 1
    ensures (v, f) in Run(c, run).sent && (w, f) in Run(c, run).sent ==> v == w
  {
    ToldOnceThroughout(c, run);
  }

  /** The guard will stop this finding from being sent again. */
  ghost predicate Guarded(c: Cluster, f: Finding) {
    f in c.recorded || exists w :: w in c.workers && f in c.workers[w].pending
  }

  /** After any step, what has been told is left unguarded exactly when that step lost its record. */
  lemma ExposedIffLost(c: Cluster, a: Action, v: Id, f: Finding)
    requires Enabled(c, a) && ToldOnce(c) && (v, f) in Next(c, a).sent
    ensures !Guarded(Next(c, a), f) <==> f in LostBy(c, a)
  {
    var d := Next(c, a);
    if a.ScanAndTell? || a.TellAndCrash? {
      TaggedCounts(a.w, a.news - c.recorded, v, f);
    }
    if f !in c.recorded {
      if w :| w in c.workers && f in c.workers[w].pending {
        assert Inside(c, w) && c.owner == Some(w);
        if a.w != w {
          assert d.workers[w] == c.workers[w];
        } else if a.Commit? {
          assert f in d.recorded;
        }
      } else if a.ScanAndTell? {
        assert f in d.workers[a.w].pending;
      }
    }
  }

  // ---------- over whole runs ----------

  ghost predicate ToldTwice(c: Cluster, f: Finding) {
    || (exists w: Id :: c.sent[(w, f)] >= 2)
    || (exists v: Id, w: Id :: v != w && (v, f) in c.sent && (w, f) in c.sent)
  }

  ghost predicate Told(c: Cluster, f: Finding) {
    exists w: Id :: (w, f) in c.sent
  }

  /** Told, and nothing stops it from being told again. */
  ghost predicate Exposed(c: Cluster, f: Finding) {
    Told(c, f) && !Guarded(c, f)
  }

  /** What holds whatever is lost: only the owner has anything pending, all of it told and none recorded. */
  ghost predicate Consistent(c: Cluster) {
    && LockHolds(c)
    && (forall w, f :: w in c.workers && f in c.workers[w].pending ==> f !in c.recorded && (w, f) in c.sent)
    && (forall w, f :: (w, f) in c.sent ==> w in c.workers)
  }

  ghost predicate OnceAndGuarded(c: Cluster, f: Finding) {
    !ToldTwice(c, f) && (Told(c, f) ==> Guarded(c, f))
  }

  lemma SentAfter(c: Cluster, a: Action, v: Id, f: Finding)
    requires Enabled(c, a)
    ensures Next(c, a).sent[(v, f)] == c.sent[(v, f)] +
      (if (a.ScanAndTell? || a.TellAndCrash?) && v == a.w && f in a.news - c.recorded then 1 else 0)
  {
    if a.ScanAndTell? || a.TellAndCrash? {
      TaggedCounts(a.w, a.news - c.recorded, v, f);
    }
  }

  /** What a worker has pending after a step: as before, or just told; nothing it has recorded stays pending. */
  lemma PendingAfter(c: Cluster, a: Action, w: Id, f: Finding)
    requires Enabled(c, a) && Consistent(c) && w in c.workers && f in Next(c, a).workers[w].pending
    ensures (a.w != w && f in c.workers[w].pending) || (a.w == w && a.ScanAndTell? && f in a.news - c.recorded)
    ensures f !in Next(c, a).recorded
  {
    if a.w != w {
      assert f in c.workers[w].pending && Inside(c, w) && c.owner == Some(w);
      assert a.Commit? ==> Inside(c, a.w);
    }
  }

  lemma StepKeepsConsistent(c: Cluster, a: Action)
    requires Enabled(c, a) && Consistent(c)
    ensures Consistent(Next(c, a))
  {
    var d := Next(c, a);
    StepKeepsLock(c, a);
    forall w: Id, f: Finding | w in d.workers && f in d.workers[w].pending
      ensures f !in d.recorded && (w, f) in d.sent
    {
      PendingAfter(c, a, w, f);
      SentAfter(c, a, w, f);
    }
    forall w: Id, f: Finding | (w, f) in d.sent ensures w in d.workers {
      SentAfter(c, a, w, f);
    }
  }

  /** What one step does to the guard of a finding. */
  lemma GuardAfter(c: Cluster, a: Action, f: Finding)
    requires Enabled(c, a) && Consistent(c)
    ensures Guarded(Next(c, a), f) <==>
      (Guarded(c, f) && f !in LostBy(c, a)) || (a.ScanAndTell? && f in a.news - c.recorded)
  {
    var d := Next(c, a);
    if w :| w in c.workers && f in c.workers[w].pending {
      assert Inside(c, w) && c.owner == Some(w);
      assert a.w != w ==> d.workers[w] == c.workers[w];
      assert a.w == w && a.Commit? ==> f in d.recorded;
    }
    if a.ScanAndTell? && f in a.news - c.recorded {
      assert f in d.workers[a.w].pending;
    }
    if w :| w in d.workers && f in d.workers[w].pending && a.w != w {
      assert f in c.workers[w].pending;
    }
  }

  lemma UnguardedWhileHeld(c: Cluster, w: Id, f: Finding)
    requires Consistent(c) && w in c.workers && c.workers[w].phase == Holding && f !in c.recorded
    ensures !Guarded(c, f)
  {
    if v :| v in c.workers && f in c.workers[v].pending {
      assert Inside(c, v) && Inside(c, w);
      assert false;
    }
  }

  /** A step that does not lose this finding's record keeps it told once and guarded. */
  lemma StepKeepsOnce(c: Cluster, a: Action, f: Finding)
    requires Enabled(c, a) && Consistent(c) && OnceAndGuarded(c, f) && f !in LostBy(c, a)
    ensures OnceAndGuarded(Next(c, a), f)
  {
    var d := Next(c, a);
    GuardAfter(c, a, f);
    forall v
      ensures d.sent[(v, f)]
           == c.sent[(v, f)] + (if a.ScanAndTell? && v == a.w && f in a.news - c.recorded then 1 else 0)
    {
      SentAfter(c, a, v, f);
    }
    if a.ScanAndTell? && f in a.news - c.recorded {
      UnguardedWhileHeld(c, a.w, f);
      assert forall v :: (v, f) !in c.sent;
    }
  }

  /** A step that loses a finding's record leaves it exposed. */
  lemma LossExposes(c: Cluster, a: Action, f: Finding)
    requires Enabled(c, a) && Consistent(c) && f in LostBy(c, a)
    ensures Exposed(Next(c, a), f)
  {
    GuardAfter(c, a, f);
    SentAfter(c, a, a.w, f);
    assert (a.w, f) in Next(c, a).sent;
    if a.TellAndCrash? {
      UnguardedWhileHeld(c, a.w, f);
    }
  }

  lemma ToldTwiceStays(c: Cluster, a: Action, f: Finding)
    requires Enabled(c, a)
    ensures ToldTwice(c, f) ==> ToldTwice(Next(c, a), f)
    ensures Told(c, f) ==> Told(Next(c, a), f)
    ensures Told(c, f) && a.ScanAndTell? && f in a.news - c.recorded ==> ToldTwice(Next(c, a), f)
  {
    forall v: Id
      ensures Next(c, a).sent[(v, f)] >= c.sent[(v, f)] && ((v, f) in c.sent ==> (v, f) in Next(c, a).sent)
    {
      SentAfter(c, a, v, f);
    }
    if Told(c, f) && a.ScanAndTell? && f in a.news - c.recorded {
      var w: Id :| (w, f) in c.sent;
      SentAfter(c, a, w, f);
      SentAfter(c, a, a.w, f);
      assert (a.w, f) in Next(c, a).sent;
    }
  }

  /** Once exposed, a finding stays exposed until it is told again. */
  lemma ExposedStays(c: Cluster, a: Action, f: Finding)
    requires Enabled(c, a) && Consistent(c) && Exposed(c, f)
    ensures Exposed(Next(c, a), f) || ToldTwice(Next(c, a), f)
  {
    GuardAfter(c, a, f);
    ToldTwiceStays(c, a, f);
  }

  predicate LosesFinding(c: Cluster, run: seq<Action>, f: Finding)
    requires AllEnabled(c, run)
    decreases |run|
  {
    run != [] && (f in LostBy(c, run[0]) || LosesFinding(Next(c, run[0]), run[1..], f))
  }

  lemma {:induction false} OnceThroughout(c: Cluster, run: seq<Action>, f: Finding)
    requires AllEnabled(c, run) && Consistent(c) && OnceAndGuarded(c, f) && !LosesFinding(c, run, f)
    ensures Consistent(Run(c, run)) && OnceAndGuarded(Run(c, run), f)
    decreases |run|
  {
    if run != [] {
      StepKeepsConsistent(c, run[0]);
      StepKeepsOnce(c, run[0], f);
      OnceThroughout(Next(c, run[0]), run[1..], f);
    }
  }

  lemma {:induction false} TroubleStays(c: Cluster, run: seq<Action>, f: Finding)
    requires AllEnabled(c, run) && Consistent(c)
    requires Exposed(c, f) || ToldTwice(c, f) || LosesFinding(c, run, f)
    ensures Consistent(Run(c, run)) && (Exposed(Run(c, run), f) || ToldTwice(Run(c, run), f))
    decreases |run|
  {
    if run != [] {
      var a := run[0];
      StepKeepsConsistent(c, a);
      ToldTwiceStays(c, a, f);
      if Exposed(c, f) {
        ExposedStays(c, a, f);
      }
      if f in LostBy(c, a) {
        LossExposes(c, a, f);
      }
      TroubleStays(Next(c, a), run[1..], f);
    }
  }

  lemma {:induction false} LosesNothingIff(c: Cluster, run: seq<Action>, f: Finding)
    requires AllEnabled(c, run) && LosesNothing(c, run)
    ensures !LosesFinding(c, run, f)
    decreases |run|
  {
    if run != [] {
      LosesNothingIff(Next(c, run[0]), run[1..], f);
    }
  }

  /** The orderly continuation `more` sends the finding a second time. */
  ghost predicate Repeats(c: Cluster, more: seq<Action>, f: Finding) {
    AllEnabled(c, more) && LosesNothing(c, more) && ToldTwice(Run(c, more), f)
  }

  function StepsToScan(p: Phase): nat {
    match p
    case Holding => 0
    case Outside | Delivered => 1
    case Declined => 2
  }

  lemma RepeatsAfter(c: Cluster, a: Action, rest: seq<Action>, f: Finding)
    requires Enabled(c, a) && LostBy(c, a) == {} && Repeats(Next(c, a), rest, f)
    ensures Repeats(c, [a] + rest, f)
  {
    assert ([a] + rest)[1..] == rest;
  }

  lemma ScanRepeats(c: Cluster, w: Id, f: Finding)
    requires w in c.workers && c.workers[w].phase == Holding && Exposed(c, f)
    ensures Repeats(c, [ScanAndTell(w, {f})], f)
  {
    ToldTwiceStays(c, ScanAndTell(w, {f}), f);
    RunOne(c, ScanAndTell(w, {f}));
    assert [ScanAndTell(w, {f})][1..] == [];
    assert LosesNothing(Next(c, ScanAndTell(w, {f})), []);
  }

  /** What a worker that is not scanning yet does next. */
  function Towards(w: Id, p: Phase): Action
    requires p != Holding
  {
    match p
    case Delivered => Commit(w)
    case Outside => TryLock(w)
    case Declined => GiveUp(w)
  }

  lemma TowardsScan(c: Cluster, w: Id, f: Finding)
    requires Consistent(c) && Exposed(c, f) && w in c.workers && c.workers[w].phase != Holding
    requires c.owner.None? || c.owner == Some(w)
    ensures
      var a := Towards(w, c.workers[w].phase);
      && Enabled(c, a) && LostBy(c, a) == {}
      && Consistent(Next(c, a)) && Exposed(Next(c, a), f)
      && w in Next(c, a).workers && (Next(c, a).owner.None? || Next(c, a).owner == Some(w))
      && StepsToScan(Next(c, a).workers[w].phase) < StepsToScan(c.workers[w].phase)
  {
    var a := Towards(w, c.workers[w].phase);
    assert c.owner == Some(w) ==> Inside(c, w);
    StepKeepsConsistent(c, a);
    GuardAfter(c, a, f);
    ToldTwiceStays(c, a, f);
  }

  /** An exposed finding can always be told again, by whoever owns the lock or can take it. */
  lemma {:induction false} ExposedCanRepeat(c: Cluster, w: Id, f: Finding) returns (more: seq<Action>)
    requires Consistent(c) && Exposed(c, f) && w in c.workers
    requires c.owner.None? || c.owner == Some(w)
    ensures Repeats(c, more, f)
    decreases StepsToScan(c.workers[w].phase)
  {
    if c.workers[w].phase == Holding {
      ScanRepeats(c, w, f);
      return [ScanAndTell(w, {f})];
    }
    var a := Towards(w, c.workers[w].phase);
    TowardsScan(c, w, f);
    var rest := ExposedCanRepeat(Next(c, a), w, f);
    RepeatsAfter(c, a, rest, f);
    return [a] + rest;
  }

  lemma SomeoneCanAct(c: Cluster, f: Finding) returns (w: Id)
    requires Consistent(c) && Told(c, f)
    ensures w in c.workers && (c.owner.None? || c.owner == Some(w))
  {
    if c.owner.Some? {
      return c.owner.value;
    }
    var v: Id :| (v, f) in c.sent;
    return v;
  }

  /**
    Whatever has happened so far, deaths and exceptions included: some orderly continuation, which
    loses no record itself, leaves a finding sent twice exactly when the run so far lost its record.
  */
  lemma RepeatableIffLost(c: Cluster, run: seq<Action>, f: Finding)
    requires Initial(c) && AllEnabled(c, run)
    ensures (exists more :: Repeats(Run(c, run), more, f)) <==> LosesFinding(c, run, f)
  {
    var d := Run(c, run);
    if LosesFinding(c, run, f) {
      TroubleStays(c, run, f);
      if ToldTwice(d, f) {
        assert Repeats(d, [], f);
      } else {
        var w := SomeoneCanAct(d, f);
        var more := ExposedCanRepeat(d, w, f);
      }
    } else {
      OnceThroughout(c, run, f);
      forall more | AllEnabled(d, more) && LosesNothing(d, more) ensures !ToldTwice(Run(d, more), f) {
        LosesNothingIff(d, more, f);
        OnceThroughout(d, more, f);
      }
    }
  }

  /** The loss is real: two workers tell the same finding when the first dies before its commit. */
  lemma DeathBeforeCommitRepeats(c: Cluster, v: Id, w: Id, f: Finding)
    requires Initial(c) && v in c.workers && w in c.workers && v != w && f !in c.recorded
    ensures
      var run := [TryLock(v), ScanAndTell(v, {f}), Die(v), TryLock(w), ScanAndTell(w, {f})];
      AllEnabled(c, run) && (v, f) in Run(c, run).sent && (w, f) in Run(c, run).sent
  {
    var run := [TryLock(v), ScanAndTell(v, {f}), Die(v), TryLock(w), ScanAndTell(w, {f})];
    var c1 := Next(c, run[0]);
    var c2 := Next(c1, run[1]);
    var c3 := Next(c2, run[2]);
    var c4 := Next(c3, run[3]);
    var c5 := Next(c4, run[4]);
    TaggedCounts(v, {f}, v, f);
    TaggedCounts(w, {f}, w, f);
    assert {f} - c.recorded == {f};
    var r1, r2, r3, r4 := run[1..], run[1..][1..], run[1..][1..][1..], run[1..][1..][1..][1..];
    assert r1[0] == run[1] && r2[0] == run[2] && r3[0] == run[3] && r4[0] == run[4] && r4[1..] == [];
    assert AllEnabled(c4, r4) && Run(c4, r4) == c5;
    assert AllEnabled(c3, r3) && Run(c3, r3) == c5;
    assert AllEnabled(c2, r2) && Run(c2, r2) == c5;
    assert AllEnabled(c1, r1) && Run(c1, r1) == c5;
  }
}
