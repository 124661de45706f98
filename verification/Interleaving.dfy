/** What the lock and the mailbox guarantee when workers overlap, and what they do not. */
module Interleaving {
  import opened Common
  import opened Mailbox

  // ---------- when what was taken is what was erased ----------

  ghost function Elements(s: seq<JobId>): set<JobId> {
    set j | j in s
  }

  lemma AppendedElements(s: seq<JobId>, j: JobId)
    ensures Elements(s + [j]) == Elements(s) + {j}
  {
  }

  lemma {:induction false} DistinctSize(s: seq<JobId>)
    requires Distinct(s)
    ensures |Elements(s)| == |s|
  {
    if s == [] {
      assert Elements(s) == {};
    } else {
      var front, last := s[..|s| - 1], s[|s| - 1];
      DistinctSize(front);
      AppendedElements(front, last);
      assert s == front + [last];
    }
  }

  /** A worker that clears the cell finds there the job it read: re-reading the cell just before would tell. */
  ghost predicate FaithfulStep(s: State, a: Action) {
    a.Clear? && a.w in s.workers && s.workers[a.w].Holding? ==> s.workers[a.w].seen.job == s.cell.job
  }

  ghost predicate FaithfulRun(s: State, actions: seq<Action>) {
    actions == []
    || var front := actions[..|actions| - 1];
       FaithfulRun(s, front) && FaithfulStep(Exec(s, front), actions[|actions| - 1])
  }

  /** The jobs that workers erased from the cell are the jobs they took, each taken once. */
  ghost predicate Accounted(s: State) {
    Distinct(s.taken) && Elements(s.taken) == s.erased
  }

  /** A job was taken twice, or was taken although a later submission had replaced it. */
  ghost predicate Spoilt(s: State) {
    !Distinct(s.taken) || exists j :: j in s.taken && j in s.overwritten
  }

  lemma SpoiltIsNotAccounted(s: State)
    requires Inv(s) && Spoilt(s)
    ensures !Accounted(s)
  {
    hide Tagged, WorkersTagged, InFlight, FirstJobs;
    if Distinct(s.taken) {
      var j :| j in s.taken && j in s.overwritten;
      assert j in Elements(s.taken) && j !in s.erased;
    }
  }

  lemma SpoiltLasts(s: State, a: Action)
    requires Spoilt(s)
    ensures Spoilt(Next(s, a))
  {
    NextGrows(s, a);
    hide Next;
  }

  lemma TakenOnce(taken: seq<JobId>, j: JobId)
    ensures Distinct(taken + [j]) <==> Distinct(taken) && j !in Elements(taken)
  {
    var all := taken + [j];
    assert all[|taken|] == j && forall i :: 0 <= i < |taken| ==> all[i] == taken[i];
  }

  lemma InTheBooks(s: State, j: JobId)
    requires Inv(s) && j < |s.jobs|
    ensures j in s.overwritten || j in s.erased || s.cell.job == Some(j)
    ensures s.cell.job == Some(j) ==> j !in s.erased
  {
    hide Tagged, WorkersTagged, InFlight;
    assert j in FirstJobs(|s.jobs|);
  }

  /** Clearing a cell that still holds the job keeps the account; clearing any other spoils it. */
  lemma ClearAccounts(s: State, w: WorkerId)
    requires Inv(s) && Accounted(s) && w in s.workers && s.workers[w].Holding?
    ensures if FaithfulStep(s, Clear(w)) then Accounted(AfterClear(s, w)) else Spoilt(AfterClear(s, w))
  {
    assert WorkerTagged(s.pallet, s.jobs, s.workers[w]);
    var j := s.workers[w].seen.job.value;
    InTheBooks(s, j);
    hide HasWork, ClearedBytes, Inv, Elements, Distinct;
    TakenOnce(s.taken, j);
    AppendedElements(s.taken, j);
    assert j in s.taken + [j];
  }

  lemma {:induction false} ReachableAccounted(p: Pallet, expired: Expiry, actions: seq<Action>)
    ensures var s := Exec(Init(p, expired), actions);
            if FaithfulRun(Init(p, expired), actions) then Accounted(s) else Spoilt(s)
  {
    if actions == [] {
      assert Elements([]) == {};
    } else {
      var front, a := actions[..|actions| - 1], actions[|actions| - 1];
      var s := Exec(Init(p, expired), front);
      ReachableAccounted(p, expired, front);
      ReachableInv(p, expired, front);
      if Spoilt(s) {
        SpoiltIsNotAccounted(s);
        SpoiltLasts(s, a);
      } else if a.Clear? && a.w in s.workers && s.workers[a.w].Holding? {
        ClearAccounts(s, a.w);
      } else {
        ElseAccounts(s, a);
      }
    }
  }

  lemma ElseAccounts(s: State, a: Action)
    requires Accounted(s) && !(a.Clear? && a.w in s.workers && s.workers[a.w].Holding?)
    ensures FaithfulStep(s, a) && Accounted(Next(s, a))
  {
    hide HasWork, ClearedBytes, Elements, Distinct;
  }

  /** In every run, the erased jobs are the taken ones, each taken once, exactly when each clear found in the cell
      the job its worker had read; no timing is assumed. The submitted jobs then are those taken, those overwritten
      and the one in the cell. */
  lemma TakenIsErasedExactly(p: Pallet, expired: Expiry, actions: seq<Action>)
    ensures var s := Exec(Init(p, expired), actions);
            && (Accounted(s) <==> FaithfulRun(Init(p, expired), actions))
            && (Accounted(s) ==> |s.jobs| == |s.taken| + |s.overwritten| + |JobsIn(s.cell)|)
  {
    ReachableAccounted(p, expired, actions);
    ReachableInv(p, expired, actions);
    Conservation(p, expired, actions);
    var s := Exec(Init(p, expired), actions);
    hide Exec, Inv, FaithfulRun, Elements, Distinct;
    if Spoilt(s) { SpoiltIsNotAccounted(s); }
    if Accounted(s) { DistinctSize(s.taken); }
  }

  // ---------- serial runs ----------

  /** Nothing but the worker itself, or time, moves between its read and its clear. */
  ghost predicate SerialStep(s: State, a: Action) {
    forall w :: w in s.workers && s.workers[w].Carries()
                ==> a == TryLock(w) || a == Clear(w) || a == Crash(w) || a.Tick? || a.Skip?
  }

  ghost predicate SerialRun(s: State, actions: seq<Action>) {
    actions == []
    || var front := actions[..|actions| - 1];
       SerialRun(s, front) && SerialStep(Exec(s, front), actions[|actions| - 1])
  }

  /** A carried snapshot is still what the cell holds. */
  ghost predicate Undisturbed(s: State) {
    forall w :: w in s.workers && s.workers[w].Carries() ==> s.workers[w].seen == s.cell
  }

  lemma NextKeepsUndisturbed(s: State, a: Action)
    requires Undisturbed(s) && SerialStep(s, a)
    ensures FaithfulStep(s, a) && Undisturbed(Next(s, a))
  {
    hide HasWork, ClearedBytes;
  }

  lemma {:induction false} SerialIsFaithful(p: Pallet, expired: Expiry, actions: seq<Action>)
    requires SerialRun(Init(p, expired), actions)
    ensures FaithfulRun(Init(p, expired), actions) && Undisturbed(Exec(Init(p, expired), actions))
  {
    hide Next, SerialStep, FaithfulStep;
    if actions == [] {
    } else {
      var front := actions[..|actions| - 1];
      SerialIsFaithful(p, expired, front);
      NextKeepsUndisturbed(Exec(Init(p, expired), front), actions[|actions| - 1]);
    }
  }

  /** In a serial run, crashes included: submitted = taken + overwritten + (1 if the cell is occupied), taken =
      delivered + failed + in flight, and no job is taken twice. */
  lemma SerialConservation(p: Pallet, expired: Expiry, actions: seq<Action>)
    requires SerialRun(Init(p, expired), actions)
    ensures var s := Exec(Init(p, expired), actions);
            && |s.jobs| == |s.taken| + |s.overwritten| + |JobsIn(s.cell)|
            && |s.taken| == |s.delivered| + |s.failed| + |InFlight(s.workers)|
            && Distinct(s.taken)
  {
    SerialIsFaithful(p, expired, actions);
    TakenIsErasedExactly(p, expired, actions);
    Conservation(p, expired, actions);
  }

  // ---------- mutual exclusion ----------

  /** No worker holding a guard has let its deadline expire. */
  ghost predicate Timely(s: State) {
    forall w :: w in s.workers && s.workers[w].Guards() ==> !s.expired(s.workers[w].deadline, s.clock)
  }

  ghost predicate TimelyRun(s: State, actions: seq<Action>) {
    Timely(Exec(s, actions)) && (actions == [] || TimelyRun(s, actions[..|actions| - 1]))
  }

  /** The lock entry belongs to `w`: it holds the guard, or crashed while holding it. */
  predicate Owns(w: Worker, deadline: Clock) {
    (w.Guards() && w.deadline == deadline) || w == Crashed(Some(deadline))
  }

  ghost predicate Exclusive(s: State) {
    && (forall w :: w in s.workers && s.workers[w].Guards() ==> s.lock == Some(s.workers[w].deadline))
    && (forall v, w :: v in s.workers && w in s.workers && s.workers[v].Guards() && s.workers[w].Guards() ==> v == w)
    && (s.lock.Some? ==> exists w :: w in s.workers && Owns(s.workers[w], s.lock.value))
  }

  lemma NextKeepsGuardsApart(s: State, a: Action)
    requires Exclusive(s) && Timely(s)
    ensures var t := Next(s, a);
            && (forall w :: w in t.workers && t.workers[w].Guards() ==> t.lock == Some(t.workers[w].deadline))
            && (forall v, w :: v in t.workers && w in t.workers && t.workers[v].Guards() && t.workers[w].Guards()
                               ==> v == w)
  {
    hide HasWork, ClearedBytes, Owns;
  }

  lemma NextKeepsOwner(s: State, a: Action)
    requires Exclusive(s) && Next(s, a).lock.Some?
    ensures var t := Next(s, a); exists w :: w in t.workers && Owns(t.workers[w], t.lock.value)
  {
    hide HasWork, ClearedBytes;
    var t := Next(s, a);
    if t.lock == s.lock {
      var w :| w in s.workers && Owns(s.workers[w], s.lock.value);
      assert w in t.workers && Owns(t.workers[w], t.lock.value);
    } else {
      assert a.TryLock? && Owns(t.workers[a.w], t.lock.value);
    }
  }

  lemma NextKeepsExclusive(s: State, a: Action)
    requires Exclusive(s) && Timely(s)
    ensures Exclusive(Next(s, a))
  {
    NextKeepsGuardsApart(s, a);
    if Next(s, a).lock.Some? { NextKeepsOwner(s, a); }
    hide Next, Owns, Timely;
  }

  lemma {:induction false} ReachableExclusive(p: Pallet, expired: Expiry, actions: seq<Action>)
    requires TimelyRun(Init(p, expired), actions)
    ensures Exclusive(Exec(Init(p, expired), actions))
  {
    hide Next;
    if actions == [] {
    } else {
      ReachableExclusive(p, expired, actions[..|actions| - 1]);
      hide Exclusive, Timely;
      NextKeepsExclusive(Exec(Init(p, expired), actions[..|actions| - 1]), actions[|actions| - 1]);
    }
  }

  /** If every holder is done before its deadline expires, two workers are never both between `try_lock` and guard
      drop; a worker there owns the lock entry; and an entry that is set belongs to such a worker, or to one that
      crashed while holding this very entry. */
  lemma MutualExclusion(p: Pallet, expired: Expiry, actions: seq<Action>)
    requires TimelyRun(Init(p, expired), actions)
    ensures var s := Exec(Init(p, expired), actions);
            && (forall v, w :: v in s.workers && w in s.workers && s.workers[v].Guards() && s.workers[w].Guards()
                               ==> v == w)
            && (forall w :: w in s.workers && s.workers[w].Guards() ==> s.lock == Some(s.workers[w].deadline))
            && (s.lock.Some? ==>
                  exists w :: w in s.workers && ((s.workers[w].Guards() && s.workers[w].deadline == s.lock.value)
                                                 || s.workers[w] == Crashed(s.lock)))
  {
    ReachableExclusive(p, expired, actions);
    var s := Exec(Init(p, expired), actions);
    if s.lock.Some? {
      var w :| w in s.workers && Owns(s.workers[w], s.lock.value);
      assert (s.workers[w].Guards() && s.workers[w].deadline == s.lock.value) || s.workers[w] == Crashed(s.lock);
    }
  }

  // ---------- each job at most once ----------

  /** The job this worker carries has been taken before. */
  ghost predicate Stale(s: State, w: Worker) {
    w.Carries() && JobsIn(w.seen) <= Elements(s.taken)
  }

  ghost predicate Locks(s: State, a: Action) {
    a.TryLock? && a.w in s.workers && s.workers[a.w].HasRead? && s.Acquirable()
  }

  ghost function LateAt(s: State, a: Action): set<WorkerId> {
    if Locks(s, a) && Stale(s, s.workers[a.w]) then {a.w} else {}
  }

  /** The workers whose `try_lock` succeeded when their job had already been taken. */
  ghost function Late(s: State, actions: seq<Action>): set<WorkerId> {
    if actions == [] then {}
    else
      var front := actions[..|actions| - 1];
      Late(s, front) + LateAt(Exec(s, front), actions[|actions| - 1])
  }

  ghost predicate LateClear(s: State, a: Action, late: set<WorkerId>) {
    a.Clear? && a.w in s.workers && s.workers[a.w].Holding? && a.w in late
  }

  /** No worker that locked late goes on to clear the cell. */
  ghost predicate NoLateClear(s: State, actions: seq<Action>) {
    actions == []
    || var front := actions[..|actions| - 1];
       NoLateClear(s, front) && !LateClear(Exec(s, front), actions[|actions| - 1], Late(s, front))
  }

  /** Of the workers holding the lock, the late ones are those whose job has been taken. */
  ghost predicate LateInv(s: State, late: set<WorkerId>) {
    && (forall w :: w in late ==> w in s.workers && !s.workers[w].HasRead?)
    && (forall w :: w in s.workers && s.workers[w].Holding? ==> (w in late <==> Stale(s, s.workers[w])))
  }

  lemma ElseTakesNothing(s: State, a: Action)
    requires !(a.Clear? && a.w in s.workers && s.workers[a.w].Holding?)
    ensures Next(s, a).taken == s.taken
  {
    hide HasWork, ClearedBytes;
  }

  /** With nothing more taken, staleness stays as it was, and only a late lock adds to the late holders. */
  lemma ElseKeepsLate(s: State, a: Action, late: set<WorkerId>)
    requires LateInv(s, late) && Next(s, a).taken == s.taken
    ensures LateInv(Next(s, a), late + LateAt(s, a))
  {
    hide HasWork, ClearedBytes, Elements;
  }

  lemma NextKeepsLate(s: State, a: Action, late: set<WorkerId>)
    requires Exclusive(s) && LateInv(s, late)
    ensures LateInv(Next(s, a), late + LateAt(s, a))
  {
    if a.Clear? && a.w in s.workers && s.workers[a.w].Holding? {
      hide HasWork, ClearedBytes, Stale, Owns;
      assert forall v :: v in Next(s, a).workers ==> !Next(s, a).workers[v].Holding?;
    } else {
      hide Next, LateInv, Exclusive;
      ElseTakesNothing(s, a);
      ElseKeepsLate(s, a, late);
    }
  }

  lemma ClearRepeatsWhenStale(s: State, w: WorkerId)
    requires Inv(s) && w in s.workers && s.workers[w].Holding?
    ensures Distinct(AfterClear(s, w).taken) <==> Distinct(s.taken) && !Stale(s, s.workers[w])
  {
    hide HasWork, ClearedBytes, Books, InFlight, Elements, Distinct;
    assert WorkerTagged(s.pallet, s.jobs, s.workers[w]);
    TakenOnce(s.taken, s.workers[w].seen.job.value);
  }

  lemma {:induction false} ReachableLate(p: Pallet, expired: Expiry, actions: seq<Action>)
    requires TimelyRun(Init(p, expired), actions)
    ensures LateInv(Exec(Init(p, expired), actions), Late(Init(p, expired), actions))
    ensures Distinct(Exec(Init(p, expired), actions).taken) <==> NoLateClear(Init(p, expired), actions)
  {
    hide Inv, Exclusive, Timely, LateAt, Stale, Distinct;
    if actions == [] {
      assert Distinct<JobId>([]) by { EmptyIsDistinct(); }
    } else {
      var front, a := actions[..|actions| - 1], actions[|actions| - 1];
      var s := Exec(Init(p, expired), front);
      ReachableLate(p, expired, front);
      ReachableInv(p, expired, front);
      ReachableExclusive(p, expired, front);
      NextKeepsLate(s, a, Late(Init(p, expired), front));
      if a.Clear? && a.w in s.workers && s.workers[a.w].Holding? {
        ClearRepeatsWhenStale(s, a.w);
      } else {
        ElseTakesNothing(s, a);
      }
    }
  }

  lemma EmptyIsDistinct()
    ensures Distinct<JobId>([])
  {
  }

  /** With timely holders no job is taken twice exactly when no worker clears the cell after locking it for a job
      that had been taken by then, whatever crashes, overlaps and is submitted. */
  lemma AtMostOnceExactly(p: Pallet, expired: Expiry, actions: seq<Action>)
    requires TimelyRun(Init(p, expired), actions)
    ensures Distinct(Exec(Init(p, expired), actions).taken) <==> NoLateClear(Init(p, expired), actions)
  {
    ReachableLate(p, expired, actions);
  }

  /** No worker that locked late clears the cell while carrying `j`. */
  ghost predicate NoLateClearOf(s: State, actions: seq<Action>, j: JobId) {
    actions == []
    || var front, a := actions[..|actions| - 1], actions[|actions| - 1];
       && NoLateClearOf(s, front, j)
       && (LateClear(Exec(s, front), a, Late(s, front)) ==> Exec(s, front).workers[a.w].seen.job != Some(j))
  }

  lemma ClearCounts(s: State, w: WorkerId, j: JobId)
    requires Inv(s) && w in s.workers && s.workers[w].Holding?
    ensures multiset(AfterClear(s, w).taken)[j]
            == multiset(s.taken)[j] + if s.workers[w].seen.job == Some(j) then 1 else 0
    ensures s.workers[w].seen.job == Some(j) ==> (Stale(s, s.workers[w]) <==> multiset(s.taken)[j] > 0)
  {
    hide HasWork, ClearedBytes, Inv;
    ListedCount(s.taken, s.workers[w].seen, j);
  }

  /** The same for one job, whatever happens to the others: with timely holders it is taken at most once exactly when
      no worker carrying it clears the cell after locking late. */
  lemma {:induction false} JobAtMostOnceExactly(p: Pallet, expired: Expiry, actions: seq<Action>, j: JobId)
    requires TimelyRun(Init(p, expired), actions)
    ensures multiset(Exec(Init(p, expired), actions).taken)[j] <= 1 <==> NoLateClearOf(Init(p, expired), actions, j)
  {
    hide Inv, Timely, Stale;
    if actions == [] {
    } else {
      var front, a := actions[..|actions| - 1], actions[|actions| - 1];
      var s := Exec(Init(p, expired), front);
      JobAtMostOnceExactly(p, expired, front, j);
      ReachableInv(p, expired, front);
      ReachableLate(p, expired, front);
      if a.Clear? && a.w in s.workers && s.workers[a.w].Holding? {
        hide AfterClear;
        ClearCounts(s, a.w, j);
      } else {
        hide Next;
        ElseTakesNothing(s, a);
      }
    }
  }

  /** A worker that locks late would see it by looking at the cell again under the lock: its job is gone. */
  lemma LateLockFindsAnotherCell(p: Pallet, expired: Expiry, actions: seq<Action>, a: Action)
    ensures var s := Exec(Init(p, expired), actions);
            LateAt(s, a) != {} ==> a.TryLock? && a.w in s.workers && s.workers[a.w].HasRead?
                                   && s.workers[a.w].seen.job != s.cell.job
  {
    ReachableInv(p, expired, actions);
    var s := Exec(Init(p, expired), actions);
    hide Exec, HasWork, InFlight, FirstJobs;
    if LateAt(s, a) != {} {
      assert WorkerTagged(s.pallet, s.jobs, s.workers[a.w]);
      var j := s.workers[a.w].seen.job.value;
      assert j in JobsIn(s.workers[a.w].seen) && j in s.taken;
    }
  }

  /** A successful `try_lock` by a worker that read the cell while the lock was in its present tenure: no release
      and no expiry in between. */
  ghost predicate FreshStep(s: State, a: Action) {
    Locks(s, a) ==> s.workers[a.w].breaks == s.breaks
  }

  ghost predicate FreshRun(s: State, actions: seq<Action>) {
    actions == []
    || var front := actions[..|actions| - 1];
       FreshRun(s, front) && FreshStep(Exec(s, front), actions[|actions| - 1])
  }

  /** In the tenure it was made in, a snapshot of a job already taken cannot lead to the lock. */
  ghost predicate Barred(s: State, w: Worker) {
    w.HasRead? ==> w.breaks <= s.breaks && (w.breaks == s.breaks && Stale(s, w) ==> !s.Acquirable())
  }

  ghost predicate AllBarred(s: State) {
    forall w :: w in s.workers ==> Barred(s, s.workers[w])
  }

  lemma ClearBars(s: State, w: WorkerId)
    requires AllBarred(s) && Exclusive(s) && Timely(s) && w in s.workers && s.workers[w].Holding?
    ensures AllBarred(AfterClear(s, w))
  {
    hide HasWork, ClearedBytes, Stale;
    var t := AfterClear(s, w);
    assert !t.Acquirable();
    forall v | v in t.workers ensures Barred(t, t.workers[v]) {
      assert v in s.workers && Barred(s, s.workers[v]);
    }
  }

  lemma ReadBars(s: State, w: WorkerId)
    requires Inv(s) && AllBarred(s) && w !in s.workers
    ensures AllBarred(AfterRead(s, w))
  {
    hide HasWork, InFlight;
    var t := AfterRead(s, w);
    if t.workers[w].HasRead? {
      assert s.cell.job.Some?;
      assert s.cell.job.value in JobsIn(s.cell) && s.cell.job.value !in s.taken;
    }
    forall v | v in t.workers ensures Barred(t, t.workers[v]) {
      if v != w { assert Barred(s, s.workers[v]); }
    }
  }

  lemma ElseBars(s: State, a: Action)
    requires AllBarred(s) && FreshStep(s, a) && !a.Clear? && !a.Read?
    ensures AllBarred(Next(s, a))
  {
    hide HasWork, Elements;
    var t := Next(s, a);
    forall v | v in t.workers ensures Barred(t, t.workers[v]) {
      assert v in s.workers && Barred(s, s.workers[v]);
    }
  }

  lemma NextKeepsBarred(s: State, a: Action)
    requires Inv(s) && AllBarred(s) && Exclusive(s) && Timely(s) && FreshStep(s, a)
    ensures AllBarred(Next(s, a)) && LateAt(s, a) == {}
  {
    hide Inv, Exclusive, Timely, Stale;
    if Locks(s, a) { assert Barred(s, s.workers[a.w]); }
    hide AllBarred;
    if a.Clear? {
      if a.w in s.workers && s.workers[a.w].Holding? { ClearBars(s, a.w); }
    } else if a.Read? {
      if a.w !in s.workers { ReadBars(s, a.w); }
    } else {
      ElseBars(s, a);
    }
  }

  lemma {:induction false} FreshLocksAreNotLate(p: Pallet, expired: Expiry, actions: seq<Action>)
    requires TimelyRun(Init(p, expired), actions) && FreshRun(Init(p, expired), actions)
    ensures AllBarred(Exec(Init(p, expired), actions))
    ensures Late(Init(p, expired), actions) == {} && NoLateClear(Init(p, expired), actions)
  {
    hide Inv, Exclusive, Timely, FreshStep, LateAt, Next, Barred;
    if actions == [] {
    } else {
      var front, a := actions[..|actions| - 1], actions[|actions| - 1];
      FreshLocksAreNotLate(p, expired, front);
      ReachableInv(p, expired, front);
      ReachableExclusive(p, expired, front);
      hide AllBarred;
      NextKeepsBarred(Exec(Init(p, expired), front), a);
    }
  }

  /** So it is enough that no release or expiry of the lock falls between a worker's read and its `try_lock`. */
  lemma AtMostOnce(p: Pallet, expired: Expiry, actions: seq<Action>)
    requires TimelyRun(Init(p, expired), actions) && FreshRun(Init(p, expired), actions)
    ensures Distinct(Exec(Init(p, expired), actions).taken)
  {
    FreshLocksAreNotLate(p, expired, actions);
    AtMostOnceExactly(p, expired, actions);
  }

  // ---------- at most as often as it was read ----------

  predicate CarriesJob(w: Worker, j: JobId) {
    w.Carries() && w.seen.job == Some(j)
  }

  ghost function Carriers(workers: map<WorkerId, Worker>, j: JobId): set<WorkerId> {
    set w | w in workers && CarriesJob(workers[w], j)
  }

  ghost predicate ReadBound(s: State, j: JobId) {
    multiset(s.taken)[j] + |Carriers(s.workers, j)| <= multiset(s.snapshots)[j]
  }

  lemma CarriersChange(workers: map<WorkerId, Worker>, w: WorkerId, now: Worker, j: JobId)
    ensures |Carriers(workers[w := now], j)|
            == |Carriers(workers, j)| + (if CarriesJob(now, j) then 1 else 0)
               - (if w in workers && CarriesJob(workers[w], j) then 1 else 0)
  {
    hide CarriesJob;
    var rest := Carriers(workers, j) - {w};
    assert Carriers(workers[w := now], j) == if CarriesJob(now, j) then rest + {w} else rest;
    assert Carriers(workers, j) == if w in workers && CarriesJob(workers[w], j) then rest + {w} else rest;
  }

  lemma ListedCount(s: seq<JobId>, c: Cell, j: JobId)
    ensures multiset(s + Listed(c))[j] == multiset(s)[j] + if c.job == Some(j) then 1 else 0
  {
  }

  lemma NextKeepsReadBound(s: State, a: Action, j: JobId)
    requires ReadBound(s, j)
    ensures ReadBound(Next(s, a), j)
  {
    hide HasWork, ClearedBytes, Carriers, Listed;
    var t := Next(s, a);
    if !a.Submit? && !a.Tick? && !a.Skip? && t != s {
      CarriersChange(s.workers, a.w, t.workers[a.w], j);
      ListedCount(s.snapshots, s.cell, j);
      if a.w in s.workers && s.workers[a.w].Holding? {
        ListedCount(s.taken, s.workers[a.w].seen, j);
      }
    }
  }

  /** With no hypothesis at all: a job is taken at most as often as workers snapshotted it. */
  lemma {:induction false} TakenAtMostAsRead(p: Pallet, expired: Expiry, actions: seq<Action>, j: JobId)
    ensures var s := Exec(Init(p, expired), actions);
            multiset(s.taken)[j] <= multiset(s.snapshots)[j] && ReadBound(s, j)
  {
    hide Next;
    if actions == [] {
      assert Carriers(map[], j) == {};
    } else {
      TakenAtMostAsRead(p, expired, actions[..|actions| - 1], j);
      NextKeepsReadBound(Exec(Init(p, expired), actions[..|actions| - 1]), actions[|actions| - 1], j);
    }
  }

  // ---------- each taken job ends once ----------

  predicate FliesWith(w: Worker, j: JobId) {
    w.Cleared? && w.seen.job == Some(j)
  }

  ghost function FlightOf(workers: map<WorkerId, Worker>, j: JobId): set<WorkerId> {
    set w | w in workers && FliesWith(workers[w], j)
  }

  ghost predicate EndsBalance(s: State, j: JobId) {
    multiset(s.taken)[j] == multiset(s.delivered)[j] + multiset(s.failed)[j] + |FlightOf(s.workers, j)|
  }

  lemma FlightOfChanges(workers: map<WorkerId, Worker>, w: WorkerId, now: Worker, j: JobId)
    ensures |FlightOf(workers[w := now], j)|
            == |FlightOf(workers, j)| + (if FliesWith(now, j) then 1 else 0)
               - (if w in workers && FliesWith(workers[w], j) then 1 else 0)
  {
    hide FliesWith;
    var rest := FlightOf(workers, j) - {w};
    assert FlightOf(workers[w := now], j) == if FliesWith(now, j) then rest + {w} else rest;
    assert FlightOf(workers, j) == if w in workers && FliesWith(workers[w], j) then rest + {w} else rest;
  }

  /** A worker's job enters flight when it is taken, and leaves it for one of the two ends. */
  lemma WorkerStepBalances(s: State, t: State, w: WorkerId, seen: Cell, j: JobId)
    requires EndsBalance(s, j) && w in s.workers && w in t.workers && t.workers == s.workers[w := t.workers[w]]
    requires (s.workers[w].Holding? || s.workers[w].Cleared?) && s.workers[w].seen == seen
    requires t.workers[w].Cleared? ==> t.workers[w].seen == seen
    requires var enters := !s.workers[w].Cleared? && t.workers[w].Cleared?;
             var leaves := s.workers[w].Cleared? && !t.workers[w].Cleared?;
             && t.taken == (if enters then s.taken + Listed(seen) else s.taken)
             && (if leaves && t.delivered != s.delivered
                 then t.delivered == s.delivered + Listed(seen) && t.failed == s.failed
                 else && t.delivered == s.delivered
                      && t.failed == if leaves then s.failed + Listed(seen) else s.failed)
    ensures EndsBalance(t, j)
  {
    hide FlightOf, Listed;
    FlightOfChanges(s.workers, w, t.workers[w], j);
    ListedCount(s.taken, seen, j);
    ListedCount(s.delivered, seen, j);
    ListedCount(s.failed, seen, j);
  }

  lemma NextKeepsEnds(s: State, a: Action, j: JobId)
    requires EndsBalance(s, j)
    ensures EndsBalance(Next(s, a), j)
  {
    hide HasWork, ClearedBytes, FlightOf;
    var t := Next(s, a);
    if !a.Submit? && !a.Tick? && !a.Skip? && t != s {
      if a.w in s.workers && (s.workers[a.w].Holding? || s.workers[a.w].Cleared?) {
        hide EndsBalance;
        WorkerStepBalances(s, t, a.w, s.workers[a.w].seen, j);
      } else {
        FlightOfChanges(s.workers, a.w, t.workers[a.w], j);
      }
    }
  }

  /** In every run and for each job: the times it was taken are the times it was delivered, the times it failed and
      the workers whose calls for it still run. So a job not taken twice is not delivered twice, and not both
      delivered and failed. */
  lemma {:induction false} EachTakeEndsOnce(p: Pallet, expired: Expiry, actions: seq<Action>, j: JobId)
    ensures var s := Exec(Init(p, expired), actions);
            EndsBalance(s, j) && (multiset(s.taken)[j] <= 1 ==> multiset(s.delivered)[j] + multiset(s.failed)[j] <= 1)
  {
    hide Next;
    if actions == [] {
      assert FlightOf(map[], j) == {};
    } else {
      EachTakeEndsOnce(p, expired, actions[..|actions| - 1], j);
      NextKeepsEnds(Exec(Init(p, expired), actions[..|actions| - 1]), actions[|actions| - 1], j);
    }
  }

  // ---------- the hypotheses are needed ----------

  function Never(deadline: Clock, now: Clock): bool {
    false
  }

  /** Expired once both the time and the block of the deadline have passed. */
  function Passed(deadline: Clock, now: Clock): bool {
    now.millis > deadline.millis && now.block > deadline.block
  }

  /** One more step of a concrete run. */
  lemma Extend(s0: State, run: seq<Action>, s: State, a: Action) returns (longer: seq<Action>, t: State)
    requires Exec(s0, run) == s
    ensures longer == run + [a] && t == Next(s, a) && Exec(s0, longer) == t
  {
    hide Next;
    longer, t := run + [a], Next(s, a);
    assert longer[..|run|] == run;
  }

  /** Every lock so far was taken in the tenure it was seen in, and none late. */
  ghost predicate Calm(s0: State, run: seq<Action>) {
    FreshRun(s0, run) && NoLateClear(s0, run) && Late(s0, run) == {}
  }

  lemma StaysCalm(s0: State, run: seq<Action>, a: Action)
    requires Calm(s0, run)
    requires var s := Exec(s0, run); Locks(s, a) ==> s.workers[a.w].breaks == s.breaks && !Stale(s, s.workers[a.w])
    ensures Calm(s0, run + [a])
  {
    hide Exec, Stale, Next;
    assert (run + [a])[..|run|] == run;
  }

  lemma NextKeepsExpiry(s: State, a: Action)
    ensures Next(s, a).expired == s.expired
  {
  }

  lemma {:induction false} NeverExpires(p: Pallet, actions: seq<Action>)
    ensures Exec(Init(p, Never), actions).expired == Never
    ensures TimelyRun(Init(p, Never), actions)
  {
    hide Next;
    if actions == [] {
    } else {
      NeverExpires(p, actions[..|actions| - 1]);
      NextKeepsExpiry(Exec(Init(p, Never), actions[..|actions| - 1]), actions[|actions| - 1]);
    }
  }

  lemma TwiceIsNotDistinct(j: JobId)
    ensures !Distinct([j, j])
  {
    var s := [j, j];
    assert s[0] == s[1];
  }

  /** A run in which two workers read one job, and the first of them processes it before the second tries the lock. */
  lemma FirstOfTwoDone(p: Pallet, job: Bytes) returns (run: seq<Action>, s: State)
    requires HasWork(p, Some(job))
    ensures s == Exec(Init(p, Never), run) && s.taken == [0] && s.lock == None
    ensures 1 in s.workers && s.workers[1].HasRead? && s.workers[1].seen.job == Some(0)
  {
    hide HasWork, ClearedBytes;
    var s0 := Init(p, Never);
    s, run := s0, [];
    run, s := Extend(s0, run, s, Submit(job));
    run, s := Extend(s0, run, s, Read(0));
    run, s := Extend(s0, run, s, Read(1));
    assert s.workers[0].HasRead? && s.workers[1].HasRead? && s.lock == None && s.taken == [];
    assert s.workers[0].seen.job == Some(0) && s.workers[1].seen.job == Some(0);
    run, s := Extend(s0, run, s, TryLock(0));
    run, s := Extend(s0, run, s, Clear(0));
    assert s.workers[0].Cleared? && s.workers[1].HasRead? && s.taken == [0];
    run, s := Extend(s0, run, s, Finish(0, true));
    run, s := Extend(s0, run, s, Release(0));
  }

  /** The read is outside the lock: two workers that both read before the first takes the lock process the same
      job one after the other, with every holder timely. */
  lemma ReadOutsideLockRepeatsJob(p: Pallet, job: Bytes) returns (run: seq<Action>)
    requires HasWork(p, Some(job))
    ensures TimelyRun(Init(p, Never), run)
    ensures Exec(Init(p, Never), run).taken == [0, 0] && !NoLateClear(Init(p, Never), run)
  {
    var s0, s := Init(p, Never), Init(p, Never);
    run, s := FirstOfTwoDone(p, job);
    hide HasWork, ClearedBytes, TimelyRun, NoLateClear, Distinct;
    run, s := Extend(s0, run, s, TryLock(1));
    run, s := Extend(s0, run, s, Clear(1));
    NeverExpires(p, run);
    TwiceIsNotDistinct(0);
    AtMostOnceExactly(p, Never, run);
  }

  lemma NothingIsStaleYet(s: State, w: Worker)
    requires s.taken == [] && w.Carries() && w.seen.job.Some?
    ensures !Stale(s, w)
  {
    assert w.seen.job.value in JobsIn(w.seen);
  }

  /** A run after which one worker holds the lock for the one job. */
  lemma OneHolds(p: Pallet, job: Bytes) returns (run: seq<Action>, s: State)
    requires HasWork(p, Some(job))
    ensures s == Exec(Init(p, Passed), run) && s.pallet == p && s.expired == Passed && s.taken == []
    ensures s.clock == Clock(0, 0) && s.cell == Cell(Some(job), Some(0))
    ensures 0 in s.workers && 1 !in s.workers && s.workers[0] == Holding(s.cell, DeadlineFrom(s.clock))
    ensures s.lock == Some(DeadlineFrom(s.clock))
    ensures Calm(Init(p, Passed), run)
  {
    var s0 := Init(p, Passed);
    s, run := s0, [];
    assert Calm(s0, run);
    hide HasWork, Calm, Stale;
    var a := Submit(job);
    StaysCalm(s0, run, a);
    run, s := Extend(s0, run, s, a);
    a := Read(0);
    StaysCalm(s0, run, a);
    run, s := Extend(s0, run, s, a);
    a := TryLock(0);
    NothingIsStaleYet(s, s.workers[0]);
    StaysCalm(s0, run, a);
    run, s := Extend(s0, run, s, a);
  }

  /** Then the deadline of that lock passes. */
  lemma OneHoldsLapsed(p: Pallet, job: Bytes) returns (run: seq<Action>, s: State)
    requires HasWork(p, Some(job))
    ensures s == Exec(Init(p, Passed), run) && s.pallet == p && s.expired == Passed && s.taken == []
    ensures s.cell == Cell(Some(job), Some(0)) && s.Acquirable()
    ensures 0 in s.workers && 1 !in s.workers && s.workers[0].Holding? && s.workers[0].seen.job == Some(0)
    ensures s.expired(s.workers[0].deadline, s.clock)
    ensures Calm(Init(p, Passed), run)
  {
    run, s := OneHolds(p, job);
    hide HasWork, Calm, Stale;
    var s0, a := Init(p, Passed), Tick(Clock(LOCK_TIMEOUT_EXPIRATION + 1, LOCK_BLOCK_EXPIRATION + 1));
    StaysCalm(s0, run, a);
    run, s := Extend(s0, run, s, a);
  }

  /** And a second worker reads the same job and takes the lapsed lock over. */
  lemma TwoHoldOneJob(p: Pallet, job: Bytes) returns (run: seq<Action>, s: State)
    requires HasWork(p, Some(job))
    ensures s == Exec(Init(p, Passed), run) && s.taken == [] && s.expired == Passed
    ensures 0 in s.workers && s.workers[0].Holding? && s.workers[0].seen.job == Some(0)
    ensures 1 in s.workers && s.workers[1].Holding? && s.workers[1].seen.job == Some(0)
    ensures s.expired(s.workers[0].deadline, s.clock)
    ensures Calm(Init(p, Passed), run)
  {
    run, s := OneHoldsLapsed(p, job);
    hide HasWork, Calm, Stale, Passed;
    var s0, a := Init(p, Passed), Read(1);
    StaysCalm(s0, run, a);
    run, s := Extend(s0, run, s, a);
    a := TryLock(1);
    NothingIsStaleYet(s, s.workers[1]);
    StaysCalm(s0, run, a);
    run, s := Extend(s0, run, s, a);
  }

  /** Without timely holders neither condition helps: the lock of a slow worker lapses before it clears the cell, a
      second worker then reads the same job and takes the lock over, and both process it, although no release or
      expiry fell between either read and its lock, and neither locked late. */
  lemma StaleLockRepeatsJob(p: Pallet, job: Bytes) returns (run: seq<Action>)
    requires HasWork(p, Some(job))
    ensures FreshRun(Init(p, Passed), run) && NoLateClear(Init(p, Passed), run) && !TimelyRun(Init(p, Passed), run)
    ensures Exec(Init(p, Passed), run).taken == [0, 0]
  {
    var s0, s := Init(p, Passed), Init(p, Passed);
    run, s := TwoHoldOneJob(p, job);
    NotTimelyAtEnd(s0, run, 0);
    hide HasWork, ClearedBytes, TimelyRun, FreshRun, NoLateClear, Late;
    var first, a := run, Clear(0);
    StaysCalm(s0, run, a);
    run, s := Extend(s0, run, s, a);
    NotTimelyBefore(s0, first, a);
    first, a := run, Clear(1);
    StaysCalm(s0, run, a);
    run, s := Extend(s0, run, s, a);
    NotTimelyBefore(s0, first, a);
  }

  lemma NotTimelyAtEnd(s0: State, run: seq<Action>, w: WorkerId)
    requires var s := Exec(s0, run);
             w in s.workers && s.workers[w].Guards() && s.expired(s.workers[w].deadline, s.clock)
    ensures !TimelyRun(s0, run)
  {
  }

  lemma NotTimelyBefore(s0: State, run: seq<Action>, a: Action)
    requires !TimelyRun(s0, run)
    ensures !TimelyRun(s0, run + [a])
  {
    assert (run + [a])[..|run|] == run;
  }

  /** A job submitted between a worker's read and its clear is erased without any worker having read it, though
      every holder is timely and no job is taken twice. */
  lemma OverlappingSubmitIsLost(p: Pallet, job: Bytes) returns (run: seq<Action>)
    requires HasWork(p, Some(job))
    ensures TimelyRun(Init(p, Never), run) && NoLateClear(Init(p, Never), run) && !FaithfulRun(Init(p, Never), run)
    ensures var s := Exec(Init(p, Never), run);
            |s.jobs| == 2 && 1 in s.erased && 1 !in s.snapshots && s.taken == [0] && JobsIn(s.cell) == {}
  {
    var s0, s := Init(p, Never), Init(p, Never);
    run := [];
    hide HasWork, ClearedBytes, TimelyRun, FaithfulRun, NoLateClear;
    run, s := Extend(s0, run, s, Submit(job));
    run, s := Extend(s0, run, s, Read(0));
    run, s := Extend(s0, run, s, Submit(job));
    run, s := Extend(s0, run, s, TryLock(0));
    run, s := Extend(s0, run, s, Clear(0));
    NeverExpires(p, run);
    assert Distinct([0]) && 1 !in Elements(s.taken);
    TakenIsErasedExactly(p, Never, run);
    AtMostOnceExactly(p, Never, run);
  }
}
