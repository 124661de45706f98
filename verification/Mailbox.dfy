/** One pallet's off-chain mailbox: a cell, an expiring lock, and workers whose steps interleave freely. Both
    pallets run the same `process_if_needed`; only the record in the cell differs. */
module Mailbox {
  import opened Common
  import IndexingData

  type WorkerId = nat
  type JobId = nat

  datatype Pallet = OcwCircuits | OcwGarble

  predicate HasWork(p: Pallet, cell: Option<Bytes>) {
    match p
    case OcwCircuits => IndexingData.ReadCircuits(cell).blockNumber != 0
    case OcwGarble => IndexingData.ReadGarble(cell).blockNumber != 0
  }

  /** What a worker leaves in the cell when it takes a job: the encoded default record. */
  function ClearedBytes(p: Pallet): Bytes {
    match p
    case OcwCircuits => IndexingData.EncodeCircuits(IndexingData.CIRCUITS_DEFAULT)
    case OcwGarble => IndexingData.EncodeGarble(IndexingData.GARBLE_DEFAULT)
  }

  lemma ClearedHasNoWork(p: Pallet)
    ensures !HasWork(p, Some(ClearedBytes(p))) && !HasWork(p, None)
  {
    IndexingData.GarbleReadsBack(IndexingData.GARBLE_DEFAULT);
    IndexingData.CircuitsReadsBack(IndexingData.CIRCUITS_DEFAULT);
  }

  predicate Zeros(s: Bytes, n: nat) {
    |s| == n && forall k :: 0 <= k < n ==> s[k] == 0
  }

  /** A cleared cell is six zero bytes for a circuits record, eleven for a garble record. */
  lemma ClearedIsZeros(p: Pallet)
    ensures Zeros(ClearedBytes(p), if p.OcwCircuits? then 6 else 11)
  {
    IndexingData.DefaultLayout();
  }

  /** There is something to do exactly when the cell begins with the encoding of a record whose block number is not
      zero: an absent, cleared or undecodable cell is nothing to do. */
  lemma WorkExactly(p: Pallet, cell: Option<Bytes>)
    ensures p.OcwGarble? ==>
              (HasWork(p, cell) <==>
                 exists d, rest :: IndexingData.GarbleEncodable(d) && d.blockNumber != 0
                                   && cell == Some(IndexingData.EncodeGarble(d) + rest))
    ensures p.OcwCircuits? ==>
              (HasWork(p, cell) <==>
                 exists d, rest :: IndexingData.CircuitsEncodable(d) && d.blockNumber != 0
                                   && cell == Some(IndexingData.EncodeCircuits(d) + rest))
  {
    hide IndexingData.EncodeGarble, IndexingData.DecodeGarble, IndexingData.GarbleEncodable;
    hide IndexingData.EncodeCircuits, IndexingData.DecodeCircuits, IndexingData.CircuitsEncodable;
    if cell.Some? {
      if p.OcwGarble? { GarbleWork(cell.value); } else { CircuitsWork(cell.value); }
    }
  }

  lemma GarbleWork(s: Bytes)
    ensures HasWork(OcwGarble, Some(s)) <==>
              exists d, rest :: IndexingData.GarbleEncodable(d) && d.blockNumber != 0
                                && s == IndexingData.EncodeGarble(d) + rest
  {
    hide IndexingData.EncodeGarble, IndexingData.DecodeGarble, IndexingData.GarbleEncodable;
    var p := IndexingData.DecodeGarble(s);
    if p.Parsed? { IndexingData.GarbleExactly(s, p.value, p.rest); }
    if d, rest :| IndexingData.GarbleEncodable(d) && d.blockNumber != 0 && s == IndexingData.EncodeGarble(d) + rest {
      IndexingData.GarbleExactly(s, d, rest);
    }
  }

  lemma CircuitsWork(s: Bytes)
    ensures HasWork(OcwCircuits, Some(s)) <==>
              exists d, rest :: IndexingData.CircuitsEncodable(d) && d.blockNumber != 0
                                && s == IndexingData.EncodeCircuits(d) + rest
  {
    hide IndexingData.EncodeCircuits, IndexingData.DecodeCircuits, IndexingData.CircuitsEncodable;
    var p := IndexingData.DecodeCircuits(s);
    if p.Parsed? { IndexingData.CircuitsExactly(s, p.value, p.rest); }
    if d, rest :|
      IndexingData.CircuitsEncodable(d) && d.blockNumber != 0 && s == IndexingData.EncodeCircuits(d) + rest {
      IndexingData.CircuitsExactly(s, d, rest);
    }
  }

  // ---------- time ----------

  const LOCK_TIMEOUT_EXPIRATION: nat := 10000
  const LOCK_BLOCK_EXPIRATION: nat := 3

  datatype Clock = Clock(millis: nat, block: nat)

  /** How time and block number combine into "expired" is the lock library's business: any predicate will do. */
  type Expiry = (Clock, Clock) -> bool

  function DeadlineFrom(now: Clock): Clock {
    Clock(now.millis + LOCK_TIMEOUT_EXPIRATION, now.block + LOCK_BLOCK_EXPIRATION)
  }

  // ---------- state ----------

  /** The bytes in the store, and which submitted job they are (bookkeeping no worker looks at). */
  datatype Cell = Cell(bytes: Option<Bytes>, job: Option<JobId>)

  function JobsIn(c: Cell): set<JobId> {
    if c.job.Some? then {c.job.value} else {}
  }

  function Listed(c: Cell): seq<JobId> {
    if c.job.Some? then [c.job.value] else []
  }

  datatype Worker =
    | HasRead(seen: Cell, breaks: nat)
    | Holding(seen: Cell, deadline: Clock)
    | Cleared(seen: Cell, deadline: Clock)
    | Sent(seen: Cell, deadline: Clock)
    | Finished
    | Crashed(left: Option<Clock>)
  {
    /** Between a successful `try_lock` and the drop of the guard. */
    predicate Guards() {
      Holding? || Cleared? || Sent?
    }

    /** Carries a job it has not taken yet. */
    predicate Carries() {
      HasRead? || Holding?
    }
  }

  /** `cell`, `lock` and `workers` are the program; the rest records what happened. `breaks` counts the releases
      and expiries of the lock. */
  datatype State = State(
    pallet: Pallet,
    expired: Expiry,
    clock: Clock,
    cell: Cell,
    lock: Option<Clock>,
    workers: map<WorkerId, Worker>,
    jobs: seq<Bytes>,
    overwritten: set<JobId>,
    erased: set<JobId>,
    snapshots: seq<JobId>,
    taken: seq<JobId>,
    delivered: seq<JobId>,
    failed: seq<JobId>,
    breaks: nat)
  {
    /** A `try_lock` succeeds on a free lock and on an expired one. */
    predicate Acquirable() {
      lock.None? || expired(lock.value, clock)
    }
  }

  function Init(p: Pallet, expired: Expiry): State {
    State(p, expired, Clock(0, 0), Cell(None, None), None, map[], [], {}, {}, [], [], [], [], 0)
  }

  datatype Action =
    | Submit(bytes: Bytes)
    | Read(w: WorkerId)
    | TryLock(w: WorkerId)
    | Clear(w: WorkerId)
    | Finish(w: WorkerId, ok: bool)
    | Release(w: WorkerId)
    | Crash(w: WorkerId)
    | Tick(now: Clock)
    | Skip

  /** An extrinsic's index write: whatever was there is overwritten. */
  function AfterSubmit(s: State, bytes: Bytes): State {
    if !HasWork(s.pallet, Some(bytes)) then s
    else
      s.(cell := Cell(Some(bytes), Some(|s.jobs|)),
         jobs := s.jobs + [bytes],
         overwritten := s.overwritten + JobsIn(s.cell))
  }

  function AfterRead(s: State, w: WorkerId): State {
    if w in s.workers then s
    else if HasWork(s.pallet, s.cell.bytes)
    then s.(workers := s.workers[w := HasRead(s.cell, s.breaks)], snapshots := s.snapshots + Listed(s.cell))
    else s.(workers := s.workers[w := Finished])
  }

  function AfterTryLock(s: State, w: WorkerId): State {
    if w !in s.workers || !s.workers[w].HasRead? then s
    else if s.Acquirable() then
      var d := DeadlineFrom(s.clock);
      s.(lock := Some(d), workers := s.workers[w := Holding(s.workers[w].seen, d)])
    else s.(workers := s.workers[w := Finished])
  }

  function AfterClear(s: State, w: WorkerId): State {
    if w !in s.workers || !s.workers[w].Holding? then s
    else
      var seen := s.workers[w].seen;
      s.(cell := Cell(Some(ClearedBytes(s.pallet)), None),
         workers := s.workers[w := Cleared(seen, s.workers[w].deadline)],
         erased := s.erased + JobsIn(s.cell),
         taken := s.taken + Listed(seen))
  }

  function AfterFinish(s: State, w: WorkerId, ok: bool): State {
    if w !in s.workers || !s.workers[w].Cleared? then s
    else
      var seen := s.workers[w].seen;
      s.(workers := s.workers[w := Sent(seen, s.workers[w].deadline)],
         delivered := if ok then s.delivered + Listed(seen) else s.delivered,
         failed := if ok then s.failed else s.failed + Listed(seen))
  }

  /** Dropping the guard empties the lock cell, whoever wrote it last. */
  function AfterRelease(s: State, w: WorkerId): State {
    if w !in s.workers || !s.workers[w].Sent? then s
    else s.(lock := None, workers := s.workers[w := Finished], breaks := s.breaks + 1)
  }

  /** A worker that panics or is killed drops nothing: its lock stays until it expires. */
  function AfterCrash(s: State, w: WorkerId): State {
    if w !in s.workers || s.workers[w].Finished? || s.workers[w].Crashed? then s
    else
      var left := if s.workers[w].Guards() then Some(s.workers[w].deadline) else None;
      s.(workers := s.workers[w := Crashed(left)],
         failed := if s.workers[w].Cleared? then s.failed + Listed(s.workers[w].seen) else s.failed)
  }

  function AfterTick(s: State, now: Clock): State {
    if now.millis < s.clock.millis || now.block < s.clock.block then s
    else
      var lapses := s.lock.Some? && !s.expired(s.lock.value, s.clock) && s.expired(s.lock.value, now);
      s.(clock := now, breaks := if lapses then s.breaks + 1 else s.breaks)
  }

  /** One step; an action that is not enabled changes nothing. */
  function Next(s: State, a: Action): State {
    match a
    case Submit(bytes) => AfterSubmit(s, bytes)
    case Read(w) => AfterRead(s, w)
    case TryLock(w) => AfterTryLock(s, w)
    case Clear(w) => AfterClear(s, w)
    case Finish(w, ok) => AfterFinish(s, w, ok)
    case Release(w) => AfterRelease(s, w)
    case Crash(w) => AfterCrash(s, w)
    case Tick(now) => AfterTick(s, now)
    case Skip => s
  }

  function Exec(s: State, actions: seq<Action>): State {
    if actions == [] then s else Next(Exec(s, actions[..|actions| - 1]), actions[|actions| - 1])
  }

  // ---------- the invariant of every run ----------

  /** A cell without a job reads as nothing to do; a cell with one holds that job's bytes. */
  ghost predicate Tagged(p: Pallet, jobs: seq<Bytes>, c: Cell) {
    match c.job
    case None => !HasWork(p, c.bytes)
    case Some(j) => j < |jobs| && c.bytes == Some(jobs[j]) && HasWork(p, c.bytes)
  }

  ghost predicate WorkerTagged(p: Pallet, jobs: seq<Bytes>, w: Worker) {
    w.Carries() || w.Guards() ==> Tagged(p, jobs, w.seen) && w.seen.job.Some?
  }

  ghost predicate WorkersTagged(p: Pallet, jobs: seq<Bytes>, workers: map<WorkerId, Worker>) {
    forall w :: w in workers ==> WorkerTagged(p, jobs, workers[w])
  }

  ghost function FirstJobs(n: nat): (r: set<JobId>)
    ensures |r| == n && forall j: JobId :: j in r <==> j < n
  {
    if n == 0 then {}
    else
      var r := FirstJobs(n - 1);
      assert n - 1 !in r;
      r + {n - 1}
  }

  /** No job leaves the books: each of the n submitted jobs is in the cell, or was overwritten, or was erased by a
      worker clearing the cell, and only one of these; and a taken job is no longer in the cell. */
  ghost predicate Books(c: Cell, n: nat, overwritten: set<JobId>, erased: set<JobId>, taken: seq<JobId>) {
    && overwritten !! erased
    && JobsIn(c) !! overwritten + erased
    && overwritten + erased + JobsIn(c) == FirstJobs(n)
    && forall j :: j in taken ==> j < n && j !in JobsIn(c)
  }

  ghost function InFlight(workers: map<WorkerId, Worker>): set<WorkerId> {
    set w | w in workers && workers[w].Cleared?
  }

  ghost predicate Inv(s: State) {
    && Tagged(s.pallet, s.jobs, s.cell)
    && WorkersTagged(s.pallet, s.jobs, s.workers)
    && Books(s.cell, |s.jobs|, s.overwritten, s.erased, s.taken)
    && |s.taken| == |s.delivered| + |s.failed| + |InFlight(s.workers)|
  }

  lemma FlightChanges(workers: map<WorkerId, Worker>, w: WorkerId, now: Worker)
    ensures |InFlight(workers[w := now])| == |InFlight(workers)| + (if now.Cleared? then 1 else 0)
                                             - (if w in workers && workers[w].Cleared? then 1 else 0)
  {
    var rest := InFlight(workers) - {w};
    assert InFlight(workers[w := now]) == if now.Cleared? then rest + {w} else rest;
    assert InFlight(workers) == if w in workers && workers[w].Cleared? then rest + {w} else rest;
  }

  lemma SubmitKeepsBooks(c: Cell, n: nat, overwritten: set<JobId>, erased: set<JobId>, taken: seq<JobId>, bytes: Bytes)
    requires Books(c, n, overwritten, erased, taken)
    ensures Books(Cell(Some(bytes), Some(n)), n + 1, overwritten + JobsIn(c), erased, taken)
  {
  }

  lemma NothingIn(c: Cell)
    requires c.job.None?
    ensures JobsIn(c) == {}
  {
  }

  lemma ClearKeepsBooks(c: Cell, n: nat, overwritten: set<JobId>, erased: set<JobId>, taken: seq<JobId>,
                        bytes: Bytes, j: JobId)
    requires Books(c, n, overwritten, erased, taken) && j < n
    ensures Books(Cell(Some(bytes), None), n, overwritten, erased + JobsIn(c), taken + [j])
  {
    hide FirstJobs;
    var inCell, emptied := JobsIn(c), Cell(Some(bytes), None);
    hide JobsIn;
    assert JobsIn(emptied) == {} by { NothingIn(emptied); }
    assert overwritten + (erased + inCell) + {} == overwritten + erased + inCell;
  }

  lemma SubmitKeepsInv(s: State, bytes: Bytes)
    requires Inv(s)
    ensures Inv(AfterSubmit(s, bytes))
  {
    hide HasWork, Books, InFlight;
    SubmitKeepsBooks(s.cell, |s.jobs|, s.overwritten, s.erased, s.taken, bytes);
    forall w | w in s.workers ensures WorkerTagged(s.pallet, s.jobs + [bytes], s.workers[w]) {
      assert WorkerTagged(s.pallet, s.jobs, s.workers[w]);
    }
  }

  /** Every step of a worker other than clearing the cell touches one worker and the logs. */
  lemma WorkerStepKeepsInv(s: State, t: State, w: WorkerId, now: Worker)
    requires Inv(s)
    requires t.workers == s.workers[w := now] && WorkerTagged(s.pallet, s.jobs, now) && !now.Cleared?
    requires t.pallet == s.pallet && t.jobs == s.jobs && t.cell == s.cell
    requires t.overwritten == s.overwritten && t.erased == s.erased && t.taken == s.taken
    requires |t.delivered| + |t.failed|
             == |s.delivered| + |s.failed| + if w in s.workers && s.workers[w].Cleared? then 1 else 0
    ensures Inv(t)
  {
    hide HasWork, Books, InFlight;
    FlightChanges(s.workers, w, now);
  }

  lemma ClearKeepsInv(s: State, w: WorkerId)
    requires Inv(s) && w in s.workers && s.workers[w].Holding?
    ensures Inv(AfterClear(s, w))
  {
    ClearedHasNoWork(s.pallet);
    hide HasWork, Books, InFlight, ClearedBytes;
    var now := Cleared(s.workers[w].seen, s.workers[w].deadline);
    FlightChanges(s.workers, w, now);
    assert WorkerTagged(s.pallet, s.jobs, s.workers[w]);
    assert AfterClear(s, w).workers == s.workers[w := now];
    var job := s.workers[w].seen.job.value;
    ClearKeepsBooks(s.cell, |s.jobs|, s.overwritten, s.erased, s.taken, ClearedBytes(s.pallet), job);
  }

  lemma NextKeepsInv(s: State, a: Action)
    requires Inv(s)
    ensures Inv(Next(s, a)) && Next(s, a).pallet == s.pallet && Next(s, a).expired == s.expired
  {
    hide HasWork, Books, InFlight, Tagged;
    var t := Next(s, a);
    match a
    case Submit(bytes) => SubmitKeepsInv(s, bytes);
    case Clear(w) => if w in s.workers && s.workers[w].Holding? { ClearKeepsInv(s, w); }
    case Tick(now) =>
    case Skip =>
    case Read(w) => if t != s { ReadKeepsInv(s, w); }
    case _ =>
      if t != s {
        assert WorkerTagged(s.pallet, s.jobs, s.workers[a.w]);
        WorkerStepKeepsInv(s, t, a.w, t.workers[a.w]);
      }
  }

  lemma ReadKeepsInv(s: State, w: WorkerId)
    requires Inv(s) && w !in s.workers
    ensures Inv(AfterRead(s, w))
  {
    hide HasWork, Books, InFlight;
    var t := AfterRead(s, w);
    WorkerStepKeepsInv(s, t, w, t.workers[w]);
  }

  lemma InitInv(p: Pallet, expired: Expiry)
    ensures Inv(Init(p, expired))
  {
    ClearedHasNoWork(p);
    hide HasWork;
    assert InFlight(map[]) == {} && FirstJobs(0) == {};
  }

  lemma {:induction false} ReachableInv(p: Pallet, expired: Expiry, actions: seq<Action>)
    ensures var s := Exec(Init(p, expired), actions); Inv(s) && s.pallet == p && s.expired == expired
  {
    hide Inv, Next;
    if actions == [] {
      InitInv(p, expired);
    } else {
      ReachableInv(p, expired, actions[..|actions| - 1]);
      NextKeepsInv(Exec(Init(p, expired), actions[..|actions| - 1]), actions[|actions| - 1]);
    }
  }

  /** Conservation, however the workers interleave: submitted = overwritten + erased + (1 if the cell is occupied),
      and taken = delivered + failed + in flight. */
  lemma Conservation(p: Pallet, expired: Expiry, actions: seq<Action>)
    ensures var s := Exec(Init(p, expired), actions);
            && |s.jobs| == |s.overwritten| + |s.erased| + |JobsIn(s.cell)|
            && |s.taken| == |s.delivered| + |s.failed| + |InFlight(s.workers)|
  {
    ReachableInv(p, expired, actions);
    var s := Exec(Init(p, expired), actions);
    assert |s.overwritten + s.erased + JobsIn(s.cell)| == |s.overwritten| + |s.erased| + |JobsIn(s.cell)|;
  }

  /** A worker past its clear has taken the job it read. */
  ghost predicate ClearedTook(s: State) {
    forall w :: w in s.workers && s.workers[w].Cleared? && s.workers[w].seen.job.Some?
                ==> s.workers[w].seen.job.value in s.taken
  }

  lemma {:induction false} ReachableClearedTook(p: Pallet, expired: Expiry, actions: seq<Action>)
    ensures ClearedTook(Exec(Init(p, expired), actions))
  {
    hide HasWork, ClearedBytes;
    if actions == [] {
    } else {
      ReachableClearedTook(p, expired, actions[..|actions| - 1]);
      NextKeepsClearedTook(Exec(Init(p, expired), actions[..|actions| - 1]), actions[|actions| - 1]);
      hide Next, ClearedTook;
    }
  }

  lemma NextKeepsClearedTook(s: State, a: Action)
    requires ClearedTook(s)
    ensures ClearedTook(Next(s, a))
  {
    hide HasWork, ClearedBytes;
  }

  /** Jobs and the record of taken ones only grow. */
  lemma NextGrows(s: State, a: Action)
    ensures var t := Next(s, a);
            && s.jobs <= t.jobs && s.taken <= t.taken && s.overwritten <= t.overwritten
            && (forall j :: j in s.taken ==> j in t.taken)
  {
    hide HasWork, ClearedBytes;
  }
}
