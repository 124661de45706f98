/** The whole pipeline: users' extrinsics, both pallets' workers, and the callbacks they push, in any order. */
module Pipeline {
  import opened Common
  import Garble
  import IndexingData
  import Ledger
  import M = Mailbox
  import OneTimeCode
  import Runtime
  import Offchain = OffchainWorker

  /** A callback in the transaction pool, and the garble or circuits job whose worker pushed it. */
  datatype Pushed = Pushed(tx: Runtime.Tx, source: M.Pallet, job: Option<M.JobId>)

  /** `trace` and `stripRuns` only record what happened: the extrinsics executed so far, and how many worker runs
      published a strip reply. */
  datatype State = State(
    chain: Runtime.Chain,
    circuits: M.State,
    garble: M.State,
    pool: seq<Pushed>,
    trace: seq<Runtime.Tx>,
    stripRuns: nat)
  {
    function Box(p: M.Pallet): M.State {
      if p.OcwCircuits? then circuits else garble
    }
  }

  function Init(expired: M.Expiry): State {
    State(Runtime.GENESIS, M.Init(M.OcwCircuits, expired), M.Init(M.OcwGarble, expired), [], [], 0)
  }

  /** `Extrinsic` is anything anyone sends, forged callbacks included; `Include` executes a pushed callback;
      `Settle` is the end of a worker's remote calls, with the accounts its node can sign for. */
  datatype Action =
    | Extrinsic(tx: Runtime.Tx)
    | Include(i: nat)
    | Read(p: M.Pallet, w: M.WorkerId)
    | TryLock(p: M.Pallet, w: M.WorkerId)
    | Clear(p: M.Pallet, w: M.WorkerId)
    | Settle(p: M.Pallet, w: M.WorkerId, rpc: Offchain.Rpc, signers: seq<AccountId>)
    | Release(p: M.Pallet, w: M.WorkerId)
    | Crash(p: M.Pallet, w: M.WorkerId)
    | Tick(now: M.Clock)

  /** The extrinsic an action executes, if any. */
  function Executed(s: State, a: Action): Option<Runtime.Tx> {
    match a
    case Extrinsic(tx) => Some(tx)
    case Include(i) => if i < |s.pool| then Some(s.pool[i].tx) else None
    case _ => None
  }

  function IndexWrite(c: Runtime.Chain, p: M.Pallet): Option<Bytes> {
    if p.OcwCircuits? then c.circuits.indexed else c.garble.indexed
  }

  /** Whether a settle action finds its worker waiting, and what comes of the calls. */
  predicate Waiting(s: State, a: Action) {
    a.Settle? && a.w in s.Box(a.p).workers && s.Box(a.p).workers[a.w].Cleared?
  }

  function SettleOutcome(s: State, a: Action): Offchain.Outcome
    requires Waiting(s, a)
  {
    Offchain.Process(a.p, s.Box(a.p).workers[a.w].seen.bytes, a.rpc, a.signers != [])
  }

  /** The step an action is for the mailbox of pallet `p`. */
  function MailStep(s: State, a: Action, p: M.Pallet): M.Action {
    match a
    case Tick(now) => M.Tick(now)
    case Extrinsic(_) | Include(_) =>
      var tx := Executed(s, a);
      if tx.None? then M.Skip
      else
        var written := IndexWrite(Runtime.Apply(s.chain, tx.value), p);
        if written.Some? then M.Submit(written.value) else M.Skip
    case Settle(q, w, _, _) =>
      if q == p && Waiting(s, a) then Offchain.Settled(w, SettleOutcome(s, a)) else M.Skip
    case Read(q, w) => if q == p then M.Read(w) else M.Skip
    case TryLock(q, w) => if q == p then M.TryLock(w) else M.Skip
    case Clear(q, w) => if q == p then M.Clear(w) else M.Skip
    case Release(q, w) => if q == p then M.Release(w) else M.Skip
    case Crash(q, w) => if q == p then M.Crash(w) else M.Skip
  }

  /** `send_signed_transaction` on all accounts: one transaction each, all with the same call. */
  function FanOut(signers: seq<AccountId>, call: Runtime.Call, source: M.Pallet, job: Option<M.JobId>): (r: seq<Pushed>)
    ensures |r| == |signers|
    ensures forall i :: 0 <= i < |r| ==> r[i] == Pushed(Runtime.Tx(Signed(signers[i]), call), source, job)
  {
    seq(|signers|, i requires 0 <= i < |signers| => Pushed(Runtime.Tx(Signed(signers[i]), call), source, job))
  }

  function NextPool(s: State, a: Action): seq<Pushed> {
    if a.Include? && a.i < |s.pool| then s.pool[..a.i] + s.pool[a.i + 1..]
    else if Waiting(s, a) && SettleOutcome(s, a).Push? then
      s.pool + FanOut(a.signers, SettleOutcome(s, a).call, a.p, s.Box(a.p).workers[a.w].seen.job)
    else s.pool
  }

  predicate PublishesStrip(s: State, a: Action) {
    Waiting(s, a) && SettleOutcome(s, a).Push? && SettleOutcome(s, a).call.CallbackStrip?
  }

  function Next(s: State, a: Action): State {
    var tx := Executed(s, a);
    State(
      if tx.Some? then Runtime.Apply(s.chain, tx.value) else s.chain,
      M.Next(s.circuits, MailStep(s, a, M.OcwCircuits)),
      M.Next(s.garble, MailStep(s, a, M.OcwGarble)),
      NextPool(s, a),
      if tx.Some? then s.trace + [tx.value] else s.trace,
      if PublishesStrip(s, a) then s.stripRuns + 1 else s.stripRuns)
  }

  function Exec(s: State, actions: seq<Action>): State {
    if actions == [] then s else Next(Exec(s, actions[..|actions| - 1]), actions[|actions| - 1])
  }

  lemma BoxSteps(s: State, a: Action, q: M.Pallet)
    ensures Next(s, a).Box(q) == M.Next(s.Box(q), MailStep(s, a, q))
  {
    hide M.Next, MailStep, PublishesStrip, NextPool, Executed;
  }

  /** A worker's action is its step on the mailbox of its pallet and none on the other; time passes for both. */
  lemma WorkerActions(s: State, a: Action, q: M.Pallet)
    requires a.Read? || a.TryLock? || a.Clear? || a.Release? || a.Crash? || a.Tick?
    ensures var box, t := s.Box(q), Next(s, a).Box(q);
            if a.Tick? then t == M.AfterTick(box, a.now)
            else if a.p != q then t == box
            else if a.Read? then t == M.AfterRead(box, a.w)
            else if a.TryLock? then t == M.AfterTryLock(box, a.w)
            else if a.Clear? then t == M.AfterClear(box, a.w)
            else if a.Release? then t == M.AfterRelease(box, a.w)
            else t == M.AfterCrash(box, a.w)
  {
    hide Next, M.AfterRead, M.AfterTryLock, M.AfterClear, M.AfterRelease, M.AfterCrash, M.AfterTick;
    BoxSteps(s, a, q);
  }

  /** And it leaves the chain, the pool and the trace alone. */
  lemma WorkerActionsKeep(s: State, a: Action)
    requires a.Read? || a.TryLock? || a.Clear? || a.Release? || a.Crash? || a.Tick?
    ensures var t := Next(s, a); t.chain == s.chain && t.pool == s.pool && t.trace == s.trace
  {
    hide M.Next;
  }

  // ---------- the pieces ----------

  function Projected(s: State, actions: seq<Action>, p: M.Pallet): seq<M.Action> {
    if actions == [] then []
    else
      var front := actions[..|actions| - 1];
      Projected(s, front, p) + [MailStep(Exec(s, front), actions[|actions| - 1], p)]
  }

  /** Each pallet's mailbox, inside the pipeline, makes a run of its own: everything proved of mailbox runs holds of
      it, and the two do not disturb each other. */
  lemma {:induction false} MailboxRuns(s: State, actions: seq<Action>, p: M.Pallet)
    ensures Exec(s, actions).Box(p) == M.Exec(s.Box(p), Projected(s, actions, p))
  {
    hide M.Next, MailStep, NextPool, PublishesStrip, Executed;
    if actions == [] {
    } else {
      var front := actions[..|actions| - 1];
      MailboxRuns(s, front, p);
      Offchain.ExecAppend(s.Box(p), Projected(s, front, p), MailStep(Exec(s, front), actions[|actions| - 1], p));
    }
  }

  /** The chain is the result of the executed extrinsics alone. */
  lemma {:induction false} ChainRuns(expired: M.Expiry, actions: seq<Action>)
    ensures var s := Exec(Init(expired), actions); s.chain == Ledger.Run(s.trace)
  {
    hide M.Next, MailStep, NextPool, PublishesStrip, Executed, Runtime.Apply;
    if actions == [] {
    } else {
      var front := Exec(Init(expired), actions[..|actions| - 1]);
      ChainRuns(expired, actions[..|actions| - 1]);
      var tx := Executed(front, actions[|actions| - 1]);
      if tx.Some? {
        assert (front.trace + [tx.value])[..|front.trace|] == front.trace;
      }
    }
  }

  // ---------- no invented job, no missing field ----------

  /** A garble record as one of the two requests writes it: the optional fields match the kind, and a strip job
      carries two message digits and a rearranged pad. */
  ghost predicate GenuineGarble(d: IndexingData.Garble) {
    && d.blockNumber == 1
    && match d.kind
       case GarbleStandard =>
         d.skcdCid.Some? && d.messageSkcdCid.None? && d.pinpadSkcdCid.None? && d.txMsg.None?
         && d.messageDigits.None? && d.pinpadDigits.None?
       case GarbleAndStrip =>
         d.skcdCid.None? && d.messageSkcdCid.Some? && d.pinpadSkcdCid.Some? && d.txMsg.Some?
         && d.messageDigits.Some? && |d.messageDigits.value| == 2 && OneTimeCode.AreDigits(d.messageDigits.value)
         && d.pinpadDigits.Some? && OneTimeCode.IsPermutation(d.pinpadDigits.value)
  }

  ghost predicate GenuineCircuits(d: IndexingData.Circuits) {
    d.blockNumber == 1 && (d.kind.Generic? <==> d.verilogHash.Some?)
  }

  ghost predicate GenuineJob(p: M.Pallet, bytes: Bytes) {
    if p.OcwCircuits? then GenuineCircuits(IndexingData.ReadCircuits(Some(bytes)))
    else GenuineGarble(IndexingData.ReadGarble(Some(bytes)))
  }

  ghost predicate AllGenuine(p: M.Pallet, jobs: seq<Bytes>) {
    forall j :: 0 <= j < |jobs| ==> GenuineJob(p, jobs[j])
  }

  lemma AskedIsGenuine(c: Runtime.Chain, call: Runtime.Call)
    ensures var asked := Ledger.JobAsked(c.circuits.package, call); asked.Some? ==> GenuineGarble(asked.value)
  {
    hide Garble.PinpadOf, OneTimeCode.IsPermutation;
    if call.RequestStrip? { Ledger.Shuffling(call.draws); }
  }

  /** Whatever an extrinsic writes to a mailbox is a genuine job. */
  lemma GarbleWritesAreGenuine(c: Runtime.Chain, tx: Runtime.Tx)
    ensures var written := Runtime.Apply(c, tx).garble.indexed; written.Some? ==> GenuineJob(M.OcwGarble, written.value)
  {
    hide Runtime.Apply, Runtime.Outcome, IndexingData.EncodeGarble, IndexingData.ReadGarble;
    hide IndexingData.GarbleEncodable, GenuineGarble, Ledger.JobAsked;
    Ledger.StepIndexed(c, tx);
    AskedIsGenuine(c, tx.call);
    if Runtime.Apply(c, tx).garble.indexed.Some? {
      IndexingData.GarbleReadsBack(Ledger.JobAsked(c.circuits.package, tx.call).value);
    }
  }

  lemma CircuitsWritesAreGenuine(c: Runtime.Chain, tx: Runtime.Tx)
    ensures var written := Runtime.Apply(c, tx).circuits.indexed;
            written.Some? ==> GenuineJob(M.OcwCircuits, written.value)
  {
    hide IndexingData.EncodeCircuits, IndexingData.ReadCircuits;
    if tx.call.SubmitGeneric? {
      var job := IndexingData.Circuits(Some(tx.call.verilog), 1, IndexingData.Generic);
      if IndexingData.CircuitsEncodable(job) { IndexingData.CircuitsReadsBack(job); }
    } else if tx.call.SubmitDisplay? {
      IndexingData.CircuitsReadsBack(IndexingData.Circuits(None, 1, IndexingData.Display));
    }
  }

  lemma WritesAreGenuine(c: Runtime.Chain, tx: Runtime.Tx, p: M.Pallet)
    ensures var written := IndexWrite(Runtime.Apply(c, tx), p); written.Some? ==> GenuineJob(p, written.value)
  {
    hide Runtime.Apply, GenuineJob;
    GarbleWritesAreGenuine(c, tx);
    CircuitsWritesAreGenuine(c, tx);
  }

  lemma NextKeepsGenuine(s: State, a: Action, p: M.Pallet)
    requires AllGenuine(p, s.Box(p).jobs)
    ensures AllGenuine(p, Next(s, a).Box(p).jobs)
  {
    hide GenuineJob, Runtime.Apply, M.HasWork, M.ClearedBytes, Offchain.Process;
    var tx := Executed(s, a);
    if tx.Some? { WritesAreGenuine(s.chain, tx.value, p); }
  }

  lemma {:induction false} ReachableGenuine(expired: M.Expiry, actions: seq<Action>, p: M.Pallet)
    ensures AllGenuine(p, Exec(Init(expired), actions).Box(p).jobs)
  {
    hide Next, GenuineJob;
    if actions == [] {
    } else {
      ReachableGenuine(expired, actions[..|actions| - 1], p);
      NextKeepsGenuine(Exec(Init(expired), actions[..|actions| - 1]), actions[|actions| - 1], p);
    }
  }

  ghost predicate BoxesSound(s: State) {
    M.Inv(s.circuits) && M.Inv(s.garble) && s.circuits.pallet == M.OcwCircuits && s.garble.pallet == M.OcwGarble
  }

  lemma ReachableBoxes(expired: M.Expiry, actions: seq<Action>)
    ensures BoxesSound(Exec(Init(expired), actions))
  {
    hide Next, M.Next, M.Inv, MailStep;
    MailboxRuns(Init(expired), actions, M.OcwCircuits);
    MailboxRuns(Init(expired), actions, M.OcwGarble);
    M.ReachableInv(M.OcwCircuits, expired, Projected(Init(expired), actions, M.OcwCircuits));
    M.ReachableInv(M.OcwGarble, expired, Projected(Init(expired), actions, M.OcwGarble));
  }

  lemma GenuineHasItsFields(p: M.Pallet, bytes: Bytes, rpc: Offchain.Rpc, signs: bool)
    requires GenuineJob(p, bytes)
    ensures !Offchain.Process(p, Some(bytes), rpc, signs).MissingField?
  {
    hide IndexingData.ReadGarble, IndexingData.ReadCircuits, OneTimeCode.IsPermutation;
  }

  /** No invention: in every reachable state the cell and every snapshot a worker acts on is a job some extrinsic
      submitted, bit for bit; with no job the cell reads as nothing to do; and none of the `expect("missing ...")`
      can fire, whatever the service answers. */
  lemma NoInvention(expired: M.Expiry, actions: seq<Action>, p: M.Pallet, w: M.WorkerId, rpc: Offchain.Rpc,
                    signs: bool)
    ensures var box := Exec(Init(expired), actions).Box(p);
            && (box.cell.job.None? ==> !M.HasWork(p, box.cell.bytes))
            && (box.cell.job.Some? ==> GenuineSnapshot(p, box, box.cell))
            && (w in box.workers && (box.workers[w].Carries() || box.workers[w].Guards()) ==>
                  && GenuineSnapshot(p, box, box.workers[w].seen)
                  && !Offchain.Process(p, box.workers[w].seen.bytes, rpc, signs).MissingField?)
  {
    ReachableBoxes(expired, actions);
    ReachableGenuine(expired, actions, p);
    var box := Exec(Init(expired), actions).Box(p);
    hide Exec, M.HasWork, M.Books, M.InFlight, GenuineJob, Offchain.Process;
    if w in box.workers && (box.workers[w].Carries() || box.workers[w].Guards()) {
      assert M.WorkerTagged(p, box.jobs, box.workers[w]);
      GenuineHasItsFields(p, box.workers[w].seen.bytes.value, rpc, signs);
    }
  }

  ghost predicate GenuineSnapshot(p: M.Pallet, box: M.State, c: M.Cell) {
    c.job.Some? && c.job.value < |box.jobs| && c.bytes == Some(box.jobs[c.job.value]) && GenuineJob(p, c.bytes.value)
  }

  // ---------- jobs and requests ----------

  ghost predicate Encodes(bytes: Bytes, d: IndexingData.Garble) {
    IndexingData.GarbleEncodable(d) && bytes == IndexingData.EncodeGarble(d)
  }

  ghost predicate AllEncode(jobs: seq<Bytes>, asked: seq<IndexingData.Garble>) {
    |jobs| == |asked| && forall j :: 0 <= j < |jobs| ==> Encodes(jobs[j], asked[j])
  }

  /** The mailbox counts every accepted request as one job, since each is written with block number 1. */
  lemma SubmitIsCounted(c: Runtime.Chain, tx: Runtime.Tx)
    ensures var written, asked := Runtime.Apply(c, tx).garble.indexed, Ledger.JobAsked(c.circuits.package, tx.call);
            && (written.Some? <==> asked.Some? && Runtime.Outcome(c, tx).Done?)
            && (written.Some? ==> M.HasWork(M.OcwGarble, written) && Encodes(written.value, asked.value))
  {
    hide Runtime.Apply, Runtime.Outcome;
    hide IndexingData.EncodeGarble, IndexingData.ReadGarble, IndexingData.GarbleEncodable;
    Ledger.StepIndexed(c, tx);
    if Runtime.Apply(c, tx).garble.indexed.Some? {
      IndexingData.GarbleReadsBack(Ledger.JobAsked(c.circuits.package, tx.call).value);
    }
  }

  lemma WorkersSubmitNothing(s: State, a: Action, p: M.Pallet)
    requires Executed(s, a).None?
    ensures Next(s, a).Box(p).jobs == s.Box(p).jobs && Next(s, a).trace == s.trace
  {
    hide M.HasWork, M.ClearedBytes, NextPool, PublishesStrip, Offchain.Process;
  }

  /** What an executed extrinsic adds to a mailbox. */
  lemma ExtrinsicSubmits(s: State, a: Action, p: M.Pallet)
    requires s.Box(p).pallet == p && Executed(s, a).Some?
    ensures var tx := Executed(s, a).value;
            var written, t := IndexWrite(Runtime.Apply(s.chain, tx), p), Next(s, a);
            && t.trace == s.trace + [tx]
            && t.Box(p).jobs == s.Box(p).jobs + if written.Some? && M.HasWork(p, written) then [written.value] else []
  {
    hide Runtime.Apply, M.HasWork, NextPool, PublishesStrip;
  }

  lemma NextKeepsAsked(s: State, a: Action)
    requires s.chain == Ledger.Run(s.trace) && s.garble.pallet == M.OcwGarble
    requires AllEncode(s.garble.jobs, Ledger.JobsAsked(s.trace))
    ensures AllEncode(Next(s, a).garble.jobs, Ledger.JobsAsked(Next(s, a).trace))
  {
    var tx := Executed(s, a);
    hide Next, Executed, Runtime.Apply, Runtime.Outcome, M.HasWork, Encodes, Ledger.Run, Ledger.JobAsked;
    if tx.Some? {
      ExtrinsicSubmits(s, a, M.OcwGarble);
      assert (s.trace + [tx.value])[..|s.trace|] == s.trace;
      Ledger.PackageIsLastDisplay(s.trace);
      SubmitIsCounted(s.chain, tx.value);
    } else {
      WorkersSubmitNothing(s, a, M.OcwGarble);
    }
  }

  /** The jobs of the garble mailbox are, one by one and in order, the encoded jobs of the accepted requests: the
      draws of that request and the cids of the last display callback before it. */
  lemma {:induction false} JobsAreRequests(expired: M.Expiry, actions: seq<Action>)
    ensures var s := Exec(Init(expired), actions); AllEncode(s.garble.jobs, Ledger.JobsAsked(s.trace))
  {
    hide Next, Encodes;
    if actions == [] {
    } else {
      var front := actions[..|actions| - 1];
      JobsAreRequests(expired, front);
      ChainRuns(expired, front);
      ReachableBoxes(expired, front);
      hide BoxesSound, AllEncode;
      NextKeepsAsked(Exec(Init(expired), front), actions[|actions| - 1]);
    }
  }

  // ---------- the same for circuits ----------

  ghost predicate CircuitsEncodes(bytes: Bytes, d: IndexingData.Circuits) {
    IndexingData.CircuitsEncodable(d) && bytes == IndexingData.EncodeCircuits(d)
  }

  ghost predicate AllCircuitsEncode(jobs: seq<Bytes>, asked: seq<IndexingData.Circuits>) {
    |jobs| == |asked| && forall j :: 0 <= j < |jobs| ==> CircuitsEncodes(jobs[j], asked[j])
  }

  lemma CircuitsSubmitIsCounted(c: Runtime.Chain, tx: Runtime.Tx)
    ensures var written, asked := Runtime.Apply(c, tx).circuits.indexed, Ledger.CircuitsAsked(tx.call);
            && (written.Some? <==> asked.Some? && Runtime.Outcome(c, tx).Done?)
            && (written.Some? ==> M.HasWork(M.OcwCircuits, written) && CircuitsEncodes(written.value, asked.value))
  {
    hide Runtime.Apply, Runtime.Outcome;
    hide IndexingData.EncodeCircuits, IndexingData.ReadCircuits, IndexingData.CircuitsEncodable;
    Ledger.CircuitsStepIndexed(c, tx);
    if Runtime.Apply(c, tx).circuits.indexed.Some? {
      IndexingData.CircuitsReadsBack(Ledger.CircuitsAsked(tx.call).value);
    }
  }

  lemma NextKeepsCircuitsAsked(s: State, a: Action)
    requires s.chain == Ledger.Run(s.trace) && s.circuits.pallet == M.OcwCircuits
    requires AllCircuitsEncode(s.circuits.jobs, Ledger.CircuitsJobsAsked(s.trace))
    ensures AllCircuitsEncode(Next(s, a).circuits.jobs, Ledger.CircuitsJobsAsked(Next(s, a).trace))
  {
    var tx := Executed(s, a);
    hide Next, Executed, Runtime.Apply, Runtime.Outcome, M.HasWork, CircuitsEncodes, Ledger.Run, Ledger.CircuitsAsked;
    if tx.Some? {
      ExtrinsicSubmits(s, a, M.OcwCircuits);
      assert (s.trace + [tx.value])[..|s.trace|] == s.trace;
      CircuitsSubmitIsCounted(s.chain, tx.value);
    } else {
      WorkersSubmitNothing(s, a, M.OcwCircuits);
    }
  }

  /** The jobs of the circuits mailbox are, one by one and in order, the encoded jobs of the accepted generic and
      display requests. */
  lemma {:induction false} CircuitsJobsAreRequests(expired: M.Expiry, actions: seq<Action>)
    ensures var s := Exec(Init(expired), actions);
            AllCircuitsEncode(s.circuits.jobs, Ledger.CircuitsJobsAsked(s.trace))
  {
    hide Next, CircuitsEncodes;
    if actions == [] {
    } else {
      var front := actions[..|actions| - 1];
      CircuitsJobsAreRequests(expired, front);
      ChainRuns(expired, front);
      ReachableBoxes(expired, front);
      hide BoxesSound, AllCircuitsEncode;
      NextKeepsCircuitsAsked(Exec(Init(expired), front), actions[|actions| - 1]);
    }
  }
}
