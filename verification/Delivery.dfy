/** What an undisturbed pipeline achieves, from any state: a request is served, and its code can be used. */
module Delivery {
  import opened Common
  import opened Pipeline
  import opened Settlement
  import Circuits
  import Garble
  import IndexingData
  import Ledger
  import M = Mailbox
  import Offchain = OffchainWorker
  import OneTimeCode
  import Runtime
  import TxValidation

  /** One more action of a run. */
  lemma Do(s: State, run: seq<Action>, t: State, a: Action) returns (longer: seq<Action>, u: State)
    requires Exec(s, run) == t
    ensures longer == run + [a] && u == Next(t, a) && Exec(s, longer) == u
  {
    hide Next;
    longer, u := run + [a], Next(t, a);
    assert longer[..|run|] == run;
  }

  /** A mailbox whose job worker `w` could take now. */
  predicate Ready(s: State, p: M.Pallet, w: M.WorkerId) {
    && s.Box(p).pallet == p && w !in s.Box(p).workers && s.Box(p).Acquirable()
  }

  function Reply(s: State, p: M.Pallet, rpc: Offchain.Rpc, signers: seq<AccountId>): Offchain.Outcome {
    Offchain.Process(p, s.Box(p).cell.bytes, rpc, signers != [])
  }

  function Other(p: M.Pallet): M.Pallet {
    if p.OcwGarble? then M.OcwCircuits else M.OcwGarble
  }

  /** What one step of a worker of `p` leaves alone. */
  ghost predicate KeepsRest(s: State, t: State, p: M.Pallet) {
    t.Box(Other(p)) == s.Box(Other(p)) && t.chain == s.chain && t.pool == s.pool && t.trace == s.trace
  }

  lemma WorkerKeepsRest(s: State, a: Action, p: M.Pallet)
    requires (a.Read? || a.TryLock? || a.Clear? || a.Release?) && a.p == p
    ensures KeepsRest(s, Next(s, a), p)
  {
    hide Next;
    WorkerActions(s, a, Other(p));
    WorkerActionsKeep(s, a);
  }

  lemma BoxTakes(box: M.State, w: M.WorkerId)
    requires w !in box.workers && box.Acquirable() && M.HasWork(box.pallet, box.cell.bytes)
    ensures var t := M.AfterClear(M.AfterTryLock(M.AfterRead(box, w), w), w);
            w in t.workers && t.workers[w].Cleared? && t.workers[w].seen == box.cell
  {
    hide M.HasWork, M.ClearedBytes;
  }

  /** The first three steps of a worker, with nobody between them. */
  lemma JobIsTaken(s: State, p: M.Pallet, w: M.WorkerId) returns (run: seq<Action>, t: State)
    requires Ready(s, p, w) && M.HasWork(p, s.Box(p).cell.bytes)
    ensures t == Exec(s, run) && KeepsRest(s, t, p)
    ensures w in t.Box(p).workers && t.Box(p).workers[w].Cleared? && t.Box(p).workers[w].seen == s.Box(p).cell
  {
    BoxTakes(s.Box(p), w);
    hide M.HasWork, M.AfterRead, M.AfterTryLock, M.AfterClear, Next, Exec;
    var read, locked, cleared := Read(p, w), TryLock(p, w), Clear(p, w);
    var one := Next(s, read);
    var two := Next(one, locked);
    WorkerActions(s, read, p);
    WorkerActions(one, locked, p);
    WorkerActions(two, cleared, p);
    WorkerKeepsRest(s, read, p);
    WorkerKeepsRest(one, locked, p);
    WorkerKeepsRest(two, cleared, p);
    assert Exec(s, []) == s by { ExecNothing(s); }
    run, t := Do(s, [], s, read);
    run, t := Do(s, run, t, locked);
    run, t := Do(s, run, t, cleared);
  }

  lemma ExecNothing(s: State)
    ensures Exec(s, []) == s
  {
  }

  /** The last two: the callbacks are pushed and the lock is free again. */
  lemma TakenJobIsPushed(s: State, p: M.Pallet, w: M.WorkerId, rpc: Offchain.Rpc, signers: seq<AccountId>)
    returns (t: State)
    requires w in s.Box(p).workers && s.Box(p).workers[w].Cleared?
    requires Offchain.Process(p, s.Box(p).workers[w].seen.bytes, rpc, signers != []).Push?
    ensures t == Next(Next(s, Settle(p, w, rpc, signers)), Release(p, w))
    ensures var seen := s.Box(p).workers[w].seen;
            t.pool == s.pool + FanOut(signers, Offchain.Process(p, seen.bytes, rpc, signers != []).call, p, seen.job)
    ensures t.Box(p).lock == None && t.Box(Other(p)) == s.Box(Other(p)) && t.chain == s.chain
  {
    var a, b := Settle(p, w, rpc, signers), Release(p, w);
    hide M.ClearedBytes, M.HasWork, Offchain.Process, FanOut;
    BoxSteps(s, a, p);
    BoxSteps(s, a, Other(p));
    var mid := Next(s, a);
    assert mid.chain == s.chain;
    t := Next(mid, b);
    WorkerActions(mid, b, p);
    WorkerActions(mid, b, Other(p));
    WorkerActionsKeep(mid, b);
  }

  /** From any state: a worker that nobody disturbs serves the job in the mailbox. */
  lemma JobIsServed(s: State, p: M.Pallet, w: M.WorkerId, rpc: Offchain.Rpc, signers: seq<AccountId>)
    returns (run: seq<Action>, t: State)
    requires Ready(s, p, w) && M.HasWork(p, s.Box(p).cell.bytes) && Reply(s, p, rpc, signers).Push?
    ensures t == Exec(s, run)
    ensures t.pool == s.pool + FanOut(signers, Reply(s, p, rpc, signers).call, p, s.Box(p).cell.job)
    ensures t.Box(p).lock == None && t.Box(Other(p)) == s.Box(Other(p)) && t.chain == s.chain
  {
    hide M.HasWork, Next, Offchain.Process, FanOut;
    var taken: State;
    run, taken := JobIsTaken(s, p, w);
    var _ := TakenJobIsPushed(taken, p, w, rpc, signers);
    run, t := Do(s, run, taken, Settle(p, w, rpc, signers));
    run, t := Do(s, run, t, Release(p, w));
  }

  /** Somebody sends an extrinsic that writes a job. */
  lemma RequestArrives(s: State, tx: Runtime.Tx, p: M.Pallet) returns (t: State)
    requires var written := IndexWrite(Runtime.Apply(s.chain, tx), p);
             written.Some? && M.HasWork(p, written) && IndexWrite(Runtime.Apply(s.chain, tx), Other(p)).None?
    requires s.Box(p).pallet == p
    ensures t == Next(s, Extrinsic(tx)) && t.chain == Runtime.Apply(s.chain, tx) && t.pool == s.pool
    ensures t.Box(p).cell.bytes == IndexWrite(Runtime.Apply(s.chain, tx), p)
    ensures t.Box(p).pallet == p && t.Box(p).lock == s.Box(p).lock && t.Box(p).clock == s.Box(p).clock
    ensures t.Box(p).expired == s.Box(p).expired && t.Box(p).workers == s.Box(p).workers
    ensures t.Box(Other(p)) == s.Box(Other(p))
  {
    hide M.HasWork, Runtime.Apply, PublishesStrip;
    t := Next(s, Extrinsic(tx));
    BoxSteps(s, Extrinsic(tx), p);
    BoxSteps(s, Extrinsic(tx), Other(p));
  }

  /** The one callback a one-account node pushed gets included, and the pool is as before. */
  lemma CallbackIsIncluded(s: State, before: seq<Pushed>, tx: Runtime.Tx, p: M.Pallet, j: Option<M.JobId>)
    returns (t: State)
    requires s.pool == before + [Pushed(tx, p, j)]
    requires Runtime.Apply(s.chain, tx).circuits.indexed.None? && Runtime.Apply(s.chain, tx).garble.indexed.None?
    ensures t == Next(s, Include(|before|)) && t.chain == Runtime.Apply(s.chain, tx) && t.pool == before
    ensures t.circuits == s.circuits && t.garble == s.garble
  {
    hide Runtime.Apply, PublishesStrip;
    t := Next(s, Include(|before|));
    assert s.pool[..|before|] == before && s.pool[|before| + 1..] == [];
  }

  lemma OneSigner(node: AccountId, call: Runtime.Call, p: M.Pallet, j: Option<M.JobId>)
    ensures FanOut([node], call, p, j) == [Pushed(Runtime.Tx(Signed(node), call), p, j)]
  {
  }

  /** A served job of a one-account node, and its callback included. */
  lemma ServedAndIncluded(s: State, p: M.Pallet, w: M.WorkerId, rpc: Offchain.Rpc, node: AccountId)
    returns (run: seq<Action>, t: State)
    requires Ready(s, p, w) && M.HasWork(p, s.Box(p).cell.bytes) && Reply(s, p, rpc, [node]).Push?
    requires var tx := Runtime.Tx(Signed(node), Reply(s, p, rpc, [node]).call);
             Runtime.Apply(s.chain, tx).circuits.indexed.None? && Runtime.Apply(s.chain, tx).garble.indexed.None?
    ensures t == Exec(s, run) && t.pool == s.pool
    ensures t.chain == Runtime.Apply(s.chain, Runtime.Tx(Signed(node), Reply(s, p, rpc, [node]).call))
    ensures t.Box(p).lock == None && t.Box(Other(p)) == s.Box(Other(p))
  {
    hide M.HasWork, Next, Reply, Runtime.Apply;
    var served: State;
    run, served := JobIsServed(s, p, w, rpc, [node]);
    var call, j := Reply(s, p, rpc, [node]).call, s.Box(p).cell.job;
    OneSigner(node, call, p, j);
    var _ := CallbackIsIncluded(served, s.pool, Runtime.Tx(Signed(node), call), p, j);
    run, t := Do(s, run, served, Include(|s.pool|));
  }

  lemma ExecJoins(s: State, first: seq<Action>, t: State, second: seq<Action>)
    requires Exec(s, first) == t
    ensures Exec(s, first + second) == Exec(t, second)
    decreases |second|
  {
    hide Next;
    if second == [] {
      assert first + second == first;
    } else {
      var front := second[..|second| - 1];
      ExecJoins(s, first, t, front);
      assert (first + second)[..|first + second| - 1] == first + front;
    }
  }

  /** A display request, from any state: the packages the service answers with becomes the current one. */
  lemma DisplayIsInstalled(s: State, who: AccountId, w: M.WorkerId, node: AccountId, package: Circuits.DisplayPackage)
    returns (run: seq<Action>, t: State)
    requires Ready(s, M.OcwCircuits, w) && |package.messageCid| <= 64 && |package.pinpadCid| <= 64
    ensures t == Exec(s, run) && t.pool == s.pool && t.garble == s.garble
    ensures t.chain.circuits.package == package && t.chain.garble.pending == s.chain.garble.pending
  {
    var tx, rpc := Runtime.Tx(Signed(who), Runtime.SubmitDisplay), Offchain.DisplayReplies(package);
    var written := Runtime.Apply(s.chain, tx).circuits.indexed;
    DisplayWritten(s.chain, who);
    hide Runtime.Apply, Runtime.Outcome, M.HasWork, Next, Offchain.CallCircuits;
    var asked := RequestArrives(s, tx, M.OcwCircuits);
    DisplayOutcome(rpc, true);
    var call := Reply(asked, M.OcwCircuits, rpc, [node]).call;
    assert InstallsAt(asked.chain, node, call, package);
    var served: seq<Action>;
    served, t := ServedAndIncluded(asked, M.OcwCircuits, w, rpc, node);
    run := [Extrinsic(tx)];
    var single: seq<Action>;
    single, asked := Do(s, [], s, Extrinsic(tx));
    ExecJoins(s, single, asked, served);
    run := single + served;
  }

  lemma DisplayWritten(c: Runtime.Chain, who: AccountId)
    ensures var tx := Runtime.Tx(Signed(who), Runtime.SubmitDisplay);
            var after := Runtime.Apply(c, tx);
            && after.circuits.indexed.Some? && after.garble.indexed.None?
            && M.HasWork(M.OcwCircuits, after.circuits.indexed)
            && IndexingData.ReadCircuits(after.circuits.indexed) == IndexingData.Circuits(None, 1, IndexingData.Display)
            && after.garble.pending == c.garble.pending
  {
    var tx := Runtime.Tx(Signed(who), Runtime.SubmitDisplay);
    Ledger.RequestsReadBack(c, who, []);
    CircuitsSubmitIsCounted(c, tx);
    Ledger.StepIndexed(c, tx);
    Ledger.OthersKeepPending(c, tx);
    hide Runtime.Apply, Runtime.Outcome, IndexingData.ReadCircuits, M.HasWork;
  }

  lemma StripWritten(c: Runtime.Chain, who: AccountId, txMsg: Bytes, draws: Garble.Draws)
    requires |c.circuits.package.messageCid| <= 64 && |c.circuits.package.pinpadCid| <= 64 && |txMsg| < 0x1_0000_0000
    requires c.circuits.package.messageNbDigits > 0 && c.circuits.package.pinpadNbDigits > 0
    ensures var tx := Runtime.Tx(Signed(who), Runtime.RequestStrip(txMsg, draws));
            var after := Runtime.Apply(c, tx);
            && after.garble.indexed.Some? && after.circuits.indexed.None?
            && M.HasWork(M.OcwGarble, after.garble.indexed)
            && IndexingData.ReadGarble(after.garble.indexed) == Garble.StripJob(c.circuits.package, txMsg, draws)
            && after.garble.pending == c.garble.pending
  {
    var tx := Runtime.Tx(Signed(who), Runtime.RequestStrip(txMsg, draws));
    Ledger.StripRequestExactly(c, Signed(who), txMsg, draws);
    SubmitIsCounted(c, tx);
    Ledger.CircuitsStepIndexed(c, tx);
    Ledger.OthersKeepPending(c, tx);
    hide Runtime.Apply, Runtime.Outcome, IndexingData.ReadGarble, M.HasWork, Garble.StripJob;
  }

  /** What a strip request and its reply need to go through. */
  predicate CanStore(c: Runtime.Chain, txMsg: Bytes, rpc: Offchain.Rpc, node: AccountId) {
    var package := c.circuits.package;
    && |package.messageCid| <= 64 && |package.pinpadCid| <= 64
    && package.messageNbDigits > 0 && package.pinpadNbDigits > 0
    && |txMsg| < 0x1_0000_0000 && TextsAreUtf8(package, txMsg)
    && rpc.StripReplies? && |rpc.messagePgarbled| <= 64 && |rpc.messagePackmsg| <= 64
    && |rpc.pinpadPgarbled| <= 64 && |rpc.pinpadPackmsg| <= 64
    && |Garble.PendingOf(c.garble, node)| < 16
  }

  lemma CallbackLands(c: Runtime.Chain, node: AccountId, draws: Garble.Draws, rpc: Offchain.Rpc) returns (pad: Bytes)
    requires rpc.StripReplies? && |rpc.messagePgarbled| <= 64 && |rpc.messagePackmsg| <= 64
    requires |rpc.pinpadPgarbled| <= 64 && |rpc.pinpadPackmsg| <= 64 && |Garble.PendingOf(c.garble, node)| < 16
    ensures Ledger.PadOf(draws.swaps, pad)
    ensures var key, after := TxValidation.Key(node, rpc.messagePgarbled),
                              Runtime.Apply(c, Runtime.Tx(Signed(node), CallbackFor(draws, rpc)));
            && after.garble.indexed.None? && after.circuits.indexed.None?
            && key in after.validation.metadata
            && after.validation.metadata[key] == TxValidation.Package(draws.digits, pad)
  {
    var tx := Runtime.Tx(Signed(node), CallbackFor(draws, rpc));
    hide Runtime.Apply, Runtime.Outcome, Garble.PendingOf, Ledger.PadOf, CallbackFor;
    CallbackStoresAt(c, node, draws, rpc);
    pad :| StoredWith(c, Runtime.Apply(c, tx), node, rpc, draws, pad);
    hide StoresAt;
    StripCallbackFor(draws, rpc);
    CallbackIndexesNothing(c, node, CallbackFor(draws, rpc));
  }

  lemma StripCallbackFor(draws: Garble.Draws, rpc: Offchain.Rpc)
    requires rpc.StripReplies?
    ensures CallbackFor(draws, rpc).CallbackStrip?
  {
  }

  lemma CallbackIndexesNothing(c: Runtime.Chain, node: AccountId, call: Runtime.Call)
    requires call.CallbackStrip?
    ensures var after := Runtime.Apply(c, Runtime.Tx(Signed(node), call));
            after.garble.indexed.None? && after.circuits.indexed.None?
  {
    hide Runtime.Apply, Runtime.Outcome;
    Ledger.StepIndexed(c, Runtime.Tx(Signed(node), call));
    Ledger.CircuitsStepIndexed(c, Runtime.Tx(Signed(node), call));
  }

  /** A strip request, from any state: the digits and the pad it drew get stored for the node's account. */
  lemma CodeIsStored(s: State, who: AccountId, w: M.WorkerId, node: AccountId, txMsg: Bytes, draws: Garble.Draws,
                     rpc: Offchain.Rpc)
    returns (run: seq<Action>, t: State, pad: Bytes)
    requires Ready(s, M.OcwGarble, w) && CanStore(s.chain, txMsg, rpc, node)
    ensures t == Exec(s, run) && t.pool == s.pool && Ledger.PadOf(draws.swaps, pad)
    ensures var key := TxValidation.Key(node, rpc.messagePgarbled);
            && key in t.chain.validation.metadata
            && t.chain.validation.metadata[key] == TxValidation.Package(draws.digits, pad)
  {
    var tx := Runtime.Tx(Signed(who), Runtime.RequestStrip(txMsg, draws));
    StripWritten(s.chain, who, txMsg, draws);
    StripOutcome(s.chain.circuits.package, txMsg, draws, rpc);
    hide Runtime.Apply, Runtime.Outcome, M.HasWork, Next, Offchain.CallGarble, Garble.StripJob, TextsAreUtf8;
    hide Ledger.PadOf, IndexingData.ReadGarble;
    var asked := RequestArrives(s, tx, M.OcwGarble);
    var call := Reply(asked, M.OcwGarble, rpc, [node]).call;
    assert Garble.PendingOf(asked.chain.garble, node) == Garble.PendingOf(s.chain.garble, node);
    pad := CallbackLands(asked.chain, node, draws, rpc);
    hide Garble.PendingOf, CallbackFor;
    var served: seq<Action>;
    served, t := ServedAndIncluded(asked, M.OcwGarble, w, rpc, node);
    var single: seq<Action>;
    single, asked := Do(s, [], s, Extrinsic(tx));
    ExecJoins(s, single, asked, served);
    run := single + served;
  }

  /** From any state in which both mailboxes are ready and the list has room, a display request and a strip request,
      each served by an undisturbed worker, leave a code that its owner can use: whatever the request drew, typing
      the positions of the two digits on the drawn pad passes the check. */
  lemma CodeReachesItsUser(s: State, who: AccountId, v: M.WorkerId, w: M.WorkerId, node: AccountId,
                           package: Circuits.DisplayPackage, txMsg: Bytes, draws: Garble.Draws, rpc: Offchain.Rpc)
    returns (run: seq<Action>, pad: Bytes, input: Bytes)
    requires Ready(s, M.OcwCircuits, v) && Ready(s, M.OcwGarble, w)
    requires CanStore(s.chain.(circuits := s.chain.circuits.(package := package)), txMsg, rpc, node)
    ensures Ledger.PadOf(draws.swaps, pad) && |input| == 2
    ensures forall k :: 0 <= k < 2 ==> input[k] < 10 && pad[input[k]] == draws.digits[k]
    ensures var check := Runtime.Tx(Signed(node), Runtime.CheckInput(rpc.messagePgarbled, input));
            Runtime.Outcome(Exec(s, run).chain, check).Done?
  {
    var installed, stored: State;
    var first, second;
    first, installed := DisplayIsInstalled(s, who, v, node, package);
    assert Garble.PendingOf(installed.chain.garble, node) == Garble.PendingOf(s.chain.garble, node);
    second, stored, pad := CodeIsStored(installed, who, w, node, txMsg, draws, rpc);
    ExecJoins(s, first, installed, second);
    run := first + second;
    input := CodeOpens(stored.chain, node, rpc.messagePgarbled, draws, pad);
  }

  lemma CodeOpens(c: Runtime.Chain, who: AccountId, cid: Bytes, draws: Garble.Draws, pad: Bytes)
    returns (input: Bytes)
    requires Ledger.PadOf(draws.swaps, pad) && |cid| <= 64
    requires var key := TxValidation.Key(who, cid);
             key in c.validation.metadata && c.validation.metadata[key] == TxValidation.Package(draws.digits, pad)
    ensures |input| == 2 && forall k :: 0 <= k < 2 ==> input[k] < 10 && pad[input[k]] == draws.digits[k]
    ensures Runtime.Outcome(c, Runtime.Tx(Signed(who), Runtime.CheckInput(cid, input))).Done?
  {
    Ledger.SwapsOfPad(pad, draws);
    Ledger.Shuffling(draws);
    var pkg := TxValidation.Package(draws.digits, pad);
    OneTimeCode.PositionsPass(pkg);
    input := OneTimeCode.PressesFor(pkg);
    hide *;
    CheckSucceeds(c, who, cid, input);
  }

  lemma CheckSucceeds(c: Runtime.Chain, who: AccountId, cid: Bytes, input: Bytes)
    requires |cid| <= 64 && TxValidation.Key(who, cid) in c.validation.metadata
    requires TxValidation.Check(c.validation.metadata[TxValidation.Key(who, cid)], input) == TxValidation.Pass
    ensures Runtime.Outcome(c, Runtime.Tx(Signed(who), Runtime.CheckInput(cid, input))).Done?
  {
    hide TxValidation.Check;
  }
}
