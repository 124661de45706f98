/** From a strip request to the code a user can type: what every run of the pipeline delivers. */
module EndToEnd {
  import opened Common
  import opened Pipeline
  import opened Settlement
  import Garble
  import IndexingData
  import Interleaving
  import Ledger
  import M = Mailbox
  import OneTimeCode
  import Runtime
  import TxValidation
  import Offchain = OffchainWorker

  // ---------- what is in the pool ----------

  /** This step settles the strip job that extrinsic `i` asked for, a job its worker had taken, and pushes this
      callback for one of the accounts the node signs with. */
  ghost predicate Pushes(s: State, a: Action, i: nat, tx: Runtime.Tx) {
    && StripSettles(s, a) && SettlesRequest(s, a, i) && Answered(s, a, i)
    && s.garble.workers[a.w].seen.job.value in s.garble.taken
    && tx.origin.Signed? && tx.origin.who in a.signers && tx.call == CallbackFor(s.trace[i].call.draws, a.rpc)
  }

  ghost predicate PushedAt(expired: M.Expiry, actions: seq<Action>, k: nat, i: nat, tx: Runtime.Tx) {
    k < |actions| && Pushes(Exec(Init(expired), actions[..k]), actions[k], i, tx)
  }

  /** A pushed callback never writes metadata directly, and a strip callback comes from one request's job. */
  ghost predicate Explained(expired: M.Expiry, actions: seq<Action>, tx: Runtime.Tx) {
    && !tx.call.StoreMetadata?
    && (tx.call.CallbackStrip? ==> exists k: nat, i: nat :: PushedAt(expired, actions, k, i, tx))
  }

  ghost predicate PoolExplained(expired: M.Expiry, actions: seq<Action>) {
    var pool := Exec(Init(expired), actions).pool;
    forall n :: 0 <= n < |pool| ==> Explained(expired, actions, pool[n].tx)
  }

  lemma PushedLasts(expired: M.Expiry, actions: seq<Action>, n: nat, k: nat, i: nat, tx: Runtime.Tx)
    requires n <= |actions| && PushedAt(expired, actions[..n], k, i, tx)
    ensures PushedAt(expired, actions, k, i, tx)
  {
    hide Exec, Pushes;
    assert actions[..n][..k] == actions[..k];
  }

  lemma ExplainedLasts(expired: M.Expiry, actions: seq<Action>, n: nat, tx: Runtime.Tx)
    requires n <= |actions| && Explained(expired, actions[..n], tx)
    ensures Explained(expired, actions, tx)
  {
    hide PushedAt;
    if tx.call.CallbackStrip? {
      var k: nat, i: nat :| PushedAt(expired, actions[..n], k, i, tx);
      PushedLasts(expired, actions, n, k, i, tx);
    }
  }

  lemma StripComesFromStripJob(p: M.Pallet, cell: Option<Bytes>, rpc: Offchain.Rpc, signs: bool)
    requires Offchain.Process(p, cell, rpc, signs).Push?
    ensures !Offchain.Process(p, cell, rpc, signs).call.StoreMetadata?
    ensures Offchain.Process(p, cell, rpc, signs).call.CallbackStrip? ==>
              p.OcwGarble? && IndexingData.ReadGarble(cell).kind.GarbleAndStrip?
  {
    hide IndexingData.ReadGarble, IndexingData.ReadCircuits, Offchain.Utf8.IsUtf8;
  }

  lemma ReachableTook(expired: M.Expiry, actions: seq<Action>)
    ensures M.ClearedTook(Exec(Init(expired), actions).garble)
  {
    hide Next, M.Next, MailStep;
    MailboxRuns(Init(expired), actions, M.OcwGarble);
    M.ReachableClearedTook(M.OcwGarble, expired, Projected(Init(expired), actions, M.OcwGarble));
  }

  /** What the last step of a run publishes is explained. */
  lemma PublishedIsExplained(expired: M.Expiry, actions: seq<Action>, who: AccountId)
    requires actions != []
    requires var s, a := Exec(Init(expired), actions[..|actions| - 1]), actions[|actions| - 1];
             Waiting(s, a) && SettleOutcome(s, a).Push? && who in a.signers
    ensures var s, a := Exec(Init(expired), actions[..|actions| - 1]), actions[|actions| - 1];
            Explained(expired, actions, Runtime.Tx(Signed(who), SettleOutcome(s, a).call))
  {
    var front, a := actions[..|actions| - 1], actions[|actions| - 1];
    var s := Exec(Init(expired), front);
    StripComesFromStripJob(a.p, s.Box(a.p).workers[a.w].seen.bytes, a.rpc, a.signers != []);
    if SettleOutcome(s, a).call.CallbackStrip? {
      ReachableBoxes(expired, front);
      JobsAreRequests(expired, front);
      ReachableTook(expired, front);
      hide Exec, BoxesSound, AllEncode, Offchain.Process, Answered, CallbackFor, IndexingData.ReadGarble;
      hide Ledger.AsksAt;
      var i := SettledJobIsRequest(s, a);
      assert PushedAt(expired, actions, |front|, i, Runtime.Tx(Signed(who), SettleOutcome(s, a).call));
    }
  }

  /** Where the entries of the next pool come from. */
  lemma NextPoolEntry(s: State, a: Action, n: nat)
    requires n < |Next(s, a).pool|
    ensures var tx := Next(s, a).pool[n].tx;
            || (exists m :: 0 <= m < |s.pool| && s.pool[m].tx == tx)
            || (Waiting(s, a) && SettleOutcome(s, a).Push?
                && exists k :: 0 <= k < |a.signers| && tx == Runtime.Tx(Signed(a.signers[k]), SettleOutcome(s, a).call))
  {
    hide M.Next, MailStep, SettleOutcome, Executed, PublishesStrip, Runtime.Apply;
    var tx := Next(s, a).pool[n].tx;
    if a.Include? && a.i < |s.pool| {
      assert s.pool[if n < a.i then n else n + 1].tx == tx;
    } else if n < |s.pool| {
      assert s.pool[n].tx == tx;
    } else {
      assert tx == Runtime.Tx(Signed(a.signers[n - |s.pool|]), SettleOutcome(s, a).call);
    }
  }

  /** Every strip callback in the pool, in any run, was pushed when one taken job settled, and carries unchanged what
      the request of that job drew. */
  lemma {:induction false} DeliveredUnchanged(expired: M.Expiry, actions: seq<Action>)
    ensures PoolExplained(expired, actions)
  {
    if actions == [] {
    } else {
      hide Next, Waiting, SettleOutcome, Explained;
      var front, a := actions[..|actions| - 1], actions[|actions| - 1];
      DeliveredUnchanged(expired, front);
      var s, t := Exec(Init(expired), front), Exec(Init(expired), actions);
      forall n | 0 <= n < |t.pool| ensures Explained(expired, actions, t.pool[n].tx) {
        NextPoolEntry(s, a, n);
        if m :| 0 <= m < |s.pool| && s.pool[m].tx == t.pool[n].tx {
          ExplainedLasts(expired, actions, |front|, s.pool[m].tx);
        } else {
          var k :| 0 <= k < |a.signers| && t.pool[n].tx == Runtime.Tx(Signed(a.signers[k]), SettleOutcome(s, a).call);
          PublishedIsExplained(expired, actions, a.signers[k]);
        }
      }
    }
  }

  // ---------- what is stored ----------

  /** Step `a` executes an accepted call that stores a package under `key`. */
  predicate Overwrites(s: State, a: Action, key: TxValidation.Key) {
    var tx := Executed(s, a);
    tx.Some? && Ledger.Stores(tx.value, key).Some? && Runtime.Outcome(s.chain, tx.value).Done?
  }

  /** The step of the run that last stored under `key`. */
  function LastOverwrite(expired: M.Expiry, actions: seq<Action>, key: TxValidation.Key): (n: Option<nat>)
    ensures n.Some? ==> n.value < |actions|
  {
    if actions == [] then None
    else
      var front := actions[..|actions| - 1];
      if Overwrites(Exec(Init(expired), front), actions[|actions| - 1], key) then Some(|front|)
      else LastOverwrite(expired, front, key)
  }

  /** That step executed a pushed callback rather than what somebody sent by hand. */
  predicate FromPool(expired: M.Expiry, actions: seq<Action>, key: TxValidation.Key) {
    var n := LastOverwrite(expired, actions, key);
    n.Some? && actions[n.value].Include?
  }

  /** The extrinsic that step `n` of the run executes. */
  function ExecutedAt(expired: M.Expiry, actions: seq<Action>, n: nat): Option<Runtime.Tx>
    requires n < |actions|
  {
    Executed(Exec(Init(expired), actions[..n]), actions[n])
  }

  lemma NextStores(s: State, a: Action, key: TxValidation.Key)
    ensures Ledger.Lookup(Next(s, a).chain, key)
            == if Overwrites(s, a, key) then Some(Ledger.Stores(Executed(s, a).value, key).value.package)
               else Ledger.Lookup(s.chain, key)
  {
    hide M.Next, MailStep, NextPool, PublishesStrip, Executed, Runtime.Apply, Runtime.Outcome, Ledger.Stores;
    var tx := Executed(s, a);
    if tx.Some? { Ledger.StepWrites(s.chain, tx.value, key); }
  }

  /** The stored package is the one of the last accepted store for its key, and the account of the key signed it. */
  lemma {:induction false} StoredByLast(expired: M.Expiry, actions: seq<Action>, key: TxValidation.Key)
    ensures var n, now := LastOverwrite(expired, actions, key), Ledger.Lookup(Exec(Init(expired), actions).chain, key);
            && (now.Some? <==> n.Some?)
            && (n.Some? ==>
                  var call := ExecutedAt(expired, actions, n.value);
                  && call.Some? && Ledger.Stores(call.value, key).Some?
                  && now == Some(Ledger.Stores(call.value, key).value.package))
  {
    hide Next, Executed, Ledger.Stores, Runtime.Outcome;
    if actions == [] {
    } else {
      var front := actions[..|actions| - 1];
      StoredByLast(expired, front, key);
      NextStores(Exec(Init(expired), front), actions[|actions| - 1], key);
      var n := LastOverwrite(expired, front, key);
      if n.Some? { assert front[..n.value] == actions[..n.value]; }
    }
  }

  /** Two digits and a rearrangement of the ten pad digits. */
  ghost predicate IsCode(pkg: TxValidation.Package) {
    |pkg.message| == 2 && OneTimeCode.AreDigits(pkg.message) && OneTimeCode.IsPermutation(pkg.pinpad)
  }

  lemma DrawnIsCode(draws: Garble.Draws)
    ensures IsCode(TxValidation.Package(draws.digits, Garble.PinpadOf(draws)))
    ensures Ledger.PadOf(draws.swaps, Garble.PinpadOf(draws))
  {
    Ledger.Shuffling(draws);
    Ledger.PadIsShuffled(draws);
    hide Ledger.PadOf, OneTimeCode.IsPermutation;
  }

  /** This step settles the job that extrinsic `i` asked for, one its worker had taken; the service named it with the
      cid of `key`, the account of `key` signs, and the package is the digits and the pad extrinsic `i` drew. */
  ghost predicate Makes(s: State, a: Action, i: nat, key: TxValidation.Key, pkg: TxValidation.Package) {
    && StripSettles(s, a) && SettlesRequest(s, a, i) && Answered(s, a, i)
    && s.garble.workers[a.w].seen.job.value in s.garble.taken
    && key.account in a.signers && key.cid == a.rpc.messagePgarbled
    && pkg.message == s.trace[i].call.draws.digits && Ledger.PadOf(s.trace[i].call.draws.swaps, pkg.pinpad)
  }

  ghost predicate MadeBy(expired: M.Expiry, actions: seq<Action>, key: TxValidation.Key, pkg: TxValidation.Package,
                         k: nat, i: nat)
  {
    k < |actions| && Makes(Exec(Init(expired), actions[..k]), actions[k], i, key, pkg)
  }

  lemma PushMakes(s: State, a: Action, i: nat, tx: Runtime.Tx, key: TxValidation.Key)
    requires Pushes(s, a, i, tx) && Ledger.Stores(tx, key).Some?
    ensures Makes(s, a, i, key, Ledger.Stores(tx, key).value.package) && IsCode(Ledger.Stores(tx, key).value.package)
  {
    DrawnIsCode(s.trace[i].call.draws);
    hide StripSettles, SettlesRequest, Answered, IsCode, Garble.PinpadOf, Ledger.PadOf;
  }

  /** What is stored under a key, in every run and whatever anyone sends: the package of the last accepted store, which
      the account of the key signed. If that was a pushed callback, one settled job and one accepted request explain
      it: the request drew it, a worker took the job, and the service's reply gave the cid. If not, the account sent
      it by hand. So the package is two digits and a rearranged pad exactly when it came from the pool, or the
      account's own call carried such a package: nobody else can spoil an account's codes. */
  lemma StoredCodesExactly(expired: M.Expiry, actions: seq<Action>, key: TxValidation.Key)
    ensures var s, n := Exec(Init(expired), actions), LastOverwrite(expired, actions, key);
            && (key in s.chain.validation.metadata <==> n.Some?)
            && (n.Some? ==>
                  var call, pkg := ExecutedAt(expired, actions, n.value), s.chain.validation.metadata[key];
                  && call.Some? && call.value.origin == Signed(key.account) && Ledger.Stores(call.value, key).Some?
                  && pkg == Ledger.Stores(call.value, key).value.package
                  && (FromPool(expired, actions, key) ==>
                        exists k: nat, i: nat :: MadeBy(expired, actions, key, pkg, k, i))
                  && (!FromPool(expired, actions, key) ==> actions[n.value] == Extrinsic(call.value))
                  && (IsCode(pkg) <==>
                        || FromPool(expired, actions, key)
                        || IsCode(Ledger.Stores(actions[n.value].tx, key).value.package)))
  {
    StoredByLast(expired, actions, key);
    var n := LastOverwrite(expired, actions, key);
    if n.Some? {
      var call := ExecutedAt(expired, actions, n.value).value;
      hide IsCode, LastOverwrite;
      if actions[n.value].Include? {
        FromPoolIsMade(expired, actions, n.value, key);
      } else {
        assert actions[n.value] == Extrinsic(call);
      }
    }
  }

  lemma PushedIsMade(expired: M.Expiry, actions: seq<Action>, k: nat, i: nat, tx: Runtime.Tx, key: TxValidation.Key)
    requires PushedAt(expired, actions, k, i, tx) && Ledger.Stores(tx, key).Some?
    ensures MadeBy(expired, actions, key, Ledger.Stores(tx, key).value.package, k, i)
    ensures IsCode(Ledger.Stores(tx, key).value.package)
  {
    hide Exec, IsCode, Pushes, Makes, Ledger.Stores;
    PushMakes(Exec(Init(expired), actions[..k]), actions[k], i, tx, key);
  }

  lemma ExplainedIsMade(expired: M.Expiry, actions: seq<Action>, tx: Runtime.Tx, key: TxValidation.Key)
    requires Explained(expired, actions, tx) && Ledger.Stores(tx, key).Some?
    ensures var pkg := Ledger.Stores(tx, key).value.package;
            IsCode(pkg) && exists k: nat, i: nat :: MadeBy(expired, actions, key, pkg, k, i)
  {
    assert tx.call.CallbackStrip?;
    hide IsCode, PushedAt, MadeBy, Ledger.Stores;
    var k: nat, i: nat :| PushedAt(expired, actions, k, i, tx);
    PushedIsMade(expired, actions, k, i, tx, key);
  }

  lemma FromPoolIsMade(expired: M.Expiry, actions: seq<Action>, n: nat, key: TxValidation.Key)
    requires n < |actions| && actions[n].Include?
    requires var call := ExecutedAt(expired, actions, n); call.Some? && Ledger.Stores(call.value, key).Some?
    ensures var pkg := Ledger.Stores(ExecutedAt(expired, actions, n).value, key).value.package;
            IsCode(pkg) && exists k: nat, i: nat :: MadeBy(expired, actions, key, pkg, k, i)
  {
    hide Exec, IsCode, MadeBy, Ledger.Stores, Explained;
    DeliveredUnchanged(expired, actions[..n]);
    var call := ExecutedAt(expired, actions, n).value;
    assert call == Exec(Init(expired), actions[..n]).pool[actions[n].i].tx;
    ExplainedLasts(expired, actions, n, call);
    ExplainedIsMade(expired, actions, call, key);
  }

  /** On a stored code exactly four byte strings pass the check. */
  lemma CodeOpensToFour(txs: seq<Runtime.Tx>, key: TxValidation.Key, input: Bytes)
    requires key in Ledger.Run(txs).validation.metadata && IsCode(Ledger.Run(txs).validation.metadata[key])
    ensures var c := Ledger.Run(txs);
            var pkg := c.validation.metadata[key];
            && Fits(pkg.pinpad, DIGITS_CAPACITY) && |OneTimeCode.Accepted(pkg)| == 4
            && (Runtime.Outcome(c, Runtime.Tx(Signed(key.account), Runtime.CheckInput(key.cid, input))).Done?
                <==> input in OneTimeCode.Accepted(pkg))
  {
    var pkg := Ledger.Run(txs).validation.metadata[key];
    OneTimeCode.PermutationCount(pkg);
    Four();
    OneTimeCode.AcceptedAreThose(pkg, input);
    Ledger.MetadataIsLastWrite(txs, key);
    Ledger.VerdictFromLastWrite(txs, key.account, key.cid, input);
    OneTimeCode.CheckExactly(pkg, input);
  }

  lemma Four()
    ensures OneTimeCode.Pow2(2) == 4
  {
  }

  /** End to end: if the last store under a key was a pushed callback, then whatever anyone else sent, the generator
      drew, the service answered, and however workers interleaved, crashed or lost their locks, the package stored
      there is what one accepted strip request drew; it has two digits and a rearranged pad, and exactly four byte
      strings pass the check. */
  lemma PooledCodesAreSound(expired: M.Expiry, actions: seq<Action>, key: TxValidation.Key, input: Bytes)
    requires FromPool(expired, actions, key)
    ensures var s := Exec(Init(expired), actions);
            && key in s.chain.validation.metadata
            && var pkg := s.chain.validation.metadata[key];
               && (exists k: nat, i: nat :: MadeBy(expired, actions, key, pkg, k, i)) && IsCode(pkg)
               && Fits(pkg.pinpad, DIGITS_CAPACITY) && |OneTimeCode.Accepted(pkg)| == 4
               && (Runtime.Outcome(s.chain, Runtime.Tx(Signed(key.account), Runtime.CheckInput(key.cid, input))).Done?
                   <==> input in OneTimeCode.Accepted(pkg))
  {
    StoredCodesExactly(expired, actions, key);
    ChainRuns(expired, actions);
    assert LastOverwrite(expired, actions, key).Some?;
    hide *;
    CodeOpensToFour(Exec(Init(expired), actions).trace, key, input);
  }

  /** The account of the key stores nothing under it by hand. */
  predicate HandsOff(a: Action, key: TxValidation.Key) {
    a.Extrinsic? ==> Ledger.Stores(a.tx, key).None?
  }

  lemma {:induction false} HandsOffMeansFromPool(expired: M.Expiry, actions: seq<Action>, key: TxValidation.Key)
    requires forall i :: 0 <= i < |actions| ==> HandsOff(actions[i], key)
    ensures LastOverwrite(expired, actions, key).Some? ==> FromPool(expired, actions, key)
  {
    hide Exec, Runtime.Outcome, Ledger.Stores;
    if actions == [] {
    } else {
      HandsOffMeansFromPool(expired, actions[..|actions| - 1], key);
      assert HandsOff(actions[|actions| - 1], key);
    }
  }

  /** So it is enough that the account of the key stores nothing there by hand, whatever the other accounts do. */
  lemma StoredCodesAreSound(expired: M.Expiry, actions: seq<Action>, key: TxValidation.Key, input: Bytes)
    requires forall i :: 0 <= i < |actions| ==> HandsOff(actions[i], key)
    requires key in Exec(Init(expired), actions).chain.validation.metadata
    ensures var s := Exec(Init(expired), actions);
            var pkg := s.chain.validation.metadata[key];
            && (exists k: nat, i: nat :: MadeBy(expired, actions, key, pkg, k, i)) && IsCode(pkg)
            && Fits(pkg.pinpad, DIGITS_CAPACITY) && |OneTimeCode.Accepted(pkg)| == 4
            && (Runtime.Outcome(s.chain, Runtime.Tx(Signed(key.account), Runtime.CheckInput(key.cid, input))).Done?
                <==> input in OneTimeCode.Accepted(pkg))
  {
    StoredCodesExactly(expired, actions, key);
    HandsOffMeansFromPool(expired, actions, key);
    hide *;
    PooledCodesAreSound(expired, actions, key, input);
  }

  /** By hand an account can spoil its own: `store_metadata` is open to it, and stores a package for which the empty
      input, and nothing else, passes. */
  lemma DirectStoreEscapes(expired: M.Expiry, who: AccountId) returns (run: seq<Action>)
    ensures var s, key := Exec(Init(expired), run), TxValidation.Key(who, []);
            && key in s.chain.validation.metadata && s.chain.validation.metadata[key] == TxValidation.Package([], [])
            && |OneTimeCode.Accepted(s.chain.validation.metadata[key])| == 1
            && TxValidation.Check(s.chain.validation.metadata[key], []) == TxValidation.Pass
  {
    hide M.Next, MailStep, NextPool, PublishesStrip;
    var tx := Runtime.Tx(Signed(who), Runtime.StoreMetadata([], [], []));
    run := [Extrinsic(tx)];
    assert run[..0] == [];
    assert Exec(Init(expired), run).chain == Runtime.Apply(Runtime.GENESIS, tx);
    OneTimeCode.CheckExactly(TxValidation.Package([], []), []);
    OneTimeCode.AcceptedCount(TxValidation.Package([], []));
  }

  // ---------- no job twice ----------

  /** In the pipeline too, whatever users send meanwhile, for either pallet: with timely holders no job is processed
      twice exactly when no worker clears the cell after locking it late, and a single job is not exactly when no
      worker carrying it does; what workers erase is what they take, each
      job once, exactly when each clear finds the job its worker read; a job not taken twice is delivered or fails at
      most once; and no job is taken more often than read. */
  lemma JobsProcessedOnce(expired: M.Expiry, actions: seq<Action>, p: M.Pallet, j: M.JobId)
    ensures var box := Exec(Init(expired), actions).Box(p);
            var start, steps := M.Init(p, expired), Projected(Init(expired), actions, p);
            && (Interleaving.TimelyRun(start, steps) ==>
                  && (Distinct(box.taken) <==> Interleaving.NoLateClear(start, steps))
                  && (multiset(box.taken)[j] <= 1 <==> Interleaving.NoLateClearOf(start, steps, j)))
            && (Interleaving.Accounted(box) <==> Interleaving.FaithfulRun(start, steps))
            && (multiset(box.taken)[j] <= 1 ==> multiset(box.delivered)[j] + multiset(box.failed)[j] <= 1)
            && multiset(box.taken)[j] <= multiset(box.snapshots)[j]
  {
    hide Next, M.Next, MailStep, Distinct, Interleaving.Accounted;
    MailboxRuns(Init(expired), actions, p);
    var start, steps := M.Init(p, expired), Projected(Init(expired), actions, p);
    Interleaving.TakenAtMostAsRead(p, expired, steps, j);
    Interleaving.TakenIsErasedExactly(p, expired, steps);
    Interleaving.EachTakeEndsOnce(p, expired, steps, j);
    if Interleaving.TimelyRun(start, steps) {
      Interleaving.AtMostOnceExactly(p, expired, steps);
      Interleaving.JobAtMostOnceExactly(p, expired, steps, j);
    }
  }

  // ---------- every strip callback ----------

  function StripsBy(txs: seq<Runtime.Tx>, who: AccountId): nat {
    if txs == [] then 0
    else StripsBy(txs[..|txs| - 1], who) + if Ledger.IsStripBy(txs[|txs| - 1], who) then 1 else 0
  }

  /** Strip callbacks of `who` that the chain executed and refused. */
  function RefusedStrips(txs: seq<Runtime.Tx>, who: AccountId): nat {
    if txs == [] then 0
    else RefusedStrips(txs[..|txs| - 1], who)
         + if Ledger.IsStripBy(txs[|txs| - 1], who) && !Ledger.LastAccepted(txs) then 1 else 0
  }

  function WaitingStrips(pool: seq<Pushed>, who: AccountId): nat {
    if pool == [] then 0
    else WaitingStrips(pool[..|pool| - 1], who) + if Ledger.IsStripBy(pool[|pool| - 1].tx, who) then 1 else 0
  }

  lemma {:induction false} AcceptedOrRefused(txs: seq<Runtime.Tx>, who: AccountId)
    ensures StripsBy(txs, who) == |Ledger.AcceptedEntries(txs, who)| + RefusedStrips(txs, who)
  {
    hide Ledger.LastAccepted;
    if txs == [] {
    } else {
      AcceptedOrRefused(txs[..|txs| - 1], who);
    }
  }

  lemma {:induction false} WaitingConcat(a: seq<Pushed>, b: seq<Pushed>, who: AccountId)
    ensures WaitingStrips(a + b, who) == WaitingStrips(a, who) + WaitingStrips(b, who)
  {
    if b == [] {
      assert a + b == a;
    } else {
      assert (a + b)[..|a + b| - 1] == a + b[..|b| - 1];
      WaitingConcat(a, b[..|b| - 1], who);
    }
  }

  lemma WaitingWithout(pool: seq<Pushed>, i: nat, who: AccountId)
    requires i < |pool|
    ensures WaitingStrips(pool, who)
            == WaitingStrips(pool[..i] + pool[i + 1..], who) + if Ledger.IsStripBy(pool[i].tx, who) then 1 else 0
  {
    assert pool == pool[..i] + ([pool[i]] + pool[i + 1..]);
    WaitingConcat(pool[..i], [pool[i]] + pool[i + 1..], who);
    WaitingConcat([pool[i]], pool[i + 1..], who);
    WaitingConcat(pool[..i], pool[i + 1..], who);
    assert [pool[i]][..0] == [];
  }

  lemma {:induction false} WaitingFanOut(signers: seq<AccountId>, call: Runtime.Call, p: M.Pallet,
                                         j: Option<M.JobId>, who: AccountId)
    ensures WaitingStrips(FanOut(signers, call, p, j), who) == if call.CallbackStrip? then multiset(signers)[who] else 0
  {
    if signers == [] {
    } else {
      var front, last := signers[..|signers| - 1], signers[|signers| - 1];
      WaitingFanOut(front, call, p, j, who);
      assert signers == front + [last];
      var all := FanOut(signers, call, p, j);
      assert all[..|all| - 1] == FanOut(front, call, p, j);
    }
  }

  /** How many strip callbacks of `who` a step brings into the world: one for each time `who` is among the signers
      of a published strip reply, and one if `who` sends a strip callback by hand. */
  function Adds(s: State, a: Action, who: AccountId): nat {
    (if PublishesStrip(s, a) then multiset(a.signers)[who] else 0)
    + if a.Extrinsic? && Ledger.IsStripBy(a.tx, who) then 1 else 0
  }

  function Created(s: State, actions: seq<Action>, who: AccountId): nat {
    if actions == [] then 0
    else
      var front := actions[..|actions| - 1];
      Created(s, front, who) + Adds(Exec(s, front), actions[|actions| - 1], who)
  }

  function Known(s: State, who: AccountId): nat {
    WaitingStrips(s.pool, who) + StripsBy(s.trace, who)
  }

  lemma TraceStrips(txs: seq<Runtime.Tx>, tx: Runtime.Tx, who: AccountId)
    ensures StripsBy(txs + [tx], who) == StripsBy(txs, who) + if Ledger.IsStripBy(tx, who) then 1 else 0
  {
    assert (txs + [tx])[..|txs|] == txs;
  }

  lemma SettleAdds(s: State, a: Action, who: AccountId)
    requires Waiting(s, a) && SettleOutcome(s, a).Push?
    ensures Known(Next(s, a), who) == Known(s, who) + Adds(s, a, who)
  {
    hide M.Next, MailStep, SettleOutcome, Runtime.Apply, FanOut;
    var call, job := SettleOutcome(s, a).call, s.Box(a.p).workers[a.w].seen.job;
    WaitingConcat(s.pool, FanOut(a.signers, call, a.p, job), who);
    WaitingFanOut(a.signers, call, a.p, job, who);
  }

  lemma NextAdds(s: State, a: Action, who: AccountId)
    ensures Known(Next(s, a), who) == Known(s, who) + Adds(s, a, who)
  {
    hide M.Next, MailStep, SettleOutcome, Runtime.Apply, FanOut, WaitingStrips, StripsBy;
    var tx := Executed(s, a);
    if tx.Some? {
      TraceStrips(s.trace, tx.value, who);
      if a.Include? { WaitingWithout(s.pool, a.i, who); }
    } else if Waiting(s, a) && SettleOutcome(s, a).Push? {
      SettleAdds(s, a, who);
    }
  }

  lemma {:induction false} KnownIsCreated(expired: M.Expiry, actions: seq<Action>, who: AccountId)
    ensures Known(Exec(Init(expired), actions), who) == Created(Init(expired), actions, who)
  {
    if actions == [] {
    } else {
      hide Next, Known, Adds;
      KnownIsCreated(expired, actions[..|actions| - 1], who);
      NextAdds(Exec(Init(expired), actions[..|actions| - 1]), actions[|actions| - 1], who);
    }
  }

  /** No strip callback is lost or made up, in any run and for any account: those its nodes signed and those it sent
      by hand are its pending entries, its refused callbacks and those still in the pool. */
  lemma StripCallbacksAreAccountedFor(expired: M.Expiry, actions: seq<Action>, who: AccountId)
    ensures var s := Exec(Init(expired), actions);
            |Garble.PendingOf(s.chain.garble, who)| + RefusedStrips(s.trace, who) + WaitingStrips(s.pool, who)
            == Created(Init(expired), actions, who)
  {
    KnownIsCreated(expired, actions, who);
    ChainRuns(expired, actions);
    var s := Exec(Init(expired), actions);
    AcceptedOrRefused(s.trace, who);
    Ledger.PendingListIsAccepted(s.trace, who);
  }

  /** `who` is among the signers of every published strip reply, once, and sends no strip callback by hand. */
  ghost predicate SignsOnce(s: State, a: Action, who: AccountId) {
    && (PublishesStrip(s, a) ==> multiset(a.signers)[who] == 1)
    && (a.Extrinsic? ==> !Ledger.IsStripBy(a.tx, who))
  }

  ghost predicate SignsAll(s: State, actions: seq<Action>, who: AccountId) {
    actions == []
    || var front := actions[..|actions| - 1];
       SignsAll(s, front, who) && SignsOnce(Exec(s, front), actions[|actions| - 1], who)
  }

  lemma {:induction false} CreatedByRuns(expired: M.Expiry, actions: seq<Action>, who: AccountId)
    requires SignsAll(Init(expired), actions, who)
    ensures Created(Init(expired), actions, who) == Exec(Init(expired), actions).stripRuns
  {
    hide M.Next, MailStep, PublishesStrip, NextPool, Executed, Runtime.Apply;
    if actions == [] {
    } else {
      CreatedByRuns(expired, actions[..|actions| - 1], who);
    }
  }

  /** So for an account that signs each published strip reply once, and no strip callback by hand, its list is as long
      as there were successful strip runs, but for its refused and waiting callbacks. */
  lemma StripRunsAreAccountedFor(expired: M.Expiry, actions: seq<Action>, who: AccountId)
    requires SignsAll(Init(expired), actions, who)
    ensures var s := Exec(Init(expired), actions);
            |Garble.PendingOf(s.chain.garble, who)| + RefusedStrips(s.trace, who) + WaitingStrips(s.pool, who)
            == s.stripRuns
  {
    StripCallbacksAreAccountedFor(expired, actions, who);
    CreatedByRuns(expired, actions, who);
  }
}
