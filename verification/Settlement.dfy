/** From a request to the pool: what becomes of each kind of job when its worker's remote calls end, stated by what
    the pushed callback does to a chain. */
module Settlement {
  import opened Common
  import opened Pipeline
  import Circuits
  import Garble
  import IndexingData
  import Ledger
  import M = Mailbox
  import Offchain = OffchainWorker
  import Runtime
  import TxValidation

  // ---------- how a job can end ----------

  /** One callback per signing account, all with this call. */
  predicate PushedByEach(before: seq<Pushed>, after: seq<Pushed>, signers: seq<AccountId>, call: Runtime.Call) {
    && |after| == |before| + |signers| && after[..|before|] == before
    && forall k :: 0 <= k < |signers| ==> after[|before| + k].tx == Runtime.Tx(Signed(signers[k]), call)
  }

  lemma FanOutIsUniform(s: State, a: Action)
    requires Waiting(s, a) && SettleOutcome(s, a).Push?
    ensures PushedByEach(s.pool, Next(s, a).pool, a.signers, SettleOutcome(s, a).call)
  {
    hide M.Next, MailStep, SettleOutcome, Executed, PublishesStrip, Runtime.Apply;
    var added := FanOut(a.signers, SettleOutcome(s, a).call, a.p, s.Box(a.p).workers[a.w].seen.job);
    assert Next(s, a).pool == s.pool + added;
  }

  /** The job a settling worker took. */
  function SettledJob(s: State, a: Action): Option<M.JobId>
    requires Waiting(s, a)
  {
    s.Box(a.p).workers[a.w].seen.job
  }

  /** Delivered: each account the node signs with has its transaction in the pool, all with this call. */
  predicate Published(s: State, a: Action, j: M.JobId, call: Runtime.Call)
    requires a.Settle?
  {
    && Next(s, a).Box(a.p).delivered == s.Box(a.p).delivered + [j]
    && PushedByEach(s.pool, Next(s, a).pool, a.signers, call)
  }

  /** Failed with a logged error: nothing is sent, and the worker goes on to drop its guard. */
  predicate Logged(s: State, a: Action, j: M.JobId)
    requires a.Settle?
  {
    var t := Next(s, a);
    && t.Box(a.p).failed == s.Box(a.p).failed + [j] && t.pool == s.pool
    && a.w in t.Box(a.p).workers && t.Box(a.p).workers[a.w].Sent?
  }

  /** Failed by a panic: nothing is sent, and the lock entry is left as it was. */
  predicate CrashedOn(s: State, a: Action, j: M.JobId)
    requires a.Settle?
  {
    var t := Next(s, a);
    && t.Box(a.p).failed == s.Box(a.p).failed + [j] && t.pool == s.pool && t.Box(a.p).lock == s.Box(a.p).lock
    && a.w in t.Box(a.p).workers && t.Box(a.p).workers[a.w].Crashed?
  }

  lemma SettleStep(s: State, a: Action)
    requires Waiting(s, a)
    ensures Next(s, a).Box(a.p) == M.Next(s.Box(a.p), Offchain.Settled(a.w, SettleOutcome(s, a)))
    ensures !SettleOutcome(s, a).Push? ==> Next(s, a).pool == s.pool
  {
    hide M.Next, SettleOutcome, PublishesStrip, Runtime.Apply, Offchain.Settled;
  }

  lemma StepEnds(box: M.State, w: M.WorkerId, outcome: Offchain.Outcome)
    requires w in box.workers && box.workers[w].Cleared? && box.workers[w].seen.job.Some?
    ensures var j, t := box.workers[w].seen.job.value, M.Next(box, Offchain.Settled(w, outcome));
            && w in t.workers
            && (outcome.Push? ==> t.delivered == box.delivered + [j])
            && (outcome.Quiet? ==> t.failed == box.failed + [j] && t.workers[w].Sent?)
            && (outcome.Panic? ==> t.failed == box.failed + [j] && t.lock == box.lock && t.workers[w].Crashed?)
  {
  }

  /** The outcome of the calls decides which of the three it is. */
  lemma SettleEnds(s: State, a: Action)
    requires Waiting(s, a) && SettledJob(s, a).Some?
    ensures var j, outcome := SettledJob(s, a).value, SettleOutcome(s, a);
            && (outcome.Push? ==> Published(s, a, j, outcome.call))
            && (outcome.Quiet? ==> Logged(s, a, j))
            && (outcome.Panic? ==> CrashedOn(s, a, j))
  {
    hide Next, SettleOutcome, PushedByEach, M.Next;
    SettleStep(s, a);
    StepEnds(s.Box(a.p), a.w, SettleOutcome(s, a));
    if SettleOutcome(s, a).Push? { FanOutIsUniform(s, a); }
  }

  // ---------- strip jobs ----------

  /** Behind each job is its request, and reading the job gives what was asked. */
  lemma JobIsRequest(s: State, j: M.JobId) returns (i: nat)
    requires AllEncode(s.garble.jobs, Ledger.JobsAsked(s.trace)) && j < |s.garble.jobs|
    ensures Ledger.AsksAt(s.trace, i, j)
    ensures IndexingData.ReadGarble(Some(s.garble.jobs[j])) == Ledger.JobsAsked(s.trace)[j]
  {
    hide IndexingData.ReadGarble, IndexingData.EncodeGarble, IndexingData.GarbleEncodable;
    hide Ledger.JobsAsked, Ledger.AsksAt;
    i := Ledger.RequestOf(s.trace, j);
    assert Encodes(s.garble.jobs[j], Ledger.JobsAsked(s.trace)[j]);
    IndexingData.GarbleReadsBack(Ledger.JobsAsked(s.trace)[j]);
  }

  predicate TextsAreUtf8(package: Circuits.DisplayPackage, txMsg: Bytes) {
    Offchain.Utf8.IsUtf8(package.messageCid) && Offchain.Utf8.IsUtf8(package.pinpadCid) && Offchain.Utf8.IsUtf8(txMsg)
  }

  /** The callback of a strip request: the service's four cids, and what the request drew. */
  function CallbackFor(draws: Garble.Draws, rpc: Offchain.Rpc): Runtime.Call
    requires rpc.StripReplies?
  {
    Runtime.CallbackStrip(Garble.StripCallback(
      rpc.messagePgarbled, rpc.messagePackmsg, draws.digits,
      rpc.pinpadPgarbled, rpc.pinpadPackmsg, Garble.PinpadOf(draws)))
  }

  lemma StripOutcome(package: Circuits.DisplayPackage, txMsg: Bytes, draws: Garble.Draws, rpc: Offchain.Rpc)
    ensures Offchain.CallGarble(Garble.StripJob(package, txMsg, draws), rpc)
            == if rpc.StripReplies? && TextsAreUtf8(package, txMsg) then Offchain.Push(CallbackFor(draws, rpc))
               else Offchain.Panic
  {
    hide Offchain.Utf8.IsUtf8, Garble.PinpadOf, Garble.Legal;
  }

  /** A garble worker's remote calls for a strip job come to their end. */
  predicate StripSettles(s: State, a: Action) {
    Waiting(s, a) && a.p.OcwGarble? && IndexingData.ReadGarble(s.garble.workers[a.w].seen.bytes).kind.GarbleAndStrip?
  }

  /** The job that settles is the one extrinsic `i` asked for. */
  ghost predicate SettlesRequest(s: State, a: Action, i: nat)
    requires StripSettles(s, a)
  {
    var seen := s.garble.workers[a.w].seen;
    seen.job.Some? && Ledger.AsksAt(s.trace, i, seen.job.value) && s.trace[i].call.RequestStrip?
  }

  /** The service answered both calls of request `i`, and what was sent to it was text. */
  ghost predicate Answered(s: State, a: Action, i: nat)
    requires i < |s.trace| && s.trace[i].call.RequestStrip? && a.Settle?
  {
    a.rpc.StripReplies? && TextsAreUtf8(Ledger.LastDisplay(s.trace[..i]), s.trace[i].call.txMsg)
  }

  lemma SettledJobIsRequest(s: State, a: Action) returns (i: nat)
    requires BoxesSound(s) && AllEncode(s.garble.jobs, Ledger.JobsAsked(s.trace)) && StripSettles(s, a)
    ensures SettlesRequest(s, a, i)
    ensures SettleOutcome(s, a)
            == if Answered(s, a, i) then Offchain.Push(CallbackFor(s.trace[i].call.draws, a.rpc)) else Offchain.Panic
  {
    hide M.HasWork, M.Books, M.InFlight, AllEncode, IndexingData.ReadGarble, Offchain.CallGarble;
    hide Ledger.JobsAsked, Ledger.LastAccepted, Ledger.LastDisplay, TextsAreUtf8, CallbackFor, Garble.PinpadOf;
    assert M.WorkerTagged(a.p, s.garble.jobs, s.garble.workers[a.w]);
    i := JobIsRequest(s, s.garble.workers[a.w].seen.job.value);
    var call := s.trace[i].call;
    StripOutcome(Ledger.LastDisplay(s.trace[..i]), call.txMsg, call.draws, a.rpc);
  }

  ghost predicate StoresAt(c: Runtime.Chain, who: AccountId, call: Runtime.Call, rpc: Offchain.Rpc, draws: Garble.Draws)
    requires rpc.StripReplies?
  {
    var tx := Runtime.Tx(Signed(who), call);
    if && |rpc.messagePgarbled| <= 64 && |rpc.messagePackmsg| <= 64 && |rpc.pinpadPgarbled| <= 64
       && |rpc.pinpadPackmsg| <= 64 && |Garble.PendingOf(c.garble, who)| < 16 then
      && Runtime.Outcome(c, tx).Done?
      && exists pad: Bytes :: StoredWith(c, Runtime.Apply(c, tx), who, rpc, draws, pad)
    else Runtime.Outcome(c, tx).Panicked? && Runtime.Apply(c, tx) == Runtime.Drained(c)
  }

  ghost predicate StoredWith(c: Runtime.Chain, after: Runtime.Chain, who: AccountId, rpc: Offchain.Rpc,
                             draws: Garble.Draws, pad: Bytes)
    requires rpc.StripReplies?
  {
    && Ledger.PadOf(draws.swaps, pad)
    && after.validation.metadata
       == c.validation.metadata[TxValidation.Key(who, rpc.messagePgarbled) := TxValidation.Package(draws.digits, pad)]
    && Garble.PendingOf(after.garble, who)
       == Garble.PendingOf(c.garble, who)
          + [Garble.Stripped(rpc.messagePgarbled, rpc.messagePackmsg, rpc.pinpadPgarbled, rpc.pinpadPackmsg, 2)]
  }

  /** Executed for any account on any chain where it fits, this call stores the request's digits and pad under that
      account and the reply's message cid, and appends one entry with the reply's four cids to its list. */
  ghost predicate StoresCode(call: Runtime.Call, rpc: Offchain.Rpc, draws: Garble.Draws)
    requires rpc.StripReplies?
  {
    forall c: Runtime.Chain, who: AccountId :: StoresAt(c, who, call, rpc, draws)
  }

  lemma CallbackStoresAt(c: Runtime.Chain, who: AccountId, draws: Garble.Draws, rpc: Offchain.Rpc)
    requires rpc.StripReplies?
    ensures StoresAt(c, who, CallbackFor(draws, rpc), rpc, draws)
  {
    var pad, tx := Garble.PinpadOf(draws), Runtime.Tx(Signed(who), CallbackFor(draws, rpc));
    assert |pad| == 10 by { Ledger.Shuffling(draws); }
    Ledger.PadIsShuffled(draws);
    hide Runtime.Outcome, Runtime.Apply, Garble.PinpadOf, Ledger.PadOf, Garble.PendingOf;
    Ledger.StripCallbackExactly(c, who, tx.call.strip);
    if Runtime.Outcome(c, tx).Done? {
      assert StoredWith(c, Runtime.Apply(c, tx), who, rpc, draws, pad);
    }
  }

  lemma CallbackStoresCode(draws: Garble.Draws, rpc: Offchain.Rpc)
    requires rpc.StripReplies?
    ensures StoresCode(CallbackFor(draws, rpc), rpc, draws)
  {
    hide StoresAt, CallbackFor;
    forall c: Runtime.Chain, who: AccountId ensures StoresAt(c, who, CallbackFor(draws, rpc), rpc, draws) {
      CallbackStoresAt(c, who, draws, rpc);
    }
  }

  /** Which strip requests reach the pool, in every run: when a worker settles a strip job, the job is that of one
      accepted request. If the service answered both calls and the request's text and the two cids of its display
      package are UTF-8, the worker pushes one callback per signing account, each with the reply's cids and the
      digits and pad this very request drew. Anything else, a fetch error included, crashes the worker: the job
      has failed, nothing is pushed, and the lock entry is left as it was. */
  lemma StripRequestSettles(expired: M.Expiry, actions: seq<Action>, a: Action) returns (i: nat)
    requires StripSettles(Exec(Init(expired), actions), a)
    ensures SettlesRequest(Exec(Init(expired), actions), a, i)
    ensures var s := Exec(Init(expired), actions);
            var j := s.garble.workers[a.w].seen.job.value;
            if Answered(s, a, i) then
              && Published(s, a, j, CallbackFor(s.trace[i].call.draws, a.rpc))
              && StoresCode(CallbackFor(s.trace[i].call.draws, a.rpc), a.rpc, s.trace[i].call.draws)
            else CrashedOn(s, a, j)
  {
    ReachableBoxes(expired, actions);
    JobsAreRequests(expired, actions);
    var s := Exec(Init(expired), actions);
    i := SettledJobIsRequest(s, a);
    if Answered(s, a, i) { CallbackStoresCode(s.trace[i].call.draws, a.rpc); }
    hide Exec, Next, BoxesSound, AllEncode, SettleOutcome, Answered, CallbackFor, Published, CrashedOn, Logged;
    hide Ledger.AsksAt, IndexingData.ReadGarble, StoresCode;
    SettleEnds(s, a);
  }

  // ---------- standard, generic and display jobs ----------

  ghost predicate AnnouncesGarbledAt(c: Runtime.Chain, who: AccountId, call: Runtime.Call, cid: Bytes) {
    var tx, kept := Runtime.Tx(Signed(who), call), Runtime.Drained(c);
    && Runtime.Outcome(c, tx).Done?
    && Runtime.Apply(c, tx)
       == kept.(garble := kept.garble.(events := c.garble.events + [Garble.NewGarbledIpfsCid(cid)]))
  }

  /** Executed for any account on any chain, this call deposits the event with this cid and changes nothing else. */
  ghost predicate AnnouncesGarbled(call: Runtime.Call, cid: Bytes) {
    forall c: Runtime.Chain, who: AccountId :: AnnouncesGarbledAt(c, who, call, cid)
  }

  ghost predicate AnnouncesSkcdAt(c: Runtime.Chain, who: AccountId, call: Runtime.Call, cid: Bytes) {
    var tx, kept := Runtime.Tx(Signed(who), call), Runtime.Drained(c);
    && Runtime.Outcome(c, tx).Done?
    && Runtime.Apply(c, tx)
       == kept.(circuits := kept.circuits.(events := c.circuits.events + [Circuits.NewSkcdIpfsCid(cid)]))
  }

  ghost predicate AnnouncesSkcd(call: Runtime.Call, cid: Bytes) {
    forall c: Runtime.Chain, who: AccountId :: AnnouncesSkcdAt(c, who, call, cid)
  }

  ghost predicate InstallsAt(c: Runtime.Chain, who: AccountId, call: Runtime.Call, p: Circuits.DisplayPackage) {
    var tx, kept := Runtime.Tx(Signed(who), call), Runtime.Drained(c);
    if |p.messageCid| <= 64 && |p.pinpadCid| <= 64 then
      && Runtime.Outcome(c, tx).Done?
      && Runtime.Apply(c, tx)
         == kept.(circuits := kept.circuits.(
              package := p,
              events := c.circuits.events + [Circuits.NewDisplaySkcdPackageIpfsCid(p.messageCid, p.pinpadCid)]))
    else Runtime.Outcome(c, tx).Panicked? && Runtime.Apply(c, tx) == kept
  }

  /** Executed for any account on any chain, this call makes `p` the display package and announces its two cids, if
      they fit; else it panics and changes nothing. */
  ghost predicate Installs(call: Runtime.Call, p: Circuits.DisplayPackage) {
    forall c: Runtime.Chain, who: AccountId :: InstallsAt(c, who, call, p)
  }

  lemma GarbledAnnounces(cid: Bytes)
    ensures AnnouncesGarbled(Runtime.CallbackGarbled(cid), cid)
  {
    forall c: Runtime.Chain, who: AccountId ensures AnnouncesGarbledAt(c, who, Runtime.CallbackGarbled(cid), cid) {
    }
  }

  lemma SkcdAnnounces(cid: Bytes)
    ensures AnnouncesSkcd(Runtime.CallbackSkcd(cid), cid)
  {
    forall c: Runtime.Chain, who: AccountId ensures AnnouncesSkcdAt(c, who, Runtime.CallbackSkcd(cid), cid) {
    }
  }

  lemma DisplayInstalls(p: Circuits.DisplayPackage)
    ensures Installs(Runtime.CallbackDisplay(p), p)
  {
    forall c: Runtime.Chain, who: AccountId ensures InstallsAt(c, who, Runtime.CallbackDisplay(p), p) {
    }
  }

  /** A standard job: published with the reply's cid; a fetch error is only logged; anything else panics. */
  lemma StandardOutcome(skcd: Bytes, rpc: Offchain.Rpc)
    ensures var outcome := Offchain.CallGarble(Garble.StandardJob(skcd), rpc);
            if !Offchain.Utf8.IsUtf8(skcd) then outcome.Panic?
            else if rpc.GarbleReply? then outcome.Push? && AnnouncesGarbled(outcome.call, rpc.pgarbledCid)
            else if rpc.FetchError? then outcome.Quiet?
            else outcome.Panic?
  {
    hide Offchain.Utf8.IsUtf8, AnnouncesGarbled;
    if rpc.GarbleReply? { GarbledAnnounces(rpc.pgarbledCid); }
  }

  /** A generic job: the same with its own reply. */
  lemma GenericOutcome(verilog: Bytes, rpc: Offchain.Rpc, signs: bool)
    ensures var job := IndexingData.Circuits(Some(verilog), 1, IndexingData.Generic);
            var outcome := Offchain.CallCircuits(job, rpc, signs);
            if !Offchain.Utf8.IsUtf8(verilog) then outcome.Panic?
            else if rpc.SkcdReply? then outcome.Push? && AnnouncesSkcd(outcome.call, rpc.skcdCid)
            else if rpc.FetchError? then outcome.Quiet?
            else outcome.Panic?
  {
    hide Offchain.Utf8.IsUtf8, AnnouncesSkcd;
    if rpc.SkcdReply? { SkcdAnnounces(rpc.skcdCid); }
  }

  /** A display job: the replies' package gets installed; without its metadata the worker panics if it has an account
      to sign for; a fetch error panics too. */
  lemma DisplayOutcome(rpc: Offchain.Rpc, signs: bool)
    ensures var outcome := Offchain.CallCircuits(IndexingData.Circuits(None, 1, IndexingData.Display), rpc, signs);
            if rpc.DisplayReplies? then outcome.Push? && Installs(outcome.call, rpc.package)
            else if rpc.DisplayWithoutMetadata? && !signs then outcome.Quiet?
            else outcome.Panic?
  {
    hide Installs;
    if rpc.DisplayReplies? { DisplayInstalls(rpc.package); }
  }

  /** Behind each circuits job is its request. */
  lemma CircuitsJobIsRequest(s: State, j: M.JobId) returns (i: nat)
    requires AllCircuitsEncode(s.circuits.jobs, Ledger.CircuitsJobsAsked(s.trace)) && j < |s.circuits.jobs|
    ensures Ledger.CircuitsAsksAt(s.trace, i, j)
    ensures IndexingData.ReadCircuits(Some(s.circuits.jobs[j])) == Ledger.CircuitsJobsAsked(s.trace)[j]
  {
    hide IndexingData.ReadCircuits, IndexingData.EncodeCircuits, IndexingData.CircuitsEncodable;
    hide Ledger.CircuitsJobsAsked, Ledger.CircuitsAsksAt;
    i := Ledger.CircuitsRequestOf(s.trace, j);
    assert CircuitsEncodes(s.circuits.jobs[j], Ledger.CircuitsJobsAsked(s.trace)[j]);
    IndexingData.CircuitsReadsBack(Ledger.CircuitsJobsAsked(s.trace)[j]);
  }

  /** In every run, when a worker settles a standard job, the job is that of one accepted request, and ends as the
      service's reply and the text of that request decide. */
  lemma StandardRequestSettles(expired: M.Expiry, actions: seq<Action>, a: Action) returns (i: nat, call: Runtime.Call)
    requires Waiting(Exec(Init(expired), actions), a) && a.p.OcwGarble?
    requires !StripSettles(Exec(Init(expired), actions), a)
    ensures var s := Exec(Init(expired), actions);
            && SettledJob(s, a).Some? && Ledger.AsksAt(s.trace, i, SettledJob(s, a).value)
            && s.trace[i].call.RequestStandard?
            && var j := SettledJob(s, a).value;
               if !Offchain.Utf8.IsUtf8(s.trace[i].call.skcd) then CrashedOn(s, a, j)
               else if a.rpc.GarbleReply? then Published(s, a, j, call) && AnnouncesGarbled(call, a.rpc.pgarbledCid)
               else if a.rpc.FetchError? then Logged(s, a, j)
               else CrashedOn(s, a, j)
  {
    ReachableBoxes(expired, actions);
    JobsAreRequests(expired, actions);
    var s := Exec(Init(expired), actions);
    i := StandardJobSettles(s, a);
    call := if SettleOutcome(s, a).Push? then SettleOutcome(s, a).call else Runtime.SubmitDisplay;
    hide *;
    SettleEnds(s, a);
  }

  lemma StandardJobSettles(s: State, a: Action) returns (i: nat)
    requires BoxesSound(s) && AllEncode(s.garble.jobs, Ledger.JobsAsked(s.trace))
    requires Waiting(s, a) && a.p.OcwGarble? && !StripSettles(s, a)
    ensures SettledJob(s, a).Some? && Ledger.AsksAt(s.trace, i, SettledJob(s, a).value)
    ensures s.trace[i].call.RequestStandard?
    ensures var outcome := SettleOutcome(s, a);
            if !Offchain.Utf8.IsUtf8(s.trace[i].call.skcd) then outcome.Panic?
            else if a.rpc.GarbleReply? then outcome.Push? && AnnouncesGarbled(outcome.call, a.rpc.pgarbledCid)
            else if a.rpc.FetchError? then outcome.Quiet?
            else outcome.Panic?
  {
    hide M.HasWork, M.Books, M.InFlight, AllEncode, IndexingData.ReadGarble, Offchain.CallGarble, AnnouncesGarbled;
    hide Ledger.JobsAsked, Ledger.LastAccepted, Ledger.LastDisplay, Garble.PinpadOf, Garble.Legal;
    assert M.WorkerTagged(a.p, s.garble.jobs, s.garble.workers[a.w]);
    i := JobIsRequest(s, s.garble.workers[a.w].seen.job.value);
    StandardOutcome(s.trace[i].call.skcd, a.rpc);
  }

  lemma CircuitsJobSettles(s: State, a: Action) returns (i: nat)
    requires BoxesSound(s) && AllCircuitsEncode(s.circuits.jobs, Ledger.CircuitsJobsAsked(s.trace))
    requires Waiting(s, a) && a.p.OcwCircuits?
    ensures SettledJob(s, a).Some? && Ledger.CircuitsAsksAt(s.trace, i, SettledJob(s, a).value)
    ensures var outcome, asked := SettleOutcome(s, a), s.trace[i].call;
            if asked.SubmitDisplay? then
              if a.rpc.DisplayReplies? then outcome.Push? && Installs(outcome.call, a.rpc.package)
              else if a.rpc.DisplayWithoutMetadata? && a.signers == [] then outcome.Quiet?
              else outcome.Panic?
            else
              && asked.SubmitGeneric?
              && if !Offchain.Utf8.IsUtf8(asked.verilog) then outcome.Panic?
                 else if a.rpc.SkcdReply? then outcome.Push? && AnnouncesSkcd(outcome.call, a.rpc.skcdCid)
                 else if a.rpc.FetchError? then outcome.Quiet?
                 else outcome.Panic?
  {
    hide M.HasWork, M.Books, M.InFlight, AllCircuitsEncode, IndexingData.ReadCircuits, Offchain.CallCircuits;
    hide Installs, AnnouncesSkcd, Ledger.CircuitsJobsAsked, Ledger.LastAccepted;
    assert M.WorkerTagged(a.p, s.circuits.jobs, s.circuits.workers[a.w]);
    i := CircuitsJobIsRequest(s, s.circuits.workers[a.w].seen.job.value);
    if s.trace[i].call.SubmitGeneric? {
      GenericOutcome(s.trace[i].call.verilog, a.rpc, a.signers != []);
    } else {
      DisplayOutcome(a.rpc, a.signers != []);
    }
  }

  /** In every run, when a circuits worker settles a job, the job is that of one accepted request. A display request
      ends with the replies' package installed by whoever signs, a generic one with the reply's cid announced; the
      failures are those named. */
  lemma CircuitsRequestSettles(expired: M.Expiry, actions: seq<Action>, a: Action) returns (i: nat, call: Runtime.Call)
    requires Waiting(Exec(Init(expired), actions), a) && a.p.OcwCircuits?
    ensures var s := Exec(Init(expired), actions);
            && SettledJob(s, a).Some? && Ledger.CircuitsAsksAt(s.trace, i, SettledJob(s, a).value)
            && var j, asked := SettledJob(s, a).value, s.trace[i].call;
               if asked.SubmitDisplay? then
                 if a.rpc.DisplayReplies? then Published(s, a, j, call) && Installs(call, a.rpc.package)
                 else if a.rpc.DisplayWithoutMetadata? && a.signers == [] then Logged(s, a, j)
                 else CrashedOn(s, a, j)
               else
                 && asked.SubmitGeneric?
                 && if !Offchain.Utf8.IsUtf8(asked.verilog) then CrashedOn(s, a, j)
                    else if a.rpc.SkcdReply? then Published(s, a, j, call) && AnnouncesSkcd(call, a.rpc.skcdCid)
                    else if a.rpc.FetchError? then Logged(s, a, j)
                    else CrashedOn(s, a, j)
  {
    ReachableBoxes(expired, actions);
    CircuitsJobsAreRequests(expired, actions);
    var s := Exec(Init(expired), actions);
    i := CircuitsJobSettles(s, a);
    call := if SettleOutcome(s, a).Push? then SettleOutcome(s, a).call else Runtime.SubmitDisplay;
    hide *;
    SettleEnds(s, a);
  }
}
