/** What holds of the three pallets after any sequence of extrinsics, by users, workers or both. */
module Ledger {
  import opened Common
  import opened Runtime
  import Circuits
  import Garble
  import IndexingData
  import OneTimeCode
  import Scale
  import Shuffle
  import TxValidation

  function Run(txs: seq<Tx>): Chain {
    if txs == [] then GENESIS else Apply(Run(txs[..|txs| - 1]), txs[|txs| - 1])
  }

  /** The last extrinsic of a non-empty sequence succeeded. */
  predicate LastAccepted(txs: seq<Tx>)
    requires txs != []
  {
    Outcome(Run(txs[..|txs| - 1]), txs[|txs| - 1]).Done?
  }

  predicate IsStripBy(tx: Tx, who: AccountId) {
    tx.origin == Signed(who) && tx.call.CallbackStrip?
  }

  // ---------- one strip callback ----------

  /** Every cid fits 64 bytes and either digit string ten. */
  predicate StripFits(c: Garble.StripCallback) {
    && |c.messagePgarbledCid| <= 64 && |c.messagePackmsgCid| <= 64
    && |c.pinpadPgarbledCid| <= 64 && |c.pinpadPackmsgCid| <= 64
    && |c.messageDigits| <= 10 && |c.pinpadDigits| <= 10
  }

  /** A strip callback is accepted exactly when its fields fit and the signer's list has room. It then stores the
      two digit strings under the signer and the message cid and appends one entry there; refused by a panic it
      changes nothing, although the metadata is written before the list is looked at. */
  lemma StripCallbackExactly(c: Chain, who: AccountId, strip: Garble.StripCallback)
    ensures var tx, after := Tx(Signed(who), CallbackStrip(strip)), Apply(c, Tx(Signed(who), CallbackStrip(strip)));
            && (Outcome(c, tx).Done? <==> StripFits(strip) && |Garble.PendingOf(c.garble, who)| < 16)
            && (Outcome(c, tx).Done? ==>
                  && after.validation.metadata
                     == c.validation.metadata[TxValidation.Key(who, strip.messagePgarbledCid)
                                              := TxValidation.Package(strip.messageDigits, strip.pinpadDigits)]
                  && Garble.PendingOf(after.garble, who) == Garble.PendingOf(c.garble, who) + [Garble.Stripped(
                       strip.messagePgarbledCid, strip.messagePackmsgCid, strip.pinpadPgarbledCid,
                       strip.pinpadPackmsgCid, |strip.messageDigits|)]
                  && forall other :: other != who ==>
                       Garble.PendingOf(after.garble, other) == Garble.PendingOf(c.garble, other))
            && (!Outcome(c, tx).Done? ==> Outcome(c, tx).Panicked? && after == Drained(c))
  {
  }

  // ---------- pending lists ----------

  /** The entries of the accepted strip callbacks that `who` signed, in order. */
  function AcceptedEntries(txs: seq<Tx>, who: AccountId): seq<Garble.Stripped> {
    if txs == [] then []
    else
      var front, tx := txs[..|txs| - 1], txs[|txs| - 1];
      if IsStripBy(tx, who) && LastAccepted(txs) then
        StripCallbackExactly(Run(front), who, tx.call.strip);
        AcceptedEntries(front, who) + [Garble.EntryOf(tx.call.strip)]
      else AcceptedEntries(front, who)
  }

  lemma StepPending(c: Chain, tx: Tx, who: AccountId)
    ensures IsStripBy(tx, who) && Outcome(c, tx).Done? ==>
              && StripFits(tx.call.strip)
              && |Garble.PendingOf(c.garble, who)| < 16
              && Garble.PendingOf(Apply(c, tx).garble, who)
                 == Garble.PendingOf(c.garble, who) + [Garble.EntryOf(tx.call.strip)]
    ensures !(IsStripBy(tx, who) && Outcome(c, tx).Done?) ==>
              Garble.PendingOf(Apply(c, tx).garble, who) == Garble.PendingOf(c.garble, who)
  {
    if tx.call.CallbackStrip? {
      if tx.origin.Signed? { StripCallbackExactly(c, tx.origin.who, tx.call.strip); }
    } else {
      OthersKeepPending(c, tx);
    }
  }

  lemma OthersKeepPending(c: Chain, tx: Tx)
    requires !tx.call.CallbackStrip?
    ensures Apply(c, tx).garble.pending == c.garble.pending
  {
    hide IndexingData.EncodeGarble, IndexingData.GarbleEncodable, Garble.StripJob, Garble.StandardJob;
  }

  /** A pending list is exactly the entries of its account's successful strip callbacks: it grows only at the tail,
      never past sixteen, and entries land under the signer. */
  lemma {:induction false} PendingListIsAccepted(txs: seq<Tx>, who: AccountId)
    ensures Garble.PendingOf(Run(txs).garble, who) == AcceptedEntries(txs, who)
    ensures |AcceptedEntries(txs, who)| <= 16
  {
    if txs == [] {
    } else {
      PendingListIsAccepted(txs[..|txs| - 1], who);
      StepPending(Run(txs[..|txs| - 1]), txs[|txs| - 1], who);
    }
  }

  // ---------- the metadata map ----------

  datatype Write = Write(package: TxValidation.Package, byCallback: bool)

  /** What `tx` stores under `key` if it is accepted. */
  function Stores(tx: Tx, key: TxValidation.Key): Option<Write> {
    if tx.origin != Signed(key.account) then None
    else
      match tx.call
      case StoreMetadata(cid, message, pinpad) =>
        if cid == key.cid then Some(Write(TxValidation.Package(message, pinpad), false)) else None
      case CallbackStrip(s) =>
        if s.messagePgarbledCid == key.cid
        then Some(Write(TxValidation.Package(s.messageDigits, s.pinpadDigits), true)) else None
      case _ => None
  }

  /** The most recent accepted store for `key`. */
  function LastWrite(txs: seq<Tx>, key: TxValidation.Key): Option<Write> {
    if txs == [] then None
    else
      var written := Stores(txs[|txs| - 1], key);
      if written.Some? && LastAccepted(txs) then written else LastWrite(txs[..|txs| - 1], key)
  }

  function Lookup(c: Chain, key: TxValidation.Key): Option<TxValidation.Package> {
    if key in c.validation.metadata then Some(c.validation.metadata[key]) else None
  }

  function PackageOf(w: Option<Write>): Option<TxValidation.Package> {
    match w
    case None => None
    case Some(x) => Some(x.package)
  }

  lemma StepWrites(c: Chain, tx: Tx, key: TxValidation.Key)
    ensures Lookup(Apply(c, tx), key)
            == if Stores(tx, key).Some? && Outcome(c, tx).Done? then PackageOf(Stores(tx, key)) else Lookup(c, key)
    ensures Outcome(c, tx).Done? && Stores(tx, key).Some? ==>
              Fits(Stores(tx, key).value.package.pinpad, DIGITS_CAPACITY) && Fits(key.cid, CID_CAPACITY)
  {
  }

  /** Last writer decides: the stored package is the one of the most recent accepted store for that key. */
  lemma {:induction false} MetadataIsLastWrite(txs: seq<Tx>, key: TxValidation.Key)
    ensures Lookup(Run(txs), key) == PackageOf(LastWrite(txs, key))
    ensures LastWrite(txs, key).Some? ==>
              Fits(LastWrite(txs, key).value.package.pinpad, DIGITS_CAPACITY) && Fits(key.cid, CID_CAPACITY)
  {
    if txs == [] {
    } else {
      MetadataIsLastWrite(txs[..|txs| - 1], key);
      StepWrites(Run(txs[..|txs| - 1]), txs[|txs| - 1], key);
    }
  }

  /** The verdict depends on the input and the last accepted store alone, passes exactly for the inputs that unlock
      that package, and checking changes no package, so it repeats until the next store. A wrong code keeps its
      event although the call returns an error; an input that panics leaves none. */
  lemma VerdictFromLastWrite(txs: seq<Tx>, who: AccountId, cid: Bytes, input: Bytes)
    ensures var check, w := Tx(Signed(who), CheckInput(cid, input)), LastWrite(txs, TxValidation.Key(who, cid));
            && (Outcome(Run(txs), check).Done? <==> w.Some? && OneTimeCode.Unlocks(w.value.package, input))
            && (Outcome(Run(txs), check) == Failed(TxWrongCodeGiven) <==>
                  && w.Some? && OneTimeCode.AllPress(w.value.package.pinpad, input)
                  && !OneTimeCode.Unlocks(w.value.package, input))
            && Run(txs + [check]).validation.metadata == Run(txs).validation.metadata
            && Run(txs + [check]).validation.events == Run(txs).validation.events
                 + (if w.None? || !OneTimeCode.AllPress(w.value.package.pinpad, input) then []
                    else if OneTimeCode.Unlocks(w.value.package, input) then [TxValidation.TxPass(who)]
                    else [TxValidation.TxFail(who)])
            && Outcome(Run(txs + [check]), check) == Outcome(Run(txs), check)
  {
    var check, key := Tx(Signed(who), CheckInput(cid, input)), TxValidation.Key(who, cid);
    MetadataIsLastWrite(txs, key);
    assert (txs + [check])[..|txs|] == txs;
    if key in Run(txs).validation.metadata {
      OneTimeCode.CheckExactly(Run(txs).validation.metadata[key], input);
      OneTimeCode.UnlockingPresses(Run(txs).validation.metadata[key], input);
    }
  }

  // ---------- agreement between the two pallets ----------

  /** The position of the latest entry with this cid, or -1. */
  function LatestEntry(list: seq<Garble.Stripped>, cid: Bytes): (i: int)
    ensures -1 <= i < |list|
    ensures i >= 0 ==> list[i].messagePgarbledCid == cid
    ensures forall j :: i < j < |list| ==> list[j].messagePgarbledCid != cid
  {
    if list == [] then -1
    else if list[|list| - 1].messagePgarbledCid == cid then |list| - 1
    else LatestEntry(list[..|list| - 1], cid)
  }

  ghost predicate Agrees(c: Chain, key: TxValidation.Key, last: Option<Write>) {
    var list := Garble.PendingOf(c.garble, key.account);
    var i := LatestEntry(list, key.cid);
    && (i >= 0 ==> last.Some?)
    && (last.Some? && last.value.byCallback ==> i >= 0 && list[i].messageNbDigits == |last.value.package.message|)
  }

  lemma LatestOfLonger(list: seq<Garble.Stripped>, e: Garble.Stripped, cid: Bytes)
    ensures LatestEntry(list + [e], cid) == if e.messagePgarbledCid == cid then |list| else LatestEntry(list, cid)
  {
    assert (list + [e])[..|list|] == list;
  }

  lemma StepAgrees(c: Chain, tx: Tx, key: TxValidation.Key, last: Option<Write>)
    requires Agrees(c, key, last)
    ensures Agrees(Apply(c, tx), key, if Stores(tx, key).Some? && Outcome(c, tx).Done? then Stores(tx, key) else last)
  {
    var list := Garble.PendingOf(c.garble, key.account);
    StepPending(c, tx, key.account);
    if IsStripBy(tx, key.account) && Outcome(c, tx).Done? {
      LatestOfLonger(list, Garble.EntryOf(tx.call.strip), key.cid);
    }
  }

  /** Every pending entry's message cid has a stored package under the same account; and as long as the last store
      for it came from a callback, the latest entry states that package's message length. */
  lemma {:induction false} PendingAgreesWithMetadata(txs: seq<Tx>, key: TxValidation.Key)
    ensures Agrees(Run(txs), key, LastWrite(txs, key))
    ensures LatestEntry(Garble.PendingOf(Run(txs).garble, key.account), key.cid) >= 0 ==>
              key in Run(txs).validation.metadata
  {
    MetadataIsLastWrite(txs, key);
    if txs == [] {
    } else {
      PendingAgreesWithMetadata(txs[..|txs| - 1], key);
      StepAgrees(Run(txs[..|txs| - 1]), txs[|txs| - 1], key, LastWrite(txs[..|txs| - 1], key));
    }
  }

  // ---------- package gating ----------

  /** The package of the most recent accepted display callback. */
  function LastDisplay(txs: seq<Tx>): Circuits.DisplayPackage {
    if txs == [] then Circuits.DEFAULT_PACKAGE
    else
      var tx := txs[|txs| - 1];
      if tx.call.CallbackDisplay? && LastAccepted(txs) then tx.call.package else LastDisplay(txs[..|txs| - 1])
  }

  lemma StepPackage(c: Chain, tx: Tx)
    ensures Apply(c, tx).circuits.package
            == if tx.call.CallbackDisplay? && Outcome(c, tx).Done? then tx.call.package else c.circuits.package
    ensures tx.call.CallbackDisplay? && Outcome(c, tx).Done? ==>
              Fits(tx.call.package.messageCid, CID_CAPACITY) && Fits(tx.call.package.pinpadCid, CID_CAPACITY)
  {
  }

  lemma {:induction false} PackageIsLastDisplay(txs: seq<Tx>)
    ensures Run(txs).circuits.package == LastDisplay(txs)
    ensures Fits(LastDisplay(txs).messageCid, CID_CAPACITY) && Fits(LastDisplay(txs).pinpadCid, CID_CAPACITY)
  {
    if txs == [] {
    } else {
      PackageIsLastDisplay(txs[..|txs| - 1]);
      StepPackage(Run(txs[..|txs| - 1]), txs[|txs| - 1]);
    }
  }

  /** Extrinsic `i` is the last accepted display callback. */
  ghost predicate DisplayedAt(txs: seq<Tx>, i: nat) {
    && i < |txs| && txs[i].call.CallbackDisplay? && LastAccepted(txs[..i + 1])
    && forall k :: i < k < |txs| ==> !(txs[k].call.CallbackDisplay? && LastAccepted(txs[..k + 1]))
  }

  /** A package with digits comes from an accepted display callback: before the first there is none. */
  lemma {:induction false} PackageHasCallback(txs: seq<Tx>) returns (i: nat)
    requires LastDisplay(txs).messageNbDigits > 0 || LastDisplay(txs).pinpadNbDigits > 0
    ensures DisplayedAt(txs, i) && LastDisplay(txs) == txs[i].call.package
  {
    hide LastAccepted;
    if txs == [] {
    } else {
      var front, tx := txs[..|txs| - 1], txs[|txs| - 1];
      assert txs[..|txs| - 1 + 1] == txs;
      if tx.call.CallbackDisplay? && LastAccepted(txs) {
        i := |txs| - 1;
      } else {
        i := PackageHasCallback(front);
        assert txs[..i + 1] == front[..i + 1];
        forall k | i < k < |txs| ensures !(txs[k].call.CallbackDisplay? && LastAccepted(txs[..k + 1])) {
          if k < |front| { assert front[..k + 1] == txs[..k + 1] && front[k] == txs[k]; }
        }
      }
    }
  }

  /** One strip request, on any chain whose package holds two cids. */
  lemma StripRequestExactly(c: Chain, origin: Origin, txMsg: Bytes, draws: Garble.Draws)
    requires Fits(c.circuits.package.messageCid, CID_CAPACITY) && Fits(c.circuits.package.pinpadCid, CID_CAPACITY)
    ensures var request, package := Tx(origin, RequestStrip(txMsg, draws)), c.circuits.package;
            && (Outcome(c, request).Done?
                <==> && origin.Signed? && Scale.Encodable(txMsg)
                     && package.messageNbDigits > 0 && package.pinpadNbDigits > 0)
            && (Outcome(c, request).Done? ==>
                  IndexingData.ReadGarble(Apply(c, request).garble.indexed) == Garble.StripJob(package, txMsg, draws))
  {
    hide IndexingData.EncodeGarble, IndexingData.ReadGarble, IndexingData.GarbleEncodable, Garble.StripJob;
    var job := Garble.StripJob(c.circuits.package, txMsg, draws);
    StripJobEncodable(c.circuits.package, txMsg, draws);
    if IndexingData.GarbleEncodable(job) {
      IndexingData.GarbleReadsBack(job);
    }
  }

  /** The pad that nine drawn swaps make of 0 to 9; the last digit is the first draw itself. */
  ghost predicate PadOf(swaps: seq<nat>, pad: Bytes) {
    && |pad| == 10 && |swaps| == 9 && pad[9] == swaps[0]
    && Shuffle.ShufflesTo(OneTimeCode.PAD, swaps, pad)
  }

  lemma PadIsShuffled(draws: Garble.Draws)
    ensures PadOf(draws.swaps, Garble.PinpadOf(draws))
  {
    Shuffling(draws);
    Shuffle.ShuffleSteps(OneTimeCode.PAD, draws.swaps);
    hide Shuffle.ShufflesTo, Shuffle.Shuffled;
  }

  /** A strip request succeeds exactly when it is signed, its text can be encoded and the last display callback set
      both digit counts; the mailbox bytes it writes read back as a job with the two cids of that one callback, the
      drawn digits, and the pad the drawn swaps make of 0 to 9. */
  lemma StripRequestGated(txs: seq<Tx>, origin: Origin, txMsg: Bytes, draws: Garble.Draws)
    ensures var request, package := Tx(origin, RequestStrip(txMsg, draws)), LastDisplay(txs);
            && (Outcome(Run(txs), request).Done?
                <==> && origin.Signed? && Scale.Encodable(txMsg)
                     && package.messageNbDigits > 0 && package.pinpadNbDigits > 0)
            && (Outcome(Run(txs), request).Done? ==>
                  var job := IndexingData.ReadGarble(Run(txs + [request]).garble.indexed);
                  && job.blockNumber == 1 && job.kind.GarbleAndStrip?
                  && job.messageSkcdCid == Some(package.messageCid) && job.pinpadSkcdCid == Some(package.pinpadCid)
                  && job.txMsg == Some(txMsg) && job.messageDigits == Some(draws.digits)
                  && job.pinpadDigits.Some? && OneTimeCode.IsPermutation(job.pinpadDigits.value)
                  && PadOf(draws.swaps, job.pinpadDigits.value))
  {
    var request := Tx(origin, RequestStrip(txMsg, draws));
    assert (txs + [request])[..|txs|] == txs;
    assert Run(txs + [request]) == Apply(Run(txs), request);
    hide Run, Apply, Outcome, PadOf, LastDisplay, OneTimeCode.IsPermutation, Garble.PinpadOf, Garble.Legal;
    PackageIsLastDisplay(txs);
    StripRequestExactly(Run(txs), origin, txMsg, draws);
    Shuffling(draws);
    PadIsShuffled(draws);
  }

  /** The pad of the job that a strip request of `who` leaves in the mailbox. */
  function PadWritten(txs: seq<Tx>, who: AccountId, txMsg: Bytes, draws: Garble.Draws): Option<Bytes> {
    IndexingData.ReadGarble(Run(txs + [Tx(Signed(who), RequestStrip(txMsg, draws))]).garble.indexed).pinpadDigits
  }

  predicate CanRequestStrip(txs: seq<Tx>, txMsg: Bytes) {
    |txMsg| < 0x1_0000_0000 && LastDisplay(txs).messageNbDigits > 0 && LastDisplay(txs).pinpadNbDigits > 0
  }

  lemma PadDistinct()
    ensures Distinct(OneTimeCode.PAD) && |OneTimeCode.PAD| == 10
  {
  }

  lemma DrawsOfPad(digits: Bytes, pad: Bytes) returns (draws: Garble.Draws)
    requires |digits| == 2 && OneTimeCode.AreDigits(digits) && OneTimeCode.IsPermutation(pad)
    ensures draws.digits == digits && Shuffle.Shuffled(OneTimeCode.PAD, draws.swaps) == pad
  {
    hide Shuffle.Shuffled;
    var swaps := Shuffle.DrawsFor(OneTimeCode.PAD, pad);
    draws := Garble.RawDraws(swaps, digits);
  }

  /** Every rearrangement of 0 to 9 can be drawn as the pad, with any two digits. */
  lemma EveryPadIsDrawn(txs: seq<Tx>, who: AccountId, txMsg: Bytes, digits: Bytes, pad: Bytes)
    returns (draws: Garble.Draws)
    requires CanRequestStrip(txs, txMsg) && |digits| == 2 && OneTimeCode.AreDigits(digits)
    requires OneTimeCode.IsPermutation(pad)
    ensures draws.digits == digits && PadWritten(txs, who, txMsg, draws) == Some(pad)
  {
    draws := DrawsOfPad(digits, pad);
    StripRequestGated(txs, Signed(who), txMsg, draws);
    var written := PadWritten(txs, who, txMsg, draws).value;
    hide Shuffle.Shuffled, PadOf, PadWritten, Run, LastDisplay, OneTimeCode.IsPermutation, Garble.Legal;
    SwapsOfPad(written, draws);
  }

  /** And two requests with the same pad drew the same swaps. */
  lemma EqualPadsEqualSwaps(txs: seq<Tx>, who: AccountId, txMsg: Bytes, d: Garble.Draws, e: Garble.Draws)
    requires CanRequestStrip(txs, txMsg)
    requires PadWritten(txs, who, txMsg, d) == PadWritten(txs, who, txMsg, e)
    ensures d.swaps == e.swaps
  {
    StripRequestGated(txs, Signed(who), txMsg, d);
    StripRequestGated(txs, Signed(who), txMsg, e);
    var pad := PadWritten(txs, who, txMsg, d).value;
    PadDistinct();
    hide Shuffle.Shuffled, Shuffle.ShufflesTo, PadWritten, Run, OneTimeCode.IsPermutation, Distinct;
    SwapsOfPad(pad, d);
    SwapsOfPad(pad, e);
    Shuffle.SameDraws(OneTimeCode.PAD, d.swaps, e.swaps);
  }

  lemma SwapsOfPad(pad: Bytes, d: Garble.Draws)
    requires PadOf(d.swaps, pad)
    ensures Shuffle.LegalDraws(10, d.swaps) && Shuffle.Shuffled(OneTimeCode.PAD, d.swaps) == pad
  {
    Shuffle.ShuffleSteps(OneTimeCode.PAD, d.swaps);
    hide Shuffle.ShufflesTo, Shuffle.Shuffled;
    Shuffle.ShufflesToOne(OneTimeCode.PAD, d.swaps, pad, Shuffle.Shuffled(OneTimeCode.PAD, d.swaps));
  }

  /** The other three requests: what the mailbox reads back as is the request. */
  lemma RequestsReadBack(c: Chain, who: AccountId, cid: Bytes)
    requires Scale.Encodable(cid)
    ensures var standard := Tx(Signed(who), RequestStandard(cid));
            && Outcome(c, standard).Done?
            && var d := IndexingData.ReadGarble(Apply(c, standard).garble.indexed);
               d.blockNumber == 1 && d.kind.GarbleStandard? && d.skcdCid == Some(cid)
    ensures var generic := Tx(Signed(who), SubmitGeneric(cid));
            && Outcome(c, generic).Done?
            && IndexingData.ReadCircuits(Apply(c, generic).circuits.indexed)
               == IndexingData.Circuits(Some(cid), 1, IndexingData.Generic)
    ensures var display := Tx(Signed(who), SubmitDisplay);
            && Outcome(c, display).Done?
            && IndexingData.ReadCircuits(Apply(c, display).circuits.indexed)
               == IndexingData.Circuits(None, 1, IndexingData.Display)
  {
    hide IndexingData.EncodeGarble, IndexingData.ReadGarble, IndexingData.EncodeCircuits, IndexingData.ReadCircuits;
    IndexingData.GarbleReadsBack(Garble.StandardJob(cid));
    IndexingData.CircuitsReadsBack(IndexingData.Circuits(Some(cid), 1, IndexingData.Generic));
    IndexingData.CircuitsReadsBack(IndexingData.Circuits(None, 1, IndexingData.Display));
  }

  lemma Shuffling(draws: Garble.Draws)
    ensures OneTimeCode.IsPermutation(Garble.PinpadOf(draws)) && |Garble.PinpadOf(draws)| == 10
  {
    Garble.Shuffle.ShuffledIsPermutation(OneTimeCode.PAD, draws.swaps);
    OneTimeCode.PermutationHasTen(Garble.PinpadOf(draws));
  }

  lemma StripJobEncodable(package: Circuits.DisplayPackage, txMsg: Bytes, draws: Garble.Draws)
    requires Fits(package.messageCid, CID_CAPACITY) && Fits(package.pinpadCid, CID_CAPACITY)
    ensures IndexingData.GarbleEncodable(Garble.StripJob(package, txMsg, draws)) <==> Scale.Encodable(txMsg)
  {
    Shuffling(draws);
    hide Garble.PinpadOf, OneTimeCode.IsPermutation;
    var f := IndexingData.Fields(Garble.StripJob(package, txMsg, draws));
    assert f[0] == None && f[1] == Some(package.messageCid) && f[2] == Some(package.pinpadCid) && f[3] == Some(txMsg);
    assert f[4] == Some(draws.digits) && f[5] == Some(Garble.PinpadOf(draws)) && |f| == 6;
  }

  // ---------- the garble jobs that were asked for ----------

  /** The garble job a call asks for, if it is a request, with the display package of the moment. */
  function JobAsked(package: Circuits.DisplayPackage, call: Call): Option<IndexingData.Garble> {
    match call
    case RequestStandard(skcd) => Some(Garble.StandardJob(skcd))
    case RequestStrip(txMsg, draws) => Some(Garble.StripJob(package, txMsg, draws))
    case _ => None
  }

  /** The jobs of the accepted requests, in order, each with the package of the last display callback before it. */
  function JobsAsked(txs: seq<Tx>): seq<IndexingData.Garble> {
    if txs == [] then []
    else
      var front, tx := txs[..|txs| - 1], txs[|txs| - 1];
      var asked := JobAsked(LastDisplay(front), tx.call);
      JobsAsked(front) + if asked.Some? && LastAccepted(txs) then [asked.value] else []
  }

  /** Extrinsic `i` is the accepted request of job `j`. */
  ghost predicate AsksAt(txs: seq<Tx>, i: nat, j: nat) {
    && j < |JobsAsked(txs)| && i < |txs| && LastAccepted(txs[..i + 1])
    && |JobsAsked(txs[..i])| == j
    && JobAsked(LastDisplay(txs[..i]), txs[i].call) == Some(JobsAsked(txs)[j])
  }

  /** Each asked job has its request. */
  lemma {:induction false} RequestOf(txs: seq<Tx>, j: nat) returns (i: nat)
    requires j < |JobsAsked(txs)|
    ensures AsksAt(txs, i, j)
  {
    hide LastAccepted, JobAsked, LastDisplay;
    var front := txs[..|txs| - 1];
    if j < |JobsAsked(front)| {
      i := RequestOf(front, j);
      assert txs[..i] == front[..i] && txs[..i + 1] == front[..i + 1];
    } else {
      i := |front|;
      assert txs[..i + 1] == txs;
    }
  }

  /** An extrinsic writes the garble mailbox exactly when it is an accepted request, and then with that job. */
  lemma StepIndexed(c: Chain, tx: Tx)
    ensures var written, asked := Apply(c, tx).garble.indexed, JobAsked(c.circuits.package, tx.call);
            && (written.Some? <==> asked.Some? && Outcome(c, tx).Done?)
            && (written.Some? ==>
                  IndexingData.GarbleEncodable(asked.value) && written.value == IndexingData.EncodeGarble(asked.value))
  {
    hide IndexingData.EncodeGarble, IndexingData.GarbleEncodable, Garble.StripJob, Garble.StandardJob, Garble.Legal;
  }

  // ---------- the circuits jobs that were asked for ----------

  function CircuitsAsked(call: Call): Option<IndexingData.Circuits> {
    match call
    case SubmitGeneric(verilog) => Some(IndexingData.Circuits(Some(verilog), 1, IndexingData.Generic))
    case SubmitDisplay => Some(IndexingData.Circuits(None, 1, IndexingData.Display))
    case _ => None
  }

  /** The jobs of the accepted circuits requests, in order. */
  function CircuitsJobsAsked(txs: seq<Tx>): seq<IndexingData.Circuits> {
    if txs == [] then []
    else
      var front, asked := txs[..|txs| - 1], CircuitsAsked(txs[|txs| - 1].call);
      CircuitsJobsAsked(front) + if asked.Some? && LastAccepted(txs) then [asked.value] else []
  }

  /** Extrinsic `i` is the accepted circuits request of job `j`. */
  ghost predicate CircuitsAsksAt(txs: seq<Tx>, i: nat, j: nat) {
    && j < |CircuitsJobsAsked(txs)| && i < |txs| && LastAccepted(txs[..i + 1])
    && |CircuitsJobsAsked(txs[..i])| == j
    && CircuitsAsked(txs[i].call) == Some(CircuitsJobsAsked(txs)[j])
  }

  lemma {:induction false} CircuitsRequestOf(txs: seq<Tx>, j: nat) returns (i: nat)
    requires j < |CircuitsJobsAsked(txs)|
    ensures CircuitsAsksAt(txs, i, j)
  {
    hide LastAccepted, CircuitsAsked;
    var front := txs[..|txs| - 1];
    if j < |CircuitsJobsAsked(front)| {
      i := CircuitsRequestOf(front, j);
      assert txs[..i] == front[..i] && txs[..i + 1] == front[..i + 1];
    } else {
      i := |front|;
      assert txs[..i + 1] == txs;
    }
  }

  lemma CircuitsStepIndexed(c: Chain, tx: Tx)
    ensures var written, asked := Apply(c, tx).circuits.indexed, CircuitsAsked(tx.call);
            && (written.Some? <==> asked.Some? && Outcome(c, tx).Done?)
            && (written.Some? ==>
                  && IndexingData.CircuitsEncodable(asked.value)
                  && written.value == IndexingData.EncodeCircuits(asked.value))
  {
    hide IndexingData.EncodeCircuits, IndexingData.CircuitsEncodable;
  }

  // ---------- how every call ends ----------

  /** How a call ends after any extrinsics, from the history alone. */
  ghost function Expected(txs: seq<Tx>, tx: Tx): DispatchResult {
    match tx.origin
    case Unsigned => Failed(BadOrigin)
    case Signed(who) =>
      match tx.call
      case StoreMetadata(cid, message, pinpad) =>
        if |cid| <= 64 && |message| <= 10 && |pinpad| <= 10 then Done else Panicked
      case CheckInput(cid, input) => ExpectedCheck(LastWrite(txs, TxValidation.Key(who, cid)), input)
      case SubmitGeneric(verilog) => if |verilog| < 0x1_0000_0000 then Done else Panicked
      case SubmitDisplay => Done
      case CallbackSkcd(_) => Done
      case CallbackDisplay(p) => if |p.messageCid| <= 64 && |p.pinpadCid| <= 64 then Done else Panicked
      case RequestStandard(skcd) => if |skcd| < 0x1_0000_0000 then Done else Panicked
      case RequestStrip(txMsg, _) => if CanRequestStrip(txs, txMsg) then Done else Panicked
      case CallbackGarbled(_) => Done
      case CallbackStrip(s) => if StripFits(s) && |AcceptedEntries(txs, who)| < 16 then Done else Panicked
  }

  ghost function ExpectedCheck(w: Option<Write>, input: Bytes): DispatchResult {
    if w.None? || !OneTimeCode.AllPress(w.value.package.pinpad, input) then Panicked
    else if OneTimeCode.Unlocks(w.value.package, input) then Done
    else Failed(TxWrongCodeGiven)
  }

  lemma UnsignedIsRefused(c: Chain, call: Call)
    ensures Outcome(c, Tx(Unsigned, call)) == Failed(BadOrigin) && Apply(c, Tx(Unsigned, call)) == Drained(c)
  {
    hide IndexingData.EncodeGarble, IndexingData.EncodeCircuits, TxValidation.Check, Garble.StripJob, Garble.Legal;
  }

  lemma CheckEnds(txs: seq<Tx>, who: AccountId, cid: Bytes, input: Bytes)
    ensures Outcome(Run(txs), Tx(Signed(who), CheckInput(cid, input)))
            == ExpectedCheck(LastWrite(txs, TxValidation.Key(who, cid)), input)
  {
    MetadataIsLastWrite(txs, TxValidation.Key(who, cid));
    var key := TxValidation.Key(who, cid);
    if key in Run(txs).validation.metadata {
      OneTimeCode.CheckExactly(Run(txs).validation.metadata[key], input);
      OneTimeCode.UnlockingPresses(Run(txs).validation.metadata[key], input);
    }
  }

  lemma RequestEnds(txs: seq<Tx>, who: AccountId, call: Call)
    requires call.SubmitGeneric? || call.SubmitDisplay? || call.RequestStandard? || call.RequestStrip?
    ensures Outcome(Run(txs), Tx(Signed(who), call)) == Expected(txs, Tx(Signed(who), call))
  {
    hide Run, LastDisplay, IndexingData.EncodeGarble, IndexingData.EncodeCircuits, Garble.Legal;
    if call.RequestStrip? {
      hide Garble.StripJob, IndexingData.GarbleEncodable;
      PackageIsLastDisplay(txs);
      StripJobEncodable(Run(txs).circuits.package, call.txMsg, call.draws);
    } else if call.RequestStandard? {
      assert IndexingData.Fields(Garble.StandardJob(call.skcd))[0] == Some(call.skcd);
    }
  }

  /** How each of the ten calls ends: every acceptance, error and panic, from the history alone. */
  lemma OutcomeExactly(txs: seq<Tx>, tx: Tx)
    ensures Outcome(Run(txs), tx) == Expected(txs, tx)
  {
    hide Run, Apply, Garble.Legal, LastDisplay;
    if tx.origin.Unsigned? {
      UnsignedIsRefused(Run(txs), tx.call);
    } else {
      var who := tx.origin.who;
      match tx.call
      case CheckInput(cid, input) => CheckEnds(txs, who, cid, input);
      case CallbackStrip(s) =>
        hide Dispatch;
        StripCallbackExactly(Run(txs), who, s);
        PendingListIsAccepted(txs, who);
      case StoreMetadata(_, _, _) =>
      case CallbackSkcd(_) =>
      case CallbackDisplay(_) =>
      case CallbackGarbled(_) =>
      case _ => RequestEnds(txs, who, tx.call);
    }
  }

  /** What a body has written when it panics, for the runtime to drop: the events, the metadata although the list is
      full, the nonce although the job cannot be encoded. */
  lemma WritesBeforePanic(c: Chain, who: AccountId, call: Call)
    ensures var tx, state := Tx(Signed(who), call), Dispatch(c, Tx(Signed(who), call)).state;
            Dispatch(c, tx).result.Panicked? ==>
              match call
              case StoreMetadata(_, message, pinpad) =>
                state.validation
                == c.validation.(events := c.validation.events + [TxValidation.DebugNewDigitsSet(message, pinpad)])
              case CallbackDisplay(p) =>
                state.circuits == c.circuits.(
                  events := c.circuits.events + [Circuits.NewDisplaySkcdPackageIpfsCid(p.messageCid, p.pinpadCid)])
              case CallbackStrip(s) =>
                && state.garble.pending == c.garble.pending
                && |state.garble.events| == |c.garble.events| + 1
                && (StripFits(s) ==>
                      state.validation.metadata
                      == c.validation.metadata[TxValidation.Key(who, s.messagePgarbledCid)
                                               := TxValidation.Package(s.messageDigits, s.pinpadDigits)])
              case RequestStrip(_, _) =>
                state.garble == if Circuits.GetDisplayPackage(c.circuits).None? then c.garble
                                else c.garble.(nonce := (c.garble.nonce + 1) % 0x1_0000_0000_0000_0000)
              case _ => state == c
  {
    hide IndexingData.EncodeGarble, IndexingData.EncodeCircuits, IndexingData.GarbleEncodable, TxValidation.Check;
    hide IndexingData.CircuitsEncodable, Garble.StripJob, Garble.StandardJob, Garble.Legal;
  }

  // ---------- events ----------

  /** What the three pallets deposit. */
  datatype Deposits = Deposits(
    validation: seq<TxValidation.Event>,
    circuits: seq<Circuits.Event>,
    garble: seq<Garble.Event>)
  {
    function Then(d: Deposits): Deposits {
      Deposits(validation + d.validation, circuits + d.circuits, garble + d.garble)
    }
  }

  /** What a signed call deposits, given how it ends. */
  function Deposit(who: AccountId, call: Call, result: DispatchResult): Deposits {
    if result.Failed? then
      Deposits(if result.error.TxWrongCodeGiven? then [TxValidation.TxFail(who)] else [], [], [])
    else if result.Panicked? then Deposits([], [], [])
    else
      match call
      case StoreMetadata(_, message, pinpad) => Deposits([TxValidation.DebugNewDigitsSet(message, pinpad)], [], [])
      case CheckInput(_, _) => Deposits([TxValidation.TxPass(who)], [], [])
      case CallbackSkcd(cid) => Deposits([], [Circuits.NewSkcdIpfsCid(cid)], [])
      case CallbackDisplay(p) => Deposits([], [Circuits.NewDisplaySkcdPackageIpfsCid(p.messageCid, p.pinpadCid)], [])
      case CallbackGarbled(cid) => Deposits([], [], [Garble.NewGarbledIpfsCid(cid)])
      case CallbackStrip(s) =>
        Deposits([TxValidation.DebugNewDigitsSet(s.messageDigits, s.pinpadDigits)], [],
                 [Garble.NewGarbleAndStrippedIpfsCid(s.messagePgarbledCid, s.messagePackmsgCid,
                                                     s.pinpadPgarbledCid, s.pinpadPackmsgCid)])
      case _ => Deposits([], [], [])
  }

  function Deposited(c: Chain): Deposits {
    Deposits(c.validation.events, c.circuits.events, c.garble.events)
  }

  lemma StepDeposits(c: Chain, who: AccountId, call: Call)
    ensures var tx := Tx(Signed(who), call);
            Deposited(Apply(c, tx)) == Deposited(c).Then(Deposit(who, call, Outcome(c, tx)))
  {
    hide IndexingData.EncodeGarble, IndexingData.EncodeCircuits, IndexingData.GarbleEncodable;
    hide IndexingData.CircuitsEncodable, TxValidation.Check, Garble.StripJob, Garble.StandardJob, Garble.Legal;
  }

  /** Every event any sequence of extrinsics leaves, in order. */
  ghost function Log(txs: seq<Tx>): Deposits {
    if txs == [] then Deposits([], [], [])
    else
      var front, tx := txs[..|txs| - 1], txs[|txs| - 1];
      if tx.origin.Unsigned? then Log(front)
      else Log(front).Then(Deposit(tx.origin.who, tx.call, Expected(front, tx)))
  }

  /** The event logs are those deposits: each accepted call's own, a wrong code's failure, and nothing from a panic. */
  lemma {:induction false} EventsExactly(txs: seq<Tx>)
    ensures Deposited(Run(txs)) == Log(txs)
  {
    hide Apply, Outcome, Expected, Deposit;
    if txs == [] {
    } else {
      var front, tx := txs[..|txs| - 1], txs[|txs| - 1];
      EventsExactly(front);
      OutcomeExactly(front, tx);
      if tx.origin.Unsigned? {
        UnsignedIsRefused(Run(front), tx.call);
      } else {
        StepDeposits(Run(front), tx.origin.who, tx.call);
      }
    }
  }

  // ---------- nonces ----------

  /** How many strip requests were accepted. */
  function AcceptedRequests(txs: seq<Tx>): nat {
    if txs == [] then 0
    else AcceptedRequests(txs[..|txs| - 1]) + if txs[|txs| - 1].call.RequestStrip? && LastAccepted(txs) then 1 else 0
  }

  lemma StepNonce(c: Chain, tx: Tx)
    ensures Apply(c, tx).garble.nonce
            == if tx.call.RequestStrip? && Outcome(c, tx).Done? then (c.garble.nonce + 1) % U64_RANGE
               else c.garble.nonce
  {
    hide IndexingData.EncodeGarble, IndexingData.GarbleEncodable, Garble.StripJob;
  }

  lemma AddUnderModulus(n: nat)
    ensures (n % U64_RANGE + 1) % U64_RANGE == (n + 1) % U64_RANGE
  {
  }

  lemma {:induction false} NonceCountsRequests(txs: seq<Tx>)
    ensures Run(txs).garble.nonce == AcceptedRequests(txs) % 0x1_0000_0000_0000_0000
  {
    hide Runtime.Dispatch;
    if txs == [] {
      assert Run(txs).garble.nonce == 0;
    } else {
      var front, tx := txs[..|txs| - 1], txs[|txs| - 1];
      var before, n := Run(front), AcceptedRequests(front);
      NonceCountsRequests(front);
      StepNonce(before, tx);
      AddUnderModulus(n);
      if tx.call.RequestStrip? && LastAccepted(txs) {
        assert AcceptedRequests(txs) == n + 1;
        assert Run(txs).garble.nonce == (before.garble.nonce + 1) % U64_RANGE;
      } else {
        assert AcceptedRequests(txs) == n;
        assert Run(txs).garble.nonce == before.garble.nonce;
      }
    }
  }

  lemma {:induction false} RequestsOnlyGrow(txs: seq<Tx>, i: nat, j: nat)
    requires i <= j <= |txs|
    ensures AcceptedRequests(txs[..i]) <= AcceptedRequests(txs[..j])
    decreases j - i
  {
    hide LastAccepted;
    if i == j {
    } else {
      RequestsOnlyGrow(txs, i, j - 1);
      assert txs[..j][..j - 1] == txs[..j - 1];
    }
  }

  lemma NonceWindow(a: nat, b: nat)
    requires a < b < a + U64_RANGE
    ensures a % U64_RANGE != b % U64_RANGE
  {
  }

  /** Two accepted strip requests with fewer than 2^64 between them seed their draws from different nonces, and
      from different encoded nonces. */
  lemma NoncesDistinct(txs: seq<Tx>, i: nat, j: nat)
    requires i < j < |txs| && txs[i].call.RequestStrip? && LastAccepted(txs[..i + 1])
    requires AcceptedRequests(txs[..j]) - AcceptedRequests(txs[..i]) < 0x1_0000_0000_0000_0000
    ensures var m, n := Run(txs[..i]).garble.nonce, Run(txs[..j]).garble.nonce;
            m != n && Scale.LittleEndian(m, 8) != Scale.LittleEndian(n, 8)
  {
    NonceCountsRequests(txs[..i]);
    NonceCountsRequests(txs[..j]);
    assert txs[..i + 1][..i] == txs[..i];
    RequestsOnlyGrow(txs, i + 1, j);
    NonceWindow(AcceptedRequests(txs[..i]), AcceptedRequests(txs[..j]));
    Scale.Ranges();
    Scale.FromLittleEndianOf(Run(txs[..i]).garble.nonce, 8);
    Scale.FromLittleEndianOf(Run(txs[..j]).garble.nonce, 8);
  }
}
