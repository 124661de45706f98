/** `process_if_needed` of both pallets, as one worker executes it. */
module OffchainWorker {
  import opened Common
  import Circuits
  import Garble
  import IndexingData
  import M = Mailbox
  import Runtime
  import Utf8

  /** What the remote service does: fail, answer something that does not decode as the expected reply, or answer. */
  datatype Rpc =
    | FetchError
    | BadReply
    | GarbleReply(pgarbledCid: Bytes)
    | StripReplies(messagePgarbled: Bytes, messagePackmsg: Bytes, pinpadPgarbled: Bytes, pinpadPackmsg: Bytes)
    | SkcdReply(skcdCid: Bytes)
    | DisplayReplies(package: Circuits.DisplayPackage)
    | DisplayWithoutMetadata

  /** `Quiet` sends nothing and drops the guard, as after an error that is only logged; `MissingField` is the panic of
      one of the `expect("missing ...")`. */
  datatype Outcome = Push(call: Runtime.Call) | Quiet | Panic | MissingField

  function CallGarble(d: IndexingData.Garble, rpc: Rpc): Outcome {
    match d.kind
    case GarbleStandard =>
      if d.skcdCid.None? then MissingField
      else if !Utf8.IsUtf8(d.skcdCid.value) then Panic
      else if rpc.FetchError? then Quiet
      else if rpc.GarbleReply? then Push(Runtime.CallbackGarbled(rpc.pgarbledCid))
      else Panic
    case GarbleAndStrip =>
      if d.messageSkcdCid.None? || d.pinpadSkcdCid.None? || d.txMsg.None?
         || d.messageDigits.None? || d.pinpadDigits.None?
      then MissingField
      else if !Utf8.IsUtf8(d.messageSkcdCid.value) || !Utf8.IsUtf8(d.txMsg.value) || !Utf8.IsUtf8(d.pinpadSkcdCid.value)
      then Panic
      else if rpc.StripReplies? then
        Push(Runtime.CallbackStrip(Garble.StripCallback(
          rpc.messagePgarbled, rpc.messagePackmsg, d.messageDigits.value,
          rpc.pinpadPgarbled, rpc.pinpadPackmsg, d.pinpadDigits.value)))
      else Panic
  }

  /** A display reply's missing `server_metadata` is only noticed, by a panic, when an account asks for its callback:
      `signs` says whether the node has an account. */
  function CallCircuits(d: IndexingData.Circuits, rpc: Rpc, signs: bool): Outcome {
    match d.kind
    case Generic =>
      if d.verilogHash.None? then MissingField
      else if !Utf8.IsUtf8(d.verilogHash.value) then Panic
      else if rpc.FetchError? then Quiet
      else if rpc.SkcdReply? then Push(Runtime.CallbackSkcd(rpc.skcdCid))
      else Panic
    case Display =>
      if rpc.DisplayReplies? then Push(Runtime.CallbackDisplay(rpc.package))
      else if rpc.DisplayWithoutMetadata? && !signs then Quiet
      else Panic
  }

  function Process(p: M.Pallet, cell: Option<Bytes>, rpc: Rpc, signs: bool): Outcome {
    match p
    case OcwCircuits => CallCircuits(IndexingData.ReadCircuits(cell), rpc, signs)
    case OcwGarble => CallGarble(IndexingData.ReadGarble(cell), rpc)
  }

  /** The `expect("missing ...")` calls fire exactly on a record that lacks a field of its kind. */
  lemma ExpectsExactly(d: IndexingData.Garble, e: IndexingData.Circuits, rpc: Rpc, signs: bool)
    ensures CallGarble(d, rpc).MissingField?
       <==> if d.kind == IndexingData.GarbleStandard then d.skcdCid == None
            else None in {d.messageSkcdCid, d.pinpadSkcdCid, d.txMsg, d.messageDigits, d.pinpadDigits}
    ensures CallCircuits(e, rpc, signs).MissingField? <==> e.kind == IndexingData.Generic && e.verilogHash == None
  {
    hide Utf8.IsUtf8;
  }

  /** The mailbox step that ends the remote call of worker `w`. */
  function Settled(w: M.WorkerId, outcome: Outcome): M.Action {
    match outcome
    case Push(_) => M.Finish(w, true)
    case Quiet => M.Finish(w, false)
    case _ => M.Crash(w)
  }

  /** One uninterrupted run of worker `w`, in the steps other workers could interleave with. */
  function Steps(p: M.Pallet, w: M.WorkerId, cell: Option<Bytes>, rpc: Rpc, signs: bool): seq<M.Action> {
    [M.Read(w), M.TryLock(w), M.Clear(w), Settled(w, Process(p, cell, rpc, signs)), M.Release(w)]
  }

  lemma ExecAppend(s: M.State, actions: seq<M.Action>, a: M.Action)
    ensures M.Exec(s, actions + [a]) == M.Next(M.Exec(s, actions), a)
  {
    assert (actions + [a])[..|actions|] == actions;
  }

  lemma ThreeSteps(s: M.State, a: M.Action, b: M.Action, c: M.Action)
    ensures M.Exec(s, [a, b, c]) == M.Next(M.Next(M.Next(s, a), b), c)
  {
    assert M.Exec(s, []) == s;
    hide M.Next, M.Exec;
    ExecAppend(s, [], a);
    ExecAppend(s, [a], b);
    ExecAppend(s, [a, b], c);
    assert [] + [a] == [a] && [a] + [b] == [a, b] && [a, b] + [c] == [a, b, c];
  }

  lemma FiveSteps(s: M.State, a: M.Action, b: M.Action, c: M.Action, d: M.Action, e: M.Action)
    ensures M.Exec(s, [a, b, c, d, e]) == M.Next(M.Next(M.Next(M.Next(M.Next(s, a), b), c), d), e)
  {
    hide M.Next, M.Exec;
    ThreeSteps(s, a, b, c);
    ExecAppend(s, [a, b, c], d);
    ExecAppend(s, [a, b, c, d], e);
    assert [a, b, c] + [d] == [a, b, c, d] && [a, b, c, d] + [e] == [a, b, c, d, e];
  }

  lemma ThreeStepsWork(s: M.State, w: M.WorkerId)
    requires w !in s.workers && M.HasWork(s.pallet, s.cell.bytes) && s.Acquirable()
    ensures var t, d := M.Next(M.Next(M.Next(s, M.Read(w)), M.TryLock(w)), M.Clear(w)), M.DeadlineFrom(s.clock);
            && w in t.workers && t.workers[w] == M.Cleared(s.cell, d)
            && t.lock == Some(d) && t.cell == M.Cell(Some(M.ClearedBytes(s.pallet)), None)
  {
    hide M.HasWork, M.ClearedBytes;
  }

  /** What one uninterrupted run leaves: nothing changed if there was no work or the lock was held; else the cell
      cleared, and the lock free again unless the worker panicked. */
  lemma UninterruptedRun(s: M.State, w: M.WorkerId, rpc: Rpc, signs: bool)
    requires w !in s.workers
    ensures var t := M.Exec(s, Steps(s.pallet, w, s.cell.bytes, rpc, signs));
            && w in t.workers
            && if M.HasWork(s.pallet, s.cell.bytes) && s.Acquirable() then
                 var outcome := Process(s.pallet, s.cell.bytes, rpc, signs);
                 && t.cell == M.Cell(Some(M.ClearedBytes(s.pallet)), None)
                 && M.Zeros(t.cell.bytes.value, if s.pallet.OcwCircuits? then 6 else 11)
                 && if outcome.Push? || outcome.Quiet?
                    then t.lock.None? && t.workers[w].Finished?
                    else
                      && t.lock == Some(M.Clock(s.clock.millis + 10000, s.clock.block + 3))
                      && t.workers[w].Crashed?
               else
                 t.cell == s.cell && t.lock == s.lock && t.workers[w].Finished?
  {
    var last := Settled(w, Process(s.pallet, s.cell.bytes, rpc, signs));
    FiveSteps(s, M.Read(w), M.TryLock(w), M.Clear(w), last, M.Release(w));
    M.ClearedIsZeros(s.pallet);
    hide M.HasWork, M.ClearedBytes, M.Exec, M.Zeros, Process;
    if M.HasWork(s.pallet, s.cell.bytes) && s.Acquirable() {
      ThreeStepsWork(s, w);
    }
  }

  /** The node's local storage as one pallet sees it. */
  class LocalStorage {
    var cell: Option<Bytes>
    var lock: Option<M.Clock>

    constructor ()
      ensures cell == None && lock == None
    {
      cell, lock := None, None;
    }

    /** This store at time `now`, as a mailbox nobody is working on. */
    function AsMailbox(p: M.Pallet, expired: M.Expiry, now: M.Clock): M.State
      reads this
    {
      M.Init(p, expired).(cell := M.Cell(cell, None), lock := lock, clock := now)
    }

    /** Leaves the store as the interleavable steps of one worker leave the mailbox, and pushes the callback of the
        job it read if and only if it got the lock and the service answered. A panic after the cell was cleared
        leaves the lock set. */
    method ProcessIfNeeded(p: M.Pallet, expired: M.Expiry, now: M.Clock, rpc: Rpc, signs: bool)
      returns (pushed: Option<Runtime.Call>, crashed: bool)
      modifies this
      ensures var t := M.Exec(old(AsMailbox(p, expired, now)), Steps(p, 0, old(cell), rpc, signs));
              cell == t.cell.bytes && lock == t.lock && 0 in t.workers && (crashed <==> t.workers[0].Crashed?)
      ensures var works := M.HasWork(p, old(cell)) && old(AsMailbox(p, expired, now)).Acquirable();
              var outcome := Process(p, old(cell), rpc, signs);
              pushed == if works && outcome.Push? then Some(outcome.call) else None
    {
      UninterruptedRun(AsMailbox(p, expired, now), 0, rpc, signs);
      hide M.Zeros;
      hide M.HasWork, M.ClearedBytes, M.Exec, Process, Steps;
      pushed, crashed := None, false;
      var seen := cell;
      if !M.HasWork(p, seen) {
        return;
      }
      if lock.Some? && !expired(lock.value, now) {
        return;
      }
      lock := Some(M.DeadlineFrom(now));
      cell := Some(M.ClearedBytes(p));
      var result := Process(p, seen, rpc, signs);
      if result.Panic? || result.MissingField? {
        crashed := true;
        return;
      }
      if result.Push? {
        pushed := Some(result.call);
      }
      lock := None;
    }
  }
}
