/** pallets/ocw-garble: the requests to garble, and the callbacks that publish what a worker obtained. */
module Garble {
  import opened Common
  import Circuits
  import IndexingData
  import OneTimeCode
  import Shuffle
  import TxValidation

  const MAX_PENDING: nat := 16

  datatype Stripped = Stripped(
    messagePgarbledCid: Bytes,
    messagePackmsgCid: Bytes,
    pinpadPgarbledCid: Bytes,
    pinpadPackmsgCid: Bytes,
    messageNbDigits: u32)

  datatype Event =
    | NewGarbledIpfsCid(cid: Bytes)
    | NewGarbleAndStrippedIpfsCid(
        messagePgarbled: Bytes, messagePackmsg: Bytes, pinpadPgarbled: Bytes, pinpadPackmsg: Bytes)

  datatype Storage =
    Storage(nonce: u64, pending: map<AccountId, seq<Stripped>>, events: seq<Event>, indexed: Option<Bytes>)

  const EMPTY := Storage(0, map[], [], None)

  /** The four cids of the two replies, and the digits that travelled with the job. */
  datatype StripCallback = StripCallback(
    messagePgarbledCid: Bytes,
    messagePackmsgCid: Bytes,
    messageDigits: Bytes,
    pinpadPgarbledCid: Bytes,
    pinpadPackmsgCid: Bytes,
    pinpadDigits: Bytes)

  /** What one seeded generator yields for a strip request: nine swap indices and two digits. */
  datatype RawDraws = RawDraws(swaps: seq<nat>, digits: Bytes)

  ghost predicate Legal(d: RawDraws) {
    Shuffle.LegalDraws(10, d.swaps) && |d.digits| == 2 && OneTimeCode.AreDigits(d.digits)
  }

  type Draws = d: RawDraws | Legal(d) witness RawDraws([0, 0, 0, 0, 0, 0, 0, 0, 0], [0, 0])

  function PendingOf(s: Storage, who: AccountId): seq<Stripped> {
    if who in s.pending then s.pending[who] else []
  }

  function StandardJob(skcd: Bytes): IndexingData.Garble {
    IndexingData.Garble(1, IndexingData.GarbleStandard, Some(skcd), None, None, None, None, None)
  }

  /** The shuffled pad of a request. */
  function PinpadOf(draws: Draws): Bytes {
    Shuffle.Shuffled(OneTimeCode.PAD, draws.swaps)
  }

  function StripJob(package: Circuits.DisplayPackage, txMsg: Bytes, draws: Draws): IndexingData.Garble {
    IndexingData.Garble(1, IndexingData.GarbleAndStrip, None, Some(package.messageCid), Some(package.pinpadCid),
                        Some(txMsg), Some(draws.digits), Some(PinpadOf(draws)))
  }

  function AppendOrReplace(s: Storage, job: IndexingData.Garble): Effect<Storage> {
    if IndexingData.GarbleEncodable(job)
    then Effect(s.(indexed := Some(IndexingData.EncodeGarble(job))), Done)
    else Effect(s, Panicked)
  }

  function GarbleStandardSigned(s: Storage, origin: Origin, skcd: Bytes): Effect<Storage> {
    if origin.Unsigned? then Effect(s, Failed(BadOrigin)) else AppendOrReplace(s, StandardJob(skcd))
  }

  function GarbleAndStripSigned(s: Storage, circuits: Circuits.Storage, origin: Origin, txMsg: Bytes, draws: Draws)
    : Effect<Storage>
  {
    if origin.Unsigned? then Effect(s, Failed(BadOrigin))
    else
      match Circuits.GetDisplayPackage(circuits)
      case None => Effect(s, Panicked)
      case Some(package) =>
        AppendOrReplace(s.(nonce := (s.nonce + 1) % U64_RANGE), StripJob(package, txMsg, draws))
  }

  function CallbackGarbled(s: Storage, origin: Origin, cid: Bytes): Effect<Storage> {
    if origin.Unsigned? then Effect(s, Failed(BadOrigin))
    else Effect(s.(events := s.events + [NewGarbledIpfsCid(cid)]), Done)
  }

  function EntryOf(c: StripCallback): Stripped
    requires |c.messageDigits| < 0x1_0000_0000
  {
    Stripped(c.messagePgarbledCid, c.messagePackmsgCid, c.pinpadPgarbledCid, c.pinpadPackmsgCid, |c.messageDigits|)
  }

  predicate CidsFit(c: StripCallback) {
    Fits(c.messagePgarbledCid, CID_CAPACITY) && Fits(c.messagePackmsgCid, CID_CAPACITY)
    && Fits(c.pinpadPgarbledCid, CID_CAPACITY) && Fits(c.pinpadPackmsgCid, CID_CAPACITY)
  }

  function CallbackStrip(s: Storage, v: TxValidation.Storage, origin: Origin, c: StripCallback)
    : Effect<(Storage, TxValidation.Storage)>
  {
    if origin.Unsigned? then Effect((s, v), Failed(BadOrigin))
    else
      var noted := s.(events := s.events + [NewGarbleAndStrippedIpfsCid(
        c.messagePgarbledCid, c.messagePackmsgCid, c.pinpadPgarbledCid, c.pinpadPackmsgCid)]);
      var stored := TxValidation.StoreMetadataAux(v, origin, c.messagePgarbledCid, c.messageDigits, c.pinpadDigits);
      if !stored.result.Done? || !CidsFit(c) || |PendingOf(s, origin.who)| >= MAX_PENDING
      then Effect((noted, stored.state), Panicked)
      else
        var list := PendingOf(s, origin.who) + [EntryOf(c)];
        Effect((noted.(pending := s.pending[origin.who := list]), stored.state), Done)
  }

  class Pallet {
    const validation: TxValidation.Pallet
    const circuits: Circuits.Pallet
    var nonce: u64
    var pending: map<AccountId, seq<Stripped>>
    var events: seq<Event>
    var indexed: Option<Bytes>

    function Read(): Storage
      reads this
    {
      Storage(nonce, pending, events, indexed)
    }

    constructor (validation: TxValidation.Pallet, circuits: Circuits.Pallet)
      ensures this.validation == validation && this.circuits == circuits && Read() == EMPTY
    {
      this.validation, this.circuits := validation, circuits;
      nonce, pending, events, indexed := 0, map[], [], None;
    }

    method GetAndIncrementNonce() returns (current: u64)
      modifies this`nonce
      ensures current == old(nonce) && nonce == (old(nonce) + 1) % 0x1_0000_0000_0000_0000
    {
      current := nonce;
      nonce := if current == U64_RANGE - 1 then 0 else current + 1;
    }

    method AppendOrReplaceSkcdHash(job: IndexingData.Garble) returns (result: DispatchResult)
      modifies this`indexed
      ensures Effect(Read(), result) == AppendOrReplace(old(Read()), job)
    {
      if !IndexingData.GarbleEncodable(job) {
        return Panicked;
      }
      indexed := Some(IndexingData.EncodeGarble(job));
      return Done;
    }

    method RequestStandard(origin: Origin, skcd: Bytes) returns (result: DispatchResult)
      modifies this
      ensures Effect(Read(), result) == GarbleStandardSigned(old(Read()), origin, skcd)
    {
      if origin.Unsigned? {
        return Failed(BadOrigin);
      }
      result := AppendOrReplaceSkcdHash(StandardJob(skcd));
    }

    method ShufflePinpad(draws: Draws) returns (pinpad: Bytes)
      ensures pinpad == PinpadOf(draws)
    {
      var digits := new byte[10](i => i);
      assert digits[..] == OneTimeCode.PAD;
      Shuffle.Shuffle(digits, draws.swaps);
      pinpad := digits[..];
    }

    method PrepareStripJob(package: Circuits.DisplayPackage, txMsg: Bytes, draws: Draws)
      returns (job: IndexingData.Garble)
      ensures job == StripJob(package, txMsg, draws)
    {
      var pinpad := ShufflePinpad(draws);
      job := IndexingData.Garble(
        1, IndexingData.GarbleAndStrip, None, Some(package.messageCid), Some(package.pinpadCid),
        Some(txMsg), Some(draws.digits), Some(pinpad));
    }

    /** Draws the nonce, shuffles, and submits the job. */
    method SubmitStripJob(package: Circuits.DisplayPackage, txMsg: Bytes, draws: Draws)
      returns (result: DispatchResult)
      modifies this
      ensures Effect(Read(), result)
              == AppendOrReplace(old(Read()).(nonce := (old(nonce) + 1) % U64_RANGE), StripJob(package, txMsg, draws))
    {
      hide AppendOrReplace, StripJob;
      var _ := GetAndIncrementNonce();
      assert Read() == old(Read()).(nonce := (old(nonce) + 1) % U64_RANGE);
      var job := PrepareStripJob(package, txMsg, draws);
      result := AppendOrReplaceSkcdHash(job);
    }

    method RequestStrip(origin: Origin, txMsg: Bytes, draws: Draws) returns (result: DispatchResult)
      modifies this
      ensures Effect(Read(), result) == GarbleAndStripSigned(old(Read()), circuits.Read(), origin, txMsg, draws)
    {
      hide AppendOrReplace, StripJob, Legal, Circuits.GetDisplayPackage;
      if origin.Unsigned? {
        return Failed(BadOrigin);
      }
      var package := Circuits.GetDisplayPackage(circuits.Read());
      if package.None? {
        return Panicked;
      }
      result := SubmitStripJob(package.value, txMsg, draws);
    }

    method CallbackNewGarbledSigned(origin: Origin, cid: Bytes) returns (result: DispatchResult)
      modifies this
      ensures Effect(Read(), result) == CallbackGarbled(old(Read()), origin, cid)
    {
      if origin.Unsigned? {
        return Failed(BadOrigin);
      }
      events := events + [NewGarbledIpfsCid(cid)];
      return Done;
    }

    /** The metadata is written before the list is known to have room; only the runtime undoes it. */
    method CallbackNewGarbledAndStripSigned(origin: Origin, c: StripCallback) returns (result: DispatchResult)
      modifies this, validation
      ensures Effect((Read(), validation.Read()), result)
              == CallbackStrip(old(Read()), old(validation.Read()), origin, c)
    {
      if origin.Unsigned? {
        return Failed(BadOrigin);
      }
      events := events + [NewGarbleAndStrippedIpfsCid(
        c.messagePgarbledCid, c.messagePackmsgCid, c.pinpadPgarbledCid, c.pinpadPackmsgCid)];
      var stored := validation.StoreMetadata(origin, c.messagePgarbledCid, c.messageDigits, c.pinpadDigits);
      if !stored.Done? {
        return Panicked;
      }
      var current := if origin.who in pending then pending[origin.who] else [];
      if !CidsFit(c) || |current| >= MAX_PENDING {
        return Panicked;
      }
      current := current + [EntryOf(c)];
      pending := pending[origin.who := current];
      return Done;
    }
  }
}
