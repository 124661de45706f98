/** pallets/tx-validation: the stored one-time codes and the check of what the user typed. */
module TxValidation {
  import opened Common
  import Utf8

  datatype Package = Package(message: Bytes, pinpad: Bytes)
  datatype Key = Key(account: AccountId, cid: Bytes)

  datatype Event =
    | TxPass(account: AccountId)
    | TxFail(account: AccountId)
    | DebugNewDigitsSet(message: Bytes, pinpad: Bytes)

  datatype Storage = Storage(metadata: map<Key, Package>, events: seq<Event>)

  const EMPTY := Storage(map[], [])

  // ---------- the check itself ----------

  /** `c.to_digit(10).unwrap_or(c as u32)`: an ASCII digit counts as its value, anything else as its code. */
  function Normalise(c: nat): nat {
    if '0' as int <= c <= '9' as int then c - '0' as int else c
  }

  /** The normalised characters, or `None` when one does not fit a `u8` (that `unwrap` panics). */
  function NormaliseAll(cs: seq<nat>): Option<Bytes> {
    if exists i :: 0 <= i < |cs| && Normalise(cs[i]) > 0xFF then None
    else Some(seq(|cs|, i requires 0 <= i < |cs| => Normalise(cs[i]) as byte))
  }

  /** The pad digits behind the typed positions, or `None` when a position is off the pad. */
  function ReadPad(pinpad: Bytes, positions: Bytes): Option<Bytes> {
    if exists i :: 0 <= i < |positions| && positions[i] >= |pinpad| then None
    else Some(seq(|positions|, i requires 0 <= i < |positions| => pinpad[positions[i]]))
  }

  datatype Verdict = Pass | Fail | Panic

  function Check(pkg: Package, input: Bytes): Verdict {
    match Utf8.Decode(input)
    case None => Panic
    case Some(cs) =>
      match NormaliseAll(cs)
      case None => Panic
      case Some(positions) =>
        match ReadPad(pkg.pinpad, positions)
        case None => Panic
        case Some(computed) => if pkg.message == computed then Pass else Fail
  }

  // ---------- extrinsic bodies, as functions of the storage ----------

  function StoreMetadataAux(s: Storage, origin: Origin, cid: Bytes, message: Bytes, pinpad: Bytes): Effect<Storage> {
    if origin.Unsigned? then Effect(s, Failed(BadOrigin))
    else
      var noted := s.(events := s.events + [DebugNewDigitsSet(message, pinpad)]);
      if Fits(cid, CID_CAPACITY) && Fits(message, DIGITS_CAPACITY) && Fits(pinpad, DIGITS_CAPACITY)
      then Effect(noted.(metadata := s.metadata[Key(origin.who, cid) := Package(message, pinpad)]), Done)
      else Effect(noted, Panicked)
  }

  function CheckInput(s: Storage, origin: Origin, cid: Bytes, input: Bytes): Effect<Storage> {
    if origin.Unsigned? then Effect(s, Failed(BadOrigin))
    else if !Fits(cid, CID_CAPACITY) || Key(origin.who, cid) !in s.metadata then Effect(s, Panicked)
    else
      match Check(s.metadata[Key(origin.who, cid)], input)
      case Panic => Effect(s, Panicked)
      case Pass => Effect(s.(events := s.events + [TxPass(origin.who)]), Done)
      case Fail => Effect(s.(events := s.events + [TxFail(origin.who)]), Failed(TxWrongCodeGiven))
  }

  /** The pallet's storage, written step by step; a panic leaves the writes made so far for the runtime to drop. */
  class Pallet {
    var metadata: map<Key, Package>
    var events: seq<Event>

    function Read(): Storage
      reads this
    {
      Storage(metadata, events)
    }

    constructor ()
      ensures Read() == EMPTY
    {
      metadata, events := map[], [];
    }

    method StoreMetadata(origin: Origin, cid: Bytes, message: Bytes, pinpad: Bytes) returns (result: DispatchResult)
      modifies this
      ensures Effect(Read(), result) == StoreMetadataAux(old(Read()), origin, cid, message, pinpad)
    {
      if origin.Unsigned? {
        return Failed(BadOrigin);
      }
      events := events + [DebugNewDigitsSet(message, pinpad)];
      if !Fits(cid, CID_CAPACITY) || !Fits(message, DIGITS_CAPACITY) || !Fits(pinpad, DIGITS_CAPACITY) {
        return Panicked;
      }
      metadata := metadata[Key(origin.who, cid) := Package(message, pinpad)];
      return Done;
    }

    method CheckInputSigned(origin: Origin, cid: Bytes, input: Bytes) returns (result: DispatchResult)
      modifies this`events
      ensures Effect(Read(), result) == CheckInput(old(Read()), origin, cid, input)
    {
      if origin.Unsigned? {
        return Failed(BadOrigin);
      }
      if !Fits(cid, CID_CAPACITY) || Key(origin.who, cid) !in metadata {
        return Panicked;
      }
      var pkg := metadata[Key(origin.who, cid)];
      var characters := Utf8.Decode(input);
      if characters.None? {
        return Panicked;
      }
      var positions := NormaliseAll(characters.value);
      if positions.None? {
        return Panicked;
      }
      var computed := ReadPad(pkg.pinpad, positions.value);
      if computed.None? {
        return Panicked;
      }
      if pkg.message == computed.value {
        events := events + [TxPass(origin.who)];
        return Done;
      }
      events := events + [TxFail(origin.who)];
      return Failed(TxWrongCodeGiven);
    }
  }
}
