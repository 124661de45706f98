/** The three pallets together: dispatching an extrinsic and keeping or dropping what it wrote. */
module Runtime {
  import opened Common
  import Circuits
  import Garble
  import TxValidation

  datatype Chain = Chain(validation: TxValidation.Storage, circuits: Circuits.Storage, garble: Garble.Storage)

  const GENESIS := Chain(TxValidation.EMPTY, Circuits.EMPTY, Garble.EMPTY)

  datatype Call =
    | StoreMetadata(cid: Bytes, message: Bytes, pinpad: Bytes)
    | CheckInput(cid: Bytes, input: Bytes)
    | SubmitGeneric(verilog: Bytes)
    | SubmitDisplay
    | CallbackSkcd(cid: Bytes)
    | CallbackDisplay(package: Circuits.DisplayPackage)
    | RequestStandard(skcd: Bytes)
    | RequestStrip(txMsg: Bytes, draws: Garble.Draws)
    | CallbackGarbled(cid: Bytes)
    | CallbackStrip(strip: Garble.StripCallback)

  datatype Tx = Tx(origin: Origin, call: Call)

  /** Every extrinsic starts with an empty set of off-chain index writes. */
  function Drained(c: Chain): Chain {
    c.(circuits := c.circuits.(indexed := None), garble := c.garble.(indexed := None))
  }

  function OnValidation(c: Chain, e: Effect<TxValidation.Storage>): Effect<Chain> {
    Effect(c.(validation := e.state), e.result)
  }

  function OnCircuits(c: Chain, e: Effect<Circuits.Storage>): Effect<Chain> {
    Effect(c.(circuits := e.state), e.result)
  }

  function OnGarble(c: Chain, e: Effect<Garble.Storage>): Effect<Chain> {
    Effect(c.(garble := e.state), e.result)
  }

  function Dispatch(c: Chain, tx: Tx): Effect<Chain> {
    match tx.call
    case StoreMetadata(cid, message, pinpad) =>
      OnValidation(c, TxValidation.StoreMetadataAux(c.validation, tx.origin, cid, message, pinpad))
    case CheckInput(cid, input) => OnValidation(c, TxValidation.CheckInput(c.validation, tx.origin, cid, input))
    case SubmitGeneric(verilog) => OnCircuits(c, Circuits.SubmitGeneric(c.circuits, tx.origin, verilog))
    case SubmitDisplay => OnCircuits(c, Circuits.SubmitDisplay(c.circuits, tx.origin))
    case CallbackSkcd(cid) => OnCircuits(c, Circuits.CallbackSkcd(c.circuits, tx.origin, cid))
    case CallbackDisplay(package) => OnCircuits(c, Circuits.CallbackDisplay(c.circuits, tx.origin, package))
    case RequestStandard(skcd) => OnGarble(c, Garble.GarbleStandardSigned(c.garble, tx.origin, skcd))
    case RequestStrip(txMsg, draws) =>
      OnGarble(c, Garble.GarbleAndStripSigned(c.garble, c.circuits, tx.origin, txMsg, draws))
    case CallbackGarbled(cid) => OnGarble(c, Garble.CallbackGarbled(c.garble, tx.origin, cid))
    case CallbackStrip(strip) =>
      var e := Garble.CallbackStrip(c.garble, c.validation, tx.origin, strip);
      Effect(c.(garble := e.state.0, validation := e.state.1), e.result)
  }

  function Outcome(c: Chain, tx: Tx): DispatchResult {
    Dispatch(Drained(c), tx).result
  }

  /** The chain after one extrinsic: a panic leaves it as it was. */
  function Apply(c: Chain, tx: Tx): Chain {
    Commit(Drained(c), Dispatch(Drained(c), tx))
  }

  class Executive {
    const validation: TxValidation.Pallet
    const circuits: Circuits.Pallet
    const garble: Garble.Pallet

    ghost predicate Valid() {
      garble.validation == validation && garble.circuits == circuits
    }

    function Read(): Chain
      reads validation, circuits, garble
    {
      Chain(validation.Read(), circuits.Read(), garble.Read())
    }

    constructor ()
      ensures Valid() && Read() == GENESIS
      ensures fresh(validation) && fresh(circuits) && fresh(garble)
    {
      var v := new TxValidation.Pallet();
      var c := new Circuits.Pallet();
      validation, circuits := v, c;
      garble := new Garble.Pallet(v, c);
    }

    method DispatchCall(tx: Tx) returns (result: DispatchResult)
      requires Valid()
      modifies validation, circuits, garble
      ensures Effect(Read(), result) == Dispatch(old(Read()), tx)
    {
      match tx.call
      case StoreMetadata(cid, message, pinpad) => result := validation.StoreMetadata(tx.origin, cid, message, pinpad);
      case CheckInput(cid, input) => result := validation.CheckInputSigned(tx.origin, cid, input);
      case SubmitGeneric(verilog) => result := circuits.SubmitConfigGenericSigned(tx.origin, verilog);
      case SubmitDisplay => result := circuits.SubmitConfigDisplayCircuitsPackageSigned(tx.origin);
      case CallbackSkcd(cid) => result := circuits.CallbackNewSkcdSigned(tx.origin, cid);
      case CallbackDisplay(package) => result := circuits.CallbackNewDisplayCircuitsPackageSigned(tx.origin, package);
      case RequestStandard(skcd) => result := garble.RequestStandard(tx.origin, skcd);
      case RequestStrip(txMsg, draws) => result := garble.RequestStrip(tx.origin, txMsg, draws);
      case CallbackGarbled(cid) => result := garble.CallbackNewGarbledSigned(tx.origin, cid);
      case CallbackStrip(strip) => result := garble.CallbackNewGarbledAndStripSigned(tx.origin, strip);
    }

    method Restore(snapshot: Chain)
      modifies validation, circuits, garble
      ensures Read() == snapshot
    {
      validation.metadata, validation.events := snapshot.validation.metadata, snapshot.validation.events;
      circuits.package, circuits.events, circuits.indexed :=
        snapshot.circuits.package, snapshot.circuits.events, snapshot.circuits.indexed;
      garble.nonce, garble.pending := snapshot.garble.nonce, snapshot.garble.pending;
      garble.events, garble.indexed := snapshot.garble.events, snapshot.garble.indexed;
    }

    /** Runs the body in place, and puts the storage back if it panicked. */
    method ApplyExtrinsic(tx: Tx) returns (result: DispatchResult)
      requires Valid()
      modifies validation, circuits, garble
      ensures result == Outcome(old(Read()), tx)
      ensures Read() == Apply(old(Read()), tx)
    {
      circuits.indexed, garble.indexed := None, None;
      var snapshot := Read();
      result := DispatchCall(tx);
      if result.Panicked? {
        Restore(snapshot);
      }
    }
  }
}
