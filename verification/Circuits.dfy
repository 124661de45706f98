/** pallets/ocw-circuits: the current pair of display circuits, and the requests to generate circuits. */
module Circuits {
  import opened Common
  import IndexingData

  datatype DisplayPackage =
    DisplayPackage(messageCid: Bytes, messageNbDigits: u32, pinpadCid: Bytes, pinpadNbDigits: u32)

  const DEFAULT_PACKAGE := DisplayPackage([], 0, [], 0)

  datatype Event =
    | NewSkcdIpfsCid(cid: Bytes)
    | NewDisplaySkcdPackageIpfsCid(message: Bytes, pinpad: Bytes)

  /** `indexed` is what the running extrinsic has written to the off-chain mailbox; it reaches the workers'
      store with the block. */
  datatype Storage = Storage(package: DisplayPackage, events: seq<Event>, indexed: Option<Bytes>)

  const EMPTY := Storage(DEFAULT_PACKAGE, [], None)

  /** `get_display_circuits_package`: nothing until both digit counts are set. */
  function GetDisplayPackage(s: Storage): Option<DisplayPackage> {
    if s.package.messageNbDigits == 0 || s.package.pinpadNbDigits == 0 then None else Some(s.package)
  }

  function AppendOrReplace(s: Storage, verilog: Option<Bytes>, kind: IndexingData.CircuitsKind): Effect<Storage> {
    var job := IndexingData.Circuits(verilog, 1, kind);
    if IndexingData.CircuitsEncodable(job)
    then Effect(s.(indexed := Some(IndexingData.EncodeCircuits(job))), Done)
    else Effect(s, Panicked)
  }

  function SubmitGeneric(s: Storage, origin: Origin, verilog: Bytes): Effect<Storage> {
    if origin.Unsigned? then Effect(s, Failed(BadOrigin)) else AppendOrReplace(s, Some(verilog), IndexingData.Generic)
  }

  function SubmitDisplay(s: Storage, origin: Origin): Effect<Storage> {
    if origin.Unsigned? then Effect(s, Failed(BadOrigin)) else AppendOrReplace(s, None, IndexingData.Display)
  }

  function CallbackSkcd(s: Storage, origin: Origin, cid: Bytes): Effect<Storage> {
    if origin.Unsigned? then Effect(s, Failed(BadOrigin))
    else Effect(s.(events := s.events + [NewSkcdIpfsCid(cid)]), Done)
  }

  function CallbackDisplay(s: Storage, origin: Origin, package: DisplayPackage): Effect<Storage> {
    if origin.Unsigned? then Effect(s, Failed(BadOrigin))
    else
      var noted := s.(events := s.events + [NewDisplaySkcdPackageIpfsCid(package.messageCid, package.pinpadCid)]);
      if Fits(package.messageCid, CID_CAPACITY) && Fits(package.pinpadCid, CID_CAPACITY)
      then Effect(noted.(package := package), Done)
      else Effect(noted, Panicked)
  }

  class Pallet {
    var package: DisplayPackage
    var events: seq<Event>
    var indexed: Option<Bytes>

    function Read(): Storage
      reads this
    {
      Storage(package, events, indexed)
    }

    constructor ()
      ensures Read() == EMPTY
    {
      package, events, indexed := DEFAULT_PACKAGE, [], None;
    }

    method AppendOrReplaceVerilogHash(verilog: Option<Bytes>, kind: IndexingData.CircuitsKind)
      returns (result: DispatchResult)
      modifies this`indexed
      ensures Effect(Read(), result) == AppendOrReplace(old(Read()), verilog, kind)
    {
      var data := IndexingData.Circuits(verilog, 1, kind);
      if !IndexingData.CircuitsEncodable(data) {
        return Panicked;
      }
      indexed := Some(IndexingData.EncodeCircuits(data));
      return Done;
    }

    method SubmitConfigGenericSigned(origin: Origin, verilog: Bytes) returns (result: DispatchResult)
      modifies this
      ensures Effect(Read(), result) == SubmitGeneric(old(Read()), origin, verilog)
    {
      if origin.Unsigned? {
        return Failed(BadOrigin);
      }
      result := AppendOrReplaceVerilogHash(Some(verilog), IndexingData.Generic);
    }

    method SubmitConfigDisplayCircuitsPackageSigned(origin: Origin) returns (result: DispatchResult)
      modifies this
      ensures Effect(Read(), result) == SubmitDisplay(old(Read()), origin)
    {
      if origin.Unsigned? {
        return Failed(BadOrigin);
      }
      result := AppendOrReplaceVerilogHash(None, IndexingData.Display);
    }

    method CallbackNewSkcdSigned(origin: Origin, cid: Bytes) returns (result: DispatchResult)
      modifies this
      ensures Effect(Read(), result) == CallbackSkcd(old(Read()), origin, cid)
    {
      if origin.Unsigned? {
        return Failed(BadOrigin);
      }
      events := events + [NewSkcdIpfsCid(cid)];
      return Done;
    }

    method CallbackNewDisplayCircuitsPackageSigned(origin: Origin, newPackage: DisplayPackage)
      returns (result: DispatchResult)
      modifies this
      ensures Effect(Read(), result) == CallbackDisplay(old(Read()), origin, newPackage)
    {
      if origin.Unsigned? {
        return Failed(BadOrigin);
      }
      events := events + [NewDisplaySkcdPackageIpfsCid(newPackage.messageCid, newPackage.pinpadCid)];
      if !Fits(newPackage.messageCid, CID_CAPACITY) || !Fits(newPackage.pinpadCid, CID_CAPACITY) {
        return Panicked;
      }
      package := newPackage;
      return Done;
    }
  }
}
