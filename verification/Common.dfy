/** Types shared by every pallet: fixed-width integers, origins, and how an extrinsic can end. */
module Common {

  type byte = b: int | 0 <= b < 0x100
  type u32 = n: int | 0 <= n < 0x1_0000_0000
  type u64 = n: int | 0 <= n < 0x1_0000_0000_0000_0000
  type Bytes = seq<byte>
  type AccountId = nat

  const U64_RANGE: nat := 0x1_0000_0000_0000_0000

  datatype Option<+T> = None | Some(value: T)

  datatype Origin = Signed(who: AccountId) | Unsigned

  datatype DispatchError = BadOrigin | TxWrongCodeGiven

  /** `Failed` is a returned `Err`: what was written before it stays. `Panicked` is a Rust panic: the
      runtime drops everything the extrinsic wrote. */
  datatype DispatchResult = Done | Failed(error: DispatchError) | Panicked

  /** The storage an extrinsic body leaves behind, and how it ended. */
  datatype Effect<+S> = Effect(state: S, result: DispatchResult)

  /** What the runtime keeps of an effect: a panic rolls the storage back. */
  function Commit<S>(before: S, effect: Effect<S>): S {
    if effect.result.Panicked? then before else effect.state
  }

  /** Capacity check behind every `try_into::<BoundedVec<_, ConstU32<N>>>().unwrap()`. */
  predicate Fits<T>(s: seq<T>, capacity: nat) {
    |s| <= capacity
  }

  ghost predicate Distinct<T>(s: seq<T>) {
    forall i, j :: 0 <= i < j < |s| ==> s[i] != s[j]
  }

  const CID_CAPACITY: nat := 64
  const DIGITS_CAPACITY: nat := 10
}
