/** Which byte strings `check_input` accepts, exactly, and how many there are. */
module OneTimeCode {
  import opened Common
  import opened TxValidation
  import Utf8

  /** A byte that presses a key of the pad: a raw digit or an ASCII digit whose value is a pad position. */
  predicate Presses(pinpad: Bytes, b: byte) {
    (b < 10 && b < |pinpad|) || (48 <= b < 58 && b - 48 < |pinpad|)
  }

  ghost predicate AllPress(pinpad: Bytes, input: Bytes) {
    forall i :: 0 <= i < |input| ==> Presses(pinpad, input[i])
  }

  /** The bytes that stand for message digit `d` on this pad: the raw or ASCII digit of a position showing it. */
  predicate Shows(pinpad: Bytes, b: byte, d: byte) {
    (b < 10 && b < |pinpad| && pinpad[b] == d) || (48 <= b < 58 && b - 48 < |pinpad| && pinpad[b - 48] == d)
  }

  ghost predicate Unlocks(pkg: Package, input: Bytes) {
    |input| == |pkg.message| && forall i :: 0 <= i < |input| ==> Shows(pkg.pinpad, input[i], pkg.message[i])
  }

  lemma PressedInputIsRead(pinpad: Bytes, input: Bytes)
    requires AllPress(pinpad, input)
    ensures Utf8.Decode(input) == Some(input)
    ensures NormaliseAll(input).Some?
    ensures var ps := NormaliseAll(input).value;
            |ps| == |input| && (forall i :: 0 <= i < |ps| ==> ps[i] == Normalise(input[i])) && ReadPad(pinpad, ps).Some?
  {
    Utf8.AsciiDecodesToItself(input) by {
      forall i | 0 <= i < |input| ensures input[i] < 0x80 { assert Presses(pinpad, input[i]); }
    }
    forall i | 0 <= i < |input| ensures Normalise(input[i]) < |pinpad| && Normalise(input[i]) <= 0xFF {
      assert Presses(pinpad, input[i]);
    }
  }

  lemma StrayByteIsRefused(pkg: Package, input: Bytes, i: nat)
    requires Fits(pkg.pinpad, DIGITS_CAPACITY)
    requires i < |input| && !Presses(pkg.pinpad, input[i])
    ensures Check(pkg, input) == Panic
  {
    if Utf8.IsUtf8(input) {
      var cs := Utf8.Decode(input).value;
      var k: nat;
      if high :| 0 <= high < |input| && input[high] >= 0x80 {
        Utf8.HighByteGivesHighChar(input, high);
        k :| 0 <= k < |cs| && cs[k] >= 0x80;
      } else {
        Utf8.AsciiDecodesToItself(input);
        k := i;
      }
      assert Normalise(cs[k]) >= |pkg.pinpad|;
      var positions := NormaliseAll(cs);
      if positions.Some? {
        assert positions.value[k] >= |pkg.pinpad|;
      }
    }
  }

  lemma UnlockingPresses(pkg: Package, input: Bytes)
    ensures Unlocks(pkg, input) ==> AllPress(pkg.pinpad, input)
  {
    if Unlocks(pkg, input) {
      forall i | 0 <= i < |input| ensures Presses(pkg.pinpad, input[i]) {
        assert Shows(pkg.pinpad, input[i], pkg.message[i]);
      }
    }
  }

  /** The three outcomes of the check, each for exactly the inputs named: no byte string outside the ten raw and
      ten ASCII digits ever passes, and a wrong code is told apart from a malformed one. */
  lemma CheckExactly(pkg: Package, input: Bytes)
    requires Fits(pkg.pinpad, DIGITS_CAPACITY)
    ensures Check(pkg, input) == Panic <==> !AllPress(pkg.pinpad, input)
    ensures Check(pkg, input) == Pass <==> Unlocks(pkg, input)
    ensures Check(pkg, input) == Fail <==> AllPress(pkg.pinpad, input) && !Unlocks(pkg, input)
  {
    UnlockingPresses(pkg, input);
    if AllPress(pkg.pinpad, input) {
      PressedInputIsRead(pkg.pinpad, input);
      var computed := ReadPad(pkg.pinpad, NormaliseAll(input).value).value;
      assert forall i :: 0 <= i < |input| ==> computed[i] == pkg.pinpad[Normalise(input[i])];
      if Unlocks(pkg, input) {
        forall i | 0 <= i < |input| ensures computed[i] == pkg.message[i] {
          assert Shows(pkg.pinpad, input[i], pkg.message[i]);
        }
        assert pkg.message == computed;
      }
    } else {
      var i :| 0 <= i < |input| && !Presses(pkg.pinpad, input[i]);
      StrayByteIsRefused(pkg, input, i);
    }
  }

  // ---------- counting ----------

  /** The bytes standing for `d` among the first `n` pad positions. */
  ghost function Choices(pinpad: Bytes, d: byte, n: nat): set<byte>
    requires n <= |pinpad| <= DIGITS_CAPACITY
  {
    if n == 0 then {}
    else Choices(pinpad, d, n - 1) + if pinpad[n - 1] == d then {n - 1, n - 1 + '0' as int} else {}
  }

  lemma {:induction false} ChoicesAreThose(pinpad: Bytes, d: byte, n: nat)
    requires n <= |pinpad| <= DIGITS_CAPACITY
    ensures forall b: byte :: b in Choices(pinpad, d, n) <==> Shows(pinpad, b, d) && Normalise(b) < n
  {
    if n == 0 {
    } else {
      ChoicesAreThose(pinpad, d, n - 1);
    }
  }

  lemma {:induction false} ChoicesCount(pinpad: Bytes, d: byte, n: nat)
    requires n <= |pinpad| <= DIGITS_CAPACITY
    ensures |Choices(pinpad, d, n)| == 2 * multiset(pinpad[..n])[d]
  {
    if n == 0 {
    } else {
      ChoicesCount(pinpad, d, n - 1);
      ChoicesAreThose(pinpad, d, n - 1);
      assert pinpad[..n] == pinpad[..n - 1] + [pinpad[n - 1]];
      var raw: byte, ascii: byte := n - 1, n - 1 + '0' as int;
      assert Normalise(raw) == n - 1 && Normalise(ascii) == n - 1;
      var before := Choices(pinpad, d, n - 1);
      assert raw !in before && ascii !in before;
      assert |before + {raw, ascii}| == |before| + |{raw, ascii}|;
    }
  }

  ghost function Prepend(heads: set<byte>, tails: set<Bytes>): set<Bytes> {
    set h, t | h in heads && t in tails :: [h] + t
  }

  lemma InPrepend(h: byte, t: Bytes, heads: set<byte>, tails: set<Bytes>)
    ensures [h] + t in Prepend(heads, tails) <==> h in heads && t in tails
  {
    if [h] + t in Prepend(heads, tails) {
      var g, u :| g in heads && u in tails && [h] + t == [g] + u;
      assert t == ([h] + t)[1..] == ([g] + u)[1..] == u;
      assert h == ([h] + t)[0] == ([g] + u)[0] == g;
    }
  }

  lemma PrependOneMore(h: byte, t: Bytes, tails: set<Bytes>)
    requires t in tails
    ensures Prepend({h}, tails) == Prepend({h}, tails - {t}) + {[h] + t}
  {
    forall s ensures s in Prepend({h}, tails) <==> s in Prepend({h}, tails - {t}) || s == [h] + t {
      if s in Prepend({h}, tails) {
        var u :| u in tails && s == [h] + u;
        InPrepend(h, u, {h}, tails - {t});
      }
    }
  }

  lemma {:induction false} PrependOneSize(h: byte, tails: set<Bytes>)
    ensures |Prepend({h}, tails)| == |tails|
  {
    if tails == {} {
      assert Prepend({h}, tails) == {};
    } else {
      var t :| t in tails;
      PrependOneSize(h, tails - {t});
      PrependOneMore(h, t, tails);
      InPrepend(h, t, {h}, tails - {t});
      hide Prepend;
    }
  }

  lemma PrependSplits(h: byte, heads: set<byte>, tails: set<Bytes>)
    requires h in heads
    ensures Prepend(heads, tails) == Prepend({h}, tails) + Prepend(heads - {h}, tails)
    ensures Prepend({h}, tails) !! Prepend(heads - {h}, tails)
  {
    forall s | s in Prepend(heads, tails) ensures s in Prepend({h}, tails) + Prepend(heads - {h}, tails) {
      var g, u :| g in heads && u in tails && s == [g] + u;
      assert g in {h} || g in heads - {h};
    }
    forall s | s in Prepend({h}, tails) ensures s !in Prepend(heads - {h}, tails) {
      var u :| u in tails && s == [h] + u;
      InPrepend(h, u, heads - {h}, tails);
    }
  }

  ghost function Times(n: nat, m: nat): nat {
    if n == 0 then 0 else m + Times(n - 1, m)
  }

  lemma {:induction false} TimesIsProduct(n: nat, m: nat)
    ensures Times(n, m) == n * m
  {
    if n == 0 {
    } else {
      TimesIsProduct(n - 1, m);
    }
  }

  lemma PrependStep(h: byte, heads: set<byte>, tails: set<Bytes>)
    requires h in heads
    ensures |Prepend(heads, tails)| == |tails| + |Prepend(heads - {h}, tails)|
  {
    PrependOneSize(h, tails);
    PrependSplits(h, heads, tails);
    var a, b := Prepend({h}, tails), Prepend(heads - {h}, tails);
    assert |a + b| == |a| + |b|;
  }

  lemma {:induction false} PrependSize(heads: set<byte>, tails: set<Bytes>)
    ensures |Prepend(heads, tails)| == Times(|heads|, |tails|)
  {
    if heads == {} {
      assert Prepend(heads, tails) == {};
    } else {
      var h :| h in heads;
      PrependStep(h, heads, tails);
      PrependSize(heads - {h}, tails);
    }
  }

  /** Every byte string that unlocks the package. */
  ghost function Accepted(pkg: Package): set<Bytes>
    requires Fits(pkg.pinpad, DIGITS_CAPACITY)
    decreases |pkg.message|
  {
    if pkg.message == [] then {[]}
    else Prepend(Choices(pkg.pinpad, pkg.message[0], |pkg.pinpad|), Accepted(pkg.(message := pkg.message[1..])))
  }

  lemma {:induction false} AcceptedAreThose(pkg: Package, input: Bytes)
    requires Fits(pkg.pinpad, DIGITS_CAPACITY)
    ensures input in Accepted(pkg) <==> Check(pkg, input) == Pass
    decreases |pkg.message|
  {
    CheckExactly(pkg, input);
    if pkg.message == [] {
    } else {
      var rest := pkg.(message := pkg.message[1..]);
      ChoicesAreThose(pkg.pinpad, pkg.message[0], |pkg.pinpad|);
      if input != [] {
        AcceptedAreThose(rest, input[1..]);
        CheckExactly(rest, input[1..]);
        assert input == [input[0]] + input[1..];
        if Unlocks(pkg, input) {
          assert Shows(pkg.pinpad, input[0], pkg.message[0]);
          forall i | 0 <= i < |input[1..]| ensures Shows(pkg.pinpad, input[1..][i], rest.message[i]) {
            assert Shows(pkg.pinpad, input[i + 1], pkg.message[i + 1]);
          }
        }
        if input in Accepted(pkg) {
          var h: byte, t: Bytes :|
            h in Choices(pkg.pinpad, pkg.message[0], |pkg.pinpad|) && t in Accepted(rest) && input == [h] + t;
          assert t == input[1..];
          forall i | 0 <= i < |input| ensures Shows(pkg.pinpad, input[i], pkg.message[i]) {
            if i > 0 { assert Shows(pkg.pinpad, input[1..][i - 1], rest.message[i - 1]); }
          }
        }
      }
    }
  }

  /** Two ways (raw, ASCII) for each pad slot that carries the digit, at each position. */
  ghost function Ways(message: Bytes, pinpad: Bytes): nat {
    if message == [] then 1 else 2 * multiset(pinpad)[message[0]] * Ways(message[1..], pinpad)
  }

  /** The exact number of accepted byte strings, for any message and any pad that can be stored. */
  lemma {:induction false} AcceptedCount(pkg: Package)
    requires Fits(pkg.pinpad, DIGITS_CAPACITY)
    ensures |Accepted(pkg)| == Ways(pkg.message, pkg.pinpad)
    decreases |pkg.message|
  {
    if pkg.message == [] {
    } else {
      AcceptedCount(pkg.(message := pkg.message[1..]));
      ChoicesCount(pkg.pinpad, pkg.message[0], |pkg.pinpad|);
      assert pkg.pinpad[..|pkg.pinpad|] == pkg.pinpad;
      PrependSize(Choices(pkg.pinpad, pkg.message[0], |pkg.pinpad|), Accepted(pkg.(message := pkg.message[1..])));
      TimesIsProduct(2 * multiset(pkg.pinpad)[pkg.message[0]], Ways(pkg.message[1..], pkg.pinpad));
    }
  }

  // ---------- permutation pads ----------

  /** `(0..n).collect()`. */
  function UpTo(n: nat): (s: Bytes)
    requires n <= 0x100
    ensures |s| == n && forall k :: 0 <= k < n ==> s[k] == k
  {
    if n == 0 then [] else UpTo(n - 1) + [n - 1]
  }

  const PAD: Bytes := UpTo(10)

  ghost predicate IsPermutation(pinpad: Bytes) {
    multiset(pinpad) == multiset(PAD)
  }

  ghost predicate AreDigits(message: Bytes) {
    forall i :: 0 <= i < |message| ==> message[i] < 10
  }

  function Pow2(n: nat): nat {
    if n == 0 then 1 else 2 * Pow2(n - 1)
  }

  lemma Appended(s: Bytes, x: byte, d: byte)
    ensures multiset(s + [x])[d] == multiset(s)[d] + if d == x then 1 else 0
  {
  }

  lemma {:induction false} CountsOnce(s: Bytes, d: byte)
    requires forall k :: 0 <= k < |s| ==> s[k] == k
    ensures multiset(s)[d] == if d < |s| then 1 else 0
  {
    if s == [] {
    } else {
      var front, last := s[..|s| - 1], s[|s| - 1];
      CountsOnce(front, d);
      Appended(front, last, d);
      assert s == front + [last];
    }
  }

  lemma PermutationHasTen(pinpad: Bytes)
    requires IsPermutation(pinpad)
    ensures |pinpad| == 10
    ensures forall d: byte :: multiset(pinpad)[d] == if d < 10 then 1 else 0
  {
    assert |multiset(pinpad)| == |multiset(PAD)|;
    forall d: byte ensures multiset(pinpad)[d] == if d < 10 then 1 else 0 {
      CountsOnce(PAD, d);
    }
  }

  lemma OneSlotDoubles(slots: nat, ways: nat)
    requires slots == 1
    ensures 2 * slots * ways == 2 * ways
  {
  }

  lemma {:induction false} WaysOnPermutation(message: Bytes, pinpad: Bytes)
    requires forall i :: 0 <= i < |message| ==> multiset(pinpad)[message[i]] == 1
    ensures Ways(message, pinpad) == Pow2(|message|)
  {
    if message == [] {
    } else {
      WaysOnPermutation(message[1..], pinpad);
      OneSlotDoubles(multiset(pinpad)[message[0]], Ways(message[1..], pinpad));
    }
  }

  /** On a permutation pad exactly 2^n strings pass for an n-digit message. */
  lemma PermutationCount(pkg: Package)
    requires IsPermutation(pkg.pinpad) && AreDigits(pkg.message)
    ensures Fits(pkg.pinpad, DIGITS_CAPACITY) && |Accepted(pkg)| == Pow2(|pkg.message|)
  {
    PermutationHasTen(pkg.pinpad);
    AcceptedCount(pkg);
    WaysOnPermutation(pkg.message, pkg.pinpad);
  }

  /** The pad position that shows digit `d`: the inverse permutation. */
  function Position(pinpad: Bytes, d: byte): (k: nat)
    requires d in pinpad
    ensures k < |pinpad| && pinpad[k] == d
  {
    if pinpad[0] == d then 0 else 1 + Position(pinpad[1..], d)
  }

  lemma TwoSlots(pinpad: Bytes, d: byte, j: nat, k: nat)
    requires j < k < |pinpad| && pinpad[j] == d && pinpad[k] == d
    ensures multiset(pinpad)[d] >= 2
  {
    assert pinpad == pinpad[..j] + [d] + pinpad[j + 1..k] + [d] + pinpad[k + 1..];
  }

  lemma OneSlotPerDigit(pinpad: Bytes, d: byte, j: nat, k: nat)
    requires multiset(pinpad)[d] <= 1
    requires j < |pinpad| && k < |pinpad| && pinpad[j] == d && pinpad[k] == d
    ensures j == k
  {
    if j < k { TwoSlots(pinpad, d, j, k); }
    if k < j { TwoSlots(pinpad, d, k, j); }
  }

  function PressesFor(pkg: Package): Bytes
    requires forall d :: d in pkg.message ==> d in pkg.pinpad
    requires Fits(pkg.pinpad, DIGITS_CAPACITY)
  {
    seq(|pkg.message|, i requires 0 <= i < |pkg.message| => Position(pkg.pinpad, pkg.message[i]))
  }

  lemma PermutationShowsDigits(pkg: Package)
    requires IsPermutation(pkg.pinpad) && AreDigits(pkg.message)
    ensures Fits(pkg.pinpad, DIGITS_CAPACITY) && forall d :: d in pkg.message ==> d in pkg.pinpad
  {
    PermutationHasTen(pkg.pinpad);
    forall d | d in pkg.message ensures d in pkg.pinpad {
      assert multiset(pkg.pinpad)[d] == 1;
    }
  }

  lemma KeyIsPosition(pkg: Package, input: Bytes, i: nat)
    requires forall d :: d in pkg.message ==> d in pkg.pinpad && multiset(pkg.pinpad)[d] <= 1
    requires Fits(pkg.pinpad, DIGITS_CAPACITY)
    requires Unlocks(pkg, input) && i < |input|
    ensures Normalise(input[i]) == PressesFor(pkg)[i]
  {
    assert Shows(pkg.pinpad, input[i], pkg.message[i]);
    OneSlotPerDigit(pkg.pinpad, pkg.message[i], Normalise(input[i]), PressesFor(pkg)[i]);
  }

  lemma KeysArePositions(pkg: Package, input: Bytes, keys: Bytes)
    requires forall d :: d in pkg.message ==> d in pkg.pinpad && multiset(pkg.pinpad)[d] <= 1
    requires Fits(pkg.pinpad, DIGITS_CAPACITY) && Unlocks(pkg, input)
    requires |keys| == |input| && forall i :: 0 <= i < |keys| ==> keys[i] == Normalise(input[i])
    ensures keys == PressesFor(pkg)
  {
    forall i | 0 <= i < |keys| ensures keys[i] == PressesFor(pkg)[i] {
      KeyIsPosition(pkg, input, i);
    }
  }

  lemma PassingIsInverse(pkg: Package, input: Bytes)
    requires IsPermutation(pkg.pinpad) && AreDigits(pkg.message)
    requires Unlocks(pkg, input)
    ensures Fits(pkg.pinpad, DIGITS_CAPACITY) && forall d :: d in pkg.message ==> d in pkg.pinpad
    ensures Utf8.Decode(input) == Some(input) && NormaliseAll(input) == Some(PressesFor(pkg))
  {
    PermutationShowsDigits(pkg);
    PermutationHasTen(pkg.pinpad);
    hide *;
    UnlockingPresses(pkg, input);
    PressedInputIsRead(pkg.pinpad, input);
    KeysArePositions(pkg, input, NormaliseAll(input).value);
  }

  lemma ReadPadGives(pinpad: Bytes, keys: Bytes, message: Bytes)
    requires |keys| == |message|
    requires forall i :: 0 <= i < |keys| ==> keys[i] < |pinpad| && pinpad[keys[i]] == message[i]
    ensures ReadPad(pinpad, keys) == Some(message)
  {
    assert seq(|keys|, i requires 0 <= i < |keys| => pinpad[keys[i]]) == message;
  }

  lemma InversePasses(pkg: Package, input: Bytes, keys: Bytes)
    requires |keys| == |pkg.message|
    requires forall i :: 0 <= i < |keys| ==> keys[i] < |pkg.pinpad| && pkg.pinpad[keys[i]] == pkg.message[i]
    requires Utf8.IsUtf8(input) && NormaliseAll(Utf8.Decode(input).value) == Some(keys)
    ensures Check(pkg, input) == Pass
  {
    ReadPadGives(pkg.pinpad, keys, pkg.message);
  }

  /** For a permutation pad the input passes exactly when its normalised form is the inverse permutation applied
      to the message: the check refines "type the positions of these digits", in raw, ASCII or mixed form. */
  lemma PassIsInversePermutation(pkg: Package, input: Bytes)
    requires IsPermutation(pkg.pinpad) && AreDigits(pkg.message)
    ensures Fits(pkg.pinpad, DIGITS_CAPACITY) && forall d :: d in pkg.message ==> d in pkg.pinpad
    ensures Check(pkg, input) == Pass
       <==> Utf8.IsUtf8(input) && NormaliseAll(Utf8.Decode(input).value) == Some(PressesFor(pkg))
  {
    PermutationShowsDigits(pkg);
    if Check(pkg, input) == Pass {
      CheckExactly(pkg, input);
      PassingIsInverse(pkg, input);
    } else if Utf8.IsUtf8(input) {
      if NormaliseAll(Utf8.Decode(input).value) == Some(PressesFor(pkg)) {
        InversePasses(pkg, input, PressesFor(pkg));
      }
    }
  }

  /** What the refinement asks for is itself an accepted input. */
  lemma PositionsPass(pkg: Package)
    requires IsPermutation(pkg.pinpad) && AreDigits(pkg.message)
    ensures Fits(pkg.pinpad, DIGITS_CAPACITY) && forall d :: d in pkg.message ==> d in pkg.pinpad
    ensures Check(pkg, PressesFor(pkg)) == Pass
    ensures var keys := PressesFor(pkg);
            && |keys| == |pkg.message| && |pkg.pinpad| == 10
            && forall k :: 0 <= k < |keys| ==> keys[k] < 10 && pkg.pinpad[keys[k]] == pkg.message[k]
  {
    PermutationShowsDigits(pkg);
    PermutationHasTen(pkg.pinpad);
    var keys := PressesFor(pkg);
    forall i | 0 <= i < |keys| ensures Shows(pkg.pinpad, keys[i], pkg.message[i]) {
      assert pkg.message[i] in pkg.pinpad;
    }
    CheckExactly(pkg, keys);
  }

  // ---------- raw and ASCII digits ----------

  lemma PressesByKey(pinpad: Bytes, b: byte)
    requires Fits(pinpad, DIGITS_CAPACITY)
    ensures Presses(pinpad, b) <==> Normalise(b) < |pinpad|
  {
  }

  lemma SameKeysUnlock(pkg: Package, a: Bytes, b: Bytes)
    requires Fits(pkg.pinpad, DIGITS_CAPACITY)
    requires |a| == |b| && forall i :: 0 <= i < |a| ==> Normalise(a[i]) == Normalise(b[i])
    ensures AllPress(pkg.pinpad, a) ==> AllPress(pkg.pinpad, b)
    ensures Unlocks(pkg, a) ==> Unlocks(pkg, b)
  {
    if AllPress(pkg.pinpad, a) {
      forall i | 0 <= i < |b| ensures Presses(pkg.pinpad, b[i]) {
        assert Presses(pkg.pinpad, a[i]);
        PressesByKey(pkg.pinpad, b[i]);
      }
    }
    if Unlocks(pkg, a) {
      forall i | 0 <= i < |b| ensures Shows(pkg.pinpad, b[i], pkg.message[i]) {
        assert Shows(pkg.pinpad, a[i], pkg.message[i]);
        PressesByKey(pkg.pinpad, b[i]);
      }
    }
  }

  /** Raw digits, ASCII digits and any mix of them that mean the same keys get the same verdict, panics included. */
  lemma SameKeysSameVerdict(pkg: Package, a: Bytes, b: Bytes)
    requires Fits(pkg.pinpad, DIGITS_CAPACITY)
    requires |a| == |b| && forall i :: 0 <= i < |a| ==> Normalise(a[i]) == Normalise(b[i])
    ensures Check(pkg, a) == Check(pkg, b)
  {
    CheckExactly(pkg, a);
    CheckExactly(pkg, b);
    SameKeysUnlock(pkg, a, b);
    SameKeysUnlock(pkg, b, a);
  }

  lemma NormalisedAscii(input: Bytes) returns (once: Bytes)
    requires forall i :: 0 <= i < |input| ==> input[i] < 0x80
    ensures NormaliseAll(input) == Some(once) && |once| == |input|
    ensures forall i :: 0 <= i < |once| ==> once[i] == Normalise(input[i])
  {
    once := NormaliseAll(input).value;
  }

  lemma FixedByNormalising(s: Bytes)
    requires forall i :: 0 <= i < |s| ==> Normalise(s[i]) == s[i]
    ensures NormaliseAll(s) == Some(s)
  {
    assert NormaliseAll(s).value == s;
  }

  /** ASCII input is normalised, normalising it again changes nothing, and the normalised input gets its verdict. */
  lemma NormalisingTwice(pkg: Package, input: Bytes) returns (once: Bytes)
    requires Fits(pkg.pinpad, DIGITS_CAPACITY) && forall i :: 0 <= i < |input| ==> input[i] < 0x80
    ensures Utf8.Decode(input) == Some(input) && NormaliseAll(input) == Some(once)
    ensures NormaliseAll(once) == Some(once) && Check(pkg, once) == Check(pkg, input)
  {
    Utf8.AsciiDecodesToItself(input);
    once := NormalisedAscii(input);
    hide NormaliseAll, Check, Utf8.Decode;
    FixedByNormalising(once);
    SameKeysSameVerdict(pkg, input, once);
  }
}
