/**
 * The ARK3 key schedule and the 27-round encryption as functions.
 */
module Ark3Schedule {
  import opened JavaBytes
  import opened Ark3Spec

  // ---------------------------------------------------------------- key schedule

  /** The 128-bit key state keyUpper‖keyLower as one number. */
  function Join(upper: bv64, lower: bv64): bv128
  {
    (upper as bv128 << 64) | lower as bv128
  }

  /** keyUpper after the shifts of setKey. */
  function ShiftedUpper(upper: bv64, lower: bv64): bv64
  {
    (upper >> 29) | (lower << 35)
  }

  /** keyLower after the shifts of setKey. */
  function ShiftedLower(upper: bv64, lower: bv64): bv64
  {
    (lower >> 29) | (upper << 35)
  }

  /** The raw form of the rotation below, on the shift expressions themselves. */
  lemma ShiftsRotateRight29(upper: bv64, lower: bv64)
    ensures Join((upper >> 29) | (lower << 35), (lower >> 29) | (upper << 35)) == Join(upper, lower).RotateRight(29)
  {
  }

  /**
   * Shifting each half right by 29 and filling its top 29 bits from the other half
   * rotates keyUpper‖keyLower right by 29 bits.
   */
  lemma ShiftedIsRotation(upper: bv64, lower: bv64)
    ensures Join(ShiftedUpper(upper, lower), ShiftedLower(upper, lower)) == Join(upper, lower).RotateRight(29)
  {
    ShiftsRotateRight29(upper, lower);
  }

  /** The upper long of the key state after the rotation. */
  function RotatedUpper(state: seq<bv8>): bv64
    requires |state| >= 16
  {
    ShiftedUpper(PackLongBigEndian(state, 0), PackLongBigEndian(state, 8))
  }

  /** The lower long of the key state after the rotation. */
  function RotatedLower(state: seq<bv8>): bv64
    requires |state| >= 16
  {
    ShiftedLower(PackLongBigEndian(state, 0), PackLongBigEndian(state, 8))
  }

  /** The rotated halves of a key state stored at the front of a longer key array. */
  lemma RotatedOf(src: seq<bv8>, state: seq<bv8>, upper: bv64, lower: bv64)
    requires |src| >= 16 && state == src[..16]
    requires upper == PackLongBigEndian(src, 0) && lower == PackLongBigEndian(src, 8)
    ensures RotatedUpper(state) == ShiftedUpper(upper, lower)
    ensures RotatedLower(state) == ShiftedLower(upper, lower)
  {
    assert src[0..8] == state[0..8] && src[8..16] == state[8..16];
  }

  /** The subkey a round derives from the key state it starts with. */
  function RoundKey(state: seq<bv8>): bv64
    requires |state| >= 16
  {
    SubstitutionPermutation(RotatedUpper(state))
  }

  /** The key state built from a subkey and a rotated lower long: both stored big-endian, then the round number XORed into byte 15. */
  function NextState(subKey: bv64, lower: bv64, round: bv32): (next: seq<bv8>)
    ensures |next| == 16
  {
    var tempState := Unpack(subKey) + Unpack(lower);
    tempState[15 := LowByte(SignExtend(tempState[15]) ^ round)]
  }

  /** The key state a round leaves: the round's subkey followed by the rotated lower long. */
  function ScheduleStep(state: seq<bv8>, round: bv32): (next: seq<bv8>)
    requires |state| >= 16
    ensures |next| == 16
  {
    NextState(RoundKey(state), RotatedLower(state), round)
  }

  /** The first 16 bytes of the key state at the start of round r + 1. */
  function KeyState(key: seq<bv8>, r: nat): (state: seq<bv8>)
    requires |key| >= 16 && r <= 27
    ensures |state| == 16
  {
    if r == 0 then key[..16] else ScheduleStep(KeyState(key, r - 1), r as bv32)
  }

  /** subKeys[r] after setKey(key), for r in 1..27. */
  function SubKey(key: seq<bv8>, r: nat): bv64
    requires |key| >= 16 && 1 <= r <= 27
  {
    RoundKey(KeyState(key, r - 1))
  }

  /** states[r] is the key state after r rounds and keys[r] the subkey of round r. */
  ghost predicate IsSchedule(key: seq<bv8>, states: seq<seq<bv8>>, keys: seq<bv64>)
  {
    |key| >= 16 && |states| == 28 && |keys| == 28 &&
    (forall r {:trigger KeyState(key, r)} :: 0 <= r <= 27 ==> states[r] == KeyState(key, r)) &&
    (forall r {:trigger SubKey(key, r)} :: 1 <= r <= 27 ==> keys[r] == SubKey(key, r))
  }

  /** The whole schedule of a key, as two tables. */
  lemma ScheduleTables(key: seq<bv8>) returns (states: seq<seq<bv8>>, keys: seq<bv64>)
    requires |key| >= 16
    ensures IsSchedule(key, states, keys)
  {
    states := seq(28, r requires 0 <= r < 28 => KeyState(key, r));
    keys := seq(28, r requires 0 <= r < 28 => if r == 0 then 0 else SubKey(key, r));
  }

  /** Round r of the schedule starts from the state round r - 1 left. */
  lemma KeyStateNext(key: seq<bv8>, r: nat, state: seq<bv8>)
    requires |key| >= 16 && 1 <= r <= 27 && state == KeyState(key, r - 1)
    ensures SubKey(key, r) == RoundKey(state)
    ensures KeyState(key, r) == ScheduleStep(state, r as bv32)
  {
  }

  // ---------------------------------------------------------------- encryption

  /** Subkey addition. */
  function AddRoundKey(block: bv64, subKey: bv64): bv64
  {
    block ^ subKey
  }

  /** The block after n rounds, round r adding subKeys[r] and applying the substitution-permutation layer. */
  function Rounds(subKeys: seq<bv64>, block: bv64, n: nat): bv64
    requires |subKeys| == 28 && n <= 27
  {
    if n == 0 then block else SubstitutionPermutation(AddRoundKey(Rounds(subKeys, block, n - 1), subKeys[n]))
  }

  function EncryptBlock(subKeys: seq<bv64>, block: bv64): bv64
    requires |subKeys| == 28
  {
    Rounds(subKeys, block, |subKeys| - 1)
  }

  /** Round n adds subKeys[n] to the block the first n - 1 rounds produce and applies the layer. */
  lemma RoundsNext(subKeys: seq<bv64>, block: bv64, n: nat, data: bv64, subKey: bv64)
    requires |subKeys| == 28 && 1 <= n <= 27 && data == Rounds(subKeys, block, n - 1) && subKey == subKeys[n]
    ensures Rounds(subKeys, block, n) == SubstitutionPermutation(AddRoundKey(data, subKey))
  {
  }

  /** Names the block that all 27 rounds produce. */
  lemma EncryptBlockOf(subKeys: seq<bv64>, block: bv64, data: bv64)
    requires |subKeys| == 28 && data == Rounds(subKeys, block, |subKeys| - 1)
    ensures EncryptBlock(subKeys, block) == data
  {
  }

  lemma {:induction false} RoundsIgnoreSlotZero(subKeys: seq<bv64>, x: bv64, block: bv64, n: nat)
    requires |subKeys| == 28 && n <= 27
    ensures Rounds(subKeys[0 := x], block, n) == Rounds(subKeys, block, n)
  {
    if n > 0 {
      RoundsIgnoreSlotZero(subKeys, x, block, n - 1);
    }
  }

  /** Slot 0 of the subkey array is never read. */
  lemma EncryptBlockIgnoresSlotZero(subKeys: seq<bv64>, x: bv64, block: bv64)
    requires |subKeys| == 28
    ensures EncryptBlock(subKeys[0 := x], block) == EncryptBlock(subKeys, block)
  {
    RoundsIgnoreSlotZero(subKeys, x, block, |subKeys| - 1);
  }

  lemma AddRoundKeyCancels(u: bv64, v: bv64, k: bv64)
    requires AddRoundKey(u, k) == AddRoundKey(v, k)
    ensures u == v
  {
  }

  lemma {:induction false} RoundsInjective(subKeys: seq<bv64>, x: bv64, y: bv64, n: nat)
    requires |subKeys| == 28 && n <= 27
    requires Rounds(subKeys, x, n) == Rounds(subKeys, y, n)
    ensures x == y
  {
    if n > 0 {
      var u, v := Rounds(subKeys, x, n - 1), Rounds(subKeys, y, n - 1);
      SubstitutionPermutationInjective(AddRoundKey(u, subKeys[n]), AddRoundKey(v, subKeys[n]));
      AddRoundKeyCancels(u, v, subKeys[n]);
      RoundsInjective(subKeys, x, y, n - 1);
    }
  }

  /** Under any fixed subkeys, distinct plaintext blocks encrypt to distinct ciphertext blocks. */
  lemma EncryptBlockInjective(subKeys: seq<bv64>, x: bv64, y: bv64)
    requires |subKeys| == 28
    requires EncryptBlock(subKeys, x) == EncryptBlock(subKeys, y)
    ensures x == y
  {
    RoundsInjective(subKeys, x, y, |subKeys| - 1);
  }
}
