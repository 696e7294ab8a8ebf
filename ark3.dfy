/**
 * The ARK3 block cipher object: 28 subkey slots, the key schedule, in-place encryption of an
 * 8-byte block, and the no-op decryption. Each method is proved against the functions of
 * Ark3Spec and Ark3Schedule.
 */
module Ark3 {
  import opened JavaBytes
  import Spec = Ark3Spec
  import opened Ark3Schedule

  class ARK3 {
    /** Slot r holds the subkey of round r, for r in 1..27; slot 0 is never written. */
    const subKeys: array<bv64>

    constructor()
      ensures fresh(subKeys)
      ensures subKeys.Length == 28
      ensures forall r :: 0 <= r < subKeys.Length ==> subKeys[r] == 0
    {
      subKeys := new bv64[28](_ => 0);
    }

    /** A block is one long: the eight bytes encrypt rewrites. */
    function BlockSize(): (n: nat)
      ensures forall v: bv64 :: |Unpack(v)| == n
    {
      8
    }

    /** The key schedule starts from exactly the first n key bytes. */
    function KeySize(): (n: nat)
      ensures forall key: seq<bv8> :: |key| >= n ==> |key| >= 16 && KeyState(key, 0) == key[..n]
    {
      16
    }

    /** The S-box loop: byte i goes through S-box i + 1 and is cast back to a byte. */
    method SubstituteBytes(currentStateByte: array<bv8>) returns (sBoxOutput: array<bv8>)
      requires currentStateByte.Length == 8
      ensures fresh(sBoxOutput)
      ensures sBoxOutput[..] == Spec.Substitute(currentStateByte[..])
    {
      sBoxOutput := new bv8[8];
      for i := 0 to 8
        invariant forall j :: 0 <= j < i ==> sBoxOutput[j] == Spec.Substitute(currentStateByte[..])[j]
      {
        sBoxOutput[i] := LowByte(Spec.SBox((i + 1) as bv32, SignExtend(currentStateByte[i])));
        Spec.SubstituteAt(currentStateByte[..], i);
      }
    }

    /** The fixed byte permutation: output byte j is S-box output [5, 0, 3, 6, 1, 4, 7, 2][j]. */
    method PermuteBytes(sBoxOutput: array<bv8>, currentStateByte: array<bv8>)
      requires sBoxOutput.Length == 8 && currentStateByte.Length == 8 && sBoxOutput != currentStateByte
      modifies currentStateByte
      ensures currentStateByte[..] == Spec.Permute(sBoxOutput[..])
    {
      currentStateByte[0] := sBoxOutput[5];
      currentStateByte[1] := sBoxOutput[0];
      currentStateByte[2] := sBoxOutput[3];
      currentStateByte[3] := sBoxOutput[6];
      currentStateByte[4] := sBoxOutput[1];
      currentStateByte[5] := sBoxOutput[4];
      currentStateByte[6] := sBoxOutput[7];
      currentStateByte[7] := sBoxOutput[2];
      Spec.PermuteElements(sBoxOutput[..], currentStateByte[..]);
    }

    /** One pass of the mix loop: bytes i and i + 1 are replaced by mix(a, b). */
    method MixPair(currentStateByte: array<bv8>, i: nat, ghost permuted: seq<bv8>, ghost mixed: seq<bv8>, ghost p: nat)
      requires currentStateByte.Length == 8 && |permuted| == 8 && p < 4 && i == 2 * p
      requires |mixed| == 8 && Spec.MixedPair(permuted, mixed, p)
      requires currentStateByte[i] == permuted[i] && currentStateByte[i + 1] == permuted[i + 1]
      modifies currentStateByte
      ensures currentStateByte[i] == mixed[i] && currentStateByte[i + 1] == mixed[i + 1]
      ensures forall j :: 0 <= j < 8 && j != i && j != i + 1 ==> currentStateByte[j] == old(currentStateByte[j])
    {
      var temp := Spec.Mix(currentStateByte[i], currentStateByte[i + 1]);
      currentStateByte[i] := temp.0;
      currentStateByte[i + 1] := temp.1;
    }

    /** The mix loop over the pairs (0, 1), (2, 3), (4, 5), (6, 7). */
    method MixBytes(currentStateByte: array<bv8>)
      requires currentStateByte.Length == 8
      modifies currentStateByte
      ensures currentStateByte[..] == Spec.MixPairs(old(currentStateByte[..]))
    {
      ghost var permuted := currentStateByte[..];
      ghost var mixed := Spec.MixTable(permuted);
      var i := 0;
      ghost var p := 0;
      while i < 8
        invariant 0 <= p <= 4 && i == 2 * p
        invariant forall j :: 0 <= j < i ==> currentStateByte[j] == mixed[j]
        invariant forall j :: i <= j < 8 ==> currentStateByte[j] == permuted[j]
      {
        MixPair(currentStateByte, i, permuted, mixed, p);
        i, p := i + 2, p + 1;
      }
      assert currentStateByte[..] == mixed;
      Spec.MixTableIsMixPairs(permuted, mixed);
    }

    /** The substitution-permutation layer on a long, through Java byte arrays. */
    method SubstitutionPermutation(inputState: bv64) returns (output: bv64)
      ensures output == Spec.SubstitutionPermutation(inputState)
    {
      var currentStateByte := new bv8[8];
      UnpackLongBigEndian(inputState, currentStateByte, 0);
      // S-box layer
      var sBoxOutput := SubstituteBytes(currentStateByte);
      // byte permutation
      PermuteBytes(sBoxOutput, currentStateByte);
      // pairwise GF(2^8) mixing
      MixBytes(currentStateByte);
      output := PackLongBigEndian(currentStateByte[..], 0);
      PackLongBigEndianWhole(currentStateByte[..]);
      Spec.SubstitutionPermutationOf(inputState, currentStateByte[..]);
    }

    /** The four shifts of setKey: rotates the key state keyUpper‖keyLower right by 29 bits. */
    method RotateKeyState(key: array<bv8>) returns (keyUpper: bv64, keyLower: bv64)
      requires key.Length >= 16
      ensures keyUpper == RotatedUpper(key[..16]) && keyLower == RotatedLower(key[..16])
    {
      keyUpper := PackLongBigEndian(key[..], 0);
      keyLower := PackLongBigEndian(key[..], 8);
      ghost var upper, lower := keyUpper, keyLower;
      var keyLowerCopy := keyLower;
      keyLower := keyLower >> 29;
      keyLower := keyLower | (keyUpper << 35);
      keyUpper := keyUpper >> 29;
      keyUpper := keyUpper | (keyLowerCopy << 35);
      RotatedOf(key[..], key[..16], upper, lower);
    }

    /** Stores the subkey and the rotated lower long in a new state of the given length and XORs the round into byte 15. */
    method StoreKeyState(keyUpper: bv64, keyLower: bv64, length: nat, round: bv32) returns (tempState: array<bv8>)
      requires length >= 16
      ensures fresh(tempState) && tempState.Length == length
      ensures tempState[..16] == NextState(keyUpper, keyLower, round)
    {
      tempState := new bv8[length];
      UnpackLongBigEndian(keyUpper, tempState, 0);
      ghost var t1 := tempState[..];
      UnpackLongBigEndian(keyLower, tempState, 8);
      UnpackTwice(t1, Unpack(keyUpper), tempState[..], Unpack(keyLower));
      // fold the round counter into byte 15
      tempState[15] := LowByte(SignExtend(tempState[15]) ^ round);
      assert tempState[..16] == (Unpack(keyUpper) + Unpack(keyLower))[15 := tempState[15]];
    }

    /** One pass of the setKey loop: stores the round's subkey and returns the next key state. */
    method ScheduleRound(key: array<bv8>, round: nat, ghost initial: seq<bv8>,
                         ghost states: seq<seq<bv8>>, ghost keys: seq<bv64>)
        returns (tempState: array<bv8>)
      requires key.Length >= 16 && subKeys.Length == 28 && 1 <= round <= 27
      requires IsSchedule(initial, states, keys) && key[..16] == states[round - 1]
      modifies subKeys
      ensures fresh(tempState) && tempState.Length == key.Length
      ensures subKeys[round] == keys[round]
      ensures forall r :: 0 <= r < subKeys.Length && r != round ==> subKeys[r] == old(subKeys[r])
      ensures tempState[..16] == states[round]
    {
      KeyStateNext(initial, round, key[..16]);
      var keyUpper, keyLower := RotateKeyState(key);
      // this round's subkey: the upper half after one S-P layer
      keyUpper := SubstitutionPermutation(keyUpper);
      subKeys[round] := keyUpper;
      tempState := StoreKeyState(keyUpper, keyLower, key.Length, round as bv32);
    }

    /** Fills slots 1..27 with the subkeys the key schedule derives from the first 16 key bytes. */
    method SetKey(key: array<bv8>)
      requires subKeys.Length == 28 && key.Length >= 16
      modifies subKeys
      ensures subKeys[0] == old(subKeys[0])
      ensures forall r :: 1 <= r <= 27 ==> subKeys[r] == SubKey(key[..], r)
    {
      ghost var initial := key[..];
      ghost var states, keys := ScheduleTables(initial);
      var state := key;
      assert states[0] == KeyState(initial, 0);
      for round := 1 to 28
        invariant state.Length == key.Length
        invariant state[..16] == states[round - 1]
        invariant subKeys[0] == old(subKeys[0])
        invariant forall r :: 1 <= r < round ==> subKeys[r] == keys[r]
      {
        state := ScheduleRound(state, round, initial, states, keys);
      }
      assert key[..] == initial;
    }

    /** The round loop of encrypt: 27 rounds of subkey addition and the substitution-permutation layer. */
    method EncryptRounds(block: bv64) returns (data: bv64)
      requires subKeys.Length == 28
      ensures data == EncryptBlock(subKeys[..], block)
    {
      data := block;
      for round := 1 to 28
        invariant data == Rounds(subKeys[..], block, round - 1)
      {
        ghost var before := data;
        // XOR in this round's subkey
        data := AddRoundKey(data, subKeys[round]);
        data := SubstitutionPermutation(data);
        RoundsNext(subKeys[..], block, round, before, subKeys[round]);
      }
      EncryptBlockOf(subKeys[..], block, data);
    }

    /** Encrypts the block in text[0..8] in place under the current subkeys. */
    method Encrypt(text: array<bv8>)
      requires subKeys.Length == 28 && text.Length >= 8
      modifies text
      ensures text[0..8] == Unpack(EncryptBlock(subKeys[..], PackLongBigEndian(old(text[..]), 0)))
      ensures text[8..] == old(text[8..])
    {
      var data := PackLongBigEndian(text[..], 0);
      data := EncryptRounds(data);
      UnpackLongBigEndian(data, text, 0);
    }

    /** Decryption is not implemented by the cipher: the block is left as it is. */
    method Decrypt(text: array<bv8>)
      ensures text[..] == old(text[..])
    {
    }
  }
}
