/**
 * The ARK3CFB stream cipher object: an ARK3 block cipher, the 8-byte keystream register it
 * encrypts in place, and the index k of the next register byte. Each method is proved against
 * the step functions of Ark3CfbSpec, with ARK3 as the block function.
 */
module Ark3Cfb {
  import opened JavaBytes
  import opened Ark3Schedule
  import opened Ark3CfbSpec
  import Ark3

  /** ARK3 encryption of an 8-byte block, as encrypt(byte[]) performs it on the register. */
  function BlockCipher(subKeys: seq<bv64>): Block -> Block
    requires |subKeys| == 28
  {
    b => Unpack(EncryptBlock(subKeys, Pack(b)))
  }

  class ARK3CFB {
    const encryptor: Ark3.ARK3
    const keystream: array<bv8>
    var k: nat

    ghost predicate Valid()
      reads this
    {
      encryptor.subKeys.Length == 28 && keystream.Length == 8 && k <= 8
    }

    /** The feedback state: the register contents and the index. */
    ghost function State(): CfbState
      reads this, keystream
    {
      CfbState(keystream[..], k)
    }

    /** The block function the register is regenerated with, under the current subkeys. */
    ghost function Cipher(): Block -> Block
      requires encryptor.subKeys.Length == 28
      reads encryptor.subKeys
    {
      BlockCipher(encryptor.subKeys[..])
    }

    constructor()
      ensures Valid() && fresh(encryptor) && fresh(encryptor.subKeys) && fresh(keystream)
      ensures forall r :: 0 <= r < encryptor.subKeys.Length ==> encryptor.subKeys[r] == 0
      ensures State() == CfbState([0, 0, 0, 0, 0, 0, 0, 0], 0)
    {
      encryptor := new Ark3.ARK3();
      keystream := new bv8[8](_ => 0);
      k := 0;
      new;
      assert keystream[..] == [0, 0, 0, 0, 0, 0, 0, 0];
    }

    /** A key of this size is the 16 block-cipher key bytes followed by one register of IV. */
    function KeySize(): (n: nat)
      ensures 16 <= n
      ensures forall key: seq<bv8> :: |key| == n ==> Ark3CfbSpec.Valid(Start(key[16..]))
    {
      16 + 8
    }

    /** Keys the block cipher with key[0..16), loads key[16..24) into the register and marks
     *  it exhausted, so that the first byte triggers a block encryption. */
    method SetKey(key: array<bv8>)
      requires Valid() && key.Length >= 24
      modifies encryptor.subKeys, keystream, this`k
      ensures Valid()
      ensures encryptor.subKeys[0] == old(encryptor.subKeys[0])
      ensures forall r :: 1 <= r <= 27 ==> encryptor.subKeys[r] == SubKey(key[..16], r)
      ensures State() == Start(key[16..24])
    {
      var cipherKey := new bv8[16];
      ArrayCopy(key, 0, cipherKey, 0, 16);
      assert cipherKey[..] == key[..16];
      encryptor.SetKey(cipherKey);
      ArrayCopy(key, 16, keystream, 0, 8);
      k := 8;
      assert keystream[..] == key[16..24];
    }

    /** Regenerates the register when it is exhausted. */
    method Regenerate()
      requires Valid()
      modifies keystream, this`k
      ensures Valid()
      ensures State() == Refill(Cipher(), old(State()))
    {
      if k == 8 {
        ghost var register := keystream[..];
        encryptor.Encrypt(keystream);
        assert keystream[..] == keystream[0..8];
        PackLongBigEndianWhole(register);
        k := 0;
      }
    }

    /** Encrypts one byte: xors it with the next register byte and feeds the result back. */
    method Encrypt(workingByte: bv32) returns (returnVal: bv32)
      requires Valid()
      modifies keystream, this`k
      ensures Valid()
      ensures returnVal == EncryptStep(Cipher(), old(State()), workingByte).0
      ensures State() == EncryptStep(Cipher(), old(State()), workingByte).1
    {
      Regenerate();
      returnVal := workingByte ^ SignExtend(keystream[k]);
      keystream[k] := LowByte(returnVal);
      k := k + 1;
    }

    /** Decrypts one byte: xors it with the next register byte and feeds the input back. */
    method Decrypt(workingByte: bv32) returns (returnVal: bv32)
      requires Valid()
      modifies keystream, this`k
      ensures Valid()
      ensures returnVal == DecryptStep(Cipher(), old(State()), workingByte).0
      ensures State() == DecryptStep(Cipher(), old(State()), workingByte).1
    {
      Regenerate();
      returnVal := workingByte ^ SignExtend(keystream[k]);
      keystream[k] := LowByte(workingByte);
      k := k + 1;
    }
  }
}
