/**
 * Cipher feedback mode run one byte at a time, as functions of the feedback state, for any
 * 8-byte block function `cipher` (module Ark3Cfb supplies ARK3 under the current subkeys).
 * The state is the 8-byte keystream register and the index k of its next unused byte; k == 8
 * means the register must be block-encrypted before the next byte. Encryption and decryption
 * both feed a ciphertext byte back into the register, so no inverse block cipher is needed.
 */
module Ark3CfbSpec {
  import opened JavaBytes

  /** An 8-byte block, as the block cipher encrypts it in place. */
  type Block = b: seq<bv8> | |b| == 8 witness [0, 0, 0, 0, 0, 0, 0, 0]

  datatype CfbState = CfbState(keystream: seq<bv8>, k: nat)

  predicate Valid(s: CfbState)
  {
    |s.keystream| == 8 && s.k <= 8
  }

  /** The state setKey leaves: the initialization vector in the register and a block due. */
  function Start(iv: seq<bv8>): CfbState
  {
    CfbState(iv, 8)
  }

  /** A byte as the int 0..255 that a stream read returns. */
  function Unsigned(b: bv8): (w: bv32)
    ensures w < 0x100 && LowByte(w) == b
  {
    b as bv32
  }

  /** Bytes as the ints 0..255 that stream reads return. */
  function WidenAll(bs: seq<bv8>): (ws: seq<bv32>)
    ensures |ws| == |bs|
  {
    seq(|bs|, i requires 0 <= i < |bs| => Unsigned(bs[i]))
  }

  /** The low 8 bits of each int, as a caller that writes bytes to a stream keeps them. */
  function LowBytes(ws: seq<bv32>): (bs: seq<bv8>)
    ensures |bs| == |ws|
  {
    seq(|ws|, i requires 0 <= i < |ws| => LowByte(ws[i]))
  }

  function XorBytes(a: seq<bv8>, b: seq<bv8>): (c: seq<bv8>)
    requires |a| == |b|
    ensures |c| == |a|
  {
    seq(|a|, i requires 0 <= i < |a| => a[i] ^ b[i])
  }

  /** When every register byte has been used, the register is replaced by its block encryption. */
  function Refill(cipher: Block -> Block, s: CfbState): (t: CfbState)
    requires Valid(s)
    ensures Valid(t) && t.k < 8
    ensures s.k < 8 ==> t == s
    ensures s.k == 8 ==> t.k == 0
  {
    if s.k == 8 then CfbState(cipher(s.keystream), 0) else s
  }

  /** One call of encrypt: the result and the state after it. */
  function EncryptStep(cipher: Block -> Block, s: CfbState, workingByte: bv32): (r: (bv32, CfbState))
    requires Valid(s)
    ensures Valid(r.1) && 1 <= r.1.k <= 8
  {
    var t := Refill(cipher, s);
    var returnVal := workingByte ^ SignExtend(t.keystream[t.k]);
    (returnVal, CfbState(t.keystream[t.k := LowByte(returnVal)], t.k + 1))
  }

  /** One call of decrypt: the result and the state after it. */
  function DecryptStep(cipher: Block -> Block, s: CfbState, workingByte: bv32): (r: (bv32, CfbState))
    requires Valid(s)
    ensures Valid(r.1) && 1 <= r.1.k <= 8
  {
    var t := Refill(cipher, s);
    var returnVal := workingByte ^ SignExtend(t.keystream[t.k]);
    (returnVal, CfbState(t.keystream[t.k := LowByte(workingByte)], t.k + 1))
  }

  /** Calls encrypt on each input in turn: the results and the final state. */
  function EncryptStream(cipher: Block -> Block, s: CfbState, inputs: seq<bv32>): (r: (seq<bv32>, CfbState))
    requires Valid(s)
    ensures |r.0| == |inputs| && Valid(r.1)
    decreases |inputs|
  {
    if |inputs| == 0 then ([], s)
    else
      var first := EncryptStep(cipher, s, inputs[0]);
      var rest := EncryptStream(cipher, first.1, inputs[1..]);
      ([first.0] + rest.0, rest.1)
  }

  /** Calls decrypt on each input in turn: the results and the final state. */
  function DecryptStream(cipher: Block -> Block, s: CfbState, inputs: seq<bv32>): (r: (seq<bv32>, CfbState))
    requires Valid(s)
    ensures |r.0| == |inputs| && Valid(r.1)
    decreases |inputs|
  {
    if |inputs| == 0 then ([], s)
    else
      var first := DecryptStep(cipher, s, inputs[0]);
      var rest := DecryptStream(cipher, first.1, inputs[1..]);
      ([first.0] + rest.0, rest.1)
  }

  /** The number of block encryptions during n calls from a state whose index is k. */
  function Regenerations(k: nat, n: nat): nat
    requires k <= 8
    decreases n
  {
    if n == 0 then 0
    else if k == 8 then 1 + Regenerations(1, n - 1)
    else Regenerations(k + 1, n - 1)
  }

  /**
   * Reference CFB with a 64-bit segment over whole blocks (section 6.3 of NIST SP 800-38A):
   * C_j = P_j xor E(C_{j-1}) with C_0 the initialization vector.
   */
  function Cfb64Encrypt(cipher: Block -> Block, register: seq<bv8>, plain: seq<bv8>): (c: seq<bv8>)
    requires |register| == 8 && |plain| % 8 == 0
    ensures |c| == |plain|
    decreases |plain|
  {
    if |plain| == 0 then []
    else
      var block := XorBytes(plain[..8], cipher(register));
      block + Cfb64Encrypt(cipher, block, plain[8..])
  }

  /** The register after CFB-64 encryption of plain: the last ciphertext block, or the IV. */
  function LastRegister(cipher: Block -> Block, iv: seq<bv8>, plain: seq<bv8>): seq<bv8>
    requires |iv| == 8 && |plain| % 8 == 0
  {
    if |plain| == 0 then iv else Cfb64Encrypt(cipher, iv, plain)[|plain| - 8..]
  }

  // ---------------------------------------------------------------- one call

  /** The result's low byte is the input's low byte xor the register byte used; encrypt feeds
   *  it back, and no other register byte changes after regeneration. */
  lemma EncryptStepFeedback(cipher: Block -> Block, s: CfbState, workingByte: bv32)
    requires Valid(s)
    ensures var t := Refill(cipher, s);
            var r := EncryptStep(cipher, s, workingByte);
            && LowByte(r.0) == LowByte(workingByte) ^ t.keystream[t.k]
            && r.1.k == t.k + 1
            && r.1.keystream[t.k] == LowByte(r.0)
            && forall j :: 0 <= j < 8 && j != t.k ==> r.1.keystream[j] == t.keystream[j]
  {
    var t := Refill(cipher, s);
    LowByteXor(workingByte, SignExtend(t.keystream[t.k]));
    LowByteOfSignExtend(t.keystream[t.k]);
  }

  /** Decrypt yields the input's low byte xor the register byte used, and feeds back the input. */
  lemma DecryptStepFeedback(cipher: Block -> Block, s: CfbState, workingByte: bv32)
    requires Valid(s)
    ensures var t := Refill(cipher, s);
            var r := DecryptStep(cipher, s, workingByte);
            && LowByte(r.0) == LowByte(workingByte) ^ t.keystream[t.k]
            && r.1.k == t.k + 1
            && r.1.keystream[t.k] == LowByte(workingByte)
            && forall j :: 0 <= j < 8 && j != t.k ==> r.1.keystream[j] == t.keystream[j]
  {
    var t := Refill(cipher, s);
    LowByteXor(workingByte, SignExtend(t.keystream[t.k]));
    LowByteOfSignExtend(t.keystream[t.k]);
  }

  /** A block encryption happens exactly when every register byte has been used. */
  lemma RegeneratesIffExhausted(cipher: Block -> Block, s: CfbState)
    requires Valid(s)
    ensures Refill(cipher, s) != s <==> s.k == 8
  {
  }

  /** The result of encrypt is not confined to 0..255: a register byte of 0x80 yields 0xFFFFFF80. */
  lemma EncryptResultMayExceedByte(cipher: Block -> Block)
    ensures EncryptStep(cipher, CfbState([0x80, 0, 0, 0, 0, 0, 0, 0], 0), 0).0 == 0xFFFF_FF80
  {
  }

  /** The result of decrypt is not confined to 0..255 either: a register byte of 0x80 and input 0 yield 0xFFFFFF80. */
  lemma DecryptResultMayExceedByte(cipher: Block -> Block)
    ensures DecryptStep(cipher, CfbState([0x80, 0, 0, 0, 0, 0, 0, 0], 0), 0).0 == 0xFFFF_FF80
  {
  }

  /** Decrypting encrypt's result returns the input and leaves the decryptor in the
   *  encryptor's state. */
  lemma StepRoundTrip(cipher: Block -> Block, s: CfbState, p: bv32)
    requires Valid(s)
    ensures var e := EncryptStep(cipher, s, p);
            var d := DecryptStep(cipher, s, e.0);
            d.0 == p && d.1 == e.1
  {
    var t := Refill(cipher, s);
    XorCancels(p, SignExtend(t.keystream[t.k]));
  }

  /** Decrypting only the low byte of encrypt's result returns the input mod 256 and leaves
   *  the decryptor in the encryptor's state. */
  lemma StepRoundTripLowByte(cipher: Block -> Block, s: CfbState, p: bv32)
    requires Valid(s)
    ensures var e := EncryptStep(cipher, s, p);
            var d := DecryptStep(cipher, s, Unsigned(LowByte(e.0)));
            LowByte(d.0) == LowByte(p) && d.1 == e.1
  {
    var t := Refill(cipher, s);
    var x := SignExtend(t.keystream[t.k]);
    var c := p ^ x;
    LowByteXor(Unsigned(LowByte(c)), x);
    LowByteXor(p, x);
  }

  lemma XorCancels(p: bv32, x: bv32)
    ensures (p ^ x) ^ x == p
  {
  }

  // ---------------------------------------------------------------- streams

  /** Encryptor and decryptor keyed alike and fed a plaintext and its ciphertext low bytes
   *  stay in the same state, and decryption gives back the plaintext mod 256. */
  lemma {:induction false} StreamRoundTrip(cipher: Block -> Block, s: CfbState, plain: seq<bv32>)
    requires Valid(s)
    ensures var e := EncryptStream(cipher, s, plain);
            var d := DecryptStream(cipher, s, WidenAll(LowBytes(e.0)));
            LowBytes(d.0) == LowBytes(plain) && d.1 == e.1
    decreases |plain|
  {
    if |plain| > 0 {
      var e := EncryptStream(cipher, s, plain);
      var ct := WidenAll(LowBytes(e.0));
      var e1 := EncryptStep(cipher, s, plain[0]);
      StepRoundTripLowByte(cipher, s, plain[0]);
      assert ct[0] == Unsigned(LowByte(e1.0));
      var d1 := DecryptStep(cipher, s, ct[0]);
      assert d1.1 == e1.1;
      var eRest := EncryptStream(cipher, e1.1, plain[1..]);
      assert e.0[1..] == eRest.0;
      assert ct[1..] == WidenAll(LowBytes(eRest.0));
      StreamRoundTrip(cipher, e1.1, plain[1..]);
      var d := DecryptStream(cipher, s, ct);
      var dRest := DecryptStream(cipher, d1.1, ct[1..]);
      assert d.0 == [d1.0] + dRest.0;
      assert LowBytes(d.0) == [LowByte(d1.0)] + LowBytes(dRest.0);
      assert LowBytes(plain) == [LowByte(plain[0])] + LowBytes(plain[1..]);
    }
  }

  /** Every call leaves the index in 1..8; after n >= 1 calls it is (k + n - 1) % 8 + 1. */
  lemma {:induction false} EncryptStreamIndex(cipher: Block -> Block, s: CfbState, inputs: seq<bv32>)
    requires Valid(s)
    ensures var r := EncryptStream(cipher, s, inputs);
            r.1.k == if |inputs| == 0 then s.k else (s.k + |inputs| - 1) % 8 + 1
    decreases |inputs|
  {
    if |inputs| > 0 {
      var first := EncryptStep(cipher, s, inputs[0]);
      assert first.1.k == s.k % 8 + 1;
      EncryptStreamIndex(cipher, first.1, inputs[1..]);
    }
  }

  /** The same index arithmetic for decrypt calls. */
  lemma {:induction false} DecryptStreamIndex(cipher: Block -> Block, s: CfbState, inputs: seq<bv32>)
    requires Valid(s)
    ensures var r := DecryptStream(cipher, s, inputs);
            r.1.k == if |inputs| == 0 then s.k else (s.k + |inputs| - 1) % 8 + 1
    decreases |inputs|
  {
    if |inputs| > 0 {
      var first := DecryptStep(cipher, s, inputs[0]);
      assert first.1.k == s.k % 8 + 1;
      DecryptStreamIndex(cipher, first.1, inputs[1..]);
    }
  }

  /** n calls from index k perform (k + n - 1) / 8 block encryptions: ceil(n / 8) after setKey. */
  lemma {:induction false} RegenerationCount(k: nat, n: nat)
    requires k <= 8
    ensures Regenerations(k, n) == if n == 0 then 0 else (k + n - 1) / 8
    ensures k == 8 ==> Regenerations(k, n) == (n + 7) / 8
    decreases n
  {
    if n > 0 {
      if k == 8 {
        RegenerationCount(1, n - 1);
      } else {
        RegenerationCount(k + 1, n - 1);
      }
    }
  }

  /** The number of encrypt calls of a stream that start with an exhausted register. */
  function EncryptExhausted(cipher: Block -> Block, s: CfbState, inputs: seq<bv32>): (n: nat)
    requires Valid(s)
    ensures n <= |inputs|
    decreases |inputs|
  {
    if |inputs| == 0 then 0
    else (if s.k == 8 then 1 else 0) + EncryptExhausted(cipher, EncryptStep(cipher, s, inputs[0]).1, inputs[1..])
  }

  /** Encrypt calls regenerate the register Regenerations(k, n) times. */
  lemma {:induction false} EncryptExhaustedIsRegenerations(cipher: Block -> Block, s: CfbState, inputs: seq<bv32>)
    requires Valid(s)
    ensures EncryptExhausted(cipher, s, inputs) == Regenerations(s.k, |inputs|)
    decreases |inputs|
  {
    if |inputs| > 0 {
      var first := EncryptStep(cipher, s, inputs[0]);
      assert first.1.k == if s.k == 8 then 1 else s.k + 1;
      EncryptExhaustedIsRegenerations(cipher, first.1, inputs[1..]);
    }
  }

  /** The number of decrypt calls of a stream that start with an exhausted register. */
  function DecryptExhausted(cipher: Block -> Block, s: CfbState, inputs: seq<bv32>): (n: nat)
    requires Valid(s)
    ensures n <= |inputs|
    decreases |inputs|
  {
    if |inputs| == 0 then 0
    else (if s.k == 8 then 1 else 0) + DecryptExhausted(cipher, DecryptStep(cipher, s, inputs[0]).1, inputs[1..])
  }

  /** Decrypt calls regenerate the register Regenerations(k, n) times, as encrypt calls do. */
  lemma {:induction false} DecryptExhaustedIsRegenerations(cipher: Block -> Block, s: CfbState, inputs: seq<bv32>)
    requires Valid(s)
    ensures DecryptExhausted(cipher, s, inputs) == Regenerations(s.k, |inputs|)
    decreases |inputs|
  {
    if |inputs| > 0 {
      var first := DecryptStep(cipher, s, inputs[0]);
      assert first.1.k == if s.k == 8 then 1 else s.k + 1;
      DecryptExhaustedIsRegenerations(cipher, first.1, inputs[1..]);
    }
  }

  // ---------------------------------------------------------------- CFB-64

  /** Running a stream over a + b is running it over a, then over b from where a left off. */
  lemma {:induction false} EncryptStreamAppend(cipher: Block -> Block, s: CfbState, a: seq<bv32>, b: seq<bv32>)
    requires Valid(s)
    ensures var ra := EncryptStream(cipher, s, a);
            var rb := EncryptStream(cipher, ra.1, b);
            var r := EncryptStream(cipher, s, a + b);
            r.0 == ra.0 + rb.0 && r.1 == rb.1
    decreases |a|
  {
    if |a| == 0 {
      assert a + b == b;
    } else {
      var first := EncryptStep(cipher, s, a[0]);
      assert (a + b)[0] == a[0];
      assert (a + b)[1..] == a[1..] + b;
      EncryptStreamAppend(cipher, first.1, a[1..], b);
      var ra := EncryptStream(cipher, s, a);
      var raRest := EncryptStream(cipher, first.1, a[1..]);
      var rb := EncryptStream(cipher, raRest.1, b);
      assert ra.0 == [first.0] + raRest.0 && ra.1 == raRest.1;
      var r := EncryptStream(cipher, s, a + b);
      var rRest := EncryptStream(cipher, first.1, a[1..] + b);
      assert r.0 == [first.0] + rRest.0 && r.1 == rRest.1;
      assert rRest.0 == raRest.0 + rb.0;
    }
  }

  /** A stream of at least one call is its first call followed by the rest. */
  lemma StreamCons(cipher: Block -> Block, s: CfbState, inputs: seq<bv32>)
    requires Valid(s) && |inputs| > 0
    ensures var first := EncryptStep(cipher, s, inputs[0]);
            var r := EncryptStream(cipher, s, inputs);
            var rest := EncryptStream(cipher, first.1, inputs[1..]);
            r.0 == [first.0] + rest.0 && r.1 == rest.1
  {
  }

  /** A byte encrypted without regeneration gives the byte xor register byte k ... */
  lemma UnsignedStepOutput(cipher: Block -> Block, s: CfbState, b: bv8)
    requires Valid(s) && s.k < 8
    ensures LowByte(EncryptStep(cipher, s, Unsigned(b)).0) == b ^ s.keystream[s.k]
  {
    LowByteXor(Unsigned(b), SignExtend(s.keystream[s.k]));
    LowByteOfSignExtend(s.keystream[s.k]);
  }

  /** ... and writes that ciphertext byte over register byte k. */
  lemma UnsignedStepState(cipher: Block -> Block, s: CfbState, b: bv8)
    requires Valid(s) && s.k < 8
    ensures EncryptStep(cipher, s, Unsigned(b)).1 == CfbState(s.keystream[s.k := b ^ s.keystream[s.k]], s.k + 1)
  {
    UnsignedStepOutput(cipher, s, b);
  }

  lemma LowBytesCons(x: bv32, xs: seq<bv32>)
    ensures LowBytes([x] + xs) == [LowByte(x)] + LowBytes(xs)
  {
  }

  lemma WidenAllCons(plain: seq<bv8>)
    requires |plain| > 0
    ensures WidenAll(plain)[0] == Unsigned(plain[0]) && WidenAll(plain)[1..] == WidenAll(plain[1..])
  {
  }

  /** Writing ciphertext byte c0 at k < 7, then the rest of the block after it, fills the
   *  register tail with the block's ciphertext. */
  lemma RegisterSplice(ks: seq<bv8>, k: nat, plain: seq<bv8>, c0: bv8)
    requires |ks| == 8 && k < 7 && |plain| == 8 - k && c0 == plain[0] ^ ks[k]
    ensures ks[k := c0][k + 1..] == ks[k + 1..]
    ensures XorBytes(plain, ks[k..]) == [c0] + XorBytes(plain[1..], ks[k + 1..])
    ensures ks[k := c0][..k + 1] + XorBytes(plain[1..], ks[k + 1..]) == ks[..k] + XorBytes(plain, ks[k..])
  {
    var c := XorBytes(plain, ks[k..]);
    var cRest := XorBytes(plain[1..], ks[k + 1..]);
    assert c == [c0] + cRest;
    assert ks[k := c0][..k + 1] == ks[..k] + [c0];
  }

  lemma RegisterLast(ks: seq<bv8>, plain: seq<bv8>)
    requires |ks| == 8 && |plain| == 1
    ensures XorBytes(plain, ks[7..]) == [plain[0] ^ ks[7]]
    ensures ks[..7] + XorBytes(plain, ks[7..]) == ks[7 := plain[0] ^ ks[7]]
  {
    assert XorBytes(plain, ks[7..]) == [plain[0] ^ ks[7]];
  }

  /** Ciphertext byte c0 followed by the ciphertext of the rest of the block. */
  lemma OutputSplice(s: CfbState, plain: seq<bv8>, next: CfbState, first: bv32, rest: seq<bv32>, out: seq<bv32>)
    requires Valid(s) && s.k < 7 && |plain| == 8 - s.k
    requires next == CfbState(s.keystream[s.k := plain[0] ^ s.keystream[s.k]], s.k + 1)
    requires LowByte(first) == plain[0] ^ s.keystream[s.k] && out == [first] + rest
    requires LowBytes(rest) == XorBytes(plain[1..], next.keystream[next.k..])
    ensures LowBytes(out) == XorBytes(plain, s.keystream[s.k..])
  {
    LowBytesCons(first, rest);
    RegisterSplice(s.keystream, s.k, plain, plain[0] ^ s.keystream[s.k]);
  }

  /** The register after ciphertext byte c0 and the ciphertext of the rest of the block. */
  lemma StateSplice(s: CfbState, plain: seq<bv8>, next: CfbState, tail: CfbState)
    requires Valid(s) && s.k < 7 && |plain| == 8 - s.k
    requires next == CfbState(s.keystream[s.k := plain[0] ^ s.keystream[s.k]], s.k + 1)
    requires tail == CfbState(next.keystream[..next.k] + XorBytes(plain[1..], next.keystream[next.k..]), 8)
    ensures tail == CfbState(s.keystream[..s.k] + XorBytes(plain, s.keystream[s.k..]), 8)
  {
    RegisterSplice(s.keystream, s.k, plain, plain[0] ^ s.keystream[s.k]);
  }

  lemma StreamEmpty(cipher: Block -> Block, s: CfbState, inputs: seq<bv32>)
    requires Valid(s) && |inputs| == 0
    ensures EncryptStream(cipher, s, inputs).0 == [] && EncryptStream(cipher, s, inputs).1 == s
  {
  }

  /** The register after the last byte of a block. */
  lemma LastSplice(s: CfbState, plain: seq<bv8>, tail: CfbState)
    requires Valid(s) && s.k == 7 && |plain| == 1
    requires tail == CfbState(s.keystream[s.k := plain[0] ^ s.keystream[s.k]], s.k + 1)
    ensures tail == CfbState(s.keystream[..s.k] + XorBytes(plain, s.keystream[s.k..]), 8)
  {
    RegisterLast(s.keystream, plain);
  }

  /** From index k < 8, the remaining 8 - k calls xor the register's unused bytes into the
   *  input. */
  lemma {:induction false} BlockTailOutput(cipher: Block -> Block, s: CfbState, plain: seq<bv8>)
    requires Valid(s) && s.k < 8 && |plain| == 8 - s.k
    ensures LowBytes(EncryptStream(cipher, s, WidenAll(plain)).0) == XorBytes(plain, s.keystream[s.k..])
    decreases 8 - s.k, 1
  {
    if s.k == 7 {
      LastByteOutput(cipher, s, plain);
    } else {
      NextByteOutput(cipher, s, plain);
    }
  }

  lemma LastByteOutput(cipher: Block -> Block, s: CfbState, plain: seq<bv8>)
    requires Valid(s) && s.k == 7 && |plain| == 1
    ensures LowBytes(EncryptStream(cipher, s, WidenAll(plain)).0) == XorBytes(plain, s.keystream[s.k..])
  {
    var ws := WidenAll(plain);
    WidenAllCons(plain);
    StreamCons(cipher, s, ws);
    UnsignedStepOutput(cipher, s, plain[0]);
    var first := EncryptStep(cipher, s, ws[0]);
    StreamEmpty(cipher, first.1, ws[1..]);
    LowBytesCons(first.0, []);
    RegisterLast(s.keystream, plain);
  }

  lemma {:induction false} NextByteOutput(cipher: Block -> Block, s: CfbState, plain: seq<bv8>)
    requires Valid(s) && s.k < 7 && |plain| == 8 - s.k
    ensures LowBytes(EncryptStream(cipher, s, WidenAll(plain)).0) == XorBytes(plain, s.keystream[s.k..])
    decreases 8 - s.k, 0
  {
    var ws := WidenAll(plain);
    WidenAllCons(plain);
    StreamCons(cipher, s, ws);
    UnsignedStepOutput(cipher, s, plain[0]);
    UnsignedStepState(cipher, s, plain[0]);
    var first := EncryptStep(cipher, s, ws[0]);
    var rest := EncryptStream(cipher, first.1, ws[1..]).0;
    BlockTailOutput(cipher, first.1, plain[1..]);
    assert rest == EncryptStream(cipher, first.1, WidenAll(plain[1..])).0;
    OutputSplice(s, plain, first.1, first.0, rest, EncryptStream(cipher, s, ws).0);
  }

  /** ... and leave those ciphertext bytes in their place, with the register exhausted. */
  lemma {:induction false} BlockTailState(cipher: Block -> Block, s: CfbState, plain: seq<bv8>)
    requires Valid(s) && s.k < 8 && |plain| == 8 - s.k
    ensures EncryptStream(cipher, s, WidenAll(plain)).1
            == CfbState(s.keystream[..s.k] + XorBytes(plain, s.keystream[s.k..]), 8)
    decreases 8 - s.k, 1
  {
    if s.k == 7 {
      LastByteState(cipher, s, plain);
    } else {
      NextByteState(cipher, s, plain);
    }
  }

  lemma LastByteState(cipher: Block -> Block, s: CfbState, plain: seq<bv8>)
    requires Valid(s) && s.k == 7 && |plain| == 1
    ensures EncryptStream(cipher, s, WidenAll(plain)).1
            == CfbState(s.keystream[..s.k] + XorBytes(plain, s.keystream[s.k..]), 8)
  {
    var ws := WidenAll(plain);
    WidenAllCons(plain);
    StreamCons(cipher, s, ws);
    UnsignedStepState(cipher, s, plain[0]);
    var next := EncryptStep(cipher, s, ws[0]).1;
    StreamEmpty(cipher, next, ws[1..]);
    LastSplice(s, plain, EncryptStream(cipher, s, ws).1);
  }

  lemma {:induction false} NextByteState(cipher: Block -> Block, s: CfbState, plain: seq<bv8>)
    requires Valid(s) && s.k < 7 && |plain| == 8 - s.k
    ensures EncryptStream(cipher, s, WidenAll(plain)).1
            == CfbState(s.keystream[..s.k] + XorBytes(plain, s.keystream[s.k..]), 8)
    decreases 8 - s.k, 0
  {
    var ws := WidenAll(plain);
    WidenAllCons(plain);
    StreamCons(cipher, s, ws);
    UnsignedStepState(cipher, s, plain[0]);
    var next := EncryptStep(cipher, s, ws[0]).1;
    var tail := EncryptStream(cipher, s, ws).1;
    BlockTailState(cipher, next, plain[1..]);
    assert tail == EncryptStream(cipher, next, WidenAll(plain[1..])).1;
    StateSplice(s, plain, next, tail);
  }

  /** From an exhausted register, eight calls encrypt one CFB-64 block. */
  lemma BlockFromExhausted(cipher: Block -> Block, register: seq<bv8>, plain: seq<bv8>)
    requires |register| == 8 && |plain| == 8
    ensures var r := EncryptStream(cipher, Start(register), WidenAll(plain));
            var c := XorBytes(plain, cipher(register));
            LowBytes(r.0) == c && r.1 == Start(c)
  {
    var s := Start(register);
    var t := Refill(cipher, s);
    var ws := WidenAll(plain);
    assert EncryptStep(cipher, s, ws[0]).0 == EncryptStep(cipher, t, ws[0]).0;
    assert EncryptStep(cipher, s, ws[0]).1 == EncryptStep(cipher, t, ws[0]).1;
    assert EncryptStream(cipher, s, ws).0 == EncryptStream(cipher, t, ws).0;
    assert EncryptStream(cipher, s, ws).1 == EncryptStream(cipher, t, ws).1;
    BlockTailOutput(cipher, t, plain);
    BlockTailState(cipher, t, plain);
    assert t.keystream[..0] + XorBytes(plain, t.keystream[0..]) == XorBytes(plain, t.keystream);
  }

  /** After setKey, encrypting 8m bytes is CFB-64, and the register then holds the last
   *  ciphertext block, the input of the next block encryption. */
  lemma {:induction false} StreamIsCfb64(cipher: Block -> Block, iv: seq<bv8>, plain: seq<bv8>)
    requires |iv| == 8 && |plain| % 8 == 0
    ensures var r := EncryptStream(cipher, Start(iv), WidenAll(plain));
            LowBytes(r.0) == Cfb64Encrypt(cipher, iv, plain)
            && r.1 == Start(LastRegister(cipher, iv, plain))
    decreases |plain|
  {
    if |plain| > 0 {
      var ws := WidenAll(plain);
      assert ws == WidenAll(plain[..8]) + WidenAll(plain[8..]);
      EncryptStreamAppend(cipher, Start(iv), WidenAll(plain[..8]), WidenAll(plain[8..]));
      BlockFromExhausted(cipher, iv, plain[..8]);
      var block := XorBytes(plain[..8], cipher(iv));
      StreamIsCfb64(cipher, block, plain[8..]);
      var ra := EncryptStream(cipher, Start(iv), WidenAll(plain[..8]));
      var rb := EncryptStream(cipher, Start(block), WidenAll(plain[8..]));
      assert LowBytes(ra.0 + rb.0) == LowBytes(ra.0) + LowBytes(rb.0);
      var ct := Cfb64Encrypt(cipher, iv, plain);
      assert ct == block + Cfb64Encrypt(cipher, block, plain[8..]);
      if |plain| > 8 {
        assert ct[|plain| - 8..] == Cfb64Encrypt(cipher, block, plain[8..])[|plain| - 16..];
      } else {
        assert ct[|plain| - 8..] == block;
      }
    }
  }
}
