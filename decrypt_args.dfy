/** The key and IV check of the Decrypt command line program. */
module DecryptArgs {
  import opened JavaCharacter

  /** Hexadecimal characters of the key: 16 bytes. */
  const KEY_LENGTH: nat := 32
  /** Hexadecimal characters of the IV: 8 bytes. */
  const IV_LENGTH: nat := 16

  /** One of the two for-each loops: true when no character lacks a base-16 digit value. */
  function NoBadDigit(s: string): (ok: bool)
    ensures ok <==> forall i :: 0 <= i < |s| ==> IsHexDigit(s[i])
  {
    if |s| == 0 then true
    else
      HexDigitIff(s[0]);
      if Digit(s[0], 16) == -1 then false else NoBadDigit(s[1..])
  }

  /** isValidKeyAndIv: both lengths must match, then every key and IV character must be a
   *  hexadecimal digit. */
  function IsValidKeyAndIv(key: string, iv: string): (valid: bool)
    ensures valid <==> && |key| == KEY_LENGTH && |iv| == IV_LENGTH
                       && (forall i :: 0 <= i < |key| ==> IsHexDigit(key[i]))
                       && (forall i :: 0 <= i < |iv| ==> IsHexDigit(iv[i]))
  {
    if |key| != KEY_LENGTH || |iv| != IV_LENGTH then false
    else if !NoBadDigit(key) then false
    else NoBadDigit(iv)
  }
}

/** The two programs accept exactly the same key and IV strings. */
module ArgsAgree {
  import EncryptArgs
  import DecryptArgs

  lemma ValidatorsAgree(key: string, iv: string)
    ensures DecryptArgs.IsValidKeyAndIv(key, iv) == EncryptArgs.IsValidKeyAndIv(key, iv)
  {
  }
}
