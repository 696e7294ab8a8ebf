/**
 * Character.digit restricted to ASCII: decimal digits and the Latin letters, in either case,
 * stand for 0..35; a character whose value is not below the radix has none (-1).
 */
module JavaCharacter {
  function Digit(c: char, radix: nat): (d: int)
    requires 2 <= radix <= 36
    ensures -1 <= d < radix
  {
    var v := if '0' <= c <= '9' then c as int - '0' as int
             else if 'a' <= c <= 'z' then c as int - 'a' as int + 10
             else if 'A' <= c <= 'Z' then c as int - 'A' as int + 10
             else radix;
    if v < radix then v else -1
  }

  predicate IsHexDigit(c: char)
  {
    '0' <= c <= '9' || 'a' <= c <= 'f' || 'A' <= c <= 'F'
  }

  /** In base 16 exactly the hexadecimal digits have a value. */
  lemma HexDigitIff(c: char)
    ensures Digit(c, 16) != -1 <==> IsHexDigit(c)
  {
  }

  /** The value of a hexadecimal digit is the one it stands for, whatever its case. */
  lemma HexDigitValue(c: char)
    requires IsHexDigit(c)
    ensures Digit(c, 16) == if c <= '9' then c as int - '0' as int
                            else if c <= 'F' then c as int - 'A' as int + 10
                            else c as int - 'a' as int + 10
  {
  }
}
