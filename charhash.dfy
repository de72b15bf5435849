/*
 * hash.h: the letter code used as a row index by every matrix of the
 * scanner.  CHAR_HASH maps a character to (chr - 'A') % 26 with C's
 * truncating remainder, GET_CHAR maps a code back to 'A' + code.
 */
module CharHash {

  /** NB_LETTER: there are 26 capital letters, hence 26 codes. */
  const NbLetter: int := 26

  /** C's `%` on int: the remainder takes the sign of the dividend. */
  function CRem(a: int, b: int): (r: int)
    requires b > 0
    ensures a >= 0 ==> 0 <= r < b
    ensures a < 0 ==> -b < r <= 0
  {
    if a >= 0 then a % b else -((-a) % b)
  }

  /** CHAR_HASH(chr). */
  function Hash(c: char): int
  {
    CRem(c as int - 'A' as int, NbLetter)
  }

  /** GET_CHAR(hash): the character whose code is h. */
  function GetChar(h: int): (c: char)
    requires 0 <= h < NbLetter
    ensures 'A' <= c <= 'Z'
  {
    ('A' as int + h) as char
  }

  /** HASH_N: the code of the unknown nucleotide 'N'. */
  const HashN: int := Hash('N')

  predicate IsCapital(c: char)
  {
    'A' <= c <= 'Z'
  }

  /** Every capital letter has a code in [0, 26). */
  lemma HashRange(c: char)
    requires IsCapital(c)
    ensures 0 <= Hash(c) < NbLetter
  {
  }

  /** GET_CHAR undoes CHAR_HASH on capital letters, and CHAR_HASH undoes GET_CHAR on codes. */
  lemma RoundTrip(c: char, h: int)
    requires IsCapital(c) && 0 <= h < NbLetter
    ensures GetChar(Hash(c)) == c
    ensures Hash(GetChar(h)) == h
  {
  }

  /** CHAR_HASH is injective on the capital letters. */
  lemma HashInjective(c: char, d: char)
    requires IsCapital(c) && IsCapital(d) && Hash(c) == Hash(d)
    ensures c == d
  {
    RoundTrip(c, 0);
    RoundTrip(d, 0);
  }

  /** The four nucleotides use rows 0, 2, 6 and 19 (the rows reverse_matrix swaps); N is 13. */
  lemma NucleotideRows()
    ensures Hash('A') == 0 && Hash('C') == 2 && Hash('G') == 6 && Hash('T') == 19
    ensures HashN == 13
  {
  }

  /** Outside the capitals the code is no longer a row index: a lower-case letter
      collides with a capital one, and a character below 'A' gets a negative code. */
  lemma OutsideCapitals()
    ensures Hash('a') == Hash('G')
    ensures Hash('0') < 0
  {
  }
}
