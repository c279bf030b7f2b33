/**
 * The temporary character/value mapping used by the double-array trie:
 * a character `c` has the value `(int)c - 95`, so 'a'..'z' map to 2..27, and the
 * tail terminator '#' is given the reserved value -1.
 */
module CharacterValues {

  /** The terminator that ends every run of characters stored in a trie tail. */
  const Terminator: char := '#'

  /** The value reserved for the terminator. */
  const TerminatorValue: int := -1

  /** The declared range of character values (inclusive). Note that 'z' maps to 27. */
  const MinCharacterValue: int := 1
  const MaxCharacterValue: int := 26

  /** A C# `char` is a UTF-16 code unit; Dafny's `char` can only hold the non-surrogate ones. */
  predicate IsCodeUnit(c: char) {
    c as int < 0x1_0000
  }

  predicate IsSurrogate(u: int) {
    0xD800 <= u < 0xE000
  }

  /** The 16-bit code unit that the unchecked cast `(char)(v + 95)` produces. */
  function CodeUnitOf(v: int): (u: int)
    ensures 0 <= u < 0x1_0000
    ensures -95 <= v < 0x1_0000 - 95 ==> u == v + 95
  {
    (v + 95) % 0x1_0000
  }

  /** `GetCharacterValue`: the terminator maps to -1, any other character to its code minus 95. */
  function GetCharacterValue(c: char): (v: int)
    ensures v == TerminatorValue <==> c == Terminator || c == '^'
    ensures c != Terminator ==> v + 95 == c as int
    ensures v >= -95
  {
    if c == Terminator then TerminatorValue else c as int - 95
  }

  /** `GetCharacter`: -1 maps to the terminator, any other value `v` to the code unit `(char)(v + 95)`. */
  function GetCharacter(v: int): (c: char)
    requires v == TerminatorValue || !IsSurrogate(CodeUnitOf(v))
    ensures v == TerminatorValue ==> c == Terminator
    ensures v != TerminatorValue ==> c as int == CodeUnitOf(v)
    ensures IsCodeUnit(c)
  {
    if v == TerminatorValue then Terminator else CodeUnitOf(v) as char
  }

  /** Every value of the declared range survives the trip through a character and back. */
  lemma ValueRoundTrip(v: int)
    requires MinCharacterValue <= v <= MaxCharacterValue
    ensures GetCharacterValue(GetCharacter(v)) == v
  {
  }

  /**
   * More generally, every value whose character is not the terminator survives the
   * round trip; the value -60 is the one that does not, since `(char)(-60 + 95)` is '#'.
   */
  lemma ValueRoundTripExact(v: int)
    requires -95 <= v < 0x1_0000 - 95 && !IsSurrogate(v + 95)
    ensures GetCharacterValue(GetCharacter(v)) == v <==> v != Terminator as int - 95
  {
  }

  /** Every C# character except '^' survives the round trip; '^' collides with the terminator. */
  lemma CharacterRoundTrip(c: char)
    requires IsCodeUnit(c)
    ensures GetCharacter(GetCharacterValue(c)) == c <==> c != '^'
  {
  }
}
