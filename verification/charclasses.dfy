/** The ASCII character classes of Python's `string` module. */
module CharClasses {

  const Digits: string := "0123456789"
  const AsciiLowercase: string := "abcdefghijklmnopqrstuvwxyz"
  const AsciiUppercase: string := "ABCDEFGHIJKLMNOPQRSTUVWXYZ"
  /** `string.ascii_letters` is the lower-case letters followed by the upper-case ones. */
  const AsciiLetters: string := AsciiLowercase + AsciiUppercase

  predicate IsDigit(c: char) { '0' <= c <= '9' }
  predicate IsUpper(c: char) { 'A' <= c <= 'Z' }
  predicate IsLower(c: char) { 'a' <= c <= 'z' }
  predicate IsLetter(c: char) { IsLower(c) || IsUpper(c) }

  /** Every character of `ascii_letters` is an ASCII letter. */
  lemma LettersAreLetters()
    ensures forall i :: 0 <= i < |AsciiLetters| ==> IsLetter(AsciiLetters[i])
  {
    assert forall i :: 0 <= i < |AsciiLowercase| ==> IsLower(AsciiLowercase[i]);
    assert forall i :: 0 <= i < |AsciiUppercase| ==> IsUpper(AsciiUppercase[i]);
  }
}
