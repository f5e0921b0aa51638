/** The byte classifiers of `IO.java`. They take the `int` that `read` returns:
    an unsigned byte value, or -1 at the end of the input. */
module IOClassify {

  /** An unsigned byte, as `read` returns it (`input_buffer[pos] & 0xff`). */
  type Byte = b: int | 0 <= b < 256

  /** `c` is the byte of one of the characters of `chars`. */
  predicate IsOneOf(c: int, chars: string) {
    0 <= c < 256 && (c as char) in chars
  }

  const DigitChars: string := "0123456789"
  const LowerChars: string := "abcdefghijklmnopqrstuvwxyz"
  const UpperChars: string := "ABCDEFGHIJKLMNOPQRSTUVWXYZ"

  /** `isMinus`: the minus sign. */
  predicate IsMinus(cur: int)
  {
    cur == '-' as int
  }

  /** `isPlus`: the plus sign. */
  predicate IsPlus(cur: int)
  {
    cur == '+' as int
  }

  /** `isNum`: a decimal digit. */
  function IsNum(v: int): (b: bool)
  {
    v >= '0' as int && v <= '9' as int
  }

  /** `isLowercase`: an ASCII lower-case letter. */
  function IsLowercase(cur: int): (b: bool)
    ensures b <==> IsOneOf(cur, LowerChars)
  {
    cur >= 'a' as int && cur <= 'z' as int
  }

  /** `isUppercase`: an ASCII upper-case letter. */
  function IsUppercase(cur: int): (b: bool)
    ensures b <==> IsOneOf(cur, UpperChars)
  {
    cur >= 'A' as int && cur <= 'Z' as int
  }

  /** `isAlpha`: an ASCII letter of either case. */
  function IsAlpha(cur: int): (b: bool)
    ensures b <==> IsOneOf(cur, LowerChars + UpperChars)
  {
    IsLowercase(cur) || IsUppercase(cur)
  }

  /** `isSpaceOrTab`. */
  function IsSpaceOrTab(cur: int): (b: bool)
    ensures b <==> IsOneOf(cur, " \t")
  {
    cur == ' ' as int || cur == '\t' as int
  }

  /** `isNewLine`: carriage return or line feed. */
  function IsNewLine(cur: int): (b: bool)
    ensures b <==> IsOneOf(cur, "\r\n")
  {
    cur == '\r' as int || cur == '\n' as int
  }

  /** `isAlphaNum`: a letter or a digit. */
  function IsAlphaNum(cur: int): (b: bool)
    ensures b <==> IsOneOf(cur, LowerChars + UpperChars + DigitChars)
  {
    IsAlpha(cur) || IsNum(cur)
  }

  /** Where `readInt` stops skipping: a digit or a sign. */
  predicate IsNumberStart(cur: int) {
    IsNum(cur) || IsMinus(cur) || IsPlus(cur)
  }

  /** What the classifiers of the number reader accept, stated as the
      characters they stand for (the other classifiers state theirs in their
      own contracts). */
  lemma NumberClassesMeaning(c: int)
    ensures IsNum(c) <==> IsOneOf(c, DigitChars)
    ensures IsMinus(c) <==> IsOneOf(c, "-")
    ensures IsPlus(c) <==> IsOneOf(c, "+")
    ensures IsNumberStart(c) <==> IsOneOf(c, DigitChars + "-+")
  {
  }

  /** The end of input is none of the classes. */
  lemma EndOfInputIsNoClass()
    ensures !IsNumberStart(-1) && !IsAlphaNum(-1) && !IsSpaceOrTab(-1) && !IsNewLine(-1)
  {
  }
}
