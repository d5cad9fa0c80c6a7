/** The four fixed character classes of the password check
    (UPPER_CASE_CHARS, LOWER_CASE_CHARS, DIGIT_CHARS, SPECIAL_CHARS), as the
    bytes of their C string literals, and strchr membership in each. */
module CharClasses {
  import opened CStrings

  /** "ABCDEFGHIJKLMNOPQRSTUVWXYZ" */
  const UpperCaseChars: CString :=
    [0x41, 0x42, 0x43, 0x44, 0x45, 0x46, 0x47, 0x48, 0x49, 0x4A, 0x4B, 0x4C, 0x4D,
     0x4E, 0x4F, 0x50, 0x51, 0x52, 0x53, 0x54, 0x55, 0x56, 0x57, 0x58, 0x59, 0x5A]

  /** "abcdefghijklmnopqrstuvwxyz" */
  const LowerCaseChars: CString :=
    [0x61, 0x62, 0x63, 0x64, 0x65, 0x66, 0x67, 0x68, 0x69, 0x6A, 0x6B, 0x6C, 0x6D,
     0x6E, 0x6F, 0x70, 0x71, 0x72, 0x73, 0x74, 0x75, 0x76, 0x77, 0x78, 0x79, 0x7A]

  /** "0123456789" */
  const DigitChars: CString :=
    [0x30, 0x31, 0x32, 0x33, 0x34, 0x35, 0x36, 0x37, 0x38, 0x39]

  /** The special-character literal as UTF-8 bytes, in the order written:
      < > , ? ; . : / ! § ù % * µ ^ ¨ $ £ ² & é ~ " # ' { ( [ - | è ` _ \ ç ^ à @ ) ] ° = } +
      Each of the non-ASCII symbols contributes a lead byte (0xC2 or 0xC3) and
      a continuation byte, and strchr matches each of those bytes on its own. */
  const SpecialChars: CString :=
    Join([0x3C, 0x3E, 0x2C, 0x3F, 0x3B, 0x2E, 0x3A, 0x2F, 0x21,
          0xC2, 0xA7,         // §
          0xC3, 0xB9,         // ù
          0x25, 0x2A,
          0xC2, 0xB5,         // µ
          0x5E,
          0xC2, 0xA8,         // ¨
          0x24,
          0xC2, 0xA3,         // £
          0xC2, 0xB2,         // ²
          0x26],
    Join([0xC3, 0xA9,         // é
          0x7E, 0x22, 0x23, 0x27, 0x7B, 0x28, 0x5B, 0x2D, 0x7C,
          0xC3, 0xA8,         // è
          0x60, 0x5F, 0x5C,
          0xC3, 0xA7],        // ç
         [0x5E,
          0xC3, 0xA0,         // à
          0x40, 0x29, 0x5D,
          0xC2, 0xB0,         // °
          0x3D, 0x7D, 0x2B]))

  /** Concatenation of two parts of one literal. The source writes
      SPECIAL_CHARS as a single literal; it is assembled here from three
      parts only so that the verifier checks the no-NUL constraint and the
      membership facts part by part rather than on one long sequence. */
  function Join(a: CString, b: CString): (r: CString)
    ensures |r| == |a| + |b|
    ensures forall c :: c in r <==> c in a || c in b
  {
    a + b
  }

  predicate IsLower(b: byte) { Occurs(LowerCaseChars, b) }
  predicate IsUpper(b: byte) { Occurs(UpperCaseChars, b) }
  predicate IsDigit(b: byte) { Occurs(DigitChars, b) }
  predicate IsSpecial(b: byte) { Occurs(SpecialChars, b) }

  /** The bytes of the special set that are not ASCII: the UTF-8 lead bytes
      0xC2 and 0xC3 and the nine distinct continuation bytes of its eleven
      symbols (§ and ç share 0xA7, ¨ and è share 0xA8). */
  const SpecialHighBytes: set<byte> :=
    {0xA0, 0xA3, 0xA7, 0xA8, 0xA9, 0xB0, 0xB2, 0xB5, 0xB9, 0xC2, 0xC3}

  /** The byte values of each literal: the Latin letters, the decimal digits,
      and for the special set all of printable ASCII punctuation plus the
      bytes in SpecialHighBytes. */
  ghost predicate InSpecialRanges(b: byte) {
    0x21 <= b <= 0x2F || 0x3A <= b <= 0x40 || 0x5B <= b <= 0x60 ||
    0x7B <= b <= 0x7E || b in SpecialHighBytes
  }

  lemma UpperLiteral(b: byte)
    ensures b in UpperCaseChars <==> 0x41 <= b <= 0x5A
  {
  }

  lemma LowerLiteral(b: byte)
    ensures b in LowerCaseChars <==> 0x61 <= b <= 0x7A
  {
  }

  lemma DigitLiteral(b: byte)
    ensures b in DigitChars <==> 0x30 <= b <= 0x39
  {
  }

  lemma SpecialLiteral(b: byte)
    ensures b in SpecialChars <==> InSpecialRanges(b)
  {
  }

  /** For a non-NUL byte, strchr membership in each class is the class's range. */
  lemma ClassRanges(b: byte)
    requires b != 0
    ensures IsUpper(b) <==> 0x41 <= b <= 0x5A
    ensures IsLower(b) <==> 0x61 <= b <= 0x7A
    ensures IsDigit(b) <==> 0x30 <= b <= 0x39
    ensures IsSpecial(b) <==> InSpecialRanges(b)
  {
    UpperLiteral(b);
    LowerLiteral(b);
    DigitLiteral(b);
    SpecialLiteral(b);
    OccursIsMembership(UpperCaseChars, b);
    OccursIsMembership(LowerCaseChars, b);
    OccursIsMembership(DigitChars, b);
    OccursIsMembership(SpecialChars, b);
  }

  /** A letter or a digit is not special. */
  lemma AlnumNotSpecial(b: byte)
    requires 0x30 <= b <= 0x39 || 0x41 <= b <= 0x5A || 0x61 <= b <= 0x7A
    ensures !IsSpecial(b)
  {
    assert b !in SpecialChars by { SpecialLiteral(b); }
    OccursIsMembership(SpecialChars, b);
  }

  /** No byte other than NUL belongs to two of the four classes. */
  lemma ClassesDisjoint(b: byte)
    requires b != 0
    ensures !(IsUpper(b) && IsLower(b))
    ensures !(IsUpper(b) && IsDigit(b))
    ensures !(IsUpper(b) && IsSpecial(b))
    ensures !(IsLower(b) && IsDigit(b))
    ensures !(IsLower(b) && IsSpecial(b))
    ensures !(IsDigit(b) && IsSpecial(b))
  {
    UpperLiteral(b);
    LowerLiteral(b);
    DigitLiteral(b);
    OccursIsMembership(UpperCaseChars, b);
    OccursIsMembership(LowerCaseChars, b);
    OccursIsMembership(DigitChars, b);
    if 0x30 <= b <= 0x39 || 0x41 <= b <= 0x5A || 0x61 <= b <= 0x7A {
      AlnumNotSpecial(b);
    }
  }
}
