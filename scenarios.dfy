/** Concrete passwords checked under the registered defaults
    (min_length 8, max_length 32, one character of each class, no
    disallowed characters, cracklib off). */
module Scenarios {
  import opened CStrings
  import opened CharClasses
  import opened Counting
  import opened PasswordCheck
  import opened PasswordCheckProperties

  /** "Ab3!defg" */
  const OneOfEach: CString := [0x41, 0x62, 0x33, 0x21, 0x64, 0x65, 0x66, 0x67]
  /** "abcdefgh" */
  const AllLower: CString := [0x61, 0x62, 0x63, 0x64, 0x65, 0x66, 0x67, 0x68]
  /** "Ab3!" */
  const Short: CString := [0x41, 0x62, 0x33, 0x21]
  /** "Ab3! defg" */
  const WithSpace: CString := [0x41, 0x62, 0x33, 0x21, 0x20, 0x64, 0x65, 0x66, 0x67]
  /** " " */
  const Space: CString := [0x20]

  /** A counter is at least one when the byte at position i is found. */
  lemma FoundAt(chars: CString, s: seq<byte>, i: nat)
    requires i < |s| && Occurs(chars, s[i])
    ensures CountIn(chars, s) >= 1
  {
    CountPositive(chars, s);
  }

  /** A byte of each class at the given positions meets one-per-class minimums. */
  lemma EachClassPresent(password: CString, u: nat, l: nat, d: nat, s: nat)
    requires u < |password| && IsUpper(password[u])
    requires l < |password| && IsLower(password[l])
    requires d < |password| && IsDigit(password[d])
    requires s < |password| && IsSpecial(password[s])
    ensures CountIn(UpperCaseChars, password) >= 1 && CountIn(LowerCaseChars, password) >= 1
    ensures CountIn(DigitChars, password) >= 1 && CountIn(SpecialChars, password) >= 1
  {
    FoundAt(UpperCaseChars, password, u);
    FoundAt(LowerCaseChars, password, l);
    FoundAt(DigitChars, password, d);
    FoundAt(SpecialChars, password, s);
  }

  /** Without a byte in A..Z the upper-case counter stays at zero. */
  lemma NoUpper(password: CString)
    requires forall i :: 0 <= i < |password| ==> !(0x41 <= password[i] <= 0x5A)
    ensures CountIn(UpperCaseChars, password) == 0
  {
    forall i | 0 <= i < |password|
      ensures !Occurs(UpperCaseChars, password[i])
    {
      UpperLiteral(password[i]);
      OccursIsMembership(UpperCaseChars, password[i]);
    }
    CountPositive(UpperCaseChars, password);
  }

  /** Under the defaults, a password of 8 to 32 bytes with a letter of each
      case, a digit and a byte of the special literal is approved when
      cracklib is off. */
  lemma OneOfEachClassApproved(cracklib: Cracklib, password: CString, u: nat, l: nat, d: nat, s: nat)
    requires 8 <= |password| <= 32
    requires u < |password| && 0x41 <= password[u] <= 0x5A
    requires l < |password| && 0x61 <= password[l] <= 0x7A
    requires d < |password| && 0x30 <= password[d] <= 0x39
    requires s < |password| && InSpecialRanges(password[s])
    ensures PlaintextVerdict(DefaultPolicy, cracklib, password) == Approved
  {
    ClassRanges(password[u]);
    ClassRanges(password[l]);
    ClassRanges(password[d]);
    ClassRanges(password[s]);
    EachClassPresent(password, u, l, d, s);
    WithoutCracklibApprovalIffRulesHold(DefaultPolicy, cracklib, password);
  }

  /** Under the defaults, 8 to 32 lower-case letters lack an upper-case one. */
  lemma LowerOnlyRejected(cracklib: Cracklib, password: CString)
    requires 8 <= |password| <= 32
    requires forall i :: 0 <= i < |password| ==> 0x61 <= password[i] <= 0x7A
    ensures PlaintextVerdict(DefaultPolicy, cracklib, password) == Rejected(TooFewUpper(1))
  {
    ClassRanges(password[0]);
    FoundAt(LowerCaseChars, password, 0);
    NoUpper(password);
  }

  /** "Ab3!defg" is approved. */
  lemma OneOfEachApproved(cracklib: Cracklib)
    ensures PlaintextVerdict(DefaultPolicy, cracklib, OneOfEach) == Approved
  {
    OneOfEachClassApproved(cracklib, OneOfEach, 0, 1, 2, 3);
  }

  /** "abcdefgh" is rejected for want of an upper-case letter. */
  lemma AllLowerRejected(cracklib: Cracklib)
    ensures PlaintextVerdict(DefaultPolicy, cracklib, AllLower) == Rejected(TooFewUpper(1))
  {
    LowerOnlyRejected(cracklib, AllLower);
  }

  /** "Ab3!" is too short, although every class is present: the length
      check comes first. */
  lemma ShortRejected(cracklib: Cracklib)
    ensures PlaintextVerdict(DefaultPolicy, cracklib, Short) == Rejected(TooShort(8))
  {
    TooShortIffShort(DefaultPolicy, cracklib, Short);
  }

  /** Under the defaults with a disallowed string, a password that meets the
      length and class minimums and holds a disallowed byte is rejected. */
  lemma DisallowedByteRejected(cracklib: Cracklib, disallowed: CString, password: CString,
                               u: nat, l: nat, d: nat, s: nat, k: nat)
    requires 8 <= |password| <= 32
    requires u < |password| && 0x41 <= password[u] <= 0x5A
    requires l < |password| && 0x61 <= password[l] <= 0x7A
    requires d < |password| && 0x30 <= password[d] <= 0x39
    requires s < |password| && InSpecialRanges(password[s])
    requires k < |password| && password[k] in disallowed
    ensures PlaintextVerdict(DefaultPolicy.(disallowedChars := disallowed), cracklib, password)
         == Rejected(ContainsDisallowed(disallowed))
  {
    ClassRanges(password[u]);
    ClassRanges(password[l]);
    ClassRanges(password[d]);
    ClassRanges(password[s]);
    EachClassPresent(password, u, l, d, s);
    DisallowedIffOccurs(DefaultPolicy.(disallowedChars := disallowed), cracklib, password);
  }

  /** "Ab3! defg" is rejected once the space is disallowed. */
  lemma SpaceDisallowed(cracklib: Cracklib)
    ensures PlaintextVerdict(DefaultPolicy.(disallowedChars := Space), cracklib, WithSpace)
         == Rejected(ContainsDisallowed(Space))
  {
    DisallowedByteRejected(cracklib, Space, WithSpace, 0, 1, 2, 3, 4);
  }

  /** The special class is tested byte by byte: every two-byte UTF-8
      character with lead byte 0xC2 or 0xC3 (U+0080 to U+00FF) counts as
      special through its lead byte, whether or not the literal lists it
      ("ñ", 0xC3 0xB1, adds one), and a listed one ("é", 0xC3 0xA9) adds two. */
  lemma LatinOneCharsCountAsSpecial(lead: byte, cont: byte)
    requires lead == 0xC2 || lead == 0xC3
    requires 0x80 <= cont <= 0xBF
    ensures CountIn(SpecialChars, [lead, cont]) == if cont in SpecialHighBytes then 2 else 1
  {
    ClassRanges(lead);
    ClassRanges(cont);
    CountPair(SpecialChars, lead, cont);
  }

  /** The counter over two bytes. */
  lemma CountPair(chars: CString, a: byte, b: byte)
    ensures CountIn(chars, [a, b]) == (if Occurs(chars, a) then 1 else 0) + (if Occurs(chars, b) then 1 else 0)
  {
    assert [a, b][..1] == [a];
    assert [a][..0] == [];
  }
}
