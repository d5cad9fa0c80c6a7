/** check_password: the password-acceptability hook. The server's
    configuration variables become an explicit Policy, ereport(ERROR) becomes
    a Rejected verdict naming the violated rule, and the two foreign calls
    (plain_crypt_verify and cracklib's FascistCheck) become parameters. */
module PasswordCheck {
  import opened CStrings
  import opened CharClasses
  import opened Counting

  /** The passwordcheck.* parameters, as read for one call. */
  datatype Policy = Policy(
    minLength: int,
    maxLength: int,
    minLowerChar: int,
    minUpperChar: int,
    minDigitChar: int,
    minSpecialChar: int,
    disallowedChars: CString,
    useCracklib: bool)

  /** The defaults with which the parameters are registered. */
  const DefaultPolicy: Policy := Policy(8, 32, 1, 1, 1, 1, [], false)

  /** How the new password is presented: in plaintext or already hashed. */
  datatype PasswordType = Plaintext | Md5 | ScramSha256

  /** The rule a rejected password breaks, with the threshold (or the
      disallowed string, or cracklib's explanation) its message names. */
  datatype Violation =
    | TooShort(minLength: int)
    | TooLong(maxLength: int)
    | TooFewLower(minLower: int)
    | TooFewUpper(minUpper: int)
    | TooFewDigits(minDigit: int)
    | TooFewSpecial(minSpecial: int)
    | ContainsDisallowed(chars: CString)
    | PasswordEqualsUsername
    | WeakOrDictionary(reason: string)

  /** Returning normally approves; ereport(ERROR) rejects. */
  datatype Verdict = Approved | Rejected(violation: Violation)

  /** FascistCheck(password, dictionary): a reason when cracklib judges the
      password weak; Absent when the module is built without cracklib. */
  datatype Cracklib = Absent | Present(fascistCheck: CString -> Option<string>)

  /** plain_crypt_verify(role, shadow_pass, client_pass) == STATUS_OK */
  type CryptVerify = (CString, CString, CString) -> bool

  /** The five counters of the plaintext loop. */
  datatype Counts = Counts(lower: nat, upper: nat, digit: nat, special: nat, disallowed: nat)

  /** What the counters hold after the loop has seen every byte. */
  function Tally(password: CString, disallowed: CString): (c: Counts)
    ensures c.lower <= |password| && c.upper <= |password| && c.digit <= |password|
    ensures c.special <= |password| && c.disallowed <= |password|
  {
    Counts(CountIn(LowerCaseChars, password), CountIn(UpperCaseChars, password),
           CountIn(DigitChars, password), CountIn(SpecialChars, password),
           CountIn(disallowed, password))
  }

  /** The plaintext threshold checks, in the order the code applies them,
      given the password's length and counters. */
  function Decide(p: Policy, len: int, c: Counts): (v: Verdict)
    ensures v == Approved <==>
      p.minLength <= len <= p.maxLength &&
      c.lower >= p.minLowerChar && c.upper >= p.minUpperChar &&
      c.digit >= p.minDigitChar && c.special >= p.minSpecialChar && c.disallowed == 0
    ensures v.Rejected? ==> !v.violation.PasswordEqualsUsername? && !v.violation.WeakOrDictionary?
  {
    if len < p.minLength then Rejected(TooShort(p.minLength))
    else if len > p.maxLength then Rejected(TooLong(p.maxLength))
    else if c.lower < p.minLowerChar then Rejected(TooFewLower(p.minLowerChar))
    else if c.upper < p.minUpperChar then Rejected(TooFewUpper(p.minUpperChar))
    else if c.digit < p.minDigitChar then Rejected(TooFewDigits(p.minDigitChar))
    else if c.special < p.minSpecialChar then Rejected(TooFewSpecial(p.minSpecialChar))
    else if c.disallowed > 0 then Rejected(ContainsDisallowed(p.disallowedChars))
    else Approved
  }

  /** The length, class and disallowed-character rules on a plaintext password. */
  function RuleVerdict(p: Policy, password: CString): (v: Verdict)
    ensures v == Approved ==> p.minLength <= |password| <= p.maxLength
  {
    Decide(p, |password|, Tally(password, p.disallowedChars))
  }

  /** The cracklib step: consulted only when enabled and compiled in. */
  function CracklibVerdict(p: Policy, cracklib: Cracklib, password: CString): (v: Verdict)
    ensures v.Rejected? <==> p.useCracklib && cracklib.Present? && cracklib.fascistCheck(password).Some?
    ensures v.Rejected? ==> v.violation.WeakOrDictionary?
  {
    if p.useCracklib && cracklib.Present? then
      match cracklib.fascistCheck(password)
      case Some(reason) => Rejected(WeakOrDictionary(reason))
      case None => Approved
    else Approved
  }

  /** The plaintext path: the rules first, then cracklib. */
  function PlaintextVerdict(p: Policy, cracklib: Cracklib, password: CString): (v: Verdict)
    ensures v == Approved ==> p.minLength <= |password| <= p.maxLength
    ensures v == Approved ==> CracklibVerdict(p, cracklib, password) == Approved
    ensures v != Rejected(PasswordEqualsUsername)
  {
    var v := RuleVerdict(p, password);
    if v.Rejected? then v else CracklibVerdict(p, cracklib, password)
  }

  /** The encrypted path: only "password must not equal user name". */
  function EncryptedVerdict(username: CString, shadowPass: CString, verify: CryptVerify): (v: Verdict)
    ensures v == Approved || v == Rejected(PasswordEqualsUsername)
  {
    if verify(username, shadowPass, username) then Rejected(PasswordEqualsUsername) else Approved
  }

  /** The verdict of check_password for one call. */
  function CheckVerdict(username: CString, shadowPass: CString, passwordType: PasswordType,
                        p: Policy, cracklib: Cracklib, verify: CryptVerify): (v: Verdict)
    ensures passwordType != Plaintext ==> v == Approved || v == Rejected(PasswordEqualsUsername)
    ensures v == Rejected(PasswordEqualsUsername) ==> passwordType != Plaintext
  {
    if passwordType != Plaintext then EncryptedVerdict(username, shadowPass, verify)
    else PlaintextVerdict(p, cracklib, shadowPass)
  }

  /** The counting loop: one pass over the password, each counter advanced
      when strchr finds the byte in its string. */
  method CountClasses(password: CString, disallowed: CString) returns (c: Counts)
    ensures c.lower == CountIn(LowerCaseChars, password)
    ensures c.upper == CountIn(UpperCaseChars, password)
    ensures c.digit == CountIn(DigitChars, password)
    ensures c.special == CountIn(SpecialChars, password)
    ensures c.disallowed == CountIn(disallowed, password)
  {
    var pwdlen := |password|;
    var numUpper, numLower, numDigit, numSpecial, numDisallowed := 0, 0, 0, 0, 0;
    assert password[..0] == [];
    for i := 0 to pwdlen
      invariant numLower == CountIn(LowerCaseChars, password[..i])
      invariant numUpper == CountIn(UpperCaseChars, password[..i])
      invariant numDigit == CountIn(DigitChars, password[..i])
      invariant numSpecial == CountIn(SpecialChars, password[..i])
      invariant numDisallowed == CountIn(disallowed, password[..i])
    {
      CountStep(LowerCaseChars, password, i);
      CountStep(UpperCaseChars, password, i);
      CountStep(DigitChars, password, i);
      CountStep(SpecialChars, password, i);
      CountStep(disallowed, password, i);
      if Occurs(LowerCaseChars, password[i]) {
        numLower := numLower + 1;
      }
      if Occurs(UpperCaseChars, password[i]) {
        numUpper := numUpper + 1;
      }
      if Occurs(DigitChars, password[i]) {
        numDigit := numDigit + 1;
      }
      if Occurs(SpecialChars, password[i]) {
        numSpecial := numSpecial + 1;
      }
      if Occurs(disallowed, password[i]) {
        numDisallowed := numDisallowed + 1;
      }
    }
    assert password[..pwdlen] == password;
    c := Counts(numLower, numUpper, numDigit, numSpecial, numDisallowed);
  }

  /** check_password: returns the verdict the hook reports. */
  method CheckPassword(username: CString, shadowPass: CString, passwordType: PasswordType,
                       p: Policy, cracklib: Cracklib, verify: CryptVerify)
    returns (v: Verdict)
    ensures v == CheckVerdict(username, shadowPass, passwordType, p, cracklib, verify)
  {
    if passwordType != Plaintext {
      if verify(username, shadowPass, username) {
        return Rejected(PasswordEqualsUsername);
      }
    } else {
      var password := shadowPass;
      var pwdlen := |password|;
      if pwdlen < p.minLength {
        return Rejected(TooShort(p.minLength));
      }
      if pwdlen > p.maxLength {
        return Rejected(TooLong(p.maxLength));
      }
      var c := CountClasses(password, p.disallowedChars);
      if c.lower < p.minLowerChar {
        return Rejected(TooFewLower(p.minLowerChar));
      }
      if c.upper < p.minUpperChar {
        return Rejected(TooFewUpper(p.minUpperChar));
      }
      if c.digit < p.minDigitChar {
        return Rejected(TooFewDigits(p.minDigitChar));
      }
      if c.special < p.minSpecialChar {
        return Rejected(TooFewSpecial(p.minSpecialChar));
      }
      if c.disallowed > 0 {
        return Rejected(ContainsDisallowed(p.disallowedChars));
      }
      if p.useCracklib && cracklib.Present? {
        var reason := cracklib.fascistCheck(password);
        if reason.Some? {
          return Rejected(WeakOrDictionary(reason.value));
        }
      }
    }
    return Approved;
  }
}
