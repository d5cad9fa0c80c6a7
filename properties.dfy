/** What check_password guarantees, stated over the verdict functions. */
module PasswordCheckProperties {
  import opened CStrings
  import opened CharClasses
  import opened Counting
  import opened PasswordCheck

  // ---------------------------------------------------------------------
  // Fail-fast order, against an independent reference: a list of rules
  // whose verdict is the first rule that does not hold.

  datatype Rule = Rule(holds: bool, violation: Violation)

  function FirstFailure(rules: seq<Rule>): Verdict {
    FirstFailureFrom(rules, 0)
  }

  /** The first rule at or after position k that does not hold. */
  function FirstFailureFrom(rules: seq<Rule>, k: nat): Verdict
    decreases |rules| - k
  {
    if k >= |rules| then Approved
    else if !rules[k].holds then Rejected(rules[k].violation)
    else FirstFailureFrom(rules, k + 1)
  }

  /** FirstFailure approves exactly when every rule holds, and otherwise
      names the first rule that does not. */
  lemma FirstFailureNamesFirst(rules: seq<Rule>)
    ensures FirstFailure(rules) == Approved <==> forall k :: 0 <= k < |rules| ==> rules[k].holds
    ensures FirstFailure(rules) != Approved ==>
      exists k :: 0 <= k < |rules| && !rules[k].holds &&
        FirstFailure(rules) == Rejected(rules[k].violation) &&
        forall j :: 0 <= j < k ==> rules[j].holds
  {
    FirstFailureFromNamesFirst(rules, 0);
  }

  lemma {:induction false} FirstFailureFromNamesFirst(rules: seq<Rule>, from: nat)
    decreases |rules| - from
    ensures FirstFailureFrom(rules, from) == Approved <==>
      forall k :: from <= k < |rules| ==> rules[k].holds
    ensures FirstFailureFrom(rules, from) != Approved ==>
      exists k :: from <= k < |rules| && !rules[k].holds &&
        FirstFailureFrom(rules, from) == Rejected(rules[k].violation) &&
        forall j :: from <= j < k ==> rules[j].holds
  {
    if from < |rules| && rules[from].holds {
      FirstFailureFromNamesFirst(rules, from + 1);
    }
  }

  /** What cracklib answers, or None when it is not consulted. */
  function CracklibAnswer(p: Policy, cracklib: Cracklib, password: CString): Option<string> {
    if p.useCracklib && cracklib.Present? then cracklib.fascistCheck(password) else None
  }

  /** The plaintext rules in the order of the code: short, long, lower,
      upper, digit, special, disallowed, cracklib; given the length, the
      counters and cracklib's answer. */
  function Rules(p: Policy, len: int, c: Counts, answer: Option<string>): seq<Rule> {
    [ Rule(len >= p.minLength, TooShort(p.minLength)),
      Rule(len <= p.maxLength, TooLong(p.maxLength)),
      Rule(c.lower >= p.minLowerChar, TooFewLower(p.minLowerChar)),
      Rule(c.upper >= p.minUpperChar, TooFewUpper(p.minUpperChar)),
      Rule(c.digit >= p.minDigitChar, TooFewDigits(p.minDigitChar)),
      Rule(c.special >= p.minSpecialChar, TooFewSpecial(p.minSpecialChar)),
      Rule(c.disallowed == 0, ContainsDisallowed(p.disallowedChars)),
      Rule(answer.None?, WeakOrDictionary(if answer.Some? then answer.value else "")) ]
  }

  function PlaintextRules(p: Policy, cracklib: Cracklib, password: CString): seq<Rule> {
    Rules(p, |password|, Tally(password, p.disallowedChars), CracklibAnswer(p, cracklib, password))
  }

  /** Decide followed by cracklib's answer is the first failing rule. */
  lemma DecideFollowsRuleOrder(p: Policy, len: int, c: Counts, answer: Option<string>)
    ensures (var v := Decide(p, len, c);
             if v.Rejected? then v
             else if answer.Some? then Rejected(WeakOrDictionary(answer.value))
             else Approved)
         == FirstFailure(Rules(p, len, c, answer))
  {
    var r := Rules(p, len, c, answer);
    assert FirstFailureFrom(r, 8) == Approved;
    assert FirstFailureFrom(r, 7) == if r[7].holds then Approved else Rejected(r[7].violation);
    assert FirstFailureFrom(r, 6) == if r[6].holds then FirstFailureFrom(r, 7) else Rejected(r[6].violation);
    assert FirstFailureFrom(r, 5) == if r[5].holds then FirstFailureFrom(r, 6) else Rejected(r[5].violation);
    assert FirstFailureFrom(r, 4) == if r[4].holds then FirstFailureFrom(r, 5) else Rejected(r[4].violation);
    assert FirstFailureFrom(r, 3) == if r[3].holds then FirstFailureFrom(r, 4) else Rejected(r[3].violation);
    assert FirstFailureFrom(r, 2) == if r[2].holds then FirstFailureFrom(r, 3) else Rejected(r[2].violation);
    assert FirstFailureFrom(r, 1) == if r[1].holds then FirstFailureFrom(r, 2) else Rejected(r[1].violation);
  }

  /** The plaintext verdict is the first failing rule of PlaintextRules. */
  lemma PlaintextFollowsRuleOrder(p: Policy, cracklib: Cracklib, password: CString)
    ensures PlaintextVerdict(p, cracklib, password) == FirstFailure(PlaintextRules(p, cracklib, password))
  {
    DecideFollowsRuleOrder(p, |password|, Tally(password, p.disallowedChars),
                           CracklibAnswer(p, cracklib, password));
  }

  // ---------------------------------------------------------------------
  // Length bounds.

  /** A password shorter than min_length is rejected as TooShort, whatever
      its composition, and TooShort is reported for no other password. */
  lemma TooShortIffShort(p: Policy, cracklib: Cracklib, password: CString)
    ensures PlaintextVerdict(p, cracklib, password) == Rejected(TooShort(p.minLength))
        <==> |password| < p.minLength
  {
  }

  /** TooLong is reported exactly for the passwords that pass the minimum
      and exceed the maximum. */
  lemma TooLongIffLong(p: Policy, cracklib: Cracklib, password: CString)
    ensures PlaintextVerdict(p, cracklib, password) == Rejected(TooLong(p.maxLength))
        <==> p.minLength <= |password| && |password| > p.maxLength
  {
  }

  /** With min_length above max_length no plaintext password passes. */
  lemma InconsistentBoundsRejectAll(p: Policy, cracklib: Cracklib)
    requires p.minLength > p.maxLength
    ensures forall password: CString :: PlaintextVerdict(p, cracklib, password).Rejected?
  {
  }

  // ---------------------------------------------------------------------
  // The counters.

  /** Every counter is at most the length, and the four class counters
      together are at most the length, since the classes are disjoint. */
  lemma TallyBounded(password: CString, disallowed: CString)
    ensures var c := Tally(password, disallowed);
      c.lower <= |password| && c.upper <= |password| && c.digit <= |password| &&
      c.special <= |password| && c.disallowed <= |password| &&
      c.lower + c.upper + c.digit + c.special <= |password|
  {
    ClassCountsBounded(password);
  }

  /** The disallowed counter is positive exactly when some byte of the
      password occurs in the disallowed string. */
  lemma DisallowedCountPositive(password: CString, disallowed: CString)
    ensures Tally(password, disallowed).disallowed > 0 <==>
      exists i :: 0 <= i < |password| && password[i] in disallowed
  {
    CountPositive(disallowed, password);
    forall i | 0 <= i < |password| {
      OccursIsMembership(disallowed, password[i]);
    }
  }

  // ---------------------------------------------------------------------
  // The disallowed characters.

  /** The length and class checks pass. */
  predicate ClassesPass(p: Policy, password: CString) {
    var c := Tally(password, p.disallowedChars);
    p.minLength <= |password| <= p.maxLength &&
    c.lower >= p.minLowerChar && c.upper >= p.minUpperChar &&
    c.digit >= p.minDigitChar && c.special >= p.minSpecialChar
  }

  /** Once length and classes pass, ContainsDisallowed is reported exactly
      when some byte of the password occurs in the disallowed string. */
  lemma DisallowedIffOccurs(p: Policy, cracklib: Cracklib, password: CString)
    requires ClassesPass(p, password)
    ensures PlaintextVerdict(p, cracklib, password) == Rejected(ContainsDisallowed(p.disallowedChars))
        <==> exists i :: 0 <= i < |password| && password[i] in p.disallowedChars
  {
    DisallowedCountPositive(password, p.disallowedChars);
  }

  /** An empty disallowed string never causes a rejection. */
  lemma EmptyDisallowedNeverRejects(p: Policy, cracklib: Cracklib, password: CString)
    requires p.disallowedChars == []
    ensures !PlaintextVerdict(p, cracklib, password).Rejected? ||
            !PlaintextVerdict(p, cracklib, password).violation.ContainsDisallowed?
  {
    DisallowedCountPositive(password, p.disallowedChars);
  }

  // ---------------------------------------------------------------------
  // Order of the bytes, and stricter thresholds.

  /** The rules see only the length and the counters, so reordering the
      bytes of the password does not change their verdict; without cracklib,
      neither does it change the plaintext verdict. */
  lemma RulesIgnoreByteOrder(p: Policy, cracklib: Cracklib, a: CString, b: CString)
    requires multiset(a) == multiset(b)
    ensures RuleVerdict(p, a) == RuleVerdict(p, b)
    ensures !p.useCracklib || cracklib.Absent? ==>
      PlaintextVerdict(p, cracklib, a) == PlaintextVerdict(p, cracklib, b)
  {
    assert |a| == |multiset(a)| == |multiset(b)| == |b|;
    CountPermutation(LowerCaseChars, a, b);
    CountPermutation(UpperCaseChars, a, b);
    CountPermutation(DigitChars, a, b);
    CountPermutation(SpecialChars, a, b);
    CountPermutation(p.disallowedChars, a, b);
  }

  /** q asks at least as much as p: no minimum lower, no maximum higher,
      the same disallowed string and the same cracklib setting. */
  predicate AtLeastAsStrict(q: Policy, p: Policy) {
    q.minLength >= p.minLength && q.maxLength <= p.maxLength &&
    q.minLowerChar >= p.minLowerChar && q.minUpperChar >= p.minUpperChar &&
    q.minDigitChar >= p.minDigitChar && q.minSpecialChar >= p.minSpecialChar &&
    q.disallowedChars == p.disallowedChars && q.useCracklib == p.useCracklib
  }

  /** Raising thresholds never turns a rejection into an approval. */
  lemma StricterPolicyKeepsRejections(p: Policy, q: Policy, cracklib: Cracklib, password: CString)
    requires AtLeastAsStrict(q, p)
    ensures PlaintextVerdict(q, cracklib, password) == Approved ==>
            PlaintextVerdict(p, cracklib, password) == Approved
  {
  }

  // ---------------------------------------------------------------------
  // Cracklib.

  /** Every plaintext rule holds: length within bounds, each class minimum
      met and no byte of the password in the disallowed string. */
  predicate AllRulesHold(p: Policy, password: CString) {
    p.minLength <= |password| <= p.maxLength &&
    CountIn(LowerCaseChars, password) >= p.minLowerChar &&
    CountIn(UpperCaseChars, password) >= p.minUpperChar &&
    CountIn(DigitChars, password) >= p.minDigitChar &&
    CountIn(SpecialChars, password) >= p.minSpecialChar &&
    forall i :: 0 <= i < |password| ==> password[i] !in p.disallowedChars
  }

  /** Without cracklib (disabled, or not compiled in) a plaintext password
      is approved exactly when every rule holds. */
  lemma WithoutCracklibApprovalIffRulesHold(p: Policy, cracklib: Cracklib, password: CString)
    requires !p.useCracklib || cracklib.Absent?
    ensures PlaintextVerdict(p, cracklib, password) == Approved <==> AllRulesHold(p, password)
  {
    DisallowedCountPositive(password, p.disallowedChars);
  }

  /** With cracklib enabled and present, a password that passes every rule
      is rejected exactly when cracklib gives a reason, and that reason is
      the one reported. */
  lemma CracklibDecidesPassingPasswords(p: Policy, cracklib: Cracklib, password: CString)
    requires p.useCracklib && cracklib.Present?
    requires AllRulesHold(p, password)
    ensures PlaintextVerdict(p, cracklib, password).Rejected? <==> cracklib.fascistCheck(password).Some?
    ensures forall reason :: cracklib.fascistCheck(password) == Some(reason) ==>
      PlaintextVerdict(p, cracklib, password) == Rejected(WeakOrDictionary(reason))
  {
    DisallowedCountPositive(password, p.disallowedChars);
  }

  // ---------------------------------------------------------------------
  // The encrypted path and the user name.

  /** For an encrypted password the only rejection is PasswordEqualsUsername,
      given exactly when the user name verifies against the stored
      credential; the policy and cracklib play no part. */
  lemma EncryptedChecksOnlyUsername(username: CString, shadowPass: CString, passwordType: PasswordType,
                                    p: Policy, cracklib: Cracklib, verify: CryptVerify)
    requires passwordType != Plaintext
    ensures CheckVerdict(username, shadowPass, passwordType, p, cracklib, verify) ==
      (if verify(username, shadowPass, username) then Rejected(PasswordEqualsUsername) else Approved)
    ensures forall q: Policy, other: Cracklib ::
      CheckVerdict(username, shadowPass, passwordType, q, other, verify) ==
      CheckVerdict(username, shadowPass, passwordType, p, cracklib, verify)
  {
  }

  /** The plaintext path never looks at the role name: its verdict is the
      same for any other role name, and it never reports
      PasswordEqualsUsername, not even for a password equal to the role name. */
  lemma PlaintextNeverComparesUsername(username: CString, other: CString, password: CString,
                                       p: Policy, cracklib: Cracklib, verify: CryptVerify)
    ensures CheckVerdict(username, password, Plaintext, p, cracklib, verify) ==
            CheckVerdict(other, password, Plaintext, p, cracklib, verify)
    ensures CheckVerdict(username, password, Plaintext, p, cracklib, verify) != Rejected(PasswordEqualsUsername)
  {
  }
}
