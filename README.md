# passwordcheck_with_params in Dafny

A model of the password-acceptability hook `check_password` of the
`passwordcheck_with_params` PostgreSQL extension, and proofs of what it
guarantees.

The server calls the hook whenever a role's password is set. The hook gets
the role name, the new password and whether that password is plaintext or
already encrypted. It either returns normally, which approves the password,
or raises `ereport(ERROR)` naming one violated rule.

- **Encrypted passwords** (MD5 or SCRAM). Only one check is possible: does
  the role name itself verify against the stored credential
  (`plain_crypt_verify`)? If it does, the password is rejected with
  "password must not equal user name".
- **Plaintext passwords** go through fail-fast checks in a fixed order:
  1. minimum length, then maximum length;
  2. one pass over the bytes that counts lower-case letters, upper-case
     letters, digits, special characters and operator-disallowed characters;
  3. the four class minimums;
  4. "no disallowed character";
  5. if enabled and compiled in, cracklib's `FascistCheck`.

The model has these parts:

- `cstrings.dfy` (module `CStrings`): the byte type and C strings.
  `CString` is a sequence of bytes with no NUL, so `strlen` is the length of
  the sequence. `StrChr` is a literal model of `strchr`. It also finds the
  terminator when asked for NUL. `Occurs(s, c)` stands for
  `strchr(s, c) != NULL`.
- `char_classes.dfy` (module `CharClasses`): the four class literals as the
  bytes of their C string literals. The special literal is UTF-8 text, so
  its multibyte symbols contribute their lead bytes (0xC2, 0xC3) and their
  continuation bytes. `strchr` matches each of those bytes on its own.
- `counting.dfy` (module `Counting`): `CountIn(chars, s)` is the number of
  positions of `s` whose byte `strchr` finds in `chars`. The module proves
  facts about it: it counts exactly the matching positions, it ignores byte
  order, and the four class counts sum to at most the length.
- `password_check.dfy` (module `PasswordCheck`):
  - `Policy` replaces the configuration variables.
  - `Verdict` is either `Approved` or `Rejected(violation)`. A `Violation`
    carries the threshold, the disallowed string or cracklib's reason,
    whichever its error message shows.
  - Each path has its own verdict function. `Decide` gives the ordered
    threshold checks.
  - The method `CountClasses` is the counting loop, with its five mutable
    counters.
  - The method `CheckPassword` follows the C code branch by branch, early
    returns included. It is proved equal to the verdict function
    `CheckVerdict`.
- `properties.dfy` (module `PasswordCheckProperties`): lemmas about the
  verdict functions. One of them compares the verdict with an independent
  reference: the first failing rule in a list of rules.
- `scenarios.dfy` (module `Scenarios`): concrete passwords checked under
  the registered defaults (8, 32, 1, 1, 1, 1, "", off). Each one is derived
  from a more general lemma.

Two foreign calls become parameters:

- `plain_crypt_verify` becomes a `CryptVerify` function.
- cracklib becomes a `Cracklib` value: `Absent` for a build without
  `USE_CRACKLIB`, or `Present(fascistCheck)`.

Points where the code's behaviour is easy to misread, as the model has it:

- The module's comments (passwordcheck_with_params.c:46, 56, 66, 76, 86, 97)
  speak of characters, but the code counts **bytes**: `strlen` at line 179
  and `strchr` on each `char` at lines 216-236. The model does the same.
  An "é" adds 2 to the length and 2 to the special count. Any U+0080 to
  U+00FF character written in UTF-8 counts as special through its lead
  byte, even when the literal does not list it
  (`Scenarios.LatinOneCharsCountAsSpecial`).
- Nothing requires `min_length <= max_length`. Each is registered with the
  range 0 to 128 on its own. With `min_length > max_length` every plaintext
  password is rejected.
- `FascistCheck` returns either a reason or NULL (lines 275-278), and the
  code has no separate outcome for a missing dictionary.
- The thresholds are C `int`s and are compared as given. Range limits are
  the host's concern.

## Model

| member | source | states |
|---|---|---|
| `CStrings.StrChrFindsFirst` | postgresql/passwordcheck/passwordcheck_with_params.c:216-236 | strchr finds a byte exactly when it is NUL or occurs in the string, and then points at its first occurrence (the terminator for NUL) |
| `CStrings.OccursIsMembership` | postgresql/passwordcheck/passwordcheck_with_params.c:216-236 | for a password byte (never NUL) `strchr(set, b) != NULL` is plain membership of b in the set |
| `CharClasses.UpperLiteral` | postgresql/passwordcheck/passwordcheck_with_params.c:37 | the bytes of UPPER_CASE_CHARS are exactly 0x41..0x5A |
| `CharClasses.LowerLiteral` | postgresql/passwordcheck/passwordcheck_with_params.c:38 | the bytes of LOWER_CASE_CHARS are exactly 0x61..0x7A |
| `CharClasses.DigitLiteral` | postgresql/passwordcheck/passwordcheck_with_params.c:39 | the bytes of DIGIT_CHARS are exactly 0x30..0x39 |
| `CharClasses.SpecialLiteral` | postgresql/passwordcheck/passwordcheck_with_params.c:40 | the bytes of the UTF-8 SPECIAL_CHARS literal are all printable ASCII punctuation plus the eleven lead/continuation bytes of its Latin-1 symbols |
| `CharClasses.ClassRanges` | postgresql/passwordcheck/passwordcheck_with_params.c:37-40 | for a non-NUL byte, strchr membership in each class literal is that class's byte range |
| `CharClasses.AlnumNotSpecial` | postgresql/passwordcheck/passwordcheck_with_params.c:37-40 | letters and digits are never special |
| `CharClasses.ClassesDisjoint` | postgresql/passwordcheck/passwordcheck_with_params.c:37-40 | the four classes are pairwise disjoint on non-NUL bytes |
| `Counting.CountIn` | postgresql/passwordcheck/passwordcheck_with_params.c:213-239 | a counter never exceeds the number of bytes scanned |
| `Counting.CountStep` | postgresql/passwordcheck/passwordcheck_with_params.c:213-239 | each iteration advances a counter by one exactly when strchr finds the current byte |
| `Counting.CountIsPositions` | postgresql/passwordcheck/passwordcheck_with_params.c:213-239 | a counter equals the number of password positions whose byte is in its set |
| `Counting.CountPositive` | postgresql/passwordcheck/passwordcheck_with_params.c:234-237 | a counter is positive exactly when some byte of the password is found in its set |
| `Counting.CountPermutation` | postgresql/passwordcheck/passwordcheck_with_params.c:213-239 | a counter depends only on the multiset of bytes, not on their order |
| `Counting.ClassCountsBounded` | postgresql/passwordcheck/passwordcheck_with_params.c:207-239 | lower + upper + digit + special counts add up to at most the password length |
| `CStrings.StrChr` | postgresql/passwordcheck/passwordcheck_with_params.c:216-236 | the definition of strchr as a scan; a found offset is within the string or at its terminator (its full contract is StrChrFindsFirst) |
| `PasswordCheck.Tally` | postgresql/passwordcheck/passwordcheck_with_params.c:207-239 | the definition of the five counters after the loop; each is at most the password length |
| `PasswordCheck.Decide` | postgresql/passwordcheck/passwordcheck_with_params.c:190-269 | the definition of the ordered threshold checks; approves exactly when the length is within bounds, each class minimum is met and no byte is disallowed, and never reports the username or cracklib violations |
| `PasswordCheck.RuleVerdict` | postgresql/passwordcheck/passwordcheck_with_params.c:190-269 | the threshold checks on a password; approval implies min_length <= length <= max_length |
| `PasswordCheck.CracklibVerdict` | postgresql/passwordcheck/passwordcheck_with_params.c:272-280 | the definition of the cracklib step; rejects exactly when cracklib is enabled, compiled in and FascistCheck gives a reason, and then with WeakOrDictionary |
| `PasswordCheck.PlaintextVerdict` | postgresql/passwordcheck/passwordcheck_with_params.c:173-281 | the definition of the plaintext path; approval implies the length bounds and cracklib's approval, and PasswordEqualsUsername is never reported (properties in the PasswordCheckProperties rows) |
| `PasswordCheck.EncryptedVerdict` | postgresql/passwordcheck/passwordcheck_with_params.c:156-172 | the definition of the encrypted path; the only possible outcomes are Approved and PasswordEqualsUsername |
| `PasswordCheck.CheckVerdict` | postgresql/passwordcheck/passwordcheck_with_params.c:149-284 | the definition of the hook's verdict; PasswordEqualsUsername is reported only on the encrypted path, and the encrypted path reports nothing else |
| `PasswordCheck.CountClasses` | postgresql/passwordcheck/passwordcheck_with_params.c:207-239 | after the single loop each of the five counters equals the count of password bytes strchr finds in its string |
| `PasswordCheck.CheckPassword` | postgresql/passwordcheck/passwordcheck_with_params.c:149-284 | the hook's outcome, branch by branch with early exits, equals CheckVerdict |
| `PasswordCheckProperties.FirstFailureNamesFirst` | postgresql/passwordcheck/passwordcheck_with_params.c:190-279 | fail-fast evaluation approves iff every rule holds, otherwise reports the first rule that fails and all earlier rules hold |
| `PasswordCheckProperties.DecideFollowsRuleOrder` | postgresql/passwordcheck/passwordcheck_with_params.c:190-280 | the threshold checks followed by cracklib are the first failing rule of short, long, lower, upper, digit, special, disallowed, cracklib |
| `PasswordCheckProperties.PlaintextFollowsRuleOrder` | postgresql/passwordcheck/passwordcheck_with_params.c:173-281 | the plaintext verdict is the first failing rule of that list, evaluated on the password |
| `PasswordCheckProperties.TooShortIffShort` | postgresql/passwordcheck/passwordcheck_with_params.c:190-193 | TooShort(min_length) is reported exactly for passwords shorter than min_length, whatever their composition |
| `PasswordCheckProperties.TooLongIffLong` | postgresql/passwordcheck/passwordcheck_with_params.c:190-201 | TooLong(max_length) is reported exactly for passwords at least min_length and longer than max_length |
| `PasswordCheckProperties.InconsistentBoundsRejectAll` | postgresql/passwordcheck/passwordcheck_with_params.c:190-201 | with min_length > max_length every plaintext password is rejected |
| `PasswordCheckProperties.TallyBounded` | postgresql/passwordcheck/passwordcheck_with_params.c:207-239 | each counter is at most the length, and the four class counters together are at most the length |
| `PasswordCheckProperties.DisallowedCountPositive` | postgresql/passwordcheck/passwordcheck_with_params.c:234-237 | the disallowed counter is positive exactly when some password byte occurs in the disallowed string |
| `PasswordCheckProperties.DisallowedIffOccurs` | postgresql/passwordcheck/passwordcheck_with_params.c:265-269 | once length and class checks pass, ContainsDisallowed(disallowed) is reported exactly when some password byte occurs in the disallowed string |
| `PasswordCheckProperties.EmptyDisallowedNeverRejects` | postgresql/passwordcheck/passwordcheck_with_params.c:235-269 | an empty disallowed string never causes a ContainsDisallowed rejection |
| `PasswordCheckProperties.RulesIgnoreByteOrder` | postgresql/passwordcheck/passwordcheck_with_params.c:213-263 | permuting the password bytes leaves the rule verdict unchanged, and the whole plaintext verdict too when cracklib is not consulted |
| `PasswordCheckProperties.StricterPolicyKeepsRejections` | postgresql/passwordcheck/passwordcheck_with_params.c:190-263 | raising minimums (or lowering the maximum) never turns a rejection into an approval |
| `PasswordCheckProperties.WithoutCracklibApprovalIffRulesHold` | postgresql/passwordcheck/passwordcheck_with_params.c:241-283 | with cracklib off or absent, a plaintext password is approved exactly when the length bounds and class minimums hold and no byte is disallowed |
| `PasswordCheckProperties.CracklibDecidesPassingPasswords` | postgresql/passwordcheck/passwordcheck_with_params.c:272-280 | with cracklib on and present, a password passing every rule is rejected exactly when FascistCheck gives a reason, and that reason is reported |
| `PasswordCheckProperties.EncryptedChecksOnlyUsername` | postgresql/passwordcheck/passwordcheck_with_params.c:156-172 | for an encrypted password the verdict is PasswordEqualsUsername iff verify(username, credential, username), otherwise Approved, whatever the policy and cracklib |
| `PasswordCheckProperties.PlaintextNeverComparesUsername` | postgresql/passwordcheck/passwordcheck_with_params.c:173-281 | the plaintext verdict does not depend on the role name, and is never PasswordEqualsUsername, not even for a password equal to the role name |
| `Scenarios.OneOfEachClassApproved` | postgresql/passwordcheck/passwordcheck_with_params.c:190-283 | under the registered defaults, 8 to 32 bytes with an upper, a lower, a digit and any byte of the special literal (ASCII punctuation or one of its UTF-8 bytes) are approved when cracklib is off |
| `Scenarios.LowerOnlyRejected` | postgresql/passwordcheck/passwordcheck_with_params.c:241-251 | under the defaults, 8 to 32 lower-case letters are rejected with TooFewUpper(1) |
| `Scenarios.DisallowedByteRejected` | postgresql/passwordcheck/passwordcheck_with_params.c:265-269 | under the defaults with a disallowed string, a password of 8 to 32 bytes with a byte of each class (any byte of the special literal) and a disallowed byte is rejected with ContainsDisallowed |
| `Scenarios.OneOfEachApproved` | postgresql/passwordcheck/passwordcheck_with_params.c:190-283 | "Ab3!defg" is approved under the defaults |
| `Scenarios.AllLowerRejected` | postgresql/passwordcheck/passwordcheck_with_params.c:241-251 | "abcdefgh" is rejected with TooFewUpper(1) |
| `Scenarios.ShortRejected` | postgresql/passwordcheck/passwordcheck_with_params.c:190-193 | "Ab3!" is rejected with TooShort(8) although every class is present |
| `Scenarios.SpaceDisallowed` | postgresql/passwordcheck/passwordcheck_with_params.c:265-269 | with " " disallowed, "Ab3! defg" is rejected with ContainsDisallowed(" ") |
| `Scenarios.LatinOneCharsCountAsSpecial` | postgresql/passwordcheck/passwordcheck_with_params.c:230-233 | a two-byte UTF-8 character led by 0xC2/0xC3 adds one to the special counter, or two if its continuation byte is listed |

## Left out

- `_PG_init` and the registration of the `passwordcheck.*` parameters. The model takes a resolved `Policy`; `DefaultPolicy` holds the registered defaults. Range limits such as 0 to 128 and 0 to 64 are enforced by the server when a parameter is set.
- The initializer `pwchkMaxLength = 128` differs from the registered default 32. The model takes the configuration as given and uses 32 in `DefaultPolicy`.
- Installing the hook (`check_password_hook = check_password`): this is host integration.
- `plain_crypt_verify` (MD5/SCRAM hashing): a foreign call, modelled only as the boolean function `CryptVerify`. Its `logdetail` output is unused by the hook and left out.
- cracklib's `FascistCheck` and its dictionary path: an external library, modelled only as an optional function that returns an optional reason.
- The text of the error messages and the `errcode`: a rejection is a tagged `Violation` that carries the value the message prints.
- `validuntil_time` and `validuntil_null`: the hook ignores them.
- `pwdlen` holds `strlen` in a C `int`: truncation for passwords longer than `INT_MAX` bytes is not modelled; lengths are unbounded integers.
- Concurrency and reloading the configuration between calls: each verdict is a function of one `Policy` value.
