# AuthDemo-Api: registration and login, modelled in Dafny

AuthDemo-Api is a small FastAPI service with two endpoints. `POST /register`
validates a `User` request (name, email, password), refuses an address that is
already registered, and stores the account in an in-memory dictionary with the
password replaced by its bcrypt hash. `POST /login` validates a `LoginData`
request (email, password) and succeeds iff the address is registered and the
password verifies against the stored hash. Both failure causes of a login give
the same 401 error.

The project has three modules:

- `Wrappers` (`wrappers.dfy`): `Option` and `Result`.
- `Validation` (`validation.dfy`): the field rules as pure functions. They are
  the length bounds declared on the fields, the email length validator and the
  password complexity validator. The validator's regular expression
  `^(?=.*[a-z])(?=.*[A-Z])(?=.*\d)(?=.*[@$!%*#?&])[A-Za-z\d@$!%*#?&]+$` is
  written out twice:
  - `PatternMatches` follows the regex itself. Each lookahead searches only up
    to the first newline. The `+` run must be followed by the end of the
    string or, because Python's `$` allows it, by one final newline.
  - `ComplexEnough` states the rule with the character classes `IsLower`,
    `IsUpper`, `IsDigit`, `IsSpecial` and `InAlphabet`.
  `PatternMatchesIff` proves the two agree. Every violation is reported as a
  `Violation`, and the framework collects the violations of all fields
  (`ParseUser`, `ParseLogin`).
- `Store` (`store.dfy`): the class `UserStore` holds the `users` map. Its
  `Register` and `Login` methods model `create_user` and `login_user`.
  `EmailTaken` is the scan over the stored accounts that finds a duplicate.
  The invariant `Valid` says:
  - every account is stored under its own email;
  - each account's stored password verifies the password it was registered
    with (the ghost map `registeredWith`);
  - each stored password is a 60-character hash, so it is never a plaintext
    password.

Two library services are parameters of the model rather than code. Email
syntax checking and normalisation is an `EmailValidator`
(`string -> Option<string>`), which returns the normalised address or `None`.
bcrypt is a `Hasher` pair `hash(p, salt)` / `verify(p, h)`. Its predicate
`Sound` states only that `verify(p, hash(p, salt))` holds and that a hash is 60
characters long. The random salt of each registration is a parameter of
`Register`. The dictionary key and the returned email are the normalised
address, because the email field's validator returns it.

Two consequences of the code as written are kept in the model:

- The class `[A-Za-z\d@$!%*#?&]+` is evidently meant to cover the whole
  password, yet Python's `$` also admits one final newline, so `"Abc123!5\n"`
  is accepted (`FinalNewlineExample`).
- `LoginData` declares only the email type and the password length bounds
  (main.py:49-51). A login request therefore has no email length rule and no
  password complexity rule (`ParseLogin`).

## Model

| member | source | states |
|---|---|---|
| `Validation.CheckLength` | main.py:29 | a declared length bound (here the password's; the name's at main.py:27 and the login password's at main.py:51 alike) passes iff min <= length <= max; a too-short value reports the minimum, otherwise a too-long one reports the maximum |
| `Validation.Message` | main.py:34-42 | the message of a violation starts with the framework's "Value error, " prefix exactly when one of the two field validators raised it (email too long, space, complexity) |
| `Validation.CheckName` | main.py:27 | a name is accepted iff its length is between 3 and 50; otherwise the violation is too-short-3 or too-long-50 |
| `Validation.CheckEmail` | main.py:28-35 | an email is accepted iff the syntax check gives a normalised address of at most 50 characters, and the result is that address; a syntactically valid address longer than 50 is rejected with the "no more than 50 characters" error |
| `Validation.CheckPassword` | main.py:29-43 | a password is accepted iff its length is 8-20, it has no space and it matches the pattern; a length-valid password with a space gets the space error, and one without a space that fails the pattern gets the complexity error; a password outside 8-20 gets the length violation and neither check runs |
| `Validation.PatternMatches` | main.py:41 | `re.match` of the pattern: each lookahead finds its class before the first newline, and a non-empty run of allowed characters is followed by the end or by one final newline |
| `Validation.PatternMatchesIff` | main.py:41 | the regex reading (lookaheads stop at the first newline, `$` allows one final newline) holds iff the password without one final newline is all allowed characters and holds a lowercase, an uppercase, a digit and a special character |
| `Validation.PasswordAcceptedIff` | main.py:39-43 | a password is accepted iff its length is 8-20, it has no space, and its body (without one final newline) is all allowed characters with at least one of each of the four classes |
| `Validation.PasswordAcceptedIffNoFinalNewline` | main.py:39-43 | for a password not ending in a newline: accepted iff length 8-20, no space, every character allowed, and one lowercase, uppercase, digit and special character each |
| `Validation.FinalNewlineIgnored` | main.py:41 | appending one newline to a run of allowed characters does not change whether the pattern matches |
| `Validation.SpaceReportedBeforeComplexity` | main.py:39-42 | a length-valid password with a space would also fail the pattern, yet the reported error is the space error |
| `Validation.ReportedPasswordMessage` | main.py:39-42 | for a rejected password of valid length the reported message is "Value error, " followed by the space text if the password has a space and by the complexity text otherwise; it names the space rule exactly when there is a space |
| `Validation.ParseUser` | main.py:26-43 | a registration request is valid iff the name, email and password checks all pass, giving the user with the normalised email; otherwise at most three violations are reported, exactly those of the failing field checks |
| `Validation.ParseLogin` | main.py:49-51 | a login request is valid iff the email passes the syntax check and the password is 8-20 characters long; otherwise at most two violations are reported, exactly the syntax error for an invalid email and the length violation of the password |
| `Validation.RegisteredPasswordPassesLogin` | main.py:49-51 | every request accepted at registration is also an accepted login request with the same normalised email and password |
| `Validation.NameExamples` | main.py:27 | "ab" is rejected as too short and "abc" is accepted |
| `Validation.WeakPasswordExample` | main.py:41-42 | "abc12345" gets the complexity error |
| `Validation.StrongPasswordExample` | main.py:39-43 | "Abc123!5" is accepted |
| `Validation.FinalNewlineExample` | main.py:41 | "Abc123!5" followed by a newline is accepted |
| `Validation.SpacePasswordExample` | main.py:39-40 | "Abc 123!5" gets the space error |
| `Store.HashIsNeverAPassword` | main.py:59-60 | a hash is too long to pass as a password, so the hash of an acceptable password is never that password |
| `Store.InsertKeepsConsistent` | main.py:59-61 | adding an account under a new email, with the hash of an accepted password in place of the password, keeps every account keyed by its email, verifying its registered password and holding a 60-character hash |
| `Store.UserStore.constructor` | main.py:53 | the store starts empty and satisfies its invariant |
| `Store.UserStore.StoredPasswordsAreHashes` | main.py:59-61 | no stored password equals the plaintext it was registered with, nor passes as a password |
| `Store.UserStore.EmailTaken` | main.py:57 | the scan answers true iff some stored account has exactly that email; when accounts are keyed by their email, iff the email is a key |
| `Store.UserStore.Register` | main.py:55-62 | keeps the invariant; an invalid request fails with its violations and changes nothing; a registered email fails with the 400 error and changes nothing; otherwise it returns the name and email, adds exactly that key, stores the hash instead of the password and leaves every other entry unchanged |
| `Store.UserStore.Login` | main.py:64-69 | an invalid request fails with its violations; otherwise it succeeds iff the email is a key and the password verifies against the stored hash, and every failure is the same 401 error; a registered email with its registered password always succeeds |
| `Store.RegisterThenLogin` | main.py:55-69 | on a fresh store, a valid registration returns the name and email, a login with the same credentials succeeds, and a second registration of the email fails with the 400 error |

## Left out

- The FastAPI application, the CORS middleware and its origins (main.py:7-22) are HTTP framing and deployment configuration without logic. Status 200 for a success is implied by `Success`.
- bcrypt through passlib's `CryptContext` (main.py:24, 59, 67) is a foreign, salted, slow hash. It is the `Hasher` parameter. Its only assumed properties are that a password verifies against its own hash and the 60-character hash length. Nothing cryptographic is modelled. In particular the model does not capture that a wrong password fails to verify, or that two hashes of one password with different salts differ.
- Email syntax checking and normalisation by the email library (main.py:28, 50) is the `EmailValidator` parameter. Its error text is shortened to "value is not a valid email address".
- IsDigit: only ASCII `0`-`9`. Python's `\d` also matches every other Unicode decimal digit, in the digit lookahead and in the allowed alphabet. A password whose digits are, for example, Arabic-Indic is accepted by the service and rejected by `CheckPassword` here.
- Framework request parsing beyond the field rules is not modelled: missing fields, non-string JSON values and coercion. The texts of the length errors follow the framework's wording but are not checked against it.
- The framework filters the `"message"` key out of the registration response (main.py:55, 62). `Register` returns only the name and email.
- `create_user` overwrites the password field of the request object itself before storing that object (main.py:60-61). The model stores a copy with the new password, so aliasing of the request object is not captured. Nothing observes that object after the handler returns.
- The handlers are `async` and share the module-level dictionary (main.py:53-69). Concurrent requests are not modelled; the store is used sequentially.
