/** The field rules of the registration request `User` and of the login request
    `LoginData`: the length bounds declared on each field, the email length
    validator and the password complexity validator with its pattern
    `^(?=.*[a-z])(?=.*[A-Z])(?=.*\d)(?=.*[@$!%*#?&])[A-Za-z\d@$!%*#?&]+$`
    written out as character classes.

    Email syntax checking and normalisation belong to an email library; the
    model receives it as an `EmailValidator`: `None` for a syntax error,
    `Some(e)` with the normalised address `e` otherwise. */
module Validation {
  import opened Wrappers

  const NameMinLength: nat := 3
  const NameMaxLength: nat := 50
  const EmailMaxLength: nat := 50
  const PasswordMinLength: nat := 8
  const PasswordMaxLength: nat := 20

  /** The special characters the pattern asks for and allows. */
  const Specials: string := "@$!%*#?&"

  type EmailValidator = string -> Option<string>

  datatype Field = Name | Email | Password

  /** One violated constraint, as listed in a validation error response. */
  datatype Violation =
    | TooShort(field: Field, min: nat)
    | TooLong(field: Field, max: nat)
    | InvalidEmailSyntax
    | EmailTooLong
    | PasswordHasSpace
    | PasswordTooWeak

  /** A request that passed validation; `email` is the normalised address. */
  datatype User = User(name: string, email: string, password: string)

  datatype LoginData = LoginData(email: string, password: string)

  // ---------------------------------------------------------------------
  // Messages

  function DigitChar(d: nat): char
    requires d < 10
  {
    "0123456789"[d]
  }

  function NatToString(n: nat): (s: string)
    ensures |s| >= 1
    ensures forall i :: 0 <= i < |s| ==> '0' <= s[i] <= '9'
  {
    if n < 10 then [DigitChar(n)] else NatToString(n / 10) + [DigitChar(n % 10)]
  }

  /** The framework reports an error raised inside a field validator with
      this prefix before the validator's own text. */
  const ValueErrorPrefix: string := "Value error, "

  const EmailTooLongText: string := "Email must be no more than 50 characters"
  const SpaceText: string := "Password cannot contain spaces"
  const ComplexityText: string :=
    "Password must contain at least one uppercase letter, one lowercase letter, one number, and one special character"

  /** A violation raised by one of the two field validators rather than by a
      declared bound or the email library. */
  predicate RaisedByValidator(v: Violation)
  {
    v == EmailTooLong || v == PasswordHasSpace || v == PasswordTooWeak
  }

  /** The message listed for a violation in the validation error response. */
  function Message(v: Violation): (m: string)
    ensures RaisedByValidator(v) <==> |m| >= |ValueErrorPrefix| && m[..|ValueErrorPrefix|] == ValueErrorPrefix
  {
    assert ValueErrorPrefix[0] == 'V';
    match v
    case TooShort(_, min) =>
      var m := "String should have at least " + NatToString(min) + " characters";
      assert m[0] == 'S';
      m
    case TooLong(_, max) =>
      var m := "String should have at most " + NatToString(max) + " characters";
      assert m[0] == 'S';
      m
    case InvalidEmailSyntax =>
      var m := "value is not a valid email address";
      assert m[0] == 'v';
      m
    case EmailTooLong => ValueErrorPrefix + EmailTooLongText
    case PasswordHasSpace => ValueErrorPrefix + SpaceText
    case PasswordTooWeak => ValueErrorPrefix + ComplexityText
  }

  // ---------------------------------------------------------------------
  // Length bounds of the fields

  /** A declared length bound: the minimum is checked before the maximum. */
  function CheckLength(field: Field, s: string, min: nat, max: nat): (r: Option<Violation>)
    ensures r.None? <==> min <= |s| <= max
    ensures |s| < min ==> r == Some(TooShort(field, min))
    ensures min <= |s| && max < |s| ==> r == Some(TooLong(field, max))
  {
    if |s| < min then Some(TooShort(field, min))
    else if max < |s| then Some(TooLong(field, max))
    else None
  }

  function CheckName(name: string): (r: Option<Violation>)
    ensures r.None? <==> 3 <= |name| <= 50
    ensures r.Some? ==> r.value == TooShort(Name, 3) || r.value == TooLong(Name, 50)
  {
    CheckLength(Name, name, NameMinLength, NameMaxLength)
  }

  /** The email field: syntax first, then the length validator on the
      normalised address. */
  function CheckEmail(email: string, validate: EmailValidator): (r: Result<string, Violation>)
    ensures r.Success? <==> validate(email).Some? && |validate(email).value| <= 50
    ensures r.Success? ==> r.value == validate(email).value
    ensures validate(email).None? ==> r == Failure(InvalidEmailSyntax)
    ensures validate(email).Some? && |validate(email).value| > 50 ==> r == Failure(EmailTooLong)
  {
    match validate(email)
    case None => Failure(InvalidEmailSyntax)
    case Some(e) => if |e| > EmailMaxLength then Failure(EmailTooLong) else Success(e)
  }

  // ---------------------------------------------------------------------
  // The password pattern

  predicate IsLower(c: char) { 'a' <= c <= 'z' }

  predicate IsUpper(c: char) { 'A' <= c <= 'Z' }

  /** ASCII digits only (see README). */
  predicate IsDigit(c: char) { '0' <= c <= '9' }

  predicate IsSpecial(c: char) { c in Specials }

  /** The class `[A-Za-z\d@$!%*#?&]`. */
  predicate InAlphabet(c: char) { IsLower(c) || IsUpper(c) || IsDigit(c) || IsSpecial(c) }

  predicate AllInAlphabet(s: string) { forall i :: 0 <= i < |s| ==> InAlphabet(s[i]) }

  /** The four classes each lookahead asks for. */
  datatype CharClass = Lower | Upper | Digit | Special

  predicate InClass(k: CharClass, c: char)
  {
    match k
    case Lower => IsLower(c)
    case Upper => IsUpper(c)
    case Digit => IsDigit(c)
    case Special => IsSpecial(c)
  }

  predicate NoNewlineBefore(v: string, i: nat)
    requires i <= |v|
  {
    forall j :: 0 <= j < i ==> v[j] != '\n'
  }

  /** `(?=.*[k])` at the start: `.` does not match a newline, so a character
      of class `k` must occur before the first newline. */
  predicate Lookahead(v: string, k: CharClass)
  {
    exists i :: 0 <= i < |v| && InClass(k, v[i]) && NoNewlineBefore(v, i)
  }

  /** `[A-Za-z\d@$!%*#?&]+$` at the start: a non-empty run of alphabet
      characters, then either the end of the string or, as `$` also allows,
      a single newline that ends the string. */
  predicate AnchoredRun(v: string)
  {
    exists n :: 1 <= n <= |v| && AllInAlphabet(v[..n]) && (n == |v| || (n == |v| - 1 && v[n] == '\n'))
  }

  /** What `re.match` decides for the complexity pattern. */
  predicate PatternMatches(v: string)
  {
    Lookahead(v, Lower) && Lookahead(v, Upper) && Lookahead(v, Digit) && Lookahead(v, Special)
    && AnchoredRun(v)
  }

  /** The part of `v` the run must cover: `v` without one final newline. */
  function PatternBody(v: string): (b: string)
    ensures b == v || v == b + "\n"
    ensures |v| > 0 && v[|v| - 1] == '\n' <==> |b| == |v| - 1
  {
    if |v| > 0 && v[|v| - 1] == '\n' then v[..|v| - 1] else v
  }

  predicate Contains(s: string, k: CharClass)
  {
    exists i :: 0 <= i < |s| && InClass(k, s[i])
  }

  /** The pattern, stated without the regex machinery: the body is made of
      allowed characters only and holds one character of every class. */
  predicate ComplexEnough(b: string)
  {
    AllInAlphabet(b) && Contains(b, Lower) && Contains(b, Upper) && Contains(b, Digit) && Contains(b, Special)
  }

  lemma NewlineNotInAlphabet()
    ensures !InAlphabet('\n')
  {
    assert forall i :: 0 <= i < |Specials| ==> Specials[i] != '\n';
  }

  lemma {:induction false} LookaheadInBody(v: string, k: CharClass)
    requires AllInAlphabet(PatternBody(v))
    ensures Lookahead(v, k) <==> Contains(PatternBody(v), k)
  {
    var b := PatternBody(v);
    NewlineNotInAlphabet();
    if Lookahead(v, k) {
      var i :| 0 <= i < |v| && InClass(k, v[i]) && NoNewlineBefore(v, i);
      assert InClass(k, v[i]) ==> InAlphabet(v[i]);
      assert i < |b|;
      assert b[i] == v[i];
    }
    if Contains(b, k) {
      var i :| 0 <= i < |b| && InClass(k, b[i]);
      assert v[i] == b[i];
      forall j | 0 <= j < i ensures v[j] != '\n' {
        assert v[j] == b[j] && InAlphabet(b[j]);
      }
    }
  }

  /** The regex reading of the pattern and the class reading agree. */
  lemma {:induction false} PatternMatchesIff(v: string)
    ensures PatternMatches(v) <==> ComplexEnough(PatternBody(v))
  {
    var b := PatternBody(v);
    NewlineNotInAlphabet();
    if AnchoredRun(v) {
      var n :| 1 <= n <= |v| && AllInAlphabet(v[..n]) && (n == |v| || (n == |v| - 1 && v[n] == '\n'));
      assert b == v[..n] by {
        if n == |v| {
          assert v[n - 1] == v[..n][n - 1];
          assert v[|v| - 1] != '\n';
        }
      }
      LookaheadInBody(v, Lower);
      LookaheadInBody(v, Upper);
      LookaheadInBody(v, Digit);
      LookaheadInBody(v, Special);
    }
    if ComplexEnough(b) {
      LookaheadInBody(v, Lower);
      LookaheadInBody(v, Upper);
      LookaheadInBody(v, Digit);
      LookaheadInBody(v, Special);
      var n := |b|;
      assert v[..n] == b;
      assert 1 <= n;
    }
  }

  /** The password field: length bounds, then the space check, then the
      pattern; the first failing check gives the message. */
  function CheckPassword(password: string): (r: Option<Violation>)
    ensures r.None? <==> 8 <= |password| <= 20 && ' ' !in password && PatternMatches(password)
    ensures 8 <= |password| <= 20 && ' ' in password ==> r == Some(PasswordHasSpace)
    ensures 8 <= |password| <= 20 && ' ' !in password && !PatternMatches(password) ==> r == Some(PasswordTooWeak)
    ensures !(8 <= |password| <= 20) ==> r == CheckLength(Password, password, PasswordMinLength, PasswordMaxLength)
  {
    match CheckLength(Password, password, PasswordMinLength, PasswordMaxLength)
    case Some(v) => Some(v)
    case None =>
      if ' ' in password then Some(PasswordHasSpace)
      else if !PatternMatches(password) then Some(PasswordTooWeak)
      else None
  }

  /** A password is accepted iff its length is 8 to 20, it has no space, and
      (apart from one final newline) it is made of allowed characters and
      holds a lowercase letter, an uppercase letter, a digit and a special
      character. */
  lemma PasswordAcceptedIff(password: string)
    ensures CheckPassword(password).None? <==>
      && 8 <= |password| <= 20
      && ' ' !in password
      && ComplexEnough(PatternBody(password))
  {
    PatternMatchesIff(password);
  }

  /** For a password that does not end in a newline the rule is exactly the
      alphabet and the four classes over the whole password. */
  lemma PasswordAcceptedIffNoFinalNewline(password: string)
    requires password == [] || password[|password| - 1] != '\n'
    ensures CheckPassword(password).None? <==>
      && 8 <= |password| <= 20
      && ' ' !in password
      && AllInAlphabet(password)
      && Contains(password, Lower) && Contains(password, Upper)
      && Contains(password, Digit) && Contains(password, Special)
  {
    PatternMatchesIff(password);
    assert PatternBody(password) == password;
  }

  /** A final newline does not change the pattern's verdict on a body of
      allowed characters. */
  lemma FinalNewlineIgnored(b: string)
    requires AllInAlphabet(b)
    ensures PatternMatches(b + "\n") <==> PatternMatches(b)
  {
    PatternMatchesIff(b);
    PatternMatchesIff(b + "\n");
    NewlineNotInAlphabet();
    assert PatternBody(b + "\n") == b;
    if |b| > 0 {
      assert InAlphabet(b[|b| - 1]);
    }
    assert PatternBody(b) == b;
  }

  /** A password with a space would fail the pattern too, but the space check
      runs first, so its message is the one reported. */
  lemma SpaceReportedBeforeComplexity(password: string)
    requires 8 <= |password| <= 20 && ' ' in password
    ensures !PatternMatches(password)
    ensures CheckPassword(password) == Some(PasswordHasSpace)
  {
    PatternMatchesIff(password);
    var b := PatternBody(password);
    var i :| 0 <= i < |password| && password[i] == ' ';
    assert !InAlphabet(' ') by {
      assert forall j :: 0 <= j < |Specials| ==> Specials[j] != ' ';
    }
    if i < |b| {
      assert b[i] == ' ';
    }
  }

  /** The message reported for a rejected password of valid length names
      the space rule exactly when the password has a space. */
  lemma ReportedPasswordMessage(password: string)
    requires 8 <= |password| <= 20 && CheckPassword(password).Some?
    ensures Message(CheckPassword(password).value) == ValueErrorPrefix + (if ' ' in password then SpaceText else ComplexityText)
    ensures ' ' in password <==> Message(CheckPassword(password).value) == ValueErrorPrefix + SpaceText
  {
    if ' ' !in password {
      assert Message(CheckPassword(password).value) == ValueErrorPrefix + ComplexityText;
      assert |ValueErrorPrefix + ComplexityText| != |ValueErrorPrefix + SpaceText|;
    }
  }

  // ---------------------------------------------------------------------
  // The two request models

  /** The violations among a list of field checks, in field order. */
  function ViolationsOf(checks: seq<Option<Violation>>): (vs: seq<Violation>)
    ensures |vs| <= |checks|
    ensures vs == [] <==> forall i :: 0 <= i < |checks| ==> checks[i].None?
    ensures forall v :: v in vs <==> Some(v) in checks
  {
    if checks == [] then []
    else
      var rest := ViolationsOf(checks[1..]);
      assert forall i :: 1 <= i < |checks| ==> checks[i] == checks[1..][i - 1];
      assert forall o :: o in checks <==> o == checks[0] || o in checks[1..];
      match checks[0]
      case None => rest
      case Some(v) => [v] + rest
  }

  function EmailViolation(r: Result<string, Violation>): (o: Option<Violation>)
    ensures o.None? <==> r.Success?
  {
    match r
    case Success(_) => None
    case Failure(v) => Some(v)
  }

  /** Validation of a registration request: every field is checked, in the
      order name, email, password, and every violation is reported. */
  function ParseUser(name: string, email: string, password: string, validate: EmailValidator): (r: Result<User, seq<Violation>>)
    ensures r.Success? <==> CheckName(name).None? && CheckEmail(email, validate).Success? && CheckPassword(password).None?
    ensures r.Success? ==> r.value == User(name, validate(email).value, password)
    ensures r.Failure? ==> r.error != [] && |r.error| <= 3
    ensures r.Failure? ==> forall v :: v in r.error <==>
      Some(v) == CheckName(name) || Some(v) == EmailViolation(CheckEmail(email, validate)) || Some(v) == CheckPassword(password)
  {
    var emailCheck := CheckEmail(email, validate);
    var checks := [CheckName(name), EmailViolation(emailCheck), CheckPassword(password)];
    var vs := ViolationsOf(checks);
    if vs == [] then
      assert checks[0].None? && checks[1].None? && checks[2].None?;
      Success(User(name, emailCheck.value, password))
    else
      Failure(vs)
  }

  /** Validation of a login request: email syntax and the password length
      bounds only; neither the email length rule nor the password
      complexity rule applies here. */
  function ParseLogin(email: string, password: string, validate: EmailValidator): (r: Result<LoginData, seq<Violation>>)
    ensures r.Success? <==> validate(email).Some? && 8 <= |password| <= 20
    ensures r.Success? ==> r.value == LoginData(validate(email).value, password)
    ensures validate(email).None? ==> r.Failure? && InvalidEmailSyntax in r.error
    ensures r.Failure? ==> r.error != [] && |r.error| <= 2
    ensures r.Failure? ==> forall v :: v in r.error <==>
      (validate(email).None? && v == InvalidEmailSyntax) || Some(v) == CheckLength(Password, password, PasswordMinLength, PasswordMaxLength)
  {
    var emailCheck := if validate(email).None? then Some(InvalidEmailSyntax) else None;
    var passwordCheck := CheckLength(Password, password, PasswordMinLength, PasswordMaxLength);
    var vs := ViolationsOf([emailCheck, passwordCheck]);
    if vs == [] then
      Success(LoginData(validate(email).value, password))
    else
      Failure(vs)
  }

  /** Every password accepted at registration also passes the login bounds. */
  lemma RegisteredPasswordPassesLogin(name: string, email: string, password: string, validate: EmailValidator)
    requires ParseUser(name, email, password, validate).Success?
    ensures ParseLogin(email, password, validate) == Success(LoginData(ParseUser(name, email, password, validate).value.email, password))
  {
  }

  // ---------------------------------------------------------------------
  // Worked examples

  lemma NameExamples()
    ensures CheckName("ab") == Some(TooShort(Name, 3))
    ensures CheckName("abc").None?
  {
  }

  lemma WeakPasswordExample()
    ensures CheckPassword("abc12345") == Some(PasswordTooWeak)
  {
    var weak := "abc12345";
    PatternMatchesIff(weak);
    assert PatternBody(weak) == weak;
    assert !Contains(weak, Upper);
  }

  lemma {:induction false} StrongPasswordExample()
    ensures ComplexEnough("Abc123!5")
    ensures CheckPassword("Abc123!5").None?
  {
    var good := "Abc123!5";
    PatternMatchesIff(good);
    assert PatternBody(good) == good;
    assert InClass(Lower, good[1]) && InClass(Upper, good[0]);
    assert InClass(Digit, good[3]) && InClass(Special, good[6]);
    assert AllInAlphabet(good);
  }

  /** Python's `$` lets one final newline through. */
  lemma {:induction false} FinalNewlineExample()
    ensures CheckPassword("Abc123!5\n").None?
  {
    StrongPasswordExample();
    var good := "Abc123!5";
    PatternMatchesIff(good);
    FinalNewlineIgnored(good);
    assert good + "\n" == "Abc123!5\n";
  }

  lemma SpacePasswordExample()
    ensures CheckPassword("Abc 123!5") == Some(PasswordHasSpace)
  {
    SpaceReportedBeforeComplexity("Abc 123!5");
  }
}
