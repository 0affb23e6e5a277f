/** The in-memory account store behind `POST /register` and `POST /login`:
    a map from the normalised email address to the registered `User`, whose
    password field holds the bcrypt hash of the password it was registered
    with.

    The bcrypt context is given to the store as a `Hasher`: `hash(p, salt)`
    computes the stored form of `p` for the fresh random `salt`, and
    `verify(p, h)` checks `p` against a stored hash. `Sound` states the two
    facts the store relies on: a password verifies against its own hash, and
    a hash is always 60 characters long (the length of a bcrypt hash string). */
module Store {
  import opened Wrappers
  import opened Validation

  const HashLength: nat := 60

  datatype Hasher = Hasher(hash: (string, string) -> string, verify: (string, string) -> bool)

  ghost predicate Sound(h: Hasher)
  {
    forall p: string, salt: string :: h.verify(p, h.hash(p, salt)) && |h.hash(p, salt)| == HashLength
  }

  /** The response body of a successful registration. */
  datatype UserOut = UserOut(name: string, email: string)

  /** A rejected request: a validation failure (status 422) listing the
      violated constraints, or an HTTP error raised by a handler. */
  datatype ApiError =
    | ValidationFailed(violations: seq<Violation>)
    | HttpException(status: nat, detail: string)

  const EmailAlreadyRegistered: ApiError := HttpException(400, "Email already registered")
  const IncorrectCredentials: ApiError := HttpException(401, "Incorrect email or password")
  const LoggedIn: string := "Logged in successfully"

  /** Every account is stored under its own email address. */
  ghost predicate KeyedByEmail(users: map<string, User>)
  {
    forall k :: k in users ==> users[k].email == k
  }

  /** A stored hash can never pass as a password: it is longer than the
      longest password the validator accepts. */
  lemma HashIsNeverAPassword(h: Hasher, p: string, salt: string)
    requires Sound(h)
    ensures CheckPassword(h.hash(p, salt)) == Some(TooLong(Password, 20))
    ensures CheckPassword(p).None? ==> h.hash(p, salt) != p
  {
    assert |h.hash(p, salt)| == HashLength;
  }

  /** The store invariant over the accounts and the passwords they were
      registered with. */
  ghost predicate Consistent(h: Hasher, users: map<string, User>, registeredWith: map<string, string>)
  {
    && Sound(h)
    && KeyedByEmail(users)
    && registeredWith.Keys == users.Keys
    && (forall k :: k in users ==>
          && CheckPassword(registeredWith[k]).None?
          && h.verify(registeredWith[k], users[k].password)
          && |users[k].password| == HashLength)
  }

  /** Adding a new account whose password is replaced by its hash keeps the
      store invariant. */
  lemma InsertKeepsConsistent(h: Hasher, users: map<string, User>, registeredWith: map<string, string>, u: User, salt: string)
    requires Consistent(h, users, registeredWith)
    requires u.email !in users && CheckPassword(u.password).None?
    ensures Consistent(h, users[u.email := u.(password := h.hash(u.password, salt))], registeredWith[u.email := u.password])
  {
  }

  class UserStore {
    /** The accounts, keyed by email. */
    var users: map<string, User>
    /** The plaintext password each account was registered with. */
    ghost var registeredWith: map<string, string>
    const hasher: Hasher
    const validateEmail: EmailValidator

    ghost predicate Valid()
      reads this
    {
      Consistent(hasher, users, registeredWith)
    }

    /** The store starts empty. */
    constructor (hasher: Hasher, validateEmail: EmailValidator)
      requires Sound(hasher)
      ensures Valid()
      ensures users == map[] && registeredWith == map[]
      ensures this.hasher == hasher && this.validateEmail == validateEmail
    {
      this.hasher := hasher;
      this.validateEmail := validateEmail;
      users := map[];
      registeredWith := map[];
    }

    /** No stored password is the plaintext it was registered with, nor any
        password the validator accepts. */
    lemma StoredPasswordsAreHashes(k: string)
      requires Valid() && k in users
      ensures users[k].password != registeredWith[k]
      ensures CheckPassword(users[k].password).Some?
    {
    }

    /** Whether some stored account has the address `email`, found by
        scanning the stored accounts. */
    method EmailTaken(email: string) returns (taken: bool)
      ensures taken <==> exists u :: u in users.Values && u.email == email
      ensures KeyedByEmail(users) ==> (taken <==> email in users)
    {
      var rest := users.Values;
      while rest != {}
        invariant rest <= users.Values
        invariant forall u :: u in users.Values - rest ==> u.email != email
        decreases rest
      {
        var u :| u in rest;
        if u.email == email {
          return true;
        }
        rest := rest - {u};
      }
      taken := false;
    }

    /** `POST /register`: validate the request, refuse an address that is
        already registered, otherwise store the account with its password
        replaced by `hash(password, salt)`. */
    method Register(name: string, email: string, password: string, salt: string) returns (r: Result<UserOut, ApiError>)
      requires Valid()
      modifies this
      ensures Valid()
      ensures ParseUser(name, email, password, validateEmail).Failure? ==>
        && r == Failure(ValidationFailed(ParseUser(name, email, password, validateEmail).error))
        && users == old(users) && registeredWith == old(registeredWith)
      ensures ParseUser(name, email, password, validateEmail).Success? ==>
        var key := validateEmail(email).value;
        if key in old(users) then
          && r == Failure(EmailAlreadyRegistered)
          && users == old(users) && registeredWith == old(registeredWith)
        else
          && r == Success(UserOut(name, key))
          && users == old(users)[key := User(name, key, hasher.hash(password, salt))]
          && registeredWith == old(registeredWith)[key := password]
      ensures r.Success? ==>
        && users.Keys == old(users).Keys + {r.value.email}
        && r.value.email !in old(users)
        && |users| == |old(users)| + 1
        && users[r.value.email].password != password
    {
      var parsed := ParseUser(name, email, password, validateEmail);
      if parsed.Failure? {
        return Failure(ValidationFailed(parsed.error));
      }
      var user := parsed.value;
      assert user == User(name, validateEmail(email).value, password);
      assert CheckPassword(password).None?;
      var taken := EmailTaken(user.email);
      if taken {
        return Failure(EmailAlreadyRegistered);
      }
      var hashed := hasher.hash(user.password, salt);
      HashIsNeverAPassword(hasher, password, salt);
      InsertKeepsConsistent(hasher, users, registeredWith, user, salt);
      user := user.(password := hashed);
      users := users[user.email := user];
      registeredWith := registeredWith[user.email := password];
      r := Success(UserOut(user.name, user.email));
    }

    /** `POST /login`: validate the request, then succeed iff the address is
        registered and the password verifies against its stored hash; an
        unknown address and a wrong password give the same error. */
    method Login(email: string, password: string) returns (r: Result<string, ApiError>)
      ensures ParseLogin(email, password, validateEmail).Failure? ==>
        r == Failure(ValidationFailed(ParseLogin(email, password, validateEmail).error))
      ensures ParseLogin(email, password, validateEmail).Success? ==>
        var key := validateEmail(email).value;
        && (r.Success? <==> key in users && hasher.verify(password, users[key].password))
        && (r.Success? ==> r.value == LoggedIn)
        && (r.Failure? ==> r.error == IncorrectCredentials)
      ensures (&& Valid() && validateEmail(email).Some? && validateEmail(email).value in registeredWith
               && registeredWith[validateEmail(email).value] == password) ==> r == Success(LoggedIn)
    {
      var parsed := ParseLogin(email, password, validateEmail);
      if parsed.Failure? {
        return Failure(ValidationFailed(parsed.error));
      }
      var data := parsed.value;
      if data.email in users && hasher.verify(data.password, users[data.email].password) {
        return Success(LoggedIn);
      }
      r := Failure(IncorrectCredentials);
    }
  }

  /** A fresh store: registering an account and then logging in with the same
      address and password succeeds, and registering the address again is
      refused. */
  method RegisterThenLogin(hasher: Hasher, validateEmail: EmailValidator, name: string, email: string, password: string, salt: string, salt': string)
    returns (registered: Result<UserOut, ApiError>, loggedIn: Result<string, ApiError>, again: Result<UserOut, ApiError>)
    requires Sound(hasher)
    requires ParseUser(name, email, password, validateEmail).Success?
    ensures registered == Success(UserOut(name, validateEmail(email).value))
    ensures loggedIn == Success(LoggedIn)
    ensures again == Failure(EmailAlreadyRegistered)
  {
    var store := new UserStore(hasher, validateEmail);
    registered := store.Register(name, email, password, salt);
    loggedIn := store.Login(email, password);
    again := store.Register(name, email, password, salt');
  }
}
