/**
 * The credential and validation logic of the `User` record: the KDF
 * parameters, credential establishment before save, authentication by
 * email and password, and the attribute validations.
 *
 * PBKDF2-HMAC-SHA256 is a parameter `kdf` of type `Kdf`: any deterministic
 * function that returns as many bytes as it is asked for. The secure random
 * source is a parameter `random` holding the sixteen bytes it returned. The
 * user table is a map from email to the stored record; `KeyedByEmail` says
 * that every key is its row's `email` column, so a lookup of a key is
 * `find_by(email:)`.
 */
module UserModel {
  import opened Wrappers
  import Hex
  import V = Validators

  /** `ITERATIONS`. */
  const Iterations: nat := 20000
  /** `DIGEST.length` for `OpenSSL::Digest.new('SHA256')`: the SHA-256 output size in bytes. */
  const DigestLength: nat := 32
  /** `OpenSSL::Random.random_bytes(16)`. */
  const SaltLength: nat := 16

  /**
   * `OpenSSL::PKCS5.pbkdf2_hmac(password, salt, iterations, length, DIGEST)`
   * with the digest fixed to SHA-256: its result has exactly `length` bytes.
   */
  type Kdf = f: (string, string, nat, nat) -> seq<Hex.Byte>
    | forall password, salt, n, len :: |f(password, salt, n, len)| == len
    witness (password: string, salt: string, n: nat, len: nat) => seq<Hex.Byte>(len, _ => 0)

  /** A stored user row: the columns this model touches. `nil` columns are `None`. */
  datatype Account = Account(
    username: string,
    email: string,
    passwordSalt: Option<string>,
    passwordHash: Option<string>)

  /** Every row is stored under its own email. */
  predicate KeyedByEmail(users: map<string, Account>) {
    forall e | e in users :: users[e].email == e
  }

  /**
   * The `uniqueness: true` validations on `username` and `email`: no stored
   * row has the same value in either column.
   */
  predicate Unclaimed(users: map<string, Account>, username: string, email: string) {
    forall e | e in users :: users[e].username != username && users[e].email != email
  }

  /** The pair of columns `encrypt_password` writes. */
  datatype Credential = Credential(salt: string, hash: string)

  /** Rails' `password.present?` on the virtual `password` attribute. */
  predicate PasswordPresent(password: Option<string>): (r: bool)
    ensures r <==> password.Some? && exists i :: 0 <= i < |password.value| && !V.IsSpace(password.value[i])
  {
    password.Some? && V.IsPresent(password.value)
  }

  /**
   * The credential `encrypt_password` computes from a password and the
   * sixteen random bytes: the salt is their hex, and the hash is the hex of
   * the KDF over the password and that hex salt string (not the raw bytes).
   */
  function NewCredential(password: string, random: seq<Hex.Byte>, kdf: Kdf): (c: Credential)
    requires |random| == SaltLength
    ensures |c.salt| == 2 * SaltLength && Hex.IsLowerHex(c.salt)
    ensures Hex.Decode(c.salt) == Some(random)
    ensures |c.hash| == 2 * DigestLength && Hex.IsLowerHex(c.hash)
    ensures Hex.Decode(c.hash) == Some(kdf(password, c.salt, Iterations, DigestLength))
  {
    var salt := Hex.Encode(random);
    Hex.DecodeEncode(random);
    var hash := Hex.Encode(kdf(password, salt, Iterations, DigestLength));
    Hex.DecodeEncode(kdf(password, salt, Iterations, DigestLength));
    Credential(salt, hash)
  }

  /** What `User.authenticate` returns, or the exception it raises. */
  datatype AuthResult =
    | Authenticated(account: Account)  // the found user
    | NoMatch                          // `nil`
    | TypeError                        // `pbkdf2_hmac` was handed `nil` for the password or the salt

  /**
   * `User.authenticate(email, password)`: the user stored under exactly
   * `email`, if recomputing the hash from the stored salt and `password`
   * gives the stored hash; otherwise `nil`.
   */
  function Authenticate(users: map<string, Account>, email: string, password: Option<string>, kdf: Kdf): (r: AuthResult)
    ensures email !in users ==> r == NoMatch
    ensures r == TypeError <==> email in users && (password.None? || users[email].passwordSalt.None?)
    ensures r.Authenticated? ==> email in users && r.account == users[email]
    ensures email in users && password.Some? && users[email].passwordSalt.Some? ==>
      (r.Authenticated? <==>
        users[email].passwordHash == Some(Hex.Encode(kdf(password.value, users[email].passwordSalt.value, Iterations, DigestLength))))
  {
    if email !in users then NoMatch
    else
      var user := users[email];
      if password.None? || user.passwordSalt.None? then TypeError
      else
        var hashed := Hex.Encode(kdf(password.value, user.passwordSalt.value, Iterations, DigestLength));
        if user.passwordHash == Some(hashed) then Authenticated(user) else NoMatch
  }

  /**
   * Establish, then authenticate: a record whose credential was computed
   * from `password` and stored under `email` is returned by authenticating
   * with that email and password, whatever else the table holds.
   */
  lemma AuthenticateAfterEstablish(users: map<string, Account>, email: string, account: Account,
                                   password: string, random: seq<Hex.Byte>, kdf: Kdf)
    requires |random| == SaltLength
    ensures var c := NewCredential(password, random, kdf);
            var stored := account.(passwordSalt := Some(c.salt), passwordHash := Some(c.hash));
            Authenticate(users[email := stored], email, Some(password), kdf) == Authenticated(stored)
  {
    var c := NewCredential(password, random, kdf);
    Hex.EncodeDecode(c.hash, kdf(password, c.salt, Iterations, DigestLength));
  }

  /**
   * A record established with `password` accepts another password `guess`
   * only when the KDF maps both to the same bytes under the stored salt: the
   * hex comparison loses nothing.
   */
  lemma AuthenticateOnlyOnCollision(users: map<string, Account>, email: string, account: Account,
                                    password: string, guess: string, random: seq<Hex.Byte>, kdf: Kdf)
    requires |random| == SaltLength
    requires var c := NewCredential(password, random, kdf);
             var stored := account.(passwordSalt := Some(c.salt), passwordHash := Some(c.hash));
             Authenticate(users[email := stored], email, Some(guess), kdf).Authenticated?
    ensures var salt := NewCredential(password, random, kdf).salt;
            kdf(guess, salt, Iterations, DigestLength) == kdf(password, salt, Iterations, DigestLength)
  {
    var c := NewCredential(password, random, kdf);
    var key := kdf(password, c.salt, Iterations, DigestLength);
    Hex.EncodeDecode(c.hash, key);
    Hex.EncodeInjective(kdf(guess, c.salt, Iterations, DigestLength), key);
  }

  /** One message of `user.errors`, by the validation that adds it. */
  datatype ValidationError =
    | UsernameBlank | UsernameTooLong | UsernameInvalid
    | EmailBlank | EmailInvalid
    | PasswordBlank
    | PasswordConfirmationMismatch

  /**
   * The errors the validations add, apart from the uniqueness checks, which
   * need the table. `onCreate` is the `:create` validation context.
   */
  function ValidationErrors(username: string, email: string, password: Option<string>,
                            passwordConfirmation: Option<string>, onCreate: bool): (errors: set<ValidationError>)
    ensures errors == {} <==>
      && 1 <= |username| <= V.UsernameMaxLength
      && (forall i :: 0 <= i < |username| ==> V.IsWordChar(username[i]))
      && V.EmailFormat(email)
      && (onCreate ==> PasswordPresent(password))
      && (passwordConfirmation.None? || passwordConfirmation == password)
  {
    V.UsernameFormatIsPresent(username);
    V.EmailFormatIsPresent(email);
    (if V.IsPresent(username) then {} else {UsernameBlank})
    + (if |username| <= V.UsernameMaxLength then {} else {UsernameTooLong})
    + (if V.UsernameFormat(username) then {} else {UsernameInvalid})
    + (if V.IsPresent(email) then {} else {EmailBlank})
    + (if V.EmailFormat(email) then {} else {EmailInvalid})
    + (if !onCreate || PasswordPresent(password) then {} else {PasswordBlank})
    + (if passwordConfirmation.None? || passwordConfirmation == password then {} else {PasswordConfirmationMismatch})
  }

  /** The in-memory `User` object: its attributes and the two virtual ones. */
  class User {
    var username: string
    var email: string
    var password: Option<string>
    var passwordConfirmation: Option<string>
    var passwordSalt: Option<string>
    var passwordHash: Option<string>

    /** `User.new(username:, email:, password:, password_confirmation:)`. */
    constructor (username: string, email: string, password: Option<string>, passwordConfirmation: Option<string>)
      ensures this.username == username && this.email == email
      ensures this.password == password && this.passwordConfirmation == passwordConfirmation
      ensures passwordSalt == None && passwordHash == None
    {
      this.username := username;
      this.email := email;
      this.password := password;
      this.passwordConfirmation := passwordConfirmation;
      passwordSalt := None;
      passwordHash := None;
    }

    /** `valid?` in the given context, uniqueness aside. */
    predicate IsValid(onCreate: bool)
      reads this
    {
      ValidationErrors(username, email, password, passwordConfirmation, onCreate) == {}
    }

    /** The row that saving this object writes; the plaintext password is not part of it. */
    function ToAccount(): (a: Account)
      reads this
    {
      Account(username, email, passwordSalt, passwordHash)
    }

    /**
     * `encrypt_password`, the `before_save` hook: when a password is
     * present, replace the salt with the hex of `random` and the hash with
     * the hex of the KDF over the password and that salt; otherwise change
     * nothing. No other attribute changes.
     */
    method EncryptPassword(random: seq<Hex.Byte>, kdf: Kdf)
      requires |random| == SaltLength
      modifies this
      ensures username == old(username) && email == old(email)
      ensures password == old(password) && passwordConfirmation == old(passwordConfirmation)
      ensures PasswordPresent(password) ==>
        var c := NewCredential(password.value, random, kdf);
        passwordSalt == Some(c.salt) && passwordHash == Some(c.hash)
      ensures !PasswordPresent(password) ==>
        passwordSalt == old(passwordSalt) && passwordHash == old(passwordHash)
      ensures old(passwordSalt).Some? == old(passwordHash).Some? ==> passwordSalt.Some? == passwordHash.Some?
    {
      if PasswordPresent(password) {
        passwordSalt := Some(Hex.Encode(random));
        passwordHash := Some(Hex.Encode(kdf(password.value, passwordSalt.value, Iterations, DigestLength)));
      }
    }
  }

  /**
   * Sign up, then log in: `save` runs the validations in the `:create`
   * context, uniqueness included, and stops when one fails; otherwise the
   * `before_save` hook writes the credential and the row is stored under its
   * email. Then `authenticate` is called with the same email and password.
   */
  method SignUpThenLogIn(users: map<string, Account>, username: string, email: string, password: string,
                         random: seq<Hex.Byte>, kdf: Kdf) returns (saved: bool, users': map<string, Account>, r: AuthResult)
    requires |random| == SaltLength && KeyedByEmail(users)
    ensures saved <==> ValidationErrors(username, email, Some(password), None, true) == {}
                       && Unclaimed(users, username, email)
    ensures KeyedByEmail(users')
    ensures saved ==>
      var c := NewCredential(password, random, kdf);
      var row := Account(username, email, Some(c.salt), Some(c.hash));
      email !in users && users' == users[email := row] && r == Authenticated(row)
    ensures !saved ==> users' == users && r == Authenticate(users, email, Some(password), kdf)
  {
    var user := new User(username, email, Some(password), None);
    saved := user.IsValid(true) && Unclaimed(users, username, email);
    if saved {
      user.EncryptPassword(random, kdf);
      var row := user.ToAccount();
      AuthenticateAfterEstablish(users, email, row, password, random, kdf);
      users' := users[email := row];
    } else {
      users' := users;
    }
    r := Authenticate(users', email, Some(password), kdf);
  }
}
