# askme: the `User` credential and validation model

This project models the logic of askme's `User` record (`app/models/user.rb`)
in Dafny and proves properties of it:

- **`hash_to_string`**: the lowercase Base16 encoding that Ruby's
  `unpack1('H*')` produces (section 8 of RFC 4648, with lowercase digits).
  A strict decoder is defined beside it so the round trip can be stated.
- **`encrypt_password`**: the `before_save` hook. If the virtual `password`
  attribute is present, it writes `password_salt` and then `password_hash`.
  The salt is the hex of 16 random bytes. The hash is the hex of
  PBKDF2-HMAC-SHA256 over the password and the *hex salt string*, with
  20000 iterations and a 32-byte output. If no password is present, it
  changes nothing.
- **`User.authenticate`**: exact-email lookup, then recomputing the hash
  from the stored salt, then a plain string comparison with the stored hash.
- **The validations**: Rails `presence` (`blank?`), `length: { maximum: 40 }`,
  the username format `\A\w+\z`, the unanchored email format `/.+@.+\..+/i`,
  password presence on create, and password confirmation.

Files:

- `wrappers.dfy`: `Option`, which stands for Ruby `nil`.
- `hex.dfy` (module `Hex`): `Encode`, `Decode` and their lemmas.
- `validators.dfy` (module `Validators`): `blank?`, `\w`, and the two regexes
  as predicates on `seq<char>`, with lemmas about them.
- `user.dfy` (module `UserModel`): the constants, the KDF type, the stored
  `Account` row, `NewCredential`, `Authenticate`, `ValidationErrors`, the
  `User` class with `EncryptPassword`, and the round-trip lemmas.

Foreign calls become parameters:

- PBKDF2-HMAC-SHA256 (`OpenSSL::PKCS5.pbkdf2_hmac`) becomes the parameter
  `kdf`. Its type `Kdf` admits any function whose result has the requested
  length. It is deterministic because Dafny functions are.
- `OpenSSL::Random.random_bytes(16)` becomes the parameter `random`, which
  must hold 16 bytes.
- The user table (`find_by`) becomes a `map` from email to `Account`.

The model follows the code in three places where one might expect
otherwise:

- Authenticating a found user with a `nil` password raises `TypeError` in
  `pbkdf2_hmac`; it does not answer "no match". The model returns
  `AuthResult.TypeError`. So does a found user whose stored salt is `nil`.
- Lookup is by exact email. No case normalisation is applied.
- The hash comparison is plain `==`, not a constant-time comparison.

## Model

| member | source | states |
|---|---|---|
| `Hex.Encode` | app/models/user.rb:29-31 | The output is twice as long as the input and uses only `0-9a-f`. Byte `i` becomes characters `2i` (high nibble) and `2i+1` (low nibble). The empty input gives `""`. |
| `Hex.DecodeEncode` | app/models/user.rb:29-31 | Decoding `hash_to_string(b)` gives back `b`, for every byte string `b`. |
| `Hex.EncodeDecode` | app/models/user.rb:29-31 | Every string the decoder accepts is the encoding of what it decodes to. So the encoding is onto the even-length lowercase hex strings. |
| `Hex.DecodeDefined` | app/models/user.rb:29-31 | A string decodes exactly when it has even length and only lowercase hex digits. This is the format of the stored salt and hash columns. |
| `Hex.EncodeInjective` | app/models/user.rb:29-31 | Distinct byte strings have distinct hex strings. |
| `Validators.IsBlankAllSpace` | app/models/user.rb:50 | Rails `blank?` (whose negation `present?` is used at line 50 and by the presence validations at lines 14, 20 and 24). It is defined the way `/\A[[:space:]]*\z/` reads, and proved to hold exactly when every character is Unicode white space (`[[:space:]]`). So the empty string is blank. |
| `Validators.IsPresent` | app/models/user.rb:50 | `present?` on a string: true exactly when some character is not Unicode white space. This uses `IsBlankAllSpace`. |
| `Validators.UsernameFormat` | app/models/user.rb:4 | `\A\w+\z`, defined the way the regex reads (one word character, then the end or `\w+` again). It holds exactly when the string is non-empty and every character is in `[A-Za-z0-9_]`. |
| `Validators.EmailFormatIsRegex` | app/models/user.rb:5 | `EmailFormat` holds exactly when some newline-free run `s[i..j]` is a non-empty prefix, `@`, a non-empty middle, `.`, and a non-empty suffix. This is the language of the unanchored `/.+@.+\..+/i`. |
| `Validators.UsernameFormatIsPresent` | app/models/user.rb:4 | A username matching `\A\w+\z` is never blank. So its presence check adds nothing. |
| `Validators.EmailFormatIsPresent` | app/models/user.rb:5 | An email matching the format is never blank. |
| `Validators.EmailFormatUnanchored` | app/models/user.rb:5 | The regex is unanchored: text added before or after a matching string keeps it matching. |
| `Validators.EmailFormatByLine` | app/models/user.rb:5 | `.` never matches a newline. So `a + "\n" + b` matches exactly when `a` matches or `b` matches. |
| `UserModel.ValidationErrors` | app/models/user.rb:13-25 | The record has no validation error (uniqueness aside) exactly when all of these hold: the username has 1 to 40 characters, each in `[A-Za-z0-9_]`; the email matches the format; on create, the password is present; and the confirmation is `nil` or equal to the password. |
| `UserModel.PasswordPresent` | app/models/user.rb:50 | `password.present?` on the virtual attribute: true exactly when the password is not `nil` and has a character that is not white space. |
| `UserModel.NewCredential` | app/models/user.rb:49-57 | The salt is 32 lowercase hex characters that decode to the 16 random bytes. The hash is 64 lowercase hex characters that decode to the KDF output over the password and the hex salt string, with 20000 iterations and a 32-byte length (lines 6-7). |
| `UserModel.User.constructor` | app/models/user.rb:3-9 | `User.new` with the given username, email, password and confirmation. The salt and hash columns start as `nil`. |
| `UserModel.User.EncryptPassword` | app/models/user.rb:49-59 | If a password is present, the salt and hash become those of `NewCredential`. Otherwise both keep their old values. The username, email, password and confirmation never change. If the salt and hash were both set or both `nil` before, the same holds after. |
| `UserModel.Authenticate` | app/models/user.rb:33-45 | It returns `nil` when no row has exactly that email. It raises `TypeError` exactly when a row is found but the password or the stored salt is `nil`. If it returns a user, that user is the row found. For a found row with a salt and a non-nil password, it returns the user if and only if the stored hash equals the hex of the KDF over the password and the stored salt, with 20000 iterations and 32 bytes (lines 6-7). |
| `UserModel.AuthenticateAfterEstablish` | app/models/user.rb:37-57 | Suppose a row's salt and hash were set from password `P` and the row is stored under email `E`. Then authenticating with `(E, P)` returns that row, whatever else the table holds. |
| `UserModel.AuthenticateOnlyOnCollision` | app/models/user.rb:37-42 | A row set up with password `P` accepts a guess `G` only if the KDF gives the same bytes for `G` and `P` under the stored salt. |
| `UserModel.SignUpThenLogIn` | app/models/user.rb:13-59 | Build a `User` and save it, then log in with the same email and password. The save succeeds exactly when `ValidationErrors` is empty in the create context and no stored row has the same username or email (the `uniqueness: true` checks at lines 15 and 21). If it succeeds, the `before_save` hook (line 27) runs. The row is then added under its email: the given username and email, with the salt and hash of `NewCredential`. Login returns that row. If the save fails, the table is unchanged and login runs against it. Every table key is its row's email, before and after. |

## Left out

- PBKDF2-HMAC-SHA256 and SHA-256 themselves (`OpenSSL::PKCS5.pbkdf2_hmac`, `OpenSSL::Digest`): foreign library code. The model keeps only the output length and determinism.
- The quality of `OpenSSL::Random.random_bytes`: the model takes any 16 bytes. It claims nothing about salts being unique or unpredictable. So it does not show that two users with the same password get different hashes.
- The persistence layer: `find_by`, `has_many :questions`, and when Rails runs the `before_save` callback. These need the database. The table is a map keyed by email, and the hook is called explicitly. The `uniqueness: true` checks are modelled in `SignUpThenLogIn` only, as exact comparisons against the stored rows. The database's collation (case sensitivity) and concurrent saves racing past the check are not modelled.
- Arguments that are not strings: a `nil` or non-string email passed to `authenticate`; `nil` or non-string `username`/`email` attributes; and a non-string `password`, such as an array from request parameters. An array is `present?`, so `pbkdf2_hmac` raises `TypeError` on it, in `encrypt_password` (lines 50-55) and in `authenticate` (lines 38-39). The model types the password as an optional string, so this path is not modelled beyond `nil`. Rails' presence check rejects a `nil` attribute just as it rejects `""`.
- Byte-level strings: every string is a sequence of Unicode characters, taken to be valid UTF-8. So the KDF takes the password as characters, not as the bytes `pbkdf2_hmac` hashes in the string's encoding. The `ArgumentError` that Ruby's regex matching raises on a string with invalid bytes (in `blank?`/`present?` and in the two format checks) is not modelled.
- The `Encoding::CompatibilityError` fallback inside Rails' `String#blank?`. The model uses only its `/\A[[:space:]]*\z/` rule.
- The rendering of error messages: `ValidationErrors` gives the set of failed checks, not the message text.
- `config/routes.rb` (routing declarations) and the questions/hashtags migration (a schema with no behaviour).
