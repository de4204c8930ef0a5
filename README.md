# Login credential validation of the GoAway backend, in Dafny

This project models `Credentials.Validate` from the GoAway DNS-filter
backend (`backend/api/user/user.go`), the validation method of the
username/password pair `Credentials`. `Validate` does four things:

1. It trims white space from both ends of both fields. The trimmed values are
   written back into the credentials, whether or not the check then fails.
2. It rejects an empty username or password with
   "username and password cannot be empty".
3. It rejects a username longer than 60 bytes with "username too long". If
   the username passes, it rejects a password longer than 120 bytes with
   "password too long".
4. It rejects a username holding a rune below 32 or equal to 127 with
   "username contains invalid characters". The password is never scanned.

Files:

- `go_strings.dfy` (module `GoStrings`) models the parts of Go's standard
  library that `Validate` relies on. `IsSpace` is `unicode.IsSpace`.
  `TrimSpace` is `strings.TrimSpace`, built from `TrimLeft` and `TrimRight`.
  `Utf8Len` is the built-in `len` on a string, which counts UTF-8 bytes and not
  runes. `Utf8Encode` spells out those bytes, so that `Utf8Len` can be checked
  against them. `Utf8Decode` reads the runes back from the bytes, as a Go
  `for … range` loop over a string does.
- `user.dfy` (module `User`) holds the `Credentials` class, whose two string
  fields are overwritten in place. `Validate` is a method with `modifies this`,
  and its scan over the username is a loop. The pure function
  `ValidationOutcome` gives what `Validate` returns for given field values.
  Lemmas state what that outcome means.

A Go string holding valid UTF-8 is a sequence of runes, and each rune is a
Unicode scalar value. A Dafny `char` is exactly that, so each field is a
`string` (`seq<char>`). The errors are the datatype `ValidationError`, and
`Message` gives each one's text. Go's nil error is `Outcome.Pass`. Go's
`errors.New` makes a new error value on every call, so two Go errors from two
calls are never `==`. Here two failures are equal when they are the same kind of
error, and so carry the same text.

## Model

| member | source | states |
|---|---|---|
| `GoStrings.IsSpace` | backend/api/user/user.go:109-110 | The white space `strings.TrimSpace` removes is `unicode.IsSpace`. On ASCII it is exactly the fast path's table of '\t', '\n', '\v', '\f', '\r' and ' ', so both paths trim the same runes. No white-space rune lies above U+3000. |
| `GoStrings.TrimLeft` | backend/api/user/user.go:109-110 | The left trim is no longer than its input and is empty or starts with a rune that is not white space. |
| `GoStrings.TrimRight` | backend/api/user/user.go:109-110 | The right trim is no longer than its input and is empty or ends with a rune that is not white space. |
| `GoStrings.TrimLeftSplits` | backend/api/user/user.go:109-110 | The input is some white space followed by its left trim, so only leading white space is dropped. |
| `GoStrings.TrimRightSplits` | backend/api/user/user.go:109-110 | The input is its right trim followed by some white space, so only trailing white space is dropped. |
| `GoStrings.TrimSpace` | backend/api/user/user.go:109-110 | The stored field neither starts nor ends with white space, and it is no longer than before. |
| `GoStrings.TrimSpacePadded` | backend/api/user/user.go:109-110 | The original field is the trimmed field with only white space before and after it, so nothing inside is changed. |
| `GoStrings.TrimLeftSkipsSpace` | backend/api/user/user.go:109-110 | Extra leading white space never changes the left trim. |
| `GoStrings.TrimRightSkipsSpace` | backend/api/user/user.go:109-110 | Extra trailing white space never changes the right trim. |
| `GoStrings.TrimSpaceUnique` | backend/api/user/user.go:109-110 | The trim is unique: if the field is a trimmed string with white space around it, the trim is that string. |
| `GoStrings.TrimSpaceIgnoresPadding` | backend/api/user/user.go:109-110 | Adding white space around a field does not change its trim. |
| `GoStrings.TrimSpaceOfTrimmed` | backend/api/user/user.go:109-110 | A field that is already trimmed is stored unchanged. |
| `GoStrings.TrimSpaceIdempotent` | backend/api/user/user.go:109-110 | Trimming twice gives the same value as trimming once. |
| `GoStrings.RuneLen` | backend/api/user/user.go:116-121 | The bytes a rune adds to `len` are the length of its UTF-8 encoding, and a rune takes one byte exactly when it is ASCII. |
| `GoStrings.Utf8Len` | backend/api/user/user.go:116-121 | The byte length used by both limits is at least the rune count and at most four times it. |
| `GoStrings.EncodeRune` | backend/api/user/user.go:116-121 | Each rune takes one to four bytes, and its first byte announces how many. The other bytes are continuation bytes in 0x80-0xBF. An ASCII rune is the single byte equal to itself, and only an ASCII rune starts with a byte below 0x80. |
| `GoStrings.DecodeRune` | backend/api/user/user.go:123 | Reading one rune from a non-empty byte string consumes at least one byte and no more than are there. An ASCII byte is its own rune. Any other byte that does not start a valid sequence yields U+FFFD and consumes one byte, as Go's decoder does. A valid multi-byte rune is not ASCII and consumes exactly the bytes its first byte announces. |
| `GoStrings.Utf8Decode` | backend/api/user/user.go:123 | A byte string decodes to no more runes than it has bytes. |
| `GoStrings.DecodeEncodedRune` | backend/api/user/user.go:116-123 | Decoding the encoding of any rune gives that rune back and consumes exactly its bytes, whatever bytes follow. |
| `GoStrings.EncodeDecodedRune` | backend/api/user/user.go:123 | A rune decoded from more than one byte was in its one canonical form: encoding it again gives exactly the bytes it consumed. So no overlong form is accepted. |
| `GoStrings.Utf8RoundTrip` | backend/api/user/user.go:116-123 | Decoding the UTF-8 bytes of any string gives the string back. So the bytes `len` counts are exactly the string's runes, and the range loop visits each rune once. |
| `GoStrings.Utf8LenCountsBytes` | backend/api/user/user.go:116-121 | `Utf8Len` is exactly the number of bytes in the UTF-8 encoding, which is what Go's `len` returns for a string. |
| `GoStrings.Utf8LenAppend` | backend/api/user/user.go:116-121 | The byte length of two strings joined is the sum of their byte lengths. |
| `GoStrings.Utf8LenIsRuneCountIffAscii` | backend/api/user/user.go:116-121 | The byte length equals the rune count if and only if every rune is ASCII. |
| `GoStrings.Utf8LenOfTwoByteRunes` | backend/api/user/user.go:116-121 | Runes from U+0080 to U+07FF take two bytes each. |
| `User.Credentials.constructor` | backend/api/user/user.go:14-17 | The credentials hold exactly the given username and password. |
| `User.Credentials.Validate` | backend/api/user/user.go:108-130 | Both fields hold their trimmed values afterwards, on every return path. The outcome is the one the four checks give, in the source's order. The control-rune scan is a loop whose invariant is that no rune scanned so far is a control rune. |
| `User.Message` | backend/api/user/user.go:113-125 | Each error carries a non-empty text, the one the source gives with `errors.New`. |
| `User.MessageIdentifiesError` | backend/api/user/user.go:113-125 | Two errors have the same text if and only if they are the same error, so the text tells which check failed. |
| `User.IsControl` | backend/api/user/user.go:124 | The runes the scan refuses are all ASCII. Among white-space runes, it refuses exactly '\t', '\n', '\v', '\f' and '\r'. |
| `User.HasControlRune` | backend/api/user/user.go:123-127 | The scan from the first rune to the last meets a refused rune if and only if some rune of the username is below 32 or equal to 127. |
| `User.ValidationOutcome` | backend/api/user/user.go:108-130 | `Validate` returns nil if and only if the trimmed username is non-empty, at most 60 bytes and free of control runes, and the trimmed password is non-empty and at most 120 bytes. |
| `User.EmptyIff` | backend/api/user/user.go:112-114 | The "cannot be empty" error is returned if and only if either trimmed field is empty, whatever else is wrong, so this check comes first. |
| `User.UsernameTooLongIff` | backend/api/user/user.go:116-118 | "username too long" is returned if and only if both fields are non-empty and the trimmed username is over 60 bytes. The password's length does not matter then. |
| `User.PasswordTooLongIff` | backend/api/user/user.go:116-121 | "password too long" is returned if and only if both fields are non-empty, the username is at most 60 bytes and the trimmed password is over 120 bytes. |
| `User.InvalidCharactersIff` | backend/api/user/user.go:123-127 | "username contains invalid characters" is returned if and only if both length checks pass and the trimmed username holds a rune below 32 or equal to 127. |
| `User.LimitsAreInclusive` | backend/api/user/user.go:116-121 | Both limits use a strict comparison, so a trimmed, control-free 60-byte username with a trimmed 120-byte password is accepted. |
| `User.TwoByteUsernameTooLong` | backend/api/user/user.go:116-118 | The username limit counts bytes: a trimmed username of more than 30 two-byte runes is rejected as too long when the trimmed password is non-empty. |
| `User.PasswordControlRunesAccepted` | backend/api/user/user.go:119-129 | The password is never scanned: control runes inside an otherwise valid password do not cause an error. |
| `User.SurroundingSpaceIgnored` | backend/api/user/user.go:109-127 | White space added around the username never changes the outcome, because trimming comes before every check. A leading or trailing tab is therefore not an invalid character. |
| `User.ValidateIdempotent` | backend/api/user/user.go:108-130 | Validating the trimmed fields again leaves them unchanged and gives the same outcome, nil included. |
| `User.ValidateTwice` | backend/api/user/user.go:108-130 | A caller that runs `Validate` twice on the same credentials gets the same outcome both times (the same kind of error, with the same text), and the second call leaves the fields as the first call left them. |

## Left out

- Only well-formed UTF-8 strings are modelled. Go strings may hold any bytes, and ranging over invalid UTF-8 yields U+FFFD for each bad byte. That case is not represented, because a `char` is always a Unicode scalar value.
- `GoStrings.TrimSpace` models the effect of Go's `strings.TrimSpace` on well-formed strings, not its ASCII fast path. On such strings both give the same result.
- The fields of `Credentials` carry `binding:"required"` tags (backend/api/user/user.go:15-16). Their enforcement is not modelled.
- `Create`, `Exists`, `Authenticate` and `UpdatePassword` (backend/api/user/user.go:19-106) only run SQL statements in transactions and pass errors on. Database I/O is outside this model.
- `hashPassword` and the bcrypt comparison (backend/api/user/user.go:45-48, 76) call a cryptographic library whose behaviour is not visible here.
- The error log calls are output only and are not modelled.
- The model covers `Credentials.Validate` in backend/api/user/user.go. The dashboard client is React rendering and HTTP calls. The DNS decision engine (wildcard matching, blacklist and resolution stores, query-type statistics) lives in other packages of the backend. Neither is modelled.
