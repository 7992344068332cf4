# PHP-SQL: encryption envelope and database helpers, modelled in Dafny

This project models two small PHP classes and proves properties of them.

- `Encryption` (encryption.php) builds and opens an encrypt-then-MAC envelope.
  - It encrypts with AES-256-CTR under `keyA` and a 16-byte random nonce.
  - It derives the MAC key `keyB` as the hex RIPEMD-128 digest of the hashed password.
  - It computes HMAC-SHA-512 over nonce ‖ ciphertext.
  - It returns base64(mac ‖ nonce ‖ ciphertext).
  - `Decrypt` slices the decoded bytes at offsets 0, 64 and 80, recomputes the MAC and decrypts only when `hash_equals` accepts it; otherwise it returns null.
- `DataBase` (sql.php) is a thin mysqli wrapper. Its own logic is modelled:
  - the table-name whitelist `IsSafe`;
  - the guard order of `QueryPrepare` and its single-pass replacement of `TABLE` by the back-quoted table name;
  - the take-and-clear accessor `GetError`;
  - the `$_SERVER` priority lookup `GetClientIP`.

Files:

- `php.dfy`, module `Php`: the PHP built-ins the two classes rely on.
  These are null as `Option`, exceptions as `Result`, byte strings, `mb_substr(..., '8bit')` as `Substr`, `hash_equals`, `str_replace`, `empty()` and `gettype()`.
- `encryption.dfy`, module `Crypto`: the `Encryption` class.
- `sql.dfy`, module `Sql`: the `DataBase` class.

The crypto primitives are not part of this model.
They are openssl's AES-256-CTR, `hash_hmac('sha512')`, `hash('sha512')`, `hash('ripemd128')` and base64.
They are passed in as a `Primitives` record of functions.
Each lemma that depends on them requires `Lawful(p)`, which says:

- CTR encryption with a 16-byte IV preserves length and is undone by decryption under the same key and IV (NIST SP 800-38A);
- HMAC-SHA-512 output is 64 bytes;
- the hex SHA-512 digest is 128 characters and the hex RIPEMD-128 digest is 32;
- base64 decoding inverts encoding (section 4 of RFC 4648).

`Crypto.LawfulPrimitivesExist` shows that these assumptions are consistent.
The random nonce is a parameter of `Encrypt`. Its requirement of exactly 16 bytes is what `random_bytes(16)` guarantees.
The PHP object's only state, `keyA`, is assigned once by the constructor. It is the datatype `Crypto.Encryption`, which every operation takes.

`DataBase` is a Dafny class. Its fields are `conn` (`$conn`) and `errorQuery` (`$error_query`).
`GetError` and `RecordFailedExecution` modify `errorQuery`.
`QueryPrepare` and `GetClientIP` only read the object. `$_SERVER` is passed to `GetClientIP` as a map.

`Decrypt` has no length check beyond the MAC comparison, and no error of its own for a malformed envelope:

- A message that decodes to fewer than 64 bytes is always rejected, by `Crypto.Decrypt`'s contract.
- A 64–79 byte message whose first 64 bytes are the MAC of the rest is decrypted; `Crypto.AcceptsTruncatedNonce` states this.
- On a MAC mismatch `Decrypt` returns null. The `throw` at encryption.php:61 follows that `return` and never runs, so the model has no exception path there.

## Model

| member | source | states |
|---|---|---|
| `Php.Substr` | encryption.php:53-55 | `mb_substr` in '8bit' mode returns exactly the bytes of `s` from `start` on, and the length is cut at the end of the string. A start past the end gives the empty string. |
| `Php.HashEquals` | encryption.php:59 | `hash_equals` is true exactly when the two byte strings are equal, so strings of different lengths never match. |
| `Php.StrReplace` | sql.php:119 | `str_replace` with one search string: a single left-to-right pass that replaces each non-overlapping occurrence and leaves the subject alone when the search string is empty. Its properties are the four lemmas below. |
| `Php.StrReplaceKeepsLength` | sql.php:119 | A replacement as long as the search string keeps the subject's length. |
| `Php.StrReplaceWithoutOccurrence` | sql.php:119 | `str_replace` leaves a subject with no occurrence of the search string unchanged. |
| `Php.StrReplaceAtFirstOccurrence` | sql.php:119 | The leftmost occurrence is replaced and the text before it is kept. Scanning resumes after that occurrence in the original subject, so occurrences are non-overlapping and processed left to right. |
| `Php.StrReplaceIsSinglePass` | sql.php:119 | The inserted replacement is never scanned again, even when it contains the search string. |
| `Crypto.HashPassword` | encryption.php:17-22 | The result is empty exactly when the password is empty. Otherwise it is the 128-character SHA-512 hex digest. |
| `Crypto.ComputeMac` | encryption.php:40-41 | Encrypt and Decrypt share this one derivation, `keyB` = ripemd128 hex of the hashed password with HMAC-SHA-512 over nonce ‖ ciphertext, and its output is 64 bytes. |
| `Crypto.MacKey` | encryption.php:57 | `keyB`, the hex RIPEMD-128 digest of the hashed password, is 32 characters long. Decrypt derives it exactly as Encrypt does at encryption.php:40. |
| `Crypto.Frame` | encryption.php:42 | The framed bytes mac ‖ nonce ‖ ciphertext are as long as the three fields together. |
| `Crypto.Split` | encryption.php:52-55 | The slices at 0, 64 and 80 have lengths min(n, 64), 16 when n ≥ 80, and n − 80 (or 0). An input of at most 64 bytes has an empty nonce and an empty ciphertext. |
| `Crypto.SplitFrame` | encryption.php:42-55 | Splitting framed bytes recovers exactly the mac, nonce and ciphertext that were concatenated. |
| `Crypto.FrameSplit` | encryption.php:52-55 | Any decoded message, of whatever length, is exactly the concatenation of its three slices. |
| `Crypto.Encrypt` | encryption.php:30-43 | The envelope decodes to 80 + \|plaintext\| bytes. |
| `Crypto.EnvelopeLayout` | encryption.php:30-43 | The decoded envelope is HMAC(keyB, nonce ‖ ct) ‖ nonce ‖ ct. The ciphertext has the plaintext's length. |
| `Crypto.DecryptSeesEncryptedFields` | encryption.php:40-58 | On an envelope from Encrypt, Decrypt slices out the same nonce and ciphertext, and the MAC it recomputes is the stored MAC. |
| `Crypto.DecryptEncrypt` | encryption.php:30-70 | Round trip: `Decrypt(Encrypt(p, h), h) == p` for every plaintext, the empty one included. |
| `Crypto.Decrypt` | encryption.php:51-60 | A message that decodes to fewer than 64 bytes is always rejected with null. |
| `Crypto.RejectsWrongMac` | encryption.php:57-62 | If the received MAC differs from the recomputed one, the result is null. It stays null whatever the decryption primitive does, so decryption is never consulted before the MAC check passes. |
| `Crypto.AcceptsMatchingMac` | encryption.php:59-69 | If the MAC matches, the result is the AES-256-CTR decryption of the sliced ciphertext under `keyA` and the sliced nonce. |
| `Crypto.AcceptsTruncatedNonce` | encryption.php:52-69 | There is no length check beyond the MAC comparison. A 64–79 byte message carrying a valid MAC over a short nonce is decrypted. |
| `Php.Lookup` | sql.php:187-188 | `$_SERVER[$key]` is set exactly when the key is present, and then it is the map's entry. |
| `Php.Empty` | sql.php:187 | `empty()` on a string entry: any string of two or more characters is not empty. A one-character string is empty exactly when it is `"0"`. |
| `Php.TypeName` | sql.php:114 | `gettype()` returns `"array"` exactly for arrays. |
| `Sql.QueryError.Message` | sql.php:108-116 | Each of the three exceptions carries its own text, so the texts tell them apart. |
| `Sql.QuoteIdentifier` | sql.php:119 | The quoted identifier is the table name between one opening and one closing backtick, two characters longer than the name. |
| `Sql.FirstNonWordChar` | sql.php:93 | The regex `[^a-zA-Z0-9_]` matches at the first character outside the class. When there is no match, every character is in the class. |
| `Sql.IsSafe` | sql.php:92-94 | True exactly when every character is in `[a-zA-Z0-9_]`, so the empty string is safe. |
| `Sql.QuotedSafeIdentifier` | sql.php:111-119 | For a safe table name, the only backticks in the quoted identifier are its two delimiters. |
| `Sql.MyTableIsNotRescanned` | sql.php:119 | The quoted name of table `MYTABLE` contains `TABLE`. Substituting it into `TABLE` yields it once, not rescanned. |
| `Sql.DataBase.constructor` | sql.php:44-55 | A new object holds the connection it opened, or null when none was opened, and no stored error. |
| `Sql.DataBase.GetError` | sql.php:69-77 | Returns null and changes nothing when there is no connection or no stored error. Otherwise it returns the stored statement and clears it. |
| `Sql.DataBase.GetErrorTwice` | sql.php:69-77 | A second GetError right after the first always returns null. With a connection, both calls together leave no stored statement; without one, the stored statement is kept. |
| `Sql.DataBase.RecordFailedExecution` | sql.php:135-137 | When `execute()` throws, the statement is stored for GetError. |
| `Sql.DataBase.QueryPrepare` | sql.php:107-120 | The guards are checked in order: no connection, then an unsafe non-null table, then a non-array `$variables`. A null table leaves the command unchanged. A safe table replaces every `TABLE` by the back-quoted name. |
| `Sql.DataBase.GetClientIP` | sql.php:177-192 | Returns the entry of the first key, in the order REMOTE_ADDR, HTTP_FORWARDED, HTTP_CLIENT_IP, HTTP_FORWARDED_FOR, HTTP_X_FORWARDED_FOR, HTTP_X_FORWARDED, that is not `empty()`: unset, `""` and `"0"` count as empty. Returns false (None) exactly when every entry is empty. |

## Left out

- The internals of AES-256-CTR, HMAC-SHA-512, SHA-512, RIPEMD-128 and base64 are foreign calls. Only the facts in `Lawful` are used.
- `random_bytes`: the randomness and uniqueness of nonces cannot be expressed, so the nonce is a parameter.
- The constant running time of `hash_equals` is not modelled. It is plain equality here.
- Tamper detection for arbitrary bit flips rests on HMAC unforgeability, which cannot be stated about an abstract function. The model proves only that a MAC mismatch is rejected.
- `base64_decode`'s leniency on malformed input is left to the abstract decoder.
- A `false` return from `openssl_encrypt`/`openssl_decrypt` is not modelled, and neither is openssl's padding or truncation of `keyA`. Both are library behaviour; with the AES-256-CTR parameters used here the cipher primitives are total.
- `Crypto.HashPassword`: that the result is deterministic holds only because it is a function. Hex-digit content is not stated, only the length.
- The `DataBase` constructor's reading and parsing of settings.json, the mysqli connection setup and its failure, and `__destruct`: these are file and network I/O. The constructor takes the opened connection, or null, as a parameter.
- `QueryPrepare` after line 120 (prepare, bind, execute, fetch) and `GetLastInsertID`/`GetTables` are mysqli driver calls. Only the store of the failed statement (lines 135-137) is kept, as `RecordFailedExecution`.
- PHP strings are bytes. Table names and commands are Dafny strings. The whitelist and the `TABLE` pattern are ASCII, so matching by characters or by UTF-8 bytes gives the same result.
- `$_SERVER` values are modelled as strings. Non-string entries are not considered.
- Concurrency: neither class has any.
