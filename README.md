# Login system core, modelled in Dafny

This project models the identity, session and audit logic of a small Python
login system, together with the helpers around it:

- **Credential store** (`print.py`). The `USERS` table, salted password
  hashing and verification, and the legacy plaintext-to-hash normalisation
  done by `load_user_store`.
- **Session list** (`print.py`). The append-only `SESSIONS` list, with
  `start_session` and `end_session`.
- **Audit line** (`print.py`). `log_event`: the `_sanitize` recursion, and
  one JSON object written per line.
- **Log tools** (`print.py`). `migrate_logs`, the scanner that turns mixed
  human/JSON logs into JSON lines, and `normalize_jsonlines`.
- **Admin sessions and access gate** (`admin_controller.py`).
  `AdminController`: the role table and rank check, the first-super-admin
  bootstrap, and `login`/`logout`/`validate_session`. These work over a
  session cache in front of the `admin_sessions` table. Also the
  permission checks and the audit trail.
- **C++ extension** (`cpp_admin_extension.cpp`). The djb2 password hash
  with 64-bit wrap-around, the length and character validator, the
  full-length comparison, and the five-second stats cache.
- **Python wrapper** (`cpp_admin_wrapper.py`). The dispatch to the extension
  and the pure-Python fallbacks, which behave differently from the extension.
- **HTTP server rules** (`api_server.py`). The log tail, the response cache's
  age filter, and the request-size and API-key gates.
- **Path classifiers** (`app/Console/AppController.py`).

Modules:

- `Wrappers`, `Text`, `Bytes`, `Utf8` and `Json` give the Python and C
  primitives the core relies on:
  - `str.strip`, `split`, `find`, `lower`;
  - `bytes.hex`/`fromhex`;
  - UTF-8 encoding;
  - a JSON value type and `json.dumps`.
- `json.loads` is a function parameter `parse`, constrained by
  `Json.IsParser`: it reads back every well-formed dumped value and
  produces only well-formed values.
- `Credentials`, `Sessions`, `AuditLog`, `LogMigration` and `LogNormalizer`
  model `print.py`.
- `AdminControl` models `admin_controller.py`.
- `CppExtension` and `CppWrapper` model the extension and its wrapper.
- `ApiServer` and `AppController` model the remaining two files.

The model takes the source's own form:

- **State updated in place is a class.** `UserStore`, `SessionList`,
  `LogFile`, `AdminController` and `StatsCache` are classes; their methods
  keep invariants and state their whole new state.
- **Loops are methods with invariants, proved against a function.**
  Examples are djb2, the validators, the comparison, `end_session`, the
  migration scanner, the normaliser, the log tail and the cache filter.
- **Expressions are functions with lemmas.**

External effects are parameters:

| Source call | Parameter in the model |
|---|---|
| `hashlib.pbkdf2_hmac` | `kdf` |
| `hashlib.sha256` | `sha256` |
| `os.urandom` | explicit salt bytes |
| `uuid4` | explicit `sid` |
| `datetime.now` and `time(nullptr)` | `now`, `refreshTime` |
| whether `import cpp_admin_extension` succeeded | `available` |
| `login_system`'s user lookup and `verify_password` | `lookup`, `checkPassword` |

Files are modelled by their contents: an `Option` of lines (or of a map)
where the file may be missing.

Notes on what the code does:

- `load_user_store` does not write migrated records back (print.py:54-59
  never calls `save_user_store`).
- A legacy record whose `password` is `null` makes `_hash_password` raise
  inside the loop, so the whole table loads as `{}`.
- `set_cache` starts from `get_cache` as written, so an entry that the
  `.seconds` test keeps is written back into the file with the new one.
- `_verify_password` compares with `==`, not in constant time.
- The lookahead of `migrate_logs` joins every following line up to the stop
  marker and then parses once. It does not stop at the first prefix that
  parses.
- Indented lines inside a header block that are neither `Sistem:` nor
  `KodDizinleri:` are dropped.

## Model

| member | source | states |
|---|---|---|
| Bytes.FromHexToHex | print.py:35-41 | `bytes.fromhex(b.hex())` gives back `b`, so a stored salt is read back exactly |
| Bytes.FromHexNoSpaceLength | print.py:40 | on text without whitespace, `bytes.fromhex` gives one byte per two characters |
| Bytes.FromHexAppend | print.py:40 | `bytes.fromhex` of `b.hex()` followed by more text gives `b` and then what the rest reads as, and it raises exactly when the rest does |
| Bytes.SpacedHexReadsBack | print.py:40 | ASCII whitespace between digit pairs and at either end is skipped, so `a.hex() + " " + b.hex() + "\n"` reads back as `a + b` |
| Bytes.SplitPairRaises | print.py:40 | whitespace inside a digit pair, or half a pair at the end, raises `ValueError` |
| Bytes.ToHexInjective | print.py:43 | equal hex texts come from equal digests, so the hex comparison compares derived keys |
| Utf8.EncodeAppend | cpp_admin_extension.cpp:78 | the UTF-8 encoding of `salt + password` is the concatenation of the two encodings |
| Utf8.EncodeInjective | cpp_admin_extension.cpp:130 | different strings have different UTF-8 encodings, so a byte comparison decides string equality |
| Utf8.DecodeEncodeChar | cpp_admin_extension.cpp:130 | the lead byte of a character's encoding gives its length, and its bytes decode back to the code point |
| Utf8.EncodeAsciiByte | cpp_admin_extension.cpp:110 | an ASCII byte occurs in the encoding exactly when its character occurs in the string |
| Credentials.HashPassword | print.py:28-35 | `_hash_password` returns the 16 salt bytes as 32 hex digits; `bytes.fromhex` reads back the salt from the first and the derived key from the second |
| Credentials.HashThenVerify | print.py:28-43 | a password verifies against the pair `_hash_password` produced for it |
| Credentials.VerifyOtherPassword | print.py:38-43 | another password verifies against that pair exactly when its derivation with that salt equals the stored one |
| Credentials.VerifyPassword | print.py:38-43 | raises exactly when `bytes.fromhex` refuses the stored salt: a character other than a hex digit or ASCII whitespace, whitespace inside a digit pair, or an odd digit count. A `True` answer means the stored hash reads back as the key derived from the password and that salt |
| Credentials.VerifyPasswordForUser | print.py:655-662 | no record gives `False`. It raises only on the salt-and-hash path, and always when the salt is `null`. `True` needs a salt and hash pair, or a plaintext equal to the password |
| Credentials.MigrateRecord | print.py:53-57 | a record raises exactly when its `password` is `null`. Otherwise the result has no `password` key and keeps the full name. A plaintext record gets a salt that reads back as the one drawn |
| Credentials.MigrateStore | print.py:53-61 | a `null` password anywhere empties the table. Otherwise normalisation keeps the same user names and leaves no plaintext. It keeps every full name, and leaves records without a `password` key unchanged |
| Credentials.MigratedLegacyLogin | print.py:655-662 | a migrated legacy user verifies with the old plaintext, and with another password only if the derivations collide |
| Credentials.UserStore.Save | print.py:70-75 | the file then holds the whole table |
| Credentials.UserStore.Load | print.py:46-67 | no file: exactly the `admin`/`1234` account named "Sistem Yöneticisi", saved. Unreadable file, or a `null` password: empty table. Otherwise the normalised table, not written back |
| Credentials.UserStore.CreateUser | print.py:78-85 | succeeds iff the name is absent. It then adds exactly that record (salt, hash, full name) and saves. Otherwise nothing changes |
| Credentials.UserStore.DeleteUser | print.py:88-93 | succeeds iff the name is present. It then removes only that key and saves. Otherwise nothing changes |
| Credentials.UserStore.ListUsers | print.py:96-97 | every user and only those, each with its full name alone |
| Credentials.UserStore.Verify | print.py:665-672 | an unknown user name is refused, so a `True` answer names a user of the table |
| Sessions.FirstWithIdFrom | print.py:158-159 | the index found is the first record with the id; none means no record has it |
| Sessions.StampKeepsFirst | print.py:157-162 | stamping `logout_ts` keeps every id in place, so the same record is found again |
| Sessions.FreshIdFound | print.py:141-163 | a record appended with an unused id is the one `end_session` finds |
| Sessions.SessionList.StartSession | print.py:141-154 | exactly one open record (`logout_ts` None) is appended, earlier ones unchanged, and the list is saved |
| Sessions.SessionList.EndSession | print.py:157-163 | true iff some record has the id. Then the first such record is stamped and the list saved. Otherwise nothing changes |
| AuditLog.Sanitize | print.py:220-228 | `_sanitize` keeps the shape: objects stay objects with the same keys, and lists stay lists of the same length |
| AuditLog.SanitizeClean | print.py:220-228 | afterwards no string anywhere inside the value holds `\n` or `\r` |
| AuditLog.SanitizeKeepsClean | print.py:220-228 | a value without line breaks is returned unchanged |
| AuditLog.SanitizeIdempotent | print.py:220-228 | sanitising twice equals sanitising once |
| AuditLog.SanitizeWellFormed | print.py:220-228 | sanitising keeps object keys distinct |
| Json.DumpsNoBreaks | print.py:241 | `json.dumps` escapes every line break, so its text holds none |
| AuditLog.LineIsOneLine | print.py:241 | the appended text is the dumped object followed by exactly one newline, with no other line break |
| AuditLog.EventObjectWellFormed | print.py:231-239 | the event object has distinct keys throughout when its `system` and `code_dirs` do |
| AuditLog.EventLineReadsBack | print.py:231-241 | reading a written line back with `json.loads` gives the event object, whose `system` and `code_dirs` are free of line breaks |
| AuditLog.LogFile.LogEvent | print.py:214-268 | exactly one line is appended: the event, or the `error_writing_log` fallback; nothing when both appends fail |
| LogMigration.ParseHeader | print.py:499-522 | event, user name and full name of any header are each a string or null; `HeaderFieldsRead` gives their values for the documented format |
| LogMigration.HeaderEventHyphen | print.py:503-505 | a header `[ts] - EVENT - …` yields an event that starts with `-` |
| LogMigration.HeaderFieldsRead | print.py:498-520 | a header written as `[ts] - EVENT - Kullanıcı: X, Ad-Soyad: Y` parses to timestamp `ts`, event `"- EVENT"`, user name `X` and full name `Y`. This holds whenever `ts` holds no `]` and does not start with `[`; EVENT, X and Y are non-empty, have no whitespace or hyphen at either end and hold no `" - "`; and X holds no comma and no `Ad-Soyad:` |
| LogMigration.TimestampRead | print.py:501-502 | the timestamp is the text between the leading `[` and the first `]`, and the rest of the line follows that `]` |
| LogMigration.SplitAtSep | print.py:504 | `split(" - ")` of `a + " - " + b` gives exactly `[a, b]` when neither holds `" - "` and `a` ends in neither a space nor a hyphen |
| LogMigration.UserFieldsRead | print.py:511-520 | in `Kullanıcı: X, Ad-Soyad: Y` the user name is `X`, the text up to the first comma, and the full name is `Y`, the text after `Ad-Soyad:` |
| LogMigration.GatherEnd | print.py:537-540 | the lookahead stops at the first stop line, or at the end |
| LogMigration.LineStep | print.py:483-583 | each step advances past the current line and emits one event for a non-blank line, none for a blank one |
| LogMigration.ReadPayload | print.py:530-561 | the payload loop computes the payload value and the last line it consumed |
| LogMigration.ScanLine | print.py:528-562 | one continuation line updates `system`/`code_dirs` and the position as the block rule says |
| LogMigration.ScanHeaderBlock | print.py:524-562 | the block loop computes `ScanBlock`: the index after the block and its two payloads. What each line of the block contributes, and where the scan resumes, is stated by `SystemLineRead`, `CodeDirsLineRead`, `BrokenPayloadJoined` and `BrokenPayloadLost` |
| LogMigration.SystemLineRead | print.py:529-533 | a `  Sistem: <json>` line sets `system` to that value and the block continues with the next line |
| LogMigration.CodeDirsLineRead | print.py:546-549 | a `  KodDizinleri: <json>` line sets `code_dirs` to that value and the block continues with the next line |
| LogMigration.BrokenPayloadJoined | print.py:534-562 | when the text after the marker does not parse but that text joined with the lines up to the stop line does, the joined value is the payload and the block resumes at the stop line |
| LogMigration.BrokenPayloadLost | print.py:534-562 | when neither the text after the marker nor the joined text parses, the payload is null and the block resumes at the next line |
| LogMigration.HeaderSystemRead | print.py:497-574 | a header that does not parse as JSON, followed by one `Sistem:` line, is one entry holding that system value and no code directories; the scan resumes after the block |
| LogMigration.HeaderBlockRead | print.py:497-574 | a header followed by a `Sistem:` line and a `KodDizinleri:` line is one entry holding both payloads; the scan resumes after the two lines |
| LogMigration.MigrateJsonAndBlock | print.py:464-583 | a JSON line followed by a header block with a `Sistem:` line migrates to two events: the JSON value itself, then the header's six-field object with that system value and null `code_dirs`, not a `raw` record |
| LogMigration.MigrateLine | print.py:484-583 | one iteration of the outer loop emits the step's events and moves to its next index |
| LogMigration.MigrateLogs | print.py:464-597 | a missing file gives 0 and no write. Otherwise the file is rewritten as the dumped events, and the count is their number |
| LogMigration.Migrate | print.py:480-597 | the events of a file number at most its non-blank lines |
| LogMigration.MigrateCountBound | print.py:480-597 | there are never more events than non-blank lines |
| LogMigration.NoHeaderIsPlain | print.py:484-496 | when no line opens a header block, each non-blank line gives its parsed JSON or `{"raw": line}`, in order, one per non-blank line. A header-shaped line that parses as JSON, such as `["a]"]`, does not open a block |
| LogMigration.PlainLineStep | print.py:489-583 | a line that does not open a header block becomes its parsed value or a `raw` record, and the scan advances by one |
| LogMigration.MigrateWellFormed | print.py:564-571 | every migrated event is a well-formed JSON value |
| LogMigration.MigrateDumped | print.py:489-494 | a file already in JSON lines migrates to exactly its events |
| LogMigration.MigrateIdempotent | print.py:464-597 | migrating the migrated file changes nothing |
| LogNormalizer.CleanTextClean | print.py:627 | a cleaned `system` string holds no line break and has no edge whitespace |
| LogNormalizer.CleanTextIdempotent | print.py:627 | cleaning a `system` string twice equals cleaning it once |
| LogNormalizer.CleanNameClean | print.py:616-621 | a cleaned name field holds no line break and does not start with `-` |
| LogNormalizer.CleanNameIdempotent | print.py:616-621 | cleaning a name twice equals cleaning it once, unless the first pass leaves leading whitespace |
| LogNormalizer.CleanNameNeedsSecondPass | print.py:620-621 | `"-\tx"` cleans to `"\tx"`, and only a second pass gives `"x"` |
| LogNormalizer.CleanSystem | print.py:624-627 | every string value of `system` is cleaned; keys and other values are kept |
| LogNormalizer.CleanKeysAt | print.py:616-621 | only the fields named `event`, `username` and `full_name` are cleaned, in place |
| LogNormalizer.NormalizeObjectFieldwise | print.py:614-627 | normalising an object is normalising each field, keeping the order |
| LogNormalizer.NormalizeObjectKeys | print.py:614-627 | normalising keeps the keys |
| LogNormalizer.NormalizeFieldClean | print.py:616-627 | after normalising, a field that is cleaned is clean |
| LogNormalizer.NormalizeFrom | print.py:609-632 | one record per non-blank line |
| LogNormalizer.Normalize | print.py:609-632 | the records of a file number exactly its non-blank lines |
| LogNormalizer.CleanSystemFields | print.py:624-627 | the loop over `system` computes `CleanSystem` |
| LogNormalizer.CleanNameFields | print.py:616-621 | the loop over the three name keys computes their cleaning |
| LogNormalizer.CleanSystemEntry | print.py:624-627 | an object `system` field is cleaned; any other value is left alone |
| LogNormalizer.NormalizeRecord | print.py:614-627 | the per-record updates compute the normalised object |
| LogNormalizer.NormalizeLineAt | print.py:609-632 | one line contributes its normalised record, or none when blank |
| LogNormalizer.NormalizeJsonlines | print.py:600-639 | a missing file gives 0. Otherwise the file is rewritten with the normalised records, and the count equals the number of non-blank lines |
| LogNormalizer.NormalizeLineClean | print.py:613-632 | every output record has its name fields and `system` strings clean |
| LogNormalizer.NormalizeClean | print.py:600-639 | every record the file gets is clean |
| LogNormalizer.NormalizeLineShape | print.py:613-632 | a line parsing to an object keeps its keys; any other line becomes `{"raw": line}` |
| LogNormalizer.NormalizeWellFormed | print.py:600-639 | every normalised record is well-formed |
| LogNormalizer.NormalizeDumped | print.py:600-639 | a file of clean, settled, dumped records normalises to exactly those records |
| LogNormalizer.NormalizeIdempotent | print.py:600-639 | normalising the normalised file changes nothing, when no name field needs a second strip |
| LogNormalizer.NormalizeNotIdempotent | print.py:616-621 | a record with event `"-\tx"` changes again on a second run |
| AdminControl.PermissionsOf | admin_controller.py:88-106 | an unknown role has no permissions. Every permission given is one of the nine, and every known role may view logs |
| AdminControl.Level | admin_controller.py:473-481 | the rank is 1 to 4 for a known role, 0 otherwise |
| AdminControl.RolesMonotone | admin_controller.py:88-106 | a higher-ranked role holds every permission of a lower one |
| AdminControl.SuperAdminHoldsAll | admin_controller.py:91-95 | `super_admin` holds all nine permissions, and no role holds any other |
| AdminControl.RankAdmitsFacts | admin_controller.py:470-483 | the rank test is reflexive and transitive. An unknown requested role is always admitted; an unknown stored role only for unknown requests |
| AdminControl.AfterRoleCheck | admin_controller.py:485-495 | every stored role is kept as it was. The only record that can be added is `super_admin` for the user checked |
| AdminControl.AdminController.LogAudit | admin_controller.py:499-531 | exactly one entry is appended to the audit trail |
| AdminControl.AdminController.CheckRolePermission | admin_controller.py:461-497 | a stored role is granted by rank. An unrecorded user is granted iff `super_admin`, which is then recorded |
| AdminControl.AdminController.Login | admin_controller.py:156-216 | succeeds iff the user exists, the password verifies, the role passes and the id is new. On success an active row and a cache entry expire 30 minutes later. A refusal adds no session and records a failed `login_attempt`; a raise records nothing. No ended row becomes active again |
| AdminControl.AdminController.Logout | admin_controller.py:218-237 | true iff the id is cached. Then the entry goes and the row is ended, so the table answers for the id at no time. Every method keeps ended rows ended, and validation reads only the table, so the id never validates again. Otherwise nothing changes |
| AdminControl.AdminController.ValidateSession | admin_controller.py:239-288 | a cache hit is valid iff unexpired and is evicted when expired. A miss is valid iff an active unexpired row exists. That row is re-cached, and an expired row is deactivated. Either way the answer is the table's: an active row not yet expired |
| AdminControl.AdminController.HasPermission | admin_controller.py:290-299 | true iff the session validates and its role holds the permission |
| AdminControl.AdminController.RequirePermission | admin_controller.py:301-311 | as `has_permission`. A `permission_denied` entry naming the cached user or `unknown` is appended exactly on refusal |
| CppExtension.SignedChar | cpp_admin_extension.cpp:80-84 | a byte read into `int c` through a signed `char` lies in -128..127, congruent to the byte |
| CppExtension.Step | cpp_admin_extension.cpp:84 | `hash * 33 + c` wraps to the 64-bit `unsigned long` range |
| CppExtension.Djb2 | cpp_admin_extension.cpp:79-85 | the empty input gives 5381; any other input gives a 64-bit word |
| CppExtension.Djb2Loop | cpp_admin_extension.cpp:79-85 | the `while` loop computes djb2 of the bytes |
| CppExtension.Hex16Injective | cpp_admin_extension.cpp:87-88 | `%016lx` gives different texts for different 64-bit words |
| CppExtension.HashResult | cpp_admin_extension.cpp:69-91 | the call raises exactly when a string holds a NUL; otherwise it returns 16 characters |
| CppExtension.FastHashPassword | cpp_admin_extension.cpp:69-91 | refuses a string with a NUL. Otherwise it returns 16 hex digits of djb2 over the UTF-8 bytes of `salt + password` |
| CppExtension.HashDependsOnConcatenation | cpp_admin_extension.cpp:78 | inputs with the same `salt + password` hash alike |
| CppExtension.HashIgnoresSplit | cpp_admin_extension.cpp:78-85 | `("bc", "a")` and `("c", "ab")` give the same hash |
| CppExtension.Hex5381 | cpp_admin_extension.cpp:87-88 | 5381 prints as `0000000000001505` |
| CppExtension.EmptyHash | cpp_admin_extension.cpp:79-88 | empty password and salt give `0000000000001505` |
| CppExtension.HashEqualIffWordsEqual | cpp_admin_extension.cpp:83-88 | two hash texts are equal iff the djb2 words are |
| CppExtension.ValidateResult | cpp_admin_extension.cpp:94-123 | refuses a NUL or an argument outside `int`. Otherwise valid iff the byte length is within bounds and none of `'`, `;`, `"`, `-`, `/`, `*` occurs. The message is `""` iff valid, else `"Invalid input"` |
| CppExtension.ValidateInputFast | cpp_admin_extension.cpp:94-123 | the validation loop computes that result |
| CppExtension.CompareIsEquality | cpp_admin_extension.cpp:134-147 | the comparison is string equality, for strings without NUL |
| CppExtension.FastStringCompare | cpp_admin_extension.cpp:126-148 | the loop computes that result, and visits every position when the lengths match |
| CppExtension.StatsCache.constructor | cpp_admin_extension.cpp:25-26 | the cache starts all zero with `last_update` 0 |
| CppExtension.StatsCache.GetSystemStats | cpp_admin_extension.cpp:45-66 | a hit (under 5 seconds since the last update, with a positive cached timestamp) returns the cache unchanged. Otherwise it refreshes with zero counters and sets `last_update` to now |
| CppExtension.RefreshServesFiveSeconds | cpp_admin_extension.cpp:27-48 | after a refresh with a positive clock reading, the cache hits exactly until five seconds have passed |
| CppWrapper.FirstDangerous | cpp_admin_wrapper.py:109-112 | the substring reported is the first one of the list, in that order, that occurs |
| CppWrapper.ValidateFallback | cpp_admin_wrapper.py:100-114 | valid iff the message is empty |
| CppWrapper.ValidateFallbackRule | cpp_admin_wrapper.py:100-114 | an empty input is refused first, then a length out of range with the range message, then the first dangerous substring. Otherwise `(True, "")` |
| CppWrapper.ExtensionReply | cpp_admin_wrapper.py:59-62 | the extension only ever raises or returns a pair |
| CppWrapper.ValidateInputFast | cpp_admin_wrapper.py:55-66 | whichever rule answers, the message is empty iff the input is accepted, and an accepted input holds none of the six dangerous substrings |
| CppWrapper.CppAcceptedHasNoDanger | cpp_admin_wrapper.py:109-112 | an input the extension accepts holds none of the fallback's dangerous substrings |
| CppWrapper.ValidateInputFastRule | cpp_admin_wrapper.py:55-66 | the extension's pair is passed through when it is available and does not raise; otherwise the fallback answers |
| CppWrapper.FallbackDangerIsCppDanger | cpp_admin_wrapper.py:109-111 | every substring the fallback rejects starts with a character the extension rejects |
| CppWrapper.CppRejectsFallbackDanger | cpp_admin_wrapper.py:109-112 | what the fallback rejects as dangerous, the extension rejects too |
| CppWrapper.CppAcceptedAsciiPassesFallback | cpp_admin_wrapper.py:100-114 | a non-empty ASCII input the extension accepts, the fallback accepts |
| CppWrapper.LoneHyphenOrSlash | cpp_admin_wrapper.py:109-112 | `a-b` and `a/b` pass the fallback but are refused by the extension |
| CppWrapper.EmptyInputWithZeroMinimum | cpp_admin_wrapper.py:102-103 | with `min_len = 0` the fallback refuses `""` while the extension accepts it |
| CppWrapper.BytesVersusCodePoints | cpp_admin_wrapper.py:105-107 | `ééé` needs 3..5: it passes the fallback's code-point count and fails the extension's byte count |
| CppWrapper.CompareIsStringEquality | cpp_admin_wrapper.py:68-77 | the wrapper's answer, when it gives one, is string equality. It raises only when the fallback is used on non-ASCII text |
| CppWrapper.HashFallback | cpp_admin_wrapper.py:92-97 | two hex digits per digest byte, and `bytes.fromhex` reads back the SHA-256 digest of the UTF-8 bytes of `salt + password` |
| CppWrapper.FastHashPassword | cpp_admin_wrapper.py:43-52 | the result is the fallback's digest or exactly what the extension returned. With the extension present and no NUL it has 16 characters |
| CppWrapper.FastHashDependsOnConcatenation | cpp_admin_wrapper.py:43-52 | on every path the hash depends only on `salt + password` |
| CppWrapper.HashPathsDiffer | cpp_admin_wrapper.py:43-52 | the extension gives 16 hex digits and the fallback 64, so the two paths never agree |
| ApiServer.EffectiveLimit | api_server.py:88-89 | a limit above 1000 becomes 1000; any other is kept |
| ApiServer.TailStart | api_server.py:96 | the start of `lines[-limit:]` lies within the file |
| ApiServer.NonPositiveLimits | api_server.py:96 | `lines[-0:]` is the whole file, and a negative limit `-k` skips the first `k` lines |
| ApiServer.ParsedFrom | api_server.py:96-98 | never more logs than non-blank lines |
| ApiServer.GetApiLogs | api_server.py:86-102 | no file gives `[]`. Otherwise the loop returns the parsed non-blank lines of the tail, stopping at the first line that fails to parse |
| ApiServer.LogsBounded | api_server.py:88-98 | for a limit of at least 1 there are at most `min(limit, 1000)` logs |
| ApiServer.DumpedLogsReadBack | api_server.py:94-98 | a log file of dumped entries reads back as exactly those entries |
| ApiServer.ApiLogsAreTheTail | api_server.py:86-102 | on such a file the result is the last `min(limit, 1000)` entries in file order |
| ApiServer.TimedeltaSeconds | api_server.py:116 | `.seconds` lies in 0..86399 and is the age for differences under a day |
| ApiServer.CacheAsWritten | api_server.py:104-122 | the cache as written: `{}` when disabled, missing or unreadable. Otherwise it holds exactly the file's entries, unchanged, that the `.seconds` test keeps |
| ApiServer.GetCache | api_server.py:104-122 | the loop deleting stale keys computes the cache as written |
| ApiServer.SecondsIgnoresDays | api_server.py:116 | as written, an entry a day and a minute old is kept and one a second in the future is dropped |
| ApiServer.StaleTestsAgreeWithinADay | api_server.py:116 | the written and intended tests agree on ages from 0 to 24 hours |
| ApiServer.FreshCache | api_server.py:104-122 | the cache as intended: the file's entries not older than 300 whole seconds, and `{}` when disabled, missing or unreadable |
| ApiServer.FreshCacheKeeps | api_server.py:113-117 | an entry without a timestamp is kept; a stamped one iff its age is under 301 seconds |
| ApiServer.SetCache | api_server.py:124-138 | disabled writes nothing. Otherwise the file gets what `get_cache` returns as written, with only `key` replaced by the value stamped now |
| ApiServer.SetCacheKeepsDayOldEntry | api_server.py:116-130 | as written, an entry a day and a minute old is written back into the file; with the intended test it is dropped |
| ApiServer.SetThenGet | api_server.py:104-138 | what `set_cache` wrote is read back by `get_cache`, as written, for 300 seconds |
| ApiServer.SetCacheIntended | api_server.py:124-138 | `set_cache` over the intended test: the fresh entries, with only `key` replaced by the value stamped now |
| ApiServer.SetThenGetIntended | api_server.py:104-138 | with the intended test too, what was written is read back for 300 seconds |
| ApiServer.ValidateRequestSize | api_server.py:148-152 | admitted iff no length is given or it is at most 10485760 |
| ApiServer.ApiKeyAdmits | api_server.py:158-159 | admitted iff the query key is `12345`, or the query key is absent or empty and the header is `12345` |
| ApiServer.QueryKeyShadowsHeader | api_server.py:158 | a wrong query key is refused despite the right header, and an empty one gives way to the header |
| AppController.Basename | app/Console/AppController.py:9 | the base name is the suffix after the last `/` and holds none |
| AppController.SplitExt | app/Console/AppController.py:12 | root and extension make up the path. The extension is empty, or a dot followed by no dot and no slash |
| AppController.HasExtensionIff | app/Console/AppController.py:12 | the extension is non-empty iff the base name holds a dot after some other character |
| AppController.IsMakefile | app/Console/AppController.py:8-9 | a makefile's base name has eight characters and no dot |
| AppController.IsHeader | app/Console/AppController.py:11-13 | a header's extension is a dot and one to three characters |
| AppController.IsSource | app/Console/AppController.py:15-17 | a source's extension is a dot and one to three characters |
| AppController.ExtensionInDirectory | app/Console/AppController.py:12 | in `dir/stem.ext` the extension is `.ext`, whatever dots the directory holds |
| AppController.SourceInDirectory | app/Console/AppController.py:11-17 | `src/foo.c` is a source and a header |
| AppController.SourceIsHeader | app/Console/AppController.py:11-17 | the source test agrees with the header test on every path |
| AppController.SplitExtLower | app/Console/AppController.py:12-13 | lower-casing commutes with taking the extension |
| AppController.HeaderCaseInsensitive | app/Console/AppController.py:11-13 | a path and its lower-cased form are classified alike |
| AppController.MakefileIsNeither | app/Console/AppController.py:8-13 | a makefile is never a header or a source |
| AppController.MakefileInDirectory | app/Console/AppController.py:8-9 | `src/Makefile` is a makefile |
| AppController.MakefileWithSuffix | app/Console/AppController.py:8-9 | `Makefile.am` is not |
| AppController.UpperCaseHeader | app/Console/AppController.py:11-13 | `X.HPP` is a header |
| AppController.LastExtensionOnly | app/Console/AppController.py:11-13 | `a.c.txt` is not a header |
| AppController.SourceFileIsHeader | app/Console/AppController.py:15-17 | `foo.c` is both a header and a source |

## Left out

**Effects and plumbing**

- File I/O, `flush`/`fsync`, the msvcrt/fcntl locks and the `.bak` backup of `migrate_logs`: files are modelled as their contents, and locking and crash durability are outside a sequential model.
- PBKDF2, sha256, `os.urandom`, `uuid4` and the clocks: these are foreign calls, so they become parameters. The time formats of `strftime`/`isoformat` are left out, and timestamps are opaque strings or integers.
- sqlite: the `admin_sessions`, `admin_permissions` and `admin_audit_log` tables are maps and a sequence. The `ip_address`, `user_agent`, `resource` and `created_at` columns are not modelled. They are filled from the Flask request or the clock, and nothing reads them back.
- Flask routing and the endpoint bodies of `api_server.py` are HTTP plumbing. So are the 401 response and its `log_api_call`.
- Logging and console output (`logger`, `print`) are observable only as text, so they are left out. So is the second copy of `_log_audit` written to the audit file.
- Python C-API marshalling and reference counting are left out.

**Not part of this model**

- `login_system`'s `get_db_connection` and `verify_password` are not part of this model. `AdminController.Login` takes the lookup and the password check as parameters.
- The interactive `login`/`logout` and `add_user_interactive` of `print.py` are user interface. So are `show_log`, `show_sessions`, `load_sessions`/`save_sessions` (beyond "the list is saved"), `gather_system_info`, `list_code_directories`, `seed_logs` and `main`.
- `get_users`, `create_user`, `delete_user`, `get_audit_logs` and `get_system_stats` of the admin controller are not part of this model. They depend on tables this controller does not create.
- `CppAdminWrapper.get_system_stats` and `_get_stats_fallback` are not modelled. They copy the extension's dictionary or return a zero dictionary, and `CppExtension.StatsCache` covers the rule behind them.

**Limits of the data model**

- `Credentials.UserStore.Load`: user records that are not JSON objects are not modelled. The `salt`, `hash` and `password` keys are each absent, `null` or a string; numbers, lists and objects under them are not modelled.
- `Credentials.UserStore.Save` models a save that always succeeds. The `except: pass` that keeps the old file is not modelled.
- `LogMigration.MigrateLogs`: the outer `except` around the header parse (print.py:575-579) cannot be reached, since no step inside it raises on a header line. The model has no such path.
- `CppExtension.Stats`: `cpu_usage` is always the constant `0.0`, a real number here. Floating point is not modelled.
- `CppExtension.ValidateResult`: `strlen` is assumed to fit in `int`, so strings of 2^31 bytes or more are not modelled.
- `Utf8.EncodeChar`: Dafny `char` excludes the surrogate code points. Python's `"s"` format raises on lone surrogates, and that case is not modelled.
- `CppWrapper.ValidateInputFastRule`: the `Other` reply is the `(result, "")` branch for an extension returning a non-tuple. No such result comes from the extension modelled here, and results that are not booleans are not modelled.
- `ApiServer.FreshCache`: cache values that are not objects, and timezone-aware timestamps (which cannot be subtracted from a naive `now`), are not modelled. An unreadable timestamp is the one failure modelled; `fromisoformat` raising on it empties the whole cache.
- `ApiServer.GetApiLogs`: `readlines` keeps each line's newline, and the source hands that line to `json.loads`. The model's lines carry no newline, which agrees with the source since `json.loads` ignores surrounding whitespace.
- `CppExtension.Djb2`: `unsigned long` is taken as 64 bits and `char` as signed, as on LP64 Linux and macOS on x86-64. On Windows `unsigned long` has 32 bits, and on AArch64 Linux `char` is unsigned; those targets give other hashes.
- `Json.Json` has no floating-point numbers, `NaN` or `Infinity`, which `json.loads` accepts. On a line holding one, `parse` is unconstrained, so `ApiServer.GetApiLogs`, `LogMigration.Migrate` and `LogNormalizer.Normalize` say nothing about what such a line becomes.
- `AppController.SplitExt` and `AppController.Basename` follow `posixpath`. On Windows `os.path` is `ntpath`, which also splits at `\` and after a drive letter; that is not modelled.
- `Text.Lower`: Python's `str.lower` is modelled for ASCII letters and the Kelvin sign only. Other Unicode case mappings are not.

## Findings

| source | as written | input that shows it | evidently intended | confidence | as-written member | corrected member |
|---|---|---|---|---|---|---|
| api_server.py:116 | `(datetime.now() - ts).seconds > 300` uses the seconds field of the difference. That field drops whole days and is 86399 for a stamp one second in the future | an entry stamped at 0, read 1 day and 60 seconds later, is kept. The same entry read one second before its stamp is dropped | evict when the age in whole seconds, days included, exceeds 300 | not executed | ApiServer.SecondsIgnoresDays | ApiServer.FreshCache |
