# Library-loan backend: accounts, API keys, request gates and the loan lifecycle

This project is a Dafny model of the core of an Express/Sequelize library-loan backend.
Members register and log in. Each member holds a personal API key and uses it to ask for books from an external catalog.
Administrators approve, reject and close loans, and they manage accounts and API keys.
A public part of the backend passes catalog searches through and reports statistics.

The model is split by the structure of the backend:

| file | module | models |
|---|---|---|
| `js.dfy` | `Js` | the JavaScript value and string semantics the handlers rely on: truthiness, `trim`, `toLowerCase`, `startsWith`, `padStart`, `join`, `split(' ')[1]` and `parseInt` |
| `http.dfy` | `Http` | a handler's reply: a success status with a value, or an error status with a message |
| `api_key.dfy` | `ApiKeys` | `backend/utils/apiKey.js`: the configuration, the syntactic format check and key generation |
| `email.dfy` | `Email` | `isValidEmail` and `normalizeEmail` of `backend/controllers/authController.js` |
| `accounts.dfy` | `Accounts` | the `users` table as the class `UserStore`, with registration, login, key regeneration and reset, listing, deletion and key toggling |
| `gates.dfy` | `Gates` | the three request gates: API key, session token and admin role |
| `catalog.dfy` | `Catalog` | `formatBook`/`formatBooks` and the shaping of the catalog's results in `backend/services/googleBooksService.js` |
| `loans.dfy` | `Loans` | the `loans` table as the class `LoanStore`, with create, approve, reject and return, plus the list and statistics queries |
| `public_books.dfy` | `PublicBooks` | `backend/controllers/publicBookController.js`: query validation, paging arithmetic, the category list and the statistics loop |

## How the outside world is represented

- **Tables.** Each Sequelize table is a `map` from id to record, held by a class: `UserStore` and `LoanStore`.
  - The auto-increment counter is a field.
  - The store's unique constraints are invariants of the class, checked by `Valid()`: unique `email`, unique non-null `api_key`, and id equal to key.
  - A write that would violate the unique `api_key` constraint is refused with the store's 500 "Validation error". The table is then unchanged.
- **Process environment.** It is the record `ApiKeys.Env`.
- **Cryptography and tokens.** bcrypt's `compare` is a parameter `hashMatches`. The hash that `bcrypt.hash` produced is an input to `Register`. JWT signing is a function `sign: Claims -> string`, and verification is `Verifier = (secret, token) -> Option<Claims>`.
- **Random key bytes.** They are an input. Hex encoding is computed. Base64 and base64url text is supplied together with the bytes.
- **Regular expressions.** `API_KEY_ALLOWED_REGEX` is checked by an oracle `RegexEngine`, which says whether a pattern compiles and whether it matches.
- **Email pattern.** The one fixed pattern, `/^[^\s@]+@[^\s@]+\.[^\s@]+$/`, is stated directly as a predicate over character positions.
- **Catalog.** Its answers are `Option` inputs (`None` when the request failed), or `Fetched`/`FetchFailed` after the service's shaping.
- **Dates.** "Today" is a parameter of `ReturnBook`.

## Where the code and its intended behaviour differ

The model follows the code in each case:

- **Session-token gate.** The gate does not check the "Bearer" scheme word. It takes the second space-separated word as the token and ignores any words after it (`Gates.SchemeNotChecked`).
- **Unparseable key pattern.** A configured key pattern that does not compile is not a configuration failure. It is a format error, and the API-key gate answers it with 400.
- **Base64 keys.** Key generation pads the encoded text with '0' to `2 * bytes` even for base64 and base64url. A base64 key of 32 bytes therefore begins with 20 zeros after the prefix. `ApiKeys.GenerateApiKey` states the padding for every encoding.
- **Generated keys and the format check.** A generated key is guaranteed to pass the format check when no pattern is configured (`ApiKeys.GeneratedKeyPassesFormat`). With a pattern configured, nothing in the code makes generated keys match it.
- **The seeded admin.** The admin account has a NULL `api_key`, so `api_key` is nullable. `Accounts.ApiKeysUnique` only constrains keys that are present.

## Model

| member | source | states |
|---|---|---|
| Js.Trim | backend/controllers/authController.js:10 | `trim()` yields a slice of the input with only whitespace before and after it, and with no whitespace at either end of its own; it is no longer than the input, and empty exactly when the input is all ECMAScript whitespace |
| Js.TrimIdempotent | backend/controllers/authController.js:16 | trimming an already trimmed string changes nothing |
| Js.ToLowerIdempotent | backend/controllers/authController.js:16 | lower-casing twice is lower-casing once |
| Js.PadStart | backend/utils/apiKey.js:54 | `padStart` gives length `max(|s|, width)`, ends with `s`, and is filled with the fill character before it |
| Js.JoinEmpty | backend/controllers/loanController.js:54 | a join with a non-empty separator is empty exactly for no parts or a single empty part |
| Js.SplitSecond | backend/middlewares/authmiddleware.js:18 | `split(' ')[1]` is undefined exactly when the header holds no space; otherwise it is the space-free text that starts after the first space and ends at the next space or at the end of the header |
| Js.SplitSecondOf | backend/middlewares/authmiddleware.js:18 | for any space-free first word `w` and token `t`, and any `rest` that is empty or starts with a space, `(w + " " + t + rest).split(' ')[1]` is `t` |
| Js.ParseIntDecimal | backend/utils/apiKey.js:6 | `parseInt` reads back every decimal numeral and its negation, with radix 10 and without a radix |
| Js.ParseIntNoDigits | backend/controllers/publicBookController.js:19 | text that starts with neither whitespace, a sign nor a digit parses to NaN, with radix 10 and without a radix (`parseInt(limit)`) |
| Email.ValidEmailParts | backend/controllers/authController.js:8-12 | a text the email pattern accepts has no whitespace and exactly one '@', with text before it; the part after it holds a '.' with text on both sides |
| Email.PartsMakeValidEmail | backend/controllers/authController.js:11 | conversely, `local@domain.tld` built from non-empty parts without whitespace or '@' matches the pattern |
| Email.NormalizeEmail | backend/controllers/authController.js:14-17 | the normalised email has no surrounding whitespace and no upper-case letters, and is "" for a non-string |
| Email.NormalizeIdempotent | backend/controllers/authController.js:14-17 | normalising a normalised email changes nothing |
| Email.NormalizeKeepsValid | backend/controllers/authController.js:8-17 | a valid email stays valid once normalised |
| Email.TrimLowerCommute | backend/controllers/authController.js:16 | trimming and lower-casing commute |
| Email.CaseInsensitive | backend/controllers/authController.js:14-17 | emails that differ only in letter case normalise to the same text, so they collide at registration |
| Email.SurroundingWhitespace | backend/controllers/authController.js:14-17 | emails that differ only in surrounding whitespace normalise to the same text |
| ApiKeys.GetApiKeyConfig | backend/utils/apiKey.js:3-21 | `bytes` is always positive; it is the parsed setting when that is positive and 32 otherwise. The encoding is the requested one when it is in the whitelist, and hex otherwise. Prefix and pattern default to "" |
| ApiKeys.UnknownEncodingIsHex | backend/utils/apiKey.js:15-18 | any lower-cased encoding outside hex, base64 and base64url becomes hex |
| ApiKeys.DecimalBytesTaken | backend/utils/apiKey.js:6 | a positive decimal `API_KEY_BYTES` is taken as is |
| ApiKeys.ValidateApiKeyFormat | backend/utils/apiKey.js:23-48 | the check accepts exactly the non-empty strings that carry the prefix and, when a pattern is set, compile-and-match it. Each failing guard, in the code's order, gives its own message: empty or non-string, missing prefix, pattern that does not compile, pattern that does not match |
| ApiKeys.UnparseableRegexRejectsAll | backend/utils/apiKey.js:34-40 | a configured pattern that does not compile rejects every key |
| ApiKeys.NoRulesAcceptsNonEmpty | backend/utils/apiKey.js:23-48 | with no prefix and no pattern configured, every non-empty string is accepted |
| ApiKeys.HexEncode | backend/utils/apiKey.js:53 | hex text has two lower-case hex digits per byte |
| ApiKeys.HexRoundTrip | backend/utils/apiKey.js:53 | decoding the hex text of a byte string gives back the bytes |
| ApiKeys.GenerateApiKey | backend/utils/apiKey.js:50-56 | the key is the prefix, then '0' padding, then the encoded text; its length is the prefix length plus `max(|text|, 2 * bytes)` |
| ApiKeys.HexKeyShape | backend/utils/apiKey.js:53-55 | with hex encoding the key is exactly the prefix followed by the hex of the random bytes, of length `|prefix| + 2 * bytes` |
| ApiKeys.GeneratedKeyPassesFormat | backend/utils/apiKey.js:26-55 | with no pattern configured, every generated key passes the format check |
| Accounts.FindByEmail | backend/controllers/authController.js:43 | the lookup finds a row exactly when some row holds the email, and the row it returns holds it |
| Accounts.FindByApiKey | backend/middlewares/apiKeyAuth.js:18 | the lookup finds a row exactly when some row holds the key, and the row it returns holds it |
| Accounts.RegisterGuard | backend/controllers/authController.js:25-39 | the pre-store checks pass exactly when the secret, name, email and password are all acceptable. The secret, name, email and password checks take precedence in that order, each with its own refusal, and only a missing secret gives 500 |
| Accounts.Login | backend/controllers/authController.js:75-111 | gives 500 without a secret; 400 for a bad email or an empty password; 404 for an unknown normalised email. It succeeds exactly when the password matches the row's hash, and the session then carries a token signed over that row's {id, role, name} and the row's key state |
| Accounts.WrongPasswordRefused | backend/controllers/authController.js:94-97 | a password that does not match the stored hash gives 401 |
| Accounts.AllUsers | backend/controllers/userController.js:7-9 | the listing has one entry per row, carrying id, name, email, role, key and key status |
| Accounts.ListingHidesPasswords | backend/controllers/userController.js:8 | tables that differ only in password hashes list identically |
| Accounts.InsertKeepsWellFormed | backend/controllers/authController.js:51-58 | inserting a row whose id, email and key are fresh keeps the unique constraints |
| Accounts.RekeyKeepsWellFormed | backend/controllers/authController.js:136-142 | giving a row a key no other row holds keeps the unique constraints |
| Accounts.UserStore.constructor | backend/models/user.js:9-25 | a store starts from any table that satisfies the unique constraints |
| Accounts.UserStore.Register | backend/controllers/authController.js:21-68 | a failed pre-store check refuses with that check's error and leaves the table unchanged. A taken normalised email gives 400 with no change. Otherwise the new key is generated, and exactly one member row is added with the trimmed name, the normalised email, the hash, status true and that key, which the reply returns (or 500 "Validation error" with no change if the key is taken) |
| Accounts.UserStore.AddMember | backend/controllers/authController.js:51-63 | `User.create` adds exactly one member row with an enabled key under the next id, or is refused with no change when another row holds the key |
| Accounts.UserStore.ReplaceKey | backend/controllers/authController.js:136-142 | only row `id` changes: its key becomes the new one and its status true, unless another row holds that key |
| Accounts.UserStore.RegenerateMyApiKey | backend/controllers/authController.js:119-152 | gives 404 for a missing user and 403 for a disabled key, with no change. For an enabled user the generated key always replaces the old one: only the caller's row changes, taking that key and status true, and the reply carries the key; if another row already holds the key the store refuses with 500 and nothing changes |
| Accounts.UserStore.ResetUserApiKey | backend/controllers/authController.js:155-193 | gives 404 for a missing user and 403 for an admin target, with no change. For any other user the generated key always replaces the old one: only the target row changes, taking that key and status true, and the reply carries the key; if another row already holds the key the store refuses with 500 and nothing changes |
| Accounts.UserStore.DeleteUser | backend/controllers/userController.js:21-42 | gives 404 for an unknown id and 403 for an admin, with no change. Otherwise exactly that row is removed |
| Accounts.UserStore.ToggleApiKeyStatus | backend/controllers/userController.js:45-80 | gives 404 for an unknown id and 403 for an admin, with no change. Otherwise only that row changes, to `Toggled`, and the reply carries the new status |
| Accounts.Toggled | backend/controllers/userController.js:60-65 | a toggle negates the key status and changes no other field |
| Accounts.ToggleTwice | backend/controllers/userController.js:60-65 | toggling twice restores the row |
| Accounts.ToggleKeepsWellFormed | backend/controllers/userController.js:62-65 | toggling keeps the unique constraints |
| Accounts.ToggleTwiceScenario | backend/controllers/userController.js:45-80 | two toggle requests on the same id leave the table as it was |
| Accounts.AdminRowScenario | backend/controllers/userController.js:28-57 | an admin row survives toggle, reset and delete requests unchanged |
| Gates.BearerClaims | backend/middlewares/apiKeyAuth.js:30-45 | claims are taken into account only from a non-empty "Bearer " header under a configured secret |
| Gates.BearerTokenClaims | backend/middlewares/apiKeyAuth.js:31-35 | under a configured secret, the header "Bearer <token>", with or without further space-separated words after it, yields exactly the claims that verification gives for the token |
| Gates.ApiKeyGate | backend/middlewares/apiKeyAuth.js:6-50 | no key gives 401; a key failing the format check gives 400 with that check's message; a well-formed key that no row holds gives 403. The gate passes exactly when the key passes the format check, a row holds it, the key is enabled, and any verified bearer token names the key's owner. The principal is then that row |
| Gates.DisabledKeyRefused | backend/middlewares/apiKeyAuth.js:24-26 | a stored but disabled key gets 403, whatever else the request carries |
| Gates.ForeignKeyRefused | backend/middlewares/apiKeyAuth.js:30-42 | a verified bearer token naming another user gets 403 |
| Gates.UnverifiedBearerIgnored | backend/middlewares/apiKeyAuth.js:43-45 | a token that does not verify leaves the verdict as if no token had been sent |
| Gates.SessionGate | backend/middlewares/authmiddleware.js:8-32 | gives 500 without a secret, checked before the header, and 401 "Token tidak ada" without a header. A header without a second word, or whose second word does not verify, gives 401 "Token tidak valid"; verified claims naming no row give 401 "User tidak valid". It passes exactly when the second word verifies and names an existing row, and that row is the principal. A denial is 500 exactly when the secret is missing |
| Gates.SchemeNotChecked | backend/middlewares/authmiddleware.js:18 | any scheme word, including an empty one, and any trailing words give the same verdict as a two-word header with that token |
| Gates.BearerOpens | backend/middlewares/authmiddleware.js:18-28 | "Bearer <token>" with verifiable claims naming a row opens the gate for that row |
| Gates.LoginOpensSession | backend/controllers/authController.js:99-103 | a token issued by login opens the session gate for the user who logged in |
| Gates.AdminGate | backend/middlewares/adminAuth.js:1-9 | exactly one of deny-403 and pass happens; it passes exactly for role admin, with the principal unchanged |
| Gates.AdminChainSound | backend/middlewares/adminAuth.js:2-8 | the principal of a request passing the session and admin gates is a row of the table, and that row is an admin |
| Catalog.Thumbnail | backend/services/googleBooksService.js:117 | the thumbnail, else the small thumbnail, else null |
| Catalog.FormatBook | backend/services/googleBooksService.js:102-121 | the id is copied; every text field is non-empty and every nullable one is null or non-empty. Without `volumeInfo` every field takes its default. With it, each field follows its source: text fields fall back to their default text when missing or empty, counts to 0, lists to [], links and the date to null, and the thumbnail to the small thumbnail and then null |
| Catalog.FormatRoundTrip | backend/services/googleBooksService.js:102-121 | an already normalised record passes through the formatter unchanged |
| Catalog.FormatIdempotent | backend/services/googleBooksService.js:102-121 | formatting a formatted record again changes nothing |
| Catalog.FormatBooks | backend/services/googleBooksService.js:128-130 | same length, element by element `formatBook` |
| Catalog.FormatBooksAppend | backend/services/googleBooksService.js:128-130 | formatting a concatenation formats each part in place |
| Catalog.ShapeListing | backend/services/googleBooksService.js:25-29 | missing `totalItems` is 0 and missing `items` is empty; present ones are kept, with the items formatted |
| Catalog.SearchBooks | backend/services/googleBooksService.js:13-38 | fails exactly when the request failed, with the search failure message; otherwise the shaped listing |
| Catalog.BooksByCategory | backend/services/googleBooksService.js:70-95 | fails exactly when the request failed, with the category failure message; otherwise the shaped listing |
| Catalog.GetBookById | backend/services/googleBooksService.js:45-61 | fails exactly when the request failed, with "Buku tidak ditemukan"; otherwise the formatted record with the same id |
| Loans.StatusNamesDistinct | backend/models/loan.js:37 | the four status names are pairwise distinct |
| Loans.AuthorLine | backend/controllers/loanController.js:54 | the author line is never empty. It is the ", "-join of the authors unless there are none or only one empty name, in which case it is "Unknown" |
| Loans.NoTransitionToTerlambat | backend/controllers/loanController.js:182-291 | no entry of the status table used by approve, reject and return leads to terlambat; those handlers' contracts set the new status from that table |
| Loans.ReturnedIsFinal | backend/controllers/loanController.js:276-281 | the status table has no entry for a returned loan, so approve, reject and return all refuse it |
| Loans.ReturnedStaysReturned | backend/controllers/loanController.js:174-288 | on the store, approving, rejecting or returning a returned loan is refused each time and leaves the table as it was |
| Loans.LoanStore.CreateLoan | backend/controllers/loanController.js:10-73 | missing fields give 400 and a failed catalog lookup 404; an outstanding (pending or dipinjam) loan for the pair gives 400, all with no change. It succeeds exactly otherwise, adding exactly one pending row with the catalog title, the author line, the thumbnail and the notes or null |
| Loans.LoanStore.ApproveLoan | backend/controllers/loanController.js:161-194 | succeeds exactly when the status table allows approval (the loan exists and is pending), and the new status is the table's entry, dipinjam. A missing id gives 404 and a non-pending loan 400 naming its status, with no change. Otherwise only that row's status changes |
| Loans.LoanStore.RejectLoan | backend/controllers/loanController.js:209-246 | succeeds exactly when the status table maps rejection to deletion (the loan exists and is pending), and the row is then gone. A missing id gives 404 and a non-pending loan 400, with no change. Otherwise exactly that row is removed, and the reply carries it with the given notes |
| Loans.LoanStore.ReturnBook | backend/controllers/loanController.js:261-309 | succeeds exactly when the status table allows a return (the loan exists and is dipinjam), and the new status is the table's entry, dikembalikan. A missing id gives 404, a returned loan 400 "already returned", and any other status 400, with no change. On success the row takes the supplied return date or today, with notes replaced only when given |
| Loans.InsertKeepsInvariant | backend/controllers/loanController.js:34-60 | a fresh pending row for a pair with no outstanding loan keeps the one-outstanding-loan-per-pair invariant |
| Loans.ReplaceKeepsInvariant | backend/controllers/loanController.js:174-183 | an in-place update that keeps user, book and id and does not make a row outstanding keeps the table invariant |
| Loans.BorrowAgainAfterReturn | backend/controllers/loanController.js:34-47 | for a pair with no open loan, a second request right after the first is refused with 400, and once the first is approved and returned a new pending loan for the same pair is accepted |
| Loans.ApproveThenReturn | backend/controllers/loanController.js:182-295 | approving a pending loan and then returning it closes that row with today's date and changes no other row |
| Loans.Listed | backend/controllers/loanController.js:97-100 | the listing holds exactly the matching rows, each once, in strictly descending id order |
| Loans.FindAll | backend/controllers/loanController.js:129-139 | a loan is listed exactly when it is in the table and matches the filter; the list is newest first |
| Loans.MyLoans | backend/controllers/loanController.js:92-100 | exactly the caller's rows, of the requested status when one is given, newest first |
| Loans.AllLoans | backend/controllers/loanController.js:123-139 | exactly the rows matching the optional status and user filters, and every row when neither is given, newest first |
| Loans.UnknownStatusListsNothing | backend/controllers/loanController.js:126 | a status filter that names no status of the enum lists nothing |
| Loans.LoanStatistics | backend/controllers/loanController.js:326-347 | the total is the table size and each named count is the number of rows with that status. The per-status map holds exactly the statuses in use, with their counts |
| Loans.CountsPartitionTable | backend/controllers/loanController.js:334-337 | the four status counts add up to the table size |
| Loans.StatisticsAddUp | backend/controllers/loanController.js:334-337 | in every table the handlers can produce, active + pending + returned equals the total |
| PublicBooks.MaxResults | backend/controllers/publicBookController.js:19 | the page size is the parsed limit, or 20 when the limit is absent, NaN or 0; it is never 0 |
| PublicBooks.PageNumber | backend/controllers/publicBookController.js:10-35 | an absent page is page 1; a given page is `parseInt` of its text (NaN when it does not parse) |
| PublicBooks.StartIndex | backend/controllers/publicBookController.js:20 | the offset is NaN exactly when the page is, and otherwise `(page - 1) * maxResults` |
| PublicBooks.DecimalPageStart | backend/controllers/publicBookController.js:20 | page `n` written in decimal starts `n - 1` pages in |
| PublicBooks.PagesAreConsecutive | backend/controllers/publicBookController.js:20 | consecutive page numbers give adjacent windows of `maxResults` |
| PublicBooks.FirstPageStartsAtZero | backend/controllers/publicBookController.js:10-20 | the first page, given or defaulted, starts at 0 whatever the limit |
| PublicBooks.SearchBooks | backend/controllers/publicBookController.js:10-39 | a missing or blank `q` gives 400; a failed catalog request gives 500 with the catalog's message. It succeeds exactly otherwise, with the page, the page size and the shaped listing |
| PublicBooks.BlankQueryIgnoresCatalog | backend/controllers/publicBookController.js:12-17 | a blank query is refused whatever the catalog would answer |
| PublicBooks.GetBookDetail | backend/controllers/publicBookController.js:55-70 | a failed lookup gives 404 with the catalog's message; otherwise the formatted record |
| PublicBooks.BooksByCategory | backend/controllers/publicBookController.js:86-113 | a failed lookup gives 500 with the catalog's message; otherwise the page, the page size and the shaped listing |
| PublicBooks.FailureCodesDiffer | backend/controllers/publicBookController.js:24-103 | the same catalog failure is 500 for search and category lists but 404 for a single book |
| PublicBooks.Categories | backend/controllers/publicBookController.js:129-140 | always the same ten categories, with distinct ids |
| PublicBooks.Breakdown | backend/controllers/publicBookController.js:168-181 | the breakdown lists exactly the categories whose lookup succeeded with a non-zero total, each with that total |
| PublicBooks.AllCountedInOrder | backend/controllers/publicBookController.js:168-181 | when every lookup counts, the breakdown lists every category with its total in the fixed order |
| PublicBooks.CountedIndices | backend/controllers/publicBookController.js:171 | the positions of the counted lookups (successful with a non-zero total), each exactly once, in increasing order |
| PublicBooks.BreakdownInOrder | backend/controllers/publicBookController.js:168-181 | whichever lookups fail, the breakdown has one entry per counted lookup, and its k-th entry is the k-th counted category with its total, in the fixed category order |
| PublicBooks.BreakdownAddsUp | backend/controllers/publicBookController.js:168-181 | the breakdown's counts add up to the accumulated total |
| PublicBooks.BookStatistics | backend/controllers/publicBookController.js:164-198 | the loop builds the breakdown. The total is the sum of the counted totals, or 40000000 when that sum is 0; 5 estimated categories are reported, and the average is `floor(total / 5)` |
| PublicBooks.AllFailedUsesFallback | backend/controllers/publicBookController.js:184-186 | when every lookup fails the sum is 0, so the fallback estimate is used |

## Left out

- Express wiring is not modelled: routing, CORS, static files, the server start-up and the generic error handlers in `backend/index.js` and `backend/routes/*.js`.
  - The route order in `backend/routes/bookRoutes.js` lets `/:bookId` shadow `/statistics`. The statistics handler is modelled on its own terms.
- Each handler's `catch` that answers 500 with the thrown message is not modelled. That covers store failures, and anything bcrypt, JWT or the catalog throw beyond what the parameters above express.
- The one store exception that is modelled is a unique `api_key` collision on insert or update. It is 500 "Validation error" with no change.
- bcrypt, JWT signing and verification, `crypto.randomBytes` and base64 encoding are parameters or inputs, as listed above. JWT expiry is part of `Verifier`.
- The HTTP exchange with the catalog is an input, including the query parameters it would send. Its error logging is not modelled.
- Concurrency is not modelled: the model is sequential.
  - The check-then-insert races in `register` and `createLoan` do not arise.
  - `rejectLoan` saves the notes and then destroys the row. The intermediate save is not visible in the model.
- Deleting a user cascades to that user's loans in the database. The two tables live in separate classes, and the cascade is not modelled.
- `getAllLoans` and the admin loan handlers join in the owner's name and email. The join and the response texts of successful replies (`message` fields, `user` names, `lastUpdated`, `source`) are not modelled.
- `averageRating` is a floating-point field and is not modelled.
- `JWT_SECRET` is read once at module load in the session gate and the auth controller. Here it is the `jwtSecret` of the `Env` record passed to each call.
- Request bodies, headers and query parameters are `Option<string>`, except the email, name and password of `register` and `login`, which are JSON values (`Js.Value`). Non-string body fields elsewhere (numbers, arrays) are not modelled, and neither are query parameters that Express parses as arrays (`?q=a&q=b`). An array `q` makes `q.trim()` throw, so the search answers 500. An array `page` or `limit` is read by `parseInt` through its comma-joined text. An array `status` or `user_id` reaches the store's `where` clause as a set of values.
- Js.ToLower: only the ASCII letters are lower-cased; JavaScript's full Unicode case mapping is not modelled.
- Accounts.RegisterGuard: string lengths are counted in code points, not in UTF-16 code units as `String.prototype.length` counts them.
- Js.ParseInt: results are unbounded integers. JavaScript's loss of precision above 2^53 and `Infinity` are not modelled.
- Loans.AllLoans: the `user_id` query parameter is taken as an already converted `Option<int>`; the store's coercion of the query string is not modelled.
- Loans.LoanStore.CreateLoan: the catalog's `id` for the book is not compared with `book_id`; the handler does not compare them either.
- Loans.LoanStatistics: the grouped counts are a map from status to count; the order of the store's group-by rows is not modelled.
- PublicBooks.BookStatistics: a lookup that throws is treated like one that reports failure, as the handler's inner `catch` does; the log line is not modelled.
- The ordering by `created_at` is modelled as ordering by id. Loans created in the same timestamp tick have equal `created_at`, and the store's order among them is unspecified. Descending id is one order the store may return, with such ties broken by id.
