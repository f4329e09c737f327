# arabic-lesson-restAPI: pagination engine, lesson rules and credential checks in Dafny

This project models the logic at the core of an Axum/sqlx REST service for Arabic lessons.
It proves properties of that model.

- **Pagination engine** (`Pagination`, pagination.dfy): `paginate_query` and `add_pagination_headers` of src/utils/pagination.rs.
  - `paginate_query` derives a `COUNT(*)` wrapper from a query fragment and computes `offset = (page - 1) * limit` on i64.
  - It answers NotFound when the offset is at or past the count. Otherwise it appends `LIMIT $n OFFSET $n+1` to the sqlx `QueryBuilder` and fetches the page.
  - `add_pagination_headers` writes X-Total-Count, X-Page and X-Per-Page.
  - The `QueryBuilder` is a class whose `sql` and `args` the engine changes in place.
  - The database is a snapshot: `rows` is what the fragment selects. Each round trip is either answered or fails; a Boolean parameter says which.
  - LIMIT and OFFSET are applied as PostgreSQL applies them. A negative OFFSET is an error, then a negative LIMIT. An offset past the end gives no rows.
- **Textbook listing** (`Textbooks`, textbook.dfy): `TextbookQuery` and `get_all_textbooks`.
  - The listing builds `SELECT * FROM textbook WHERE 1=1 ORDER BY id` and runs the engine on it.
  - NotFound maps to 404, an error to 500, and a page to 200 with the pagination headers.
  - The header total comes from a separate, unfiltered count.
  - `ORDER BY id` is modelled as a sort by id (`OrderById`).
- **Lesson handlers** (`Lessons`, lesson.dfy): the tables `lesson` and `word` are fields of a `LessonStore` class.
  - `get_lessons` and `get_all_word_for_lesson` are filters that answer 404 instead of an empty list.
  - `update_lesson_patch` refuses an empty patch. Otherwise it merges the patch into the row with a `COALESCE` per column.
  - `delete_lesson` removes the row with the id.
  - The two statements that change the table are methods.
- **Credential checks** (`Auth`, auth.dfy): the validators `validate_username` and `validate_password`, and the order in which `register` applies them.
  - Also modelled: the outcome mapping of `is_valid_user`, and the bearer-token extraction of `get_info_handler`.
  - The token is the `Authorization: Bearer <token>` field of section 2.1 of RFC 6750.
  - `str::len` is the UTF-8 byte length.
  - Unicode's Alphabetic and Numeric classes beyond ASCII are a parameter (`UnicodeClasses`). `is_digit(10)` is ASCII only.

Shared pieces:

- `Common`: Option, i64/i32 and two's-complement wrap-around.
- `Decimal`: `to_string` of integers and its parser.
- `Http`: a response is status, body and `HeaderMap`. Header names are in lower case.
  - The `http` crate's behaviour is taken as given, not proved: `insert` replaces every earlier value, and `get` returns the first value.
  - `HeaderValue::from_str` accepts every byte except the control bytes other than tab, so 0x7F is refused.
  - `HeaderValue::to_str` needs every byte to be tab or visible ASCII.

The model follows the code:

- A failed count becomes 0 instead of failing the request.
- An empty set with page and limit given is NotFound, not an empty page.
- Windowing needs both page and limit.
- Page and limit are never range-checked.
- The headers are X-Total-Count, X-Page and X-Per-Page; no `Content-Range` header is written.

## Model

| member | source | states |
|---|---|---|
| Common.Wrap64 | src/utils/pagination.rs:45 | the i64 result of an overflowing `*` or `-` is congruent to the exact value modulo 2^64, and equals it when the exact value fits |
| Decimal.IntToDecimal | src/utils/pagination.rs:66-74 | `to_string` writes at least one char: a '-' exactly when the number is negative, then only digits |
| Decimal.DecimalRoundTrip | src/utils/pagination.rs:66-74 | reading back the text `to_string` writes gives the same integer, so the headers carry the numbers exactly |
| Http.Insert | src/utils/pagination.rs:67 | `HeaderMap::insert` leaves exactly one value under the name, adds the name to the keys and keeps every other header |
| Pagination.QueryBuilder.constructor | src/handlers/textbook.rs:38 | a new builder holds the initial text and no bound values |
| Pagination.QueryBuilder.Push | src/utils/pagination.rs:51-52 | `push` appends the text and binds nothing |
| Pagination.QueryBuilder.PushBind | src/utils/pagination.rs:51-52 | `push_bind` appends the value to the bindings and writes the placeholder `$n`, where n counts the bindings including this one |
| Pagination.FirstPlaceholders | src/utils/pagination.rs:51-52 | the first two placeholders are "$1" and "$2" |
| Pagination.LimitOffset | src/utils/pagination.rs:51-56 | LIMIT/OFFSET: errors exactly on a negative offset or limit (offset first); otherwise `min(limit, n - offset)` rows (none past the end), row i being row offset+i |
| Pagination.CountSql | src/utils/pagination.rs:32-35 | the count text is the fragment, verbatim, between "SELECT COUNT(*) FROM (" and ") AS subquery" |
| Pagination.TotalCount | src/utils/pagination.rs:38-41 | the total never exceeds the set's size, and equals it exactly when the count succeeds or the set is empty (`unwrap_or(0)`) |
| Pagination.Paginate | src/utils/pagination.rs:43-57 | the engine's result: NotFound only when page and limit are both given; an error only from a failed fetch or a negative offset or limit; a success holds no more rows than the set, all of them from it |
| Pagination.PaginateQuery | src/utils/pagination.rs:26-58 | the count text is the wrapper around the fragment before windowing. The count is sent without bindings, so it fails, and the total is 0, whenever the fragment already binds a value. The result is `Paginate` of the snapshot with that count. The builder gains " LIMIT $k OFFSET $k+1" bound to limit and offset exactly when both are given and the offset is below the count; otherwise it is unchanged |
| Pagination.BoundFragmentLosesFirstPage | src/utils/pagination.rs:38-49 | with a lost count, page 1 of a non-empty set is NotFound; with a count that carried the bindings it is the set's first rows |
| Pagination.NotFoundIff | src/utils/pagination.rs:44-49 | NotFound exactly when page and limit are both given and the wrapped offset is at or past the count (0 when the count failed) |
| Pagination.UnwindowedReturnsAll | src/utils/pagination.rs:44-57 | without page or without limit, every row of the fragment comes back as a success |
| Pagination.EmptySetIsNotFound | src/utils/pagination.rs:47-49 | an empty set with a non-negative offset is NotFound, not an empty success |
| Pagination.FailedCountIsNotFound | src/utils/pagination.rs:38-49 | a failed count becomes 0, so every windowed request with a non-negative offset is NotFound |
| Pagination.Offset | src/utils/pagination.rs:45 | the offset is congruent to (page-1)*limit modulo 2^64, and equal to it whenever that product fits in i64 |
| Pagination.OffsetWrapsAround | src/utils/pagination.rs:45 | past that the product wraps: page 2^62+1 with limit 4 has offset 0 |
| Pagination.WindowIsSlice | src/utils/pagination.rs:51-57 | inside the set, the page is the slice from the offset to offset+limit, cut at the end |
| Pagination.ZeroLimitIsEmptySuccess | src/utils/pagination.rs:44-57 | limit 0 on a non-empty set is a success with no records |
| Pagination.PageZeroIsDatabaseError | src/utils/pagination.rs:44-56 | page 0 is not rejected by the engine: the offset -limit is below the count, and the database refuses the negative OFFSET |
| Pagination.PageIsSlice | src/utils/pagination.rs:44-57 | page k, while its first row is inside the set, holds rows (k-1)*limit up to k*limit |
| Pagination.PagesConcatenate | src/utils/pagination.rs:44-57 | for N rows and limit L > 0, pages 1..ceil(N/L) concatenate to exactly the ordered set, with no gap and no repeat |
| Pagination.PageOffsetExact | src/utils/pagination.rs:45 | up to one past the last page, the offset does not wrap |
| Pagination.LastPageThenNotFound | src/utils/pagination.rs:44-57 | every page up to ceil(N/L) is a non-empty success and the next page is NotFound |
| Pagination.TwentyFiveRowsAtTenPerPage | src/utils/pagination.rs:44-57 | 25 rows, 10 per page: pages 1-3 are rows 0-9, 10-19 and 20-24; page 4 is NotFound |
| Pagination.DecimalIsHeaderValue | src/utils/pagination.rs:66-76 | the decimal text of any integer is a valid header value, so each `if let Ok` branch is taken |
| Pagination.AddPaginationHeaders | src/utils/pagination.rs:61-79 | status and body unchanged; the header map is the old one with X-Total-Count, X-Page and X-Per-Page inserted in that order |
| Pagination.PaginationHeadersMeaning | src/utils/pagination.rs:61-79 | each of the three headers holds one value that reads back as the total, the page (1 if absent) and the limit (10 if absent); every other header is untouched |
| Textbooks.TextbookQuery.Page | src/handlers/textbook.rs:24-26 | `page()` hands the query string's page to the engine unchanged: None when absent, no default, no range check |
| Textbooks.TextbookQuery.Limit | src/handlers/textbook.rs:28-30 | `limit()` hands the query string's limit to the engine unchanged: None when absent, no default, no range check |
| Textbooks.InsertById | src/handlers/textbook.rs:40 | inserting into a list sorted by id keeps it sorted, and the multiset gains exactly that row |
| Textbooks.OrderById | src/handlers/textbook.rs:40 | `ORDER BY id` yields a permutation of the table sorted by id |
| Textbooks.GetAllTextbooks | src/handlers/textbook.rs:33-61 | 200 with the engine's page and the pagination headers (total from the unfiltered count, 0 if it fails), 404 with no headers on NotFound, 500 on an error. Statements sent: the count wrapper of "SELECT * FROM textbook WHERE 1=1 ORDER BY id" first, then on 200 the data query (windowed exactly when page and limit are both given) and "SELECT COUNT(*) FROM textbook" |
| Textbooks.HeaderCountIsEngineCount | src/handlers/textbook.rs:46-49 | the fragment has no filter, so when both counts succeed X-Total-Count equals the engine's count |
| Textbooks.PagesSortedById | src/handlers/textbook.rs:38-43 | every page returned is in ascending id order |
| Textbooks.TextbookPagesConcatenate | src/handlers/textbook.rs:38-43 | the pages of the listing concatenate to the whole table, sorted by id, each textbook as often as in the table |
| Lessons.Filter | src/handlers/lesson.rs:23-34 | a WHERE keeps each matching row exactly as often as the table has it, and no other row |
| Lessons.Merge | src/handlers/lesson.rs:126-134 | COALESCE: each patched column takes the new value if given, else keeps the old; id and created_at stay |
| Lessons.UpdateWhereId | src/handlers/lesson.rs:126-134 | the UPDATE merges the patch into exactly the rows with that id; every other row and the order are kept |
| Lessons.FindById | src/handlers/lesson.rs:142 | `fetch_optional` finds a row exactly when one has the id |
| Lessons.LessonStore.GetLessons | src/handlers/lesson.rs:15-53 | 500 on a failed query; 404 when no lesson matches the optional textbook id; otherwise 200 with exactly the matching lessons, each as often as in the table |
| Lessons.LessonStore.GetAllWordForLesson | src/handlers/lesson.rs:185-212 | 500 on a failed query; 404 when no word has that lesson id; otherwise 200 with exactly those words |
| Lessons.LessonStore.UpdateLessonPatch | src/handlers/lesson.rs:113-153 | an empty patch answers 400 "No fields to update" and a failed query 500 "Failed to update lesson", both with the table untouched. Otherwise the table becomes the merged one; 200 with the merged row, or 404 "Lesson with id {id} not found" with the table unchanged |
| Lessons.LessonStore.DeleteLesson | src/handlers/lesson.rs:158-181 | a failed query answers 500 with the table untouched; otherwise the rows with the id are removed, 204 if there was one, else 404 with the table unchanged |
| Lessons.DeleteRemovesOnlyThatId | src/handlers/lesson.rs:162-175 | after a delete no row has the id, and every other row is kept as often as before |
| Lessons.PatchIdempotent | src/handlers/lesson.rs:126-134 | applying the same patch twice leaves the table as applying it once |
| Lessons.EmptyPatchChangesNothing | src/handlers/lesson.rs:119-124 | an empty patch would change nothing |
| Lessons.UnfilteredListsAll | src/handlers/lesson.rs:29-34 | without a textbook id every lesson is listed, in table order |
| Lessons.UpdateOfMissingIdChangesNothing | src/handlers/lesson.rs:145-147 | a patch of an id no row has leaves the table as it was |
| Auth.CharLen | src/auth/handlers.rs:171 | a char takes 1 to 4 bytes, 1 exactly for ASCII |
| Auth.Utf8Len | src/auth/handlers.rs:171 | the byte length is between the char count and four times it, and 0 only for the empty text |
| Auth.ValidateUsername | src/auth/handlers.rs:164-181 | accepted exactly when at least 3 bytes long and made of letters, digits, '_' and '-'. Failures are reported in the order empty, then short, then bad char, with the source's messages |
| Auth.TwoCharUsernameAccepted | src/auth/handlers.rs:171-180 | `len()` counts bytes: two letters beyond ASCII make an accepted username |
| Auth.ValidatePassword | src/auth/handlers.rs:184-202 | as written: accepted exactly when at least 6 bytes and not (a digit and no letter); empty, then short, then mixed, with the source's messages |
| Auth.PasswordWithoutDigitAccepted | src/auth/handlers.rs:195-201 | as written "abcdef", which has no digit, is accepted; the intended rule rejects it |
| Auth.ValidatePasswordIntended | src/auth/handlers.rs:194-199 | accepted exactly when at least 6 bytes with a digit and a letter; same messages and order |
| Auth.Register | src/auth/handlers.rs:23-64 | password first, then username: either failure answers 400 `{"error": message}` with no insert. A hash failure answers 500 with its text and an insert failure 500, both without a row; otherwise 200 with the new row, appended to the table. The password check is a parameter: `AsWritten` is `ValidatePassword`, the handler as it stands; `Intended` is `ValidatePasswordIntended` |
| Auth.RegisterReportsPasswordFirst | src/auth/handlers.rs:29-38 | under either password rule, when both inputs are invalid the password's message is reported, not the username's, and nothing is inserted |
| Auth.RegisteredUsersAreValid | src/auth/handlers.rs:29-64 | the table grows only by one row, whose username is at least 3 bytes of letters, digits, '_' and '-' and whose password is at least 6 bytes. As written the password only avoids "a digit and no letter"; under the intended rule it holds a digit and a letter |
| Auth.RegisterAcceptsPasswordWithoutDigit | src/auth/handlers.rs:29-60 | as written, "bob" with "abcdef" is answered 200 and inserted; under the intended rule the same request is refused with the digit message |
| Auth.FindHash | src/auth/handlers.rs:113-125 | the lookup finds a hash exactly when some user has the name; it is the first such user's in table order (see Left out for duplicate names) |
| Auth.IsValidUser | src/auth/handlers.rs:112-137 | DatabaseError exactly on a failed query; InvalidCredentials for an unknown name; Valid exactly when the first user with the name, in table order, has a hash that bcrypt verifies as `Ok(true)` |
| Auth.TrimStartMatches | src/auth/handlers.rs:145 | the result never starts with the prefix and is a suffix of the input |
| Auth.TrimRemovesLeadingCopies | src/auth/handlers.rs:145 | what `trim_start_matches` removes is exactly the leading copies of the prefix |
| Auth.BearerToken | src/auth/handlers.rs:142-145 | no token exactly when the Authorization header is missing, not visible ASCII, or does not start with "Bearer ". A token never starts with "Bearer ", and the header is one or more "Bearer " followed by it |
| Auth.BearerTokenOfPrefixes | src/auth/handlers.rs:142-145 | conversely, any number k ≥ 1 of "Bearer " before a visible-ASCII token that does not itself start with one yields that token |
| Auth.GetInfoHandler | src/auth/handlers.rs:139-161 | 200 with "You are valid here is info" exactly when a token is extracted and accepted, 401 with no body otherwise |

## Left out

- Async execution, the `PgPool`, sqlx binding and row decoding: the store is a sequence of rows per table. A failed round trip is a Boolean parameter.
- Concurrency between the count and the data round trips of `paginate_query`: both read the same snapshot.
- `Content-Range`: no handler of the core writes it, so it is not modelled.
- Pagination.Offset: follows the release profile, where `(page - 1) * limit` wraps on i64. A debug build panics on that overflow instead.
- Textbooks.GetAllTextbooks: rows with equal ids come in the order `OrderById` picks. PostgreSQL leaves that order unspecified; the schema, which would make ids unique, is not part of this model.
- Lessons.LessonStore.GetLessons and Lessons.LessonStore.GetAllWordForLesson: a `SELECT` without `ORDER BY` is modelled as returning rows in table order. PostgreSQL promises no order, so the contracts speak of multisets.
- Auth.FindHash and Auth.IsValidUser: usernames are assumed unique. The lookup has no `ORDER BY`, so with duplicate names PostgreSQL may return any of their hashes, while the model takes the first in table order. The schema, which could make names unique, is not part of this model.
- bcrypt `hash` and `verify`, JWT `encode` and `decode`, `env::var` and `chrono::Utc::now`: foreign calls. `hash` is an optional result, `verify` and token validity are function parameters, and NOW() is a parameter.
- `login`: beyond the `is_valid_user` mapping it only issues a JWT, a foreign call.
- Unicode's Alphabetic and Numeric tables beyond ASCII: a parameter, `UnicodeClasses`.
- Routing, CORS and server setup (src/main.rs, src/lessons/routes.rs) and the `AppState` shells: no logic of the core.
- src/handlers/word.rs, src/state.rs, src/handlers.rs, and `get_leson`, `create_lesson` and the other textbook handlers: single statements whose only Rust-side logic is mapping `Ok(Some)`, `Ok(None)` and `Err` to a status.
- The serializer structs disagree with the SQL (`volume` for `textbook_id`, `lesson` for `lesson_id`): columns are modelled as the SQL names them.
- JSON serialisation of a body is not modelled; a body is the value it carries.
- What the schema does on delete (foreign keys from `word`): the schema is not part of this model, so `DeleteLesson` leaves table `word` unchanged.
- The unused `Impossible`, `FailedToBufferBody` and `debug_handler` imports: no behaviour.

## Findings

| source | as written | input that shows it | evidently intended | confidence | as-written member | corrected member |
|---|---|---|---|---|---|---|
| src/auth/handlers.rs:198 | `has_digit && has_letter == false` parses as `has_digit && !has_letter`, so only a password with a digit and no letter is rejected | "abcdef", which has no digit, is accepted, and `register` inserts "bob" with it | the comment and the message ask for at least one digit and one letter: reject unless both are present (`Register` under the rule `Intended`) | high, not executed | Auth.ValidatePassword, Auth.PasswordWithoutDigitAccepted, Auth.RegisterAcceptsPasswordWithoutDigit | Auth.ValidatePasswordIntended, Auth.Register, Auth.RegisteredUsersAreValid |
| src/utils/pagination.rs:38 | the count query is built from `builder.sql()` and sent with no `.bind`, and `unwrap_or(0)` hides its failure | a fragment `... WHERE textbook_id = $1` bound to an id that has rows, with page 1 and limit 10: the count's placeholder is unbound, PostgreSQL refuses it, the total is 0, and the answer is NotFound | count with the fragment's own bindings, so page 1 of a non-empty set is its first rows (`Paginate` given the count's own outcome) | medium, not executed: no caller in this core binds a value, so the listing is not affected | Pagination.PaginateQuery, Pagination.BoundFragmentLosesFirstPage | Pagination.Paginate, Pagination.PagesConcatenate, Pagination.LastPageThenNotFound |
