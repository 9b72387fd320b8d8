# Q&A service: a verified model

The service is a small HTTP API for questions and their answers, stored in PostgreSQL.
This project models its core in Dafny:

- the two tables, `question` and `answers`, with id sequences and `created_at` stamps;
- the five routes on questions:
  - list with filter, sort, window and total count;
  - create;
  - get with answers;
  - delete with cascade;
  - add an answer;
- the two routes on answers: get and delete;
- the request validation: non-blank stripped text, `user_id` as a UUID;
- the settings that build the two PostgreSQL connection strings, with their percent-escaped credentials.

Modules follow the program's structure:

| module | file | models |
|---|---|---|
| `Wrappers`, `Errors` | wrappers.dfy | `Option`/`Result`; the three error kinds and their HTTP status codes |
| `PyStr` | pystr.dfy | `str.strip` and the substring test |
| `UrlQuote` | quote.dfy | `urllib.parse.quote(s, safe="")` with UTF-8, and its inverse |
| `Settings` | settings.dfy | `app/core/settings.py` |
| `Schemas` | schemas.dfy | `app/schemas.py`: the text validators, UUID parsing and formatting |
| `Seqs` | seqs.dfy | filtering, sorting, windows and pages of sequences |
| `Models` | models.dfy | `app/models.py`: rows, lookups, the answers relationship, the cascade |
| `Questions` | questions.dfy | the read routes of `app/api/questions.py` |
| `Answers` | answers.dfy | the read route of `app/api/answers.py` |
| `Store` | store.dfy | class `QaStore`, its table invariant and the write routes of both API files |

Reads are pure functions of the tables. Writes are methods of `Store.QaStore` that update the table fields in place.
A write that fails changes nothing.
A write that succeeds keeps `Valid()`:

- ids are unique, increasing, and below the next id;
- texts are stripped and non-blank;
- stored user ids parse as UUIDs;
- `created_at` never decreases with the id;
- there are no orphan answers.

The clock is a parameter. Each insert takes the time `elapsed` since the previous insert; deletes do not move the clock.

## Model

| member | source | states |
|---|---|---|
| Errors.StatusCode | app/api/questions.py:78-79 | not found is 404, a validation error is 422, and every error is a 4xx or 5xx code |
| PyStr.Strip | app/schemas.py:21-23 | the stripped text has no leading or trailing whitespace; it is empty exactly when the input is all whitespace |
| PyStr.StripIsTrimmedSlice | app/schemas.py:23 | the stripped text is a slice of the input; only whitespace lies before and after it |
| PyStr.StripIdempotent | app/schemas.py:23 | stripping twice is stripping once |
| Schemas.QuestionNotEmpty | app/schemas.py:17-23 | rejected with a validation error exactly when the text is empty or all whitespace; otherwise the result is the stripped text, non-blank and normalised |
| Schemas.AnswerTextNotEmpty | app/schemas.py:45-51 | the same contract for the answer text |
| Schemas.QuestionNotEmptyIdempotent | app/schemas.py:17-23 | validating an accepted value again gives the same value |
| Schemas.AnswerTextNotEmptyIdempotent | app/schemas.py:45-51 | validating an accepted answer text again gives the same value |
| Schemas.NormalTextIsFixedPoint | app/schemas.py:21-23 | the validator returns its input unchanged exactly when the input is already normalised text |
| Schemas.ValidatorsAgree | app/schemas.py:17-23 | the question and answer validators accept and reject the same texts, with the same results |
| Schemas.HexDigit | app/schemas.py:42 | every lower-case digit written reads back as its value |
| Schemas.ParseHex | app/schemas.py:42 | parsing succeeds exactly when every character is a hex digit, in either case; the result has one nibble per character, the value of that digit |
| Schemas.ParseHexString | app/schemas.py:42 | parsing the hex digits written for a nibble sequence gives that sequence back |
| Schemas.FormatUuid | app/api/questions.py:107 | `str(uuid)` is 36 characters with hyphens at positions 8, 13, 18 and 23, so it fits the `String(36)` user id column |
| Schemas.HyphenatedDigits | app/api/questions.py:107 | removing the four hyphens of the 8-4-4-4-12 spelling gives back its 32 digits |
| Schemas.ParseUuid | app/schemas.py:42 | accepted exactly when (`IsUuidText`) the text is 36 characters with hyphens at 8, 13, 18 and 23 and hex digits elsewhere, or 32 hex digits; the UUID's digits are the values of those characters, in order |
| Schemas.BareFormParsesAlike | app/schemas.py:42 | the 32-digit and the hyphenated spelling of a UUID both parse to that UUID |
| Schemas.ParseUuidIgnoresCase | app/schemas.py:42 | upper-casing the text does not change whether or to what it parses |
| Schemas.FormatThenParseUuid | app/api/questions.py:107 | the stored `user_id` string reads back as the caller's UUID |
| Schemas.ValidateAnswerCreate | app/schemas.py:41-57 | the body is accepted exactly when `user_id` is a UUID and the text is not blank; the accepted body holds that UUID and the stripped text; otherwise a validation error |
| Settings.WithDefaults | app/core/settings.py:37-55 | only the three required fields are set; every other field has its declared default: `env` "local", `app_name` "hitalent", hosts and ports unset, echo off, pool size 5, overflow 10, pre-ping on |
| Settings.StringOr | app/core/settings.py:61-62 | `x or default` on an optional string: the value when set and non-empty, else the default |
| Settings.IntOr | app/core/settings.py:68-69 | `x or default` on an optional int: the value when set and non-zero, else the default |
| Settings.PostgresHost | app/core/settings.py:57-62 | in "docker" the docker host or "db"; otherwise the local host or "127.0.0.1"; never empty |
| Settings.PostgresPort | app/core/settings.py:64-69 | in "docker" the docker port or 5432; otherwise the local port or 5432; never 0 |
| Settings.NatDigits | app/core/settings.py:82 | the decimal spelling of a port is non-empty and made of digits, "0" exactly for zero and otherwise without a leading zero |
| Settings.DecimalString | app/core/settings.py:82 | `str(int)`: digits, with a leading minus only for a negative number, and no leading zero before a non-zero number, after the minus too |
| Settings.NatDigitsValue | app/core/settings.py:82 | the digits written for `n` have the value `n` |
| Settings.DecimalRoundTrip | app/core/settings.py:82 | parsing `str(n)` gives `n` back, for every integer |
| UrlQuote.EncodeChar | app/core/settings.py:74 | one to four UTF-8 bytes per character; ASCII maps to itself |
| UrlQuote.Utf8 | app/core/settings.py:74 | the UTF-8 encoding has between one and four bytes per character |
| UrlQuote.DecodeChar | app/core/settings.py:74 | a decoded character consumes between one byte and all the remaining bytes |
| UrlQuote.DecodeEncodedChar | app/core/settings.py:74 | decoding the front of an encoded character gives the character and its length |
| UrlQuote.Utf8RoundTrip | app/core/settings.py:74 | decoding the UTF-8 encoding gives back the text |
| UrlQuote.UpperHexValue | app/core/settings.py:74 | the value is defined exactly on upper-case hex digits and lies below 16 |
| UrlQuote.QuoteByte | app/core/settings.py:74 | an unreserved ASCII byte stays as it is; any other byte becomes `%` and two upper-case hex digits holding its value |
| UrlQuote.QuoteBytes | app/core/settings.py:74 | only unreserved characters and `%` appear in the output |
| UrlQuote.Quote | app/core/settings.py:71-74 | the escaped text holds only unreserved characters and `%`, so no `:`, `@` or `/` |
| UrlQuote.UnquoteQuotedByte | app/core/settings.py:74 | unquoting one escaped byte gives the byte back and continues on the rest |
| UrlQuote.UnquoteQuoteBytes | app/core/settings.py:74 | unquoting quoted bytes gives the bytes back |
| UrlQuote.QuoteRoundTrip | app/core/settings.py:71-74 | percent-decoding and then UTF-8-decoding the escaped text gives the original text: escaping loses nothing |
| UrlQuote.QuoteKeepsUnreserved | app/core/settings.py:71-74 | text of unreserved characters only is not changed |
| Settings.DatabaseUrlSync | app/core/settings.py:76-83 | the URL starts with `postgresql+psycopg://`; the user and password read back out of it; after its first `@` come exactly the host, `:`, the decimal port, `/` and the database name; the text between the scheme and that `@` is escaped user and password text, exactly one `:` apart |
| Settings.DatabaseUrlAsync | app/core/settings.py:85-92 | the URL starts with `postgresql+asyncpg://`; the user and password read back out of it; after its first `@` come exactly the host, `:`, the decimal port, `/` and the database name; the text between the scheme and that `@` is escaped user and password text, exactly one `:` apart |
| Settings.DatabaseUrlSyncAlias | app/core/settings.py:95-97 | the lower-case name gives the same URL as `DATABASE_URL_SYNC` |
| Settings.DatabaseUrlAsyncAlias | app/core/settings.py:99-101 | the lower-case name gives the same URL as `DATABASE_URL_ASYNC` |
| Settings.DsnsDifferOnlyInScheme | app/core/settings.py:76-92 | the two URLs have equal length and agree character for character after their schemes |
| Settings.IndexOf | app/core/settings.py:81-82 | the first position of a delimiter, or the length when it is absent |
| Settings.IndexOfAfterFree | app/core/settings.py:81-82 | a delimiter after a text free of it is found right after that text |
| Settings.SchemeThenAuthority | app/core/settings.py:80-82 | reading credentials after a known scheme reads the authority |
| Settings.SplitCredentials | app/core/settings.py:81-82 | with both parts escaped, the first `:` ends the user and the first `@` ends the password |
| Settings.AuthorityCredentialsRecoverable | app/core/settings.py:79-92 | under any scheme, splitting the URL at its first `:` and `@` and unescaping recovers the exact user and the exact password, whatever characters they contain |
| Settings.QuotedUserInfo | app/core/settings.py:79-92 | escaped user and password after a scheme free of `@` make the URL's user information: only unreserved characters and `%`, with exactly one `:` |
| Settings.HostPartAfterCredentials | app/core/settings.py:79-92 | after a scheme free of `@`, the text after the URL's first `@` is exactly `host:port/db`: the escaped credentials hold no `@` |
| Settings.AfterFirstAt | app/core/settings.py:81-82 | in `scheme user:password@tail` with no `@` in scheme, user or password, the text after the first `@` is `tail` |
| Settings.SchemesHoldNoAt | app/core/settings.py:79-92 | neither `postgresql+psycopg://` nor `postgresql+asyncpg://` holds an `@` |
| Settings.DefaultHostPart | app/core/settings.py:57-69 | with host and port unset in "local", the authority ends with `127.0.0.1:5432/` and the database |
| Settings.DefaultAuthority | app/core/settings.py:76-83 | with only the required fields set, the URL after the scheme is `quote(user):quote(password)@127.0.0.1:5432/db` |
| Seqs.Filter | app/api/questions.py:46-47 | the filtered rows are exactly the rows the predicate keeps, never more than the input |
| Seqs.FilterMultiset | app/api/questions.py:46-47 | every kept row appears as often as in the input, and no other row appears |
| Seqs.FilterKeepsOrder | app/api/questions.py:46-47 | the kept rows stay in their order: the `k`-th is the row at the `k`-th kept position, the positions increase, and no position of a row the predicate keeps is missed |
| Seqs.FilterAll | app/api/questions.py:46-47 | a condition every row meets keeps all rows, in order: no `q` means no filter |
| Seqs.FilterSizeIsCount | app/api/questions.py:38-41 | the number of filtered rows is the count of rows the predicate keeps |
| Seqs.IncreasingKeysAreUnique | app/models.py:22 | in a sequence with strictly increasing keys, rows with the same key are the same row |
| Seqs.FilterKeepsBound | app/models.py:32-37 | a lower bound on every key of the rows stays a lower bound after filtering |
| Seqs.FilterKeepsIncreasing | app/models.py:32-37 | filtering keeps strictly increasing keys increasing |
| Seqs.Insert | app/api/questions.py:49-50 | inserting adds exactly that row, at the front or after the first row |
| Seqs.InsertSorted | app/api/questions.py:49-50 | inserting into rows sorted by (key, tie-break) keeps them sorted |
| Seqs.SortBy | app/api/questions.py:49-50 | `ORDER BY key, tie-break`: the result is sorted by the key, rows with equal keys by the tie-break, and is a permutation of the input |
| Seqs.SortedThenBySortedBy | app/api/questions.py:49-50 | rows sorted by (key, tie-break) are sorted by the key |
| Seqs.SortedThenByUnique | app/api/questions.py:49-51 | two orderings of the same rows, both sorted by (key, tie-break), are equal when the tie-break tells rows apart: the order is determined |
| Seqs.Window | app/api/questions.py:51 | `LIMIT`/`OFFSET`: at most `limit` rows, starting at `offset`, empty past the end |
| Seqs.WindowIsSlice | app/api/questions.py:51 | the window is the slice between the clamped offset and offset + limit |
| Seqs.PagesAreSlice | app/api/questions.py:51 | n consecutive windows of `limit` rows are one slice of n·limit rows |
| Seqs.PagesFromStartArePrefix | app/api/questions.py:51 | n pages from offset 0 are a prefix of the rows, of length min(n·limit, total) |
| Models.FindQuestion | app/api/questions.py:86-88 | found exactly when a question has the id, and the row found has it |
| Models.FindAnswer | app/api/answers.py:17-18 | found exactly when an answer has the id, and the row found has it |
| Models.OrderedAnswersOf | app/models.py:32-37 | `Question.answers` is exactly the question's answers, each as often as stored, sorted by `Answer.id` |
| Models.NoAnswersOfUnreferenced | app/models.py:32-37 | a question no answer refers to has no answers |
| Models.CascadeKeepsNoOrphans | app/models.py:34 | deleting a question with `delete-orphan` and `ondelete="CASCADE"` leaves no answer without its question |
| Models.DeleteWithoutCascadeOrphans | app/models.py:46-49 | without the cascade, deleting a question would leave an orphan answer |
| Questions.ParseSortBy | app/api/questions.py:25 | only "id" and "created_at" name a sort column |
| Questions.ParseOrder | app/api/questions.py:26 | only "asc" and "desc" name an order |
| Questions.ListQuestions | app/api/questions.py:19-54 | fails with a validation error exactly when `limit` is outside 1..100, `offset` is negative, or `sort_by`/`order` is not allowed; otherwise the total is the number of matching rows, and the items are the window `[offset, offset+limit)` of the matching rows in the requested order of the column, equal values by ascending id |
| Questions.DefaultListRequest | app/api/questions.py:23-27 | a request with every parameter left out (`limit=20`, `offset=0`, `sort_by="id"`, `order="asc"`, no `q`) is valid and succeeds; its total counts every question and its page is the first twenty in ascending id order |
| Questions.ListedPageProperties | app/api/questions.py:45-51 | a listed page holds at most `limit` questions, each stored and containing `q`, in ascending or descending order of the column, questions with equal values by ascending id |
| Questions.TotalCountsMatches | app/api/questions.py:38-41 | the total is the `count(*)` of questions matching the same filter |
| Questions.TotalIgnoresWindow | app/api/questions.py:38-42 | the total does not depend on limit, offset, sort column or order |
| Questions.PageIsWindow | app/api/questions.py:45-51 | a valid request succeeds, and its page is the window of the ordered matches |
| Questions.ListedPagesStep | app/api/questions.py:51 | the first of n listed pages is the window at `offset` of the ordered matches, and the rest start `limit` further on |
| Questions.ListedPagesArePages | app/api/questions.py:51 | the pages read at offset, offset+limit, … are consecutive windows of the one (column, id) ordering |
| Questions.ListedPagesCoverListing | app/api/questions.py:23-51 | with the (column, id) order and no write between requests, paging from offset 0 gives each match exactly once, in order, and all of them once n·limit reaches the total |
| Questions.IdOrderIsCreationOrder | app/api/questions.py:49-50 | with stamps that increase with the id, the page sorted by id is also in creation order |
| Questions.EqualStampsEitherOrder | app/api/questions.py:49-50 | as written, two questions with equal `created_at` may come back in either order |
| Questions.PagingAsWrittenCanRepeat | app/api/questions.py:49-51 | as written, two questions created at the same instant and `limit=1`: the pages at offsets 0 and 1 can both be the second question, and the first is never returned |
| Questions.TieBrokenOrderIsDetermined | app/api/questions.py:49-50 | with unique ids, every ordering of the matches by (column, id) is the listed order |
| Questions.CorrectedIsAllowedAsWritten | app/api/questions.py:49-50 | for every input, the listed (column, id) order is one of the orders the `ORDER BY column` as written may return |
| Questions.AsWrittenOrderIsDeterminedOnKeys | app/api/questions.py:49-50 | when sorting by id, or when no two questions share a `created_at`, every order the code as written may return is the listed order |
| Questions.AsWrittenPageOnKeys | app/api/questions.py:49-51 | under that condition, the page read as written is the listed page |
| Questions.AsWrittenPagingOnKeys | app/api/questions.py:45-51 | under that condition, consecutive pages read as written, each query ordering the rows any way it may, are the listed pages, so `ListedPagesCoverListing` holds for the `ORDER BY` as written |
| Questions.GetQuestion | app/api/questions.py:69-80 | not found exactly when no question has the id; otherwise that question with exactly its answers, in ascending id order |
| Questions.ContainsAsWrittenIsNotSubstring | app/api/questions.py:40 | as written, `q = "_"` matches the text "a", which does not contain "_" |
| Questions.LiteralThenAnyMatchesPrefixes | app/api/questions.py:40 | a literal pattern followed by `%` matches exactly the texts with that prefix |
| Questions.LikeMatchAnyAll | app/api/questions.py:40 | `%` matches every text |
| Questions.AnyThenMatchesSomeSuffix | app/api/questions.py:40 | a leading `%` matches when the rest matches at some suffix |
| Questions.ContainsAsWrittenOnPlainText | app/api/questions.py:39-40 | for a `q` free of `%`, `_` and `\`, the LIKE filter as written is the substring test |
| Questions.EncodeLatin1 | app/api/questions.py:42 | a header name encodes exactly when every character is below U+0100, one byte per character holding its code |
| Questions.HeaderAsWrittenIsNotLatin1 | app/api/questions.py:42 | the header name as written, `X-Общее-Количество`, cannot be encoded |
| Questions.TotalHeaderIsLatin1 | app/api/questions.py:42 | the name `X-Total-Count` encodes |
| Questions.ListHandlerAsWritten | app/api/questions.py:42-54 | as written, an invalid request is rejected before the handler runs; a valid one raises `UnicodeEncodeError` exactly when the header name is not Latin-1 (line 42), and `TypeError` exactly when it is (line 54) |
| Questions.ListQuestionsAsWritten | app/api/questions.py:19-54 | as the client sees it, every valid request ends in an internal error, whichever line raised, and every invalid one in a validation error |
| Questions.ListAsWrittenNeverSucceeds | app/api/questions.py:42-54 | with the header name as written a valid request raises at line 42; with `X-Total-Count` it raises `TypeError` at line 54; either way it is an internal error, while the corrected listing succeeds for it |
| Answers.GetAnswer | app/api/answers.py:15-20 | not found exactly when no answer has the id; otherwise the answer with that id |
| Store.IdsAreKeys | app/models.py:22-45 | in valid tables, the id identifies the question row and the answer row |
| Store.AppendQuestion | app/models.py:22-28 | a row with the next id, normalised text and a stamp not before the clock keeps the question table valid |
| Store.AppendAnswer | app/models.py:45-56 | the same for the answer table, with a UUID user id |
| Store.CreateQuestionStep | app/api/questions.py:62-64 | inserting the new question keeps every table invariant |
| Store.CreatedQuestionIsFound | app/api/questions.py:62-66 | after creation, getting the new id returns the question with no answers |
| Store.DeleteQuestionStep | app/api/questions.py:89-90 | the cascade keeps every invariant; afterwards the question and its answers are not found, and every other row remains |
| Store.AddAnswerStep | app/api/questions.py:107-109 | inserting an answer to an existing question keeps every invariant |
| Store.AddedAnswerIsFound | app/api/questions.py:107-111 | after adding, getting the new answer's id returns it |
| Store.AddedAnswerIsListed | app/api/questions.py:107-111 | after adding, the question's answers include the new answer |
| Store.DeleteAnswerStep | app/api/answers.py:28-29 | deleting one answer keeps every invariant; that answer is not found, and every other row remains |
| Store.QaStore.constructor | app/models.py:17-56 | empty tables, both sequences at 1 |
| Store.QaStore.CreateQuestion | app/api/questions.py:57-66 | a validation error when the text is blank, with nothing changed; otherwise appends and returns the question with the next id, the stripped text and the current time; only that changes |
| Store.QaStore.InsertQuestion | app/api/questions.py:62-66 | on a validated text, appends and returns the question with the next id, that text and the current time; only that changes, and the tables stay valid |
| Store.QaStore.DeleteQuestion | app/api/questions.py:83-91 | not found exactly when the question is missing, with nothing changed; otherwise removes the question and exactly its answers; afterwards neither is found and every other row remains |
| Store.QaStore.AddAnswerToQuestion | app/api/questions.py:103-111 | not found exactly when the question is missing, with nothing changed; otherwise appends and returns the answer with the next id, the question id, `str(user_id)` and the stripped text |
| Store.QaStore.PostAnswer | app/api/questions.py:94-111 | the body is validated before the question is looked up: a bad body is a validation error even for a missing question; either failure changes nothing |
| Store.QaStore.DeleteAnswer | app/api/answers.py:23-30 | not found exactly when the answer is missing, with nothing changed; otherwise removes exactly that answer |

## Left out

- HTTP framing, FastAPI dependency injection, the async session and SQL: each route is one function or method on the tables. The total header is the `total` field of the page; the finding on app/api/questions.py:42 says why its name as written fails.
- Settings loading from the environment and `.env` (pydantic-settings), and `app_name` and the pool settings beyond their values: the settings are a value given to the functions.
- `server_default=func.now()`: there is no real clock. Each insert is stamped `clock + elapsed`, where `elapsed` is a parameter.
- Concurrency and transactions: every route is one atomic step. There are no concurrent sessions.
- `app/db.py`, `app/main.py`, `app/core/logging_config.py` and the Alembic migrations are not part of this model.
- Schemas.ParseUuid: accepts the bare 32-digit and hyphenated forms, not the braced and `urn:uuid:` spellings pydantic also accepts, nor non-string `user_id` values.
- Questions.EncodeLatin1: Starlette lower-cases a header name before encoding it. Lower-casing is not modelled; it leaves ASCII names ASCII and Cyrillic letters outside Latin-1, so neither name changes its outcome.
- The answer's `question_id` is declared `Mapped[str]` (app/models.py:46) but is a foreign key to an integer id. It is an `int` here.
- Questions.ListQuestions: lists in the order `ORDER BY column dir, id`. The code as written has no tie-break, so PostgreSQL may order rows equal in the column differently on each request; the finding below states what that breaks.
- Questions.ListQuestions: takes every parameter explicitly. A parameter the request leaves out gets its declared default (`Questions.DefaultLimit` and the constants beside it), as `Questions.DefaultListRequest` states.
- Questions.ListQuestions: `offset` is an unbounded integer. PostgreSQL takes a `bigint`; a larger offset fails in the driver or the database with an internal error, where the model returns an empty page.
- Models.FindQuestion: ids are unbounded integers. The `id` columns are PostgreSQL `integer` (app/models.py:22,45); a path id above 2^31−1 fails in the driver with an internal error, where the model answers not found. The same holds for `Models.FindAnswer` and every route taking an id.
- Store.QaStore: the id sequences are unbounded. PostgreSQL's `integer` sequence fails once it passes 2^31−1.
- Store.QaStore.CreateQuestion: PostgreSQL `text` cannot hold the character U+0000. A question text containing it passes validation, and the commit (app/api/questions.py:64) then fails with an internal error, where the model stores the text.
- Store.QaStore.AddAnswerToQuestion: the same for an answer text containing U+0000 (app/api/questions.py:109); the model stores it. `Store.QaStore.PostAnswer` inherits this.
- Questions.ListQuestions: a `q` containing U+0000 makes the filter queries (app/api/questions.py:40,47) fail with an internal error, where the model filters by it.
- UrlQuote.Quote: a Python `str` read from the environment can hold lone surrogates (surrogate escapes), on which `quote` raises `UnicodeEncodeError` (app/core/settings.py:74). Dafny's `char` is a Unicode scalar value and has no surrogates, so the model has no such input.
- Questions.ListedPagesCoverListing: holds only when nothing is written between the page requests.
- Store.QaStore.CreateQuestion: its ensures gives the new state. That the new question can then be read back is the separate lemma `Store.CreatedQuestionIsFound`.
- Store.QaStore.AddAnswerToQuestion: it takes the validated body (`Schemas.AnswerCreate`); validating it is `Store.QaStore.PostAnswer`. That the answer can then be read back is `Store.AddedAnswerIsFound` and `Store.AddedAnswerIsListed`.
- Store.QaStore.PostAnswer: its ensures states the new answers table, not the sequences and clock; those are stated by `AddAnswerToQuestion`, which it calls.
- `Questions.Matches` uses the intended substring test; the `LIKE` semantics as written are in the finding below.

## Findings

| source | as written | input that shows it | evidently intended | confidence | as-written member | corrected member |
|---|---|---|---|---|---|---|
| app/api/questions.py:40,47 | `Question.text.contains(q)` without `autoescape=True` becomes `text LIKE '%' \|\| q \|\| '%'`, so `%`, `_` and `\` in `q` act as wildcards | `q = "_"` matches the text "a" | keep the questions whose text contains `q` as a substring | not executed | Questions.ContainsAsWrittenIsNotSubstring | Questions.ListQuestions |
| app/api/questions.py:49-51 | `order_by(asc(col))` or `desc(col)` has no tie-break, so rows with equal `created_at` may come back in any order, a different one on each query, and `LIMIT`/`OFFSET` pages can repeat one row and skip another | two questions with the same `created_at`, `sort_by=created_at`, `limit=1`, offsets 0 and 1 | `ORDER BY created_at, id`: one fixed order, so the pages split the listing | not executed | Questions.PagingAsWrittenCanRepeat | Questions.TieBrokenOrderIsDetermined |
| app/api/questions.py:42 | `response.headers["X-Общее-Количество"]`: Starlette encodes header names as Latin-1, and the Cyrillic letters raise `UnicodeEncodeError`, so the route fails before the listing query runs | any valid request, e.g. `limit=20, offset=0` | a Latin-1 name such as `X-Total-Count` for the total | not executed | Questions.HeaderAsWrittenIsNotLatin1 | Questions.TotalHeaderIsLatin1 |
| app/api/questions.py:54 | `list(result.scalars().all)` passes the method `all`, not its result, to `list`, which raises `TypeError` | any valid request, once the header name at line 42 is fixed, e.g. `limit=20, offset=0` | `list(result.scalars().all())`: return the page | not executed | Questions.ListAsWrittenNeverSucceeds | Questions.ListQuestions |
