# Library reservation backend: catalog, ledger and request logic

This project models the core of a library assistant's backend in Dafny. The core has five parts:

- **The data service.** It holds an in-memory catalog of five book records and an append-only list of reservations. The catalog is a fixed array. Each record has a `copies_available` counter that is decremented in place.
- **POST /api/reserve.** This handler runs an ordered chain of checks: required fields, email shape, book lookup, then the record's `available` flag. It then appends to the ledger, decrements the book's copy count and attempts a confirmation email.
- **GET /api/reserve/:id.** It echoes the id back as a reserved reservation.
- **The chat reply flags.** These are keyword-based reservation intent, student-info completeness and the reply flags derived from them.
- **Catalog formatting and the books query.** The catalog is turned into `|`-separated lines and a search prompt, and GET /api/books chooses between listing the whole catalog and searching it.

Layout, one module per source file plus two helper modules:

- `wrappers.dfy`: `Option`, for JavaScript fields and arguments that may be `undefined`.
- `text.dfy`: `toLowerCase`, `includes`, number-to-string in template literals and `join`. It also holds the reference definitions these are proved against: occurrence at an index, decimal parsing, and `Split`, the inverse of `join` (the code itself never splits).
- `data_service.dfy` (`backend/src/services/dataService.js`): `Book`, `Reservation` and the pure search, lookup and decrement functions. It also holds `class Store`, whose `const catalog: array<Book>` is updated in place and whose `reservations: seq<Reservation>` is appended to. A ghost `effects` trail records the order in which the store was changed.
- `reserve_route.dfy` (`backend/src/routes/reserve.js`): `Screen` is the validation chain written as a function. `Reserve` is the POST handler written as a method over the `Store`, in the same early-return order as the source. Its success path, from the reservation id onward, is the method `Confirm`.
- `chat_route.dfy` (`backend/src/routes/chat.js`), `prompt_templates.dfy` (`backend/src/utils/promptTemplates.js`) and `books_route.dfy` (`backend/src/routes/books.js`) are pure.

The handler's inputs that are not part of the store become parameters:

- `Date.now()` and the three `toISOString()` readings are a `Clock` value.
- The email send succeeds or throws. This is the `emailDelivered` flag.
- In the chat fragment, `message`, `student`, `aiReply` and `department` are parameters.

HTTP statuses appear only as reply variants: `Ok` (200), `BadRequest` (400) and `NotFound` (404).

Two behaviours of the code are modelled as written.

1. The availability check reads `book.available`, but catalog records only carry `copies_available`. Records therefore carry `available: Option<int>`, which is `None` in the catalog, so `undefined <= 0` is false and the "No copies available" branch is never taken. `OnlyAvailableFieldBlocks`, `AcceptanceIgnoresStock` and `LastCopyReservedTwice` state what follows: a record with no copies left is still reserved, and the decrement is then silently refused.
2. The handler ignores the boolean that `decrementCopy` returns. The reply is `success: true` whether or not a copy was taken.

## Model

| member | source | states |
|---|---|---|
| `Text.Lower` | backend/src/services/dataService.js:61 | `toLowerCase` keeps the length and lowers each character in place |
| `Text.Includes` | backend/src/routes/reserve.js:19 | `s.includes(t)` holds iff `t` occurs in `s` at some index |
| `Text.IncludesChar` | backend/src/routes/chat.js:14 | including a one-character string is membership of that character |
| `Text.IncludesThrough` | backend/src/routes/chat.js:4-6 | an occurrence inside an included string is itself included |
| `Text.OccursAtLower` | backend/src/routes/chat.js:6 | lowering a string lowers every occurrence in it at the same index |
| `Text.NatToDecimal` | backend/src/routes/reserve.js:44 | `${n}` for a count or a millisecond clock is a non-empty run of digits with no leading zero |
| `Text.DecimalRoundTrip` | backend/src/routes/reserve.js:44 | reading the rendered digits back gives the number |
| `Text.DecimalInjective` | backend/src/routes/reserve.js:44 | different numbers render to different strings |
| `Text.IntToDecimal` | backend/src/utils/promptTemplates.js:2 | `${copies}` is digits with no leading zero, with a leading `-` exactly for a negative count; the digits read back as the count's magnitude |
| `Text.Join` | backend/src/utils/promptTemplates.js:2 | a join starts with the first part, and a separator follows it when there are more parts |
| `Text.Split` | backend/src/utils/promptTemplates.js:2 | the reference inverse of that `join`: at least one piece, none containing the separator |
| `Text.SplitBeforeLast` | backend/src/utils/promptTemplates.js:2 | a separator followed by a separator-free tail adds exactly that tail as the last piece |
| `Text.SplitJoin` | backend/src/utils/promptTemplates.js:2 | splitting a `join` of separator-free pieces gives back the pieces |
| `Text.JoinSplit` | backend/src/utils/promptTemplates.js:2 | joining the pieces of a split gives back the string |
| `DataService.MockBooksWellFormed` | backend/src/services/dataService.js:5-46 | the initial catalog has non-negative counts, no `available` field and distinct ids |
| `DataService.Filter` | backend/src/services/dataService.js:62-67 | `filter` returns no more elements than it was given, and an element is returned iff it was given and satisfies the predicate |
| `DataService.FilterInOrder` | backend/src/services/dataService.js:62-67 | `filter` returns the satisfying elements at increasing positions, each satisfying position exactly once |
| `DataService.SearchCatalog` | backend/src/services/dataService.js:58-68 | a missing or empty query finds nothing; otherwise a book is found iff it is in the catalog and matches the lowered query |
| `DataService.SearchCatalogInOrder` | backend/src/services/dataService.js:62-67 | a non-empty query returns an order-preserving subsequence of the catalog: exactly the matching books, in catalog order |
| `DataService.SearchIgnoresQueryCase` | backend/src/services/dataService.js:61 | a query and its lowered form find the same books |
| `DataService.Matches` | backend/src/services/dataService.js:62-67 | an id equal to the term matches; an empty term matches exactly the records with a non-empty title, author or category; a record with all four fields empty never matches |
| `DataService.IdMatchesOnlyWhole` | backend/src/services/dataService.js:65 | a record showing only its id is found iff the query equals the whole id up to case |
| `DataService.IdMatchesOnlyWholeInstance` | backend/src/services/dataService.js:65 | `B001` is found by `b001` but not by `B00` |
| `DataService.IndexOfId` | backend/src/services/dataService.js:78 | finds the first position whose id equals the argument exactly, or reports that no record has it |
| `DataService.FindById` | backend/src/services/dataService.js:71-74 | returns the first book with exactly that id, or none iff no book has it |
| `DataService.CanDecrement` | backend/src/services/dataService.js:77-86 | a decrement succeeds iff the first record with the id has a copy left |
| `DataService.DecrementAt` | backend/src/services/dataService.js:80-83 | the found record loses one copy if it has one, and every other record is unchanged |
| `DataService.AfterDecrement` | backend/src/services/dataService.js:77-86 | the catalog keeps its length, and is unchanged iff the decrement is refused |
| `DataService.DecrementLowersByOne` | backend/src/services/dataService.js:77-83 | a successful decrement lowers that record's count by one and leaves every other record and field unchanged |
| `DataService.DecrementRefusedLeavesCatalog` | backend/src/services/dataService.js:77-86 | an unknown id or a count of zero or less leaves the catalog unchanged |
| `DataService.DecrementKeepsInvariants` | backend/src/services/dataService.js:77-86 | decrementing keeps the length, ids, titles, the absence of `available`, and non-negative counts |
| `DataService.DecrementKeepsIndex` | backend/src/services/dataService.js:78-80 | decrementing never moves where an id is found |
| `DataService.RepeatDecrementCounts` | backend/src/services/dataService.js:77-86 | `m` decrements in sequence on a record with `k >= 0` copies succeed `min(k, m)` times and leave `max(0, k - m)` copies; the record's other fields and every other record are unchanged |
| `DataService.RepeatedCallsDecrementAt` | backend/src/services/dataService.js:78-83 | repeated calls with the same id keep finding the same record, and each succeeds iff that record still has a copy |
| `DataService.Store.constructor` | backend/src/services/dataService.js:5-49 | the store starts with the five records and an empty ledger |
| `DataService.Store.ReadBooks` | backend/src/services/dataService.js:52-55 | returns the live catalog array itself, so later decrements show through it |
| `DataService.Store.FindBooksByQuery` | backend/src/services/dataService.js:58-68 | the search over the current catalog, with no change to the store |
| `DataService.Store.GetBookById` | backend/src/services/dataService.js:71-74 | the first record with the exact id, from the current catalog |
| `DataService.Store.DecrementCopy` | backend/src/services/dataService.js:77-86 | returns whether a copy could be taken, updates the catalog accordingly and keeps every count non-negative |
| `DataService.Store.LogReservation` | backend/src/services/dataService.js:89-98 | appends exactly one entry, the input with its timestamp replaced; earlier entries are unchanged; always returns true |
| `DataService.Store.GetReservations` | backend/src/services/dataService.js:101-103 | returns the ledger's current entries |
| `DataService.Store.WriteBooks` | backend/src/services/dataService.js:106-109 | changes nothing and reports success |
| `ReserveRoute.Screen` | backend/src/routes/reserve.js:11-42 | an accepted request has all four fields and names a catalog book with its id |
| `ReserveRoute.ErrorResponse` | backend/src/routes/reserve.js:11-42 | a failed check never gets a success reply, and gets 404 iff the book is unknown |
| `ReserveRoute.ReservationId` | backend/src/routes/reserve.js:44 | the id is `RES-` followed by digits with no leading zero that read back as the clock's milliseconds |
| `ReserveRoute.ReservationFor` | backend/src/routes/reserve.js:47-56 | the ledger entry carries the generated id, the request's book and student fields, the book's title and status `reserved` |
| `ReserveRoute.Confirmation` | backend/src/routes/reserve.js:92-107 | the success reply carries the ledger entry's id, book and student fields, the email outcome and the pickup note |
| `ReserveRoute.Reserve` | backend/src/routes/reserve.js:8-42 | a rejected request gets its error reply and changes nothing; an accepted one gets the confirmation, one ledger entry, then the decrement, and replies `Ok` even if the decrement or the email failed |
| `ReserveRoute.Confirm` | backend/src/routes/reserve.js:44-105 | the success path appends the record (with the logging time) to the ledger before it decrements, and the reply carries the email outcome and the book's details |
| `ReserveRoute.GetReservation` | backend/src/routes/reserve.js:148-157 | echoes any id as `reserved` without consulting the ledger |
| `ReserveRoute.MissingFieldsFirst` | backend/src/routes/reserve.js:11-16 | the missing-fields 400 is returned iff one of the four fields is absent or empty |
| `ReserveRoute.EmailCheckedSecond` | backend/src/routes/reserve.js:19-24 | the email 400 is returned iff the fields are present and the email lacks `@` or `.` |
| `ReserveRoute.UnknownBookThird` | backend/src/routes/reserve.js:26-34 | the 404 is returned iff the first two checks pass and no record has the id |
| `ReserveRoute.OnlyAvailableFieldBlocks` | backend/src/routes/reserve.js:37-42 | the no-copies 400 is returned iff the found record's `available` field is at most 0, so never for catalog records |
| `ReserveRoute.AcceptedMeansChecked` | backend/src/routes/reserve.js:11-42 | an accepted request has all fields, an email with `@` and `.`, and the first record with its id |
| `ReserveRoute.AcceptanceIgnoresStock` | backend/src/routes/reserve.js:37-42 | a decrement never changes whether a request is accepted |
| `ReserveRoute.ZeroCopiesStillAccepted` | backend/src/routes/reserve.js:37-62 | in a catalog without `available` fields, a well-formed request for a known record with no copies is accepted, and its decrement is refused and changes nothing |
| `ReserveRoute.LastCopyReservedTwice` | backend/src/routes/reserve.js:37-62 | two requests in a row for the last copy are both accepted; the second decrement is refused and the count stays at 0 |
| `ReserveRoute.ReservationIdsFollowClock` | backend/src/routes/reserve.js:44 | two reservation ids are equal iff they were taken in the same millisecond |
| `ChatRoute.SomeKeywordIn` | backend/src/routes/chat.js:5-7 | holds iff some keyword of the list occurs in the text |
| `ChatRoute.ShouldReserve` | backend/src/routes/chat.js:5-7 | intent holds iff some keyword occurs in the lowered message; a message containing `reserve` in any case shows intent |
| `ChatRoute.HasCompleteStudentInfo` | backend/src/routes/chat.js:10-14 | holds iff a student is given with non-empty id, name and email, and the email contains `@` |
| `ChatRoute.BuildResponse` | backend/src/routes/chat.js:16-32 | `requiresStudentInfo` negates completeness; `requiresAction` holds iff there is intent and the student info is complete; the action type is a reservation iff there is intent; `student` is present iff one was supplied |
| `ChatRoute.LastKeywordRedundant` | backend/src/routes/chat.js:4 | dropping `'i want to reserve'` from the keyword list never changes the intent test |
| `ChatRoute.ShouldReserveIgnoresCase` | backend/src/routes/chat.js:5-7 | a message and its lowered form show the same intent |
| `ChatRoute.KeywordsAreLowercase` | backend/src/routes/chat.js:4 | every keyword is already lower-case |
| `ChatRoute.KeywordInAnyCaseDetected` | backend/src/routes/chat.js:4-7 | a keyword written in any mix of cases inside the message is detected |
| `ChatRoute.ActionNeedsIntentAndStudent` | backend/src/routes/chat.js:22-25 | `requiresAction` implies intent and complete info; without a student, info is required and there is no action |
| `ChatRoute.ScenarioMessageShowsIntent` | backend/src/routes/chat.js:4-7 | "I want to reserve Programming in C" shows reservation intent |
| `ChatRoute.ReserveWithoutStudentScenario` | backend/src/routes/chat.js:10-26 | that message without a student requires student info and no action |
| `PromptTemplates.BookLine` | backend/src/utils/promptTemplates.js:2 | a line starts with the book's id and ends with its location |
| `PromptTemplates.BookLines` | backend/src/utils/promptTemplates.js:2 | one line per book, in catalog order |
| `PromptTemplates.BooksSnippet` | backend/src/utils/promptTemplates.js:1-3 | the snippet of an empty list is the empty string |
| `PromptTemplates.BookLineColumns` | backend/src/utils/promptTemplates.js:2 | a line has exactly five `\|` columns: id, title, author, `copies:<count>`, location |
| `PromptTemplates.BookLineNewlineFree` | backend/src/utils/promptTemplates.js:2 | a line built from newline-free fields has no newline |
| `PromptTemplates.SnippetLines` | backend/src/utils/promptTemplates.js:2 | for n ≥ 1 books with newline-free fields, the snippet splits into exactly the n lines, in catalog order |
| `PromptTemplates.BuildPromptForSearch` | backend/src/utils/promptTemplates.js:5-7 | the prompt starts with `User: ` and the message verbatim, then `Available books:`, then the snippet verbatim, then the fixed instructions |
| `PromptTemplates.PromptDeterminesParts` | backend/src/utils/promptTemplates.js:6 | knowing the message's length, the prompt determines both the message and the snippet |
| `BooksRoute.ListBooks` | backend/src/routes/books.js:7-13 | an empty or missing query lists the catalog; otherwise a book is listed iff it is in the catalog and matches the lowered query |
| `BooksRoute.GetBooks` | backend/src/routes/books.js:5-18 | the reply is the listing of the current catalog, and the store is not modified |
| `BooksRoute.EmptyQueryListsAll` | backend/src/routes/books.js:7-10 | a missing or empty `q` returns the whole catalog, unchanged and in order |
| `BooksRoute.QueryListsMatches` | backend/src/routes/books.js:12-13 | a non-empty `q` returns exactly the search result, an order-preserving subsequence of the catalog |

## Left out

- Concurrency: Node can interleave other requests between the `await`s of the reserve handler. Each request is modelled as one sequential step. The code has no locking to model.
- The email service (a SendGrid call with a message template) is an action that succeeds or throws, given by `emailDelivered`. Its template reads `bookData.title` while the handler passes `bookTitle`. `backend/src/services/emailService.js` is not part of this model.
- Logging is omitted: the `console.log`/`console.warn` calls and the "n8n" log, which is only a console message.
- The GET /api/reserve route returns a fixed help message and is not modelled.
- The 500 replies of the handlers are not modelled. They are reached only when a request field is not a string, for example `includes` on a number. The model types every field as an optional string.
- The language-model clients, the Express server scaffolding and the Google Sheets check are not part of this model.
- DataService.Store.FindBooksByQuery and DataService.Store.GetBookById: return `Book` values. The source returns the live record objects, so a later `decrementCopy` shows through them and a caller could change the catalog through them; that aliasing is not modelled. The reserve handler reads only the title, author and location of the found record, which a decrement does not change.
- DataService.Store.GetReservations: returns the ledger as a value. The source returns the live `mockReservations` array, so a caller that mutates it would change the ledger; that aliasing is not modelled.
- Text.Lower: lowers only the ASCII letters A-Z. `toLowerCase` also lowers other Unicode letters, and for some characters it changes the length of the string.
- Text.IntToDecimal: renders every integer in plain decimal. JavaScript switches to exponent notation at 1e21, far beyond any copy count or millisecond clock.
- ChatRoute.BuildResponse: models `hasCompleteStudentInfo` by its truthiness, as a boolean. In the source, `requiresAction` can carry the falsy value itself (`undefined`, `null` or `""`) instead of `false`.
- ChatRoute.Student: holds only `studentId`, `name` and `email`. The reply copies whatever `student` object was sent.
