# Book catalog service — a Dafny model

This project models the service layer of a small book-catalog back end
(`BookService`). That layer does five things:

- It creates a book. The request's fields are checked in a fixed order.
  The book then gets a human-readable sequence id (`B-001`, `B-002`, …) that
  no stored book holds yet, and is saved.
- It deletes a book by its store id.
- It lists the stored books.
- It looks a book up by its store id.
- It attaches an uploaded photo to a book, by recording a URL for it.

The document store is modelled as a map from store id to book. The
process-wide sequence counter is explicit state held beside it
(`BookService.Service`). The operations that change the store (create, delete
and photo upload) take the state and return the new state with their result.
Lookup and listing only read it. Thrown exceptions become values of an error datatype.

Decisions made by collaborators the model cannot see are parameters:

- the key the store assigns when it inserts a new book;
- whether a save, a delete or a file write succeeds;
- the random token that prefixes an uploaded file's name.

Modules, leaf first:

- `Wrappers` (`wrappers.dfy`): `Option`, `Result` and `Outcome`.
- `Books` (`books.dfy`): the creation request (`BookDraft`) and the stored `Book`.
- `Digits` (`digits.dfy`): decimal digits and the decimal notation that `%d` writes.
- `UniqueIds` (`unique_ids.dfy`): the `B-%03d` id format, its inverse, and injectivity.
- `Validation` (`validation.dfy`): the six creation checks. They are stated twice:
  once as the code's chain of checks, and once as an ordered rule list read
  declaratively. Lemmas prove the two readings agree.
- `IdGenerator` (`id_generator.dfy`): the retry loop that picks the next free id.
- `BookService` (`book_service.dfy`): the operations, the store invariant `Valid`,
  and the frame and invariant lemmas.

Four details of the code that the model reproduces:

- The ISBN check accepts only ASCII digits. Java's `\d` means `[0-9]` unless a
  Unicode flag is given.
- A failed save during creation happens after the id generator has already
  advanced the counter. The counter therefore stays advanced even though the
  store is unchanged.
- Photo upload turns only I/O failures (directory creation and file write)
  into the upload error. A failed save of the updated book is a different
  failure, here `PersistenceFailed`. In both cases the store is unchanged.
- Java renders a null original file name as the text `null` when it
  concatenates strings. The photo file name therefore ends in `_null` in that
  case (`BookService.Rendered`).

## Model

| member | source | states |
|---|---|---|
| `Digits.DecimalShape` | src/main/java/com/bibin/bookmanagement/service/BookService.java:84 | the `%d` notation of a natural is a non-empty digit string; it starts with `0` only for zero and has one digit exactly below ten |
| `Digits.ValueOfDecimal` | src/main/java/com/bibin/bookmanagement/service/BookService.java:84 | reading the notation of `n` back as a number gives `n` |
| `Digits.DecimalOfValue` | src/main/java/com/bibin/bookmanagement/service/BookService.java:84 | every digit string without a surplus leading zero is the notation of the number it denotes |
| `Digits.ValueLeadingZeros` | src/main/java/com/bibin/bookmanagement/service/BookService.java:84 | zero padding leaves the denoted number unchanged |
| `Digits.DecimalLength` | src/main/java/com/bibin/bookmanagement/service/BookService.java:84 | the notation of `n` has at most `k` digits exactly when `n < 10^k` |
| `UniqueIds.ZeroPadShape` | src/main/java/com/bibin/bookmanagement/service/BookService.java:84 | `%03d` padding puts only zeros before the notation and reaches at least width 3 |
| `UniqueIds.ParseFormatId` | src/main/java/com/bibin/bookmanagement/service/BookService.java:84 | parsing the id formatted from counter value `n` gives back `n` |
| `UniqueIds.FormatIdInjective` | src/main/java/com/bibin/bookmanagement/service/BookService.java:84 | two counter values give the same id exactly when they are equal |
| `UniqueIds.FormatIdShape` | src/main/java/com/bibin/bookmanagement/service/BookService.java:84 | every id is `B-` followed by at least three digits with no surplus leading zero; it has exactly three digits exactly when the counter is below 1000 |
| `UniqueIds.PadOfValue` | src/main/java/com/bibin/bookmanagement/service/BookService.java:84 | zero-padding the notation of a digit string's value to width `w` gives back that string, when it has the padded shape |
| `UniqueIds.FormatParseId` | src/main/java/com/bibin/bookmanagement/service/BookService.java:84 | every string of the id shape is the formatted id of the number it parses to, so format and parse are inverse |
| `UniqueIds.CandidatesBound` | src/main/java/com/bibin/bookmanagement/service/BookService.java:83-85 | a finite set of ids can hold the ids of at most as many counter values as it has elements, which is why the retry loop ends |
| `UniqueIds.FirstIds` | src/main/java/com/bibin/bookmanagement/service/BookService.java:84 | counter values 1, 2 and 3 format as `B-001`, `B-002` and `B-003` |
| `IdGenerator.CreateUniqueId` | src/main/java/com/bibin/bookmanagement/service/BookService.java:81-87 | the loop ends. It returns the id of some counter value `n` at or above the old counter, and that id is not in the store. Every id it skipped is in the store. The counter ends at `n + 1` |
| `Validation.MatchesDigitRun` | src/main/java/com/bibin/bookmanagement/service/BookService.java:46 | a whole-string match of `\d+` holds exactly for non-empty strings of ASCII digits |
| `Validation.FirstFailureReportsFirstViolation` | src/main/java/com/bibin/bookmanagement/service/BookService.java:31-60 | walking an ordered rule list reports the error of the first rule the draft violates |
| `Validation.FirstFailureHasWitness` | src/main/java/com/bibin/bookmanagement/service/BookService.java:31-60 | every error the rule walk reports belongs to the first violated rule |
| `Validation.FirstFailurePassesIffAllHold` | src/main/java/com/bibin/bookmanagement/service/BookService.java:31-60 | the rule walk passes exactly when every rule holds |
| `Validation.ValidateFollowsCheckOrder` | src/main/java/com/bibin/bookmanagement/service/BookService.java:31-60 | the chain of checks equals the rule walk over title, author, date, ISBN, genre, rating, in that order |
| `Validation.ValidatePassesIffAllRulesHold` | src/main/java/com/bibin/bookmanagement/service/BookService.java:31-60 | validation passes exactly when all six rules hold |
| `Validation.ValidateReportsFirstViolation` | src/main/java/com/bibin/bookmanagement/service/BookService.java:31-60 | validation fails with an error exactly when that error belongs to the first violated rule in check order |
| `Validation.OnlyEarliestViolationReported` | src/main/java/com/bibin/bookmanagement/service/BookService.java:31-60 | when several rules are broken, no later rule's error is reported |
| `Validation.SingleViolationReported` | src/main/java/com/bibin/bookmanagement/service/BookService.java:31-60 | a draft breaking exactly one rule gets that rule's error |
| `Validation.PassingDraftIsComplete` | src/main/java/com/bibin/bookmanagement/service/BookService.java:31-60 | a passing draft has title, author, date, ISBN and genre present and a rating in 1..5 |
| `Validation.IsbnAcceptedIff` | src/main/java/com/bibin/bookmanagement/service/BookService.java:46 | the ISBN is accepted exactly when present, 13 characters long and all `0`..`9` |
| `Validation.RangesAcceptedIff` | src/main/java/com/bibin/bookmanagement/service/BookService.java:31-60 | title accepted iff present with length 1..100, author iff present with length 1..50, rating iff in 1..5; validation reports the title error exactly when the title is out of range, the author error exactly when the title is in range and the author is not, and the rating error exactly when every other check passes and the rating is outside 1..5 |
| `Validation.GenreAcceptedIff` | src/main/java/com/bibin/bookmanagement/service/BookService.java:51-53 | the genre is accepted exactly when it is one of the seven listed names |
| `Validation.GenreIsCaseSensitive` | src/main/java/com/bibin/bookmanagement/service/BookService.java:51-53 | the genre comparison is exact: `fiction`, `Sci-fi` and `OTHERS` are rejected, `Sci-Fi` is accepted |
| `Validation.DunePasses` | src/main/java/com/bibin/bookmanagement/service/BookService.java:29-60 | a complete draft (Dune, Herbert, 13-digit ISBN, Sci-Fi, rating 5, dated) passes every check |
| `Validation.ShortIsbnRejected` | src/main/java/com/bibin/bookmanagement/service/BookService.java:46-47 | the same draft with ISBN `12345` fails with the ISBN error |
| `Validation.RatingSixRejected` | src/main/java/com/bibin/bookmanagement/service/BookService.java:58-59 | the same draft with rating 6 fails with the rating error |
| `BookService.InitialValid` | src/main/java/com/bibin/bookmanagement/service/BookService.java:26 | a fresh process (counter 1) over an empty store satisfies the store invariant |
| `BookService.NewBook` | src/main/java/com/bibin/bookmanagement/service/BookService.java:63-70 | the assembled record carries the draft's six fields, the given uniqueId and store key, and no photo URL |
| `BookService.SavePreservesValid` | src/main/java/com/bibin/bookmanagement/service/BookService.java:70-73 | saving a passing book whose uniqueId is not taken keeps every uniqueId in the store distinct |
| `BookService.CreateBook` | src/main/java/com/bibin/bookmanagement/service/BookService.java:29-77 | on a validation failure the store and the counter are unchanged and the first failing rule's error is returned. Otherwise the counter advances past a fresh id and every skipped id is taken. A failed save leaves the store unchanged. A successful save adds exactly that record, with the draft's fields, the fresh id and no photo; other records are untouched and the invariant holds |
| `BookService.FindBookById` | src/main/java/com/bibin/bookmanagement/service/BookService.java:108-112 | lookup succeeds exactly for stored ids and returns that book; otherwise it returns not-found for that id |
| `BookService.DeleteBookWithId` | src/main/java/com/bibin/bookmanagement/service/BookService.java:90-100 | an absent id gives not-found and a refused delete gives a deletion error, both with the state unchanged. A successful delete removes exactly that key and leaves every other entry and the counter as they were |
| `BookService.BookList` | src/main/java/com/bibin/bookmanagement/service/BookService.java:103-105 | the list matches the store's keys one to one: the returned ghost `keys` are distinct stored keys covering every key, and the list's entries are their books in order. So every stored book appears once, nothing else does, and in a valid store no two entries share an id |
| `BookService.UploadPhoto` | src/main/java/com/bibin/bookmanagement/service/BookService.java:115-150 | a missing book gives not-found and a failed write or save gives an error, all with the state unchanged. On success the result is `/uploads/photos/` + token + `_` + file name, that book's `photoUrl` becomes exactly this URL, and every other field and book is unchanged |
| `BookService.DeletePreservesValid` | src/main/java/com/bibin/bookmanagement/service/BookService.java:90-100 | deletion keeps the store invariant; after it, lookup of the id is not-found and no stored book has that id |
| `BookService.UploadPreservesValid` | src/main/java/com/bibin/bookmanagement/service/BookService.java:138-141 | attaching a photo keeps the store invariant |
| `BookService.SecondUploadOverwrites` | src/main/java/com/bibin/bookmanagement/service/BookService.java:138-141 | after two uploads the book's `photoUrl` is the second URL; the first is replaced, not appended to |
| `BookService.DistinctTokensGiveDistinctUrls` | src/main/java/com/bibin/bookmanagement/service/BookService.java:132-139 | for the same original file name, two uploads get the same URL exactly when their tokens are equal |
| `BookService.FirstBookOnEmptyStore` | src/main/java/com/bibin/bookmanagement/service/BookService.java:81-86 | on an empty store with the counter at 1, a passing draft is stored as the only book with uniqueId `FormatId(1)` (`B-001`), and the counter ends at 2 |
| `BookService.CreateAfterRestart` | src/main/java/com/bibin/bookmanagement/service/BookService.java:81-86 | with the counter back at 1 and a store that already holds `B-001` and `B-002`, the new book gets `FormatId(3)` (`B-003`) and the counter ends at 4 |

## Left out

- HTTP routing, status codes and the response envelope (`BookApi.java`) are thin glue around the service calls.
- CORS configuration (`GlobalCorsConfig.java`) has no logic.
- The Spring Data repository interface and MongoDB are not modelled. The store is a map from store id to book. `existsByUniqueId` is membership in `TakenIds`.
- The store's id generation is not modelled. The key of an inserted book is a parameter. Save is an upsert on that key. The store promises the key is fresh, so "adds exactly one record" is stated only for a fresh key.
- Store-side save and delete failures are boolean parameters. Their exception texts are not modelled.
- Store reads are assumed to succeed: `existsByUniqueId`, `findById` and `findAll` never fail in the model. In the code, a failing `existsByUniqueId` inside the id loop propagates out of `createBook` unwrapped, after `counter++` has already run for every candidate tried. The counter is then left advanced and the store unchanged, an effect the model does not reproduce.
- The photo upload directory, its existence check and creation, and `file.transferTo` are not modelled. A boolean `writeOk` stands for whether all of them succeed. The hard-coded Windows path is not modelled.
- `UUID.randomUUID()` is not modelled. The token is a parameter.
- A request that tries to escape the upload directory through its file name is not modelled, because the model has no filesystem.
- Races between concurrent creations on the static counter are not modelled. The model is sequential.
- `IdGenerator.CreateUniqueId`: the counter is a `nat`, so Java's 32-bit `int` wrap-around after 2147483647 is not modelled.
- `Validation.RangesAcceptedIff`: string lengths count Unicode scalar values, not the UTF-16 code units that Java's `String.length()` counts. The two differ only for characters outside the Basic Multilingual Plane.
- `UniqueIds.FormatIdShape`: `String.format` uses the default locale. The model assumes a locale whose digits are ASCII `0`..`9`.
- `BookCreateDto` and `Book` are not part of this model. Their field types are inferred from their use. The rating is taken to be a plain `int`, so a null boxed rating is not modelled. The publication date is a plain year/month/day record that no operation inspects.
- Exact exception message strings are not modelled. An error datatype is used instead.
