# Book catalog core: listing filter and creation gate

A Dafny model of the two pieces of logic in the `book_library` Rails service:

- **`BooksIndexQuery`** (module `BooksIndex`). It lists books filtered by the request
  parameters `title`, `author` and `genre`. An empty parameter map returns the whole
  collection. Otherwise the collection is narrowed by exact equality on title, then
  author, then genre. Each step runs only when its parameter is present, meaning not
  `nil` and not blank. `ExecuteQuery` is a method that rebinds a local collection in
  three conditional steps. It is proved equal to `Selected`, a reference filter over
  the logical AND of the present criteria.
- **`CreateBookForm`** (module `CreateBook`). It runs five rules on a candidate book:
  presence and minimum length 2 for title, genre and author; publication year at most
  the current year; and no stored book with the same title, publication year and
  author. Every rule runs. The errors are filed in order into one list, and that list
  is grouped by attribute into the report (`errors.messages`). `Persist` stores the
  row only when nothing was filed.

Supporting modules:
- `Books` holds the `Book` row, the uniqueness invariant `NoDuplicates`, and a
  `Repository` class. The class stands for the `books` table: a sequence of rows and
  the next id.
- `RubyText` holds Ruby's `blank?`/`present?` (empty or only Unicode white space, with
  `nil` blank) and `Integer#to_s`.
- `Wrappers` holds `Option`, with `None` standing for `nil`.

Inputs the source takes from the environment are explicit parameters here:
- The current year is a `currentYear` argument. The source reads `Date.today.year`
  once, when the class is loaded.
- The book collection is a `seq<Book>` argument or the `Repository` object.

Facts about the code that the model keeps as written:
- The uniqueness message is spelled as the code spells it: "already been recomended before."
- The length rule runs on every text field, whatever the presence rule found. So
  `{title: "A", author: "B", genre: "C"}` with next year's date gets four messages: "is
  too short (minimum is 2 characters)" under each of title, genre and author
  (`OneCharFieldMessages`), and the range message under publication_year
  (`LateYearMessage`). With the value `MyString` in each text field, next year's date
  gives the range message alone (`NextYearScenario`).
- Report keys are not in declaration order. They come in the order each attribute got
  its first error. The presence rule runs for all three text fields before the length
  rule does. So a too-short title with a blank genre puts `genre` before `title`
  (`GroupKeyOrder` for every error list, `KeysFollowFilingOrder` for this case).
- A `nil` title, genre or author counts as length 0, so it gets the too-short message
  as well as the blank one. This matches Rails' length validator with `minimum`.

## Model

| member | source | states |
|---|---|---|
| `BooksIndex.Where` | app/queries/books_index_query.rb:17-19 | `where(field: v)` keeps exactly the rows of the collection whose column equals `v`, each as many times as it occurs there (as multisets), and drops every other row; it never has more rows than the collection |
| `BooksIndex.BooksIndexQuery.constructor` | app/queries/books_index_query.rb:4-6 | `initialize` stores the parameter map |
| `BooksIndex.BooksIndexQuery.Call` | app/queries/books_index_query.rb:8-12 | an empty map returns the collection itself; for any map the result is exactly the books matching every present criterion |
| `BooksIndex.BooksIndexQuery.ExecuteQuery` | app/queries/books_index_query.rb:16-22 | the three conditional narrowings, in order title, author, genre, leave exactly the reference selection `Selected` |
| `BooksIndex.Index` | app/queries/base_query.rb:4-6 | `BaseQuery.call` (new, then call) lists exactly the matching books of the whole collection |
| `BooksIndex.NarrowedByNothing` | app/queries/books_index_query.rb:16 | before any narrowing step the collection is unchanged |
| `BooksIndex.NarrowStep` | app/queries/books_index_query.rb:17-19 | one conditional `where` step adds that field's criterion to those already applied, and a blank criterion adds no step |
| `BooksIndex.NarrowedByAllFields` | app/queries/books_index_query.rb:17-19 | after the title, author and genre steps the result is the AND of all present criteria |
| `BooksIndex.SelectedMembership` | app/queries/books_index_query.rb:17-19 | a book is returned if and only if it is in the collection and satisfies every present criterion: nothing dropped, nothing added |
| `BooksIndex.SelectedNarrows` | app/queries/books_index_query.rb:16-21 | the query only narrows: the result is a sub-multiset of the collection and no longer than it |
| `BooksIndex.PresentCriterionHolds` | app/queries/books_index_query.rb:17-19 | when a criterion is present, every returned book carries exactly that value |
| `BooksIndex.SelectedNoCriteria` | app/queries/books_index_query.rb:9 | an empty parameter map selects the whole collection |
| `BooksIndex.SelectedAllBlank` | app/queries/books_index_query.rb:17-19 | a non-empty map whose title, author and genre are all blank or missing returns the whole collection, the same as the empty map |
| `BooksIndex.BlankCriterionIgnored` | app/queries/books_index_query.rb:17-19 | a blank value for a field selects the same books as leaving the parameter out; it never means "equals the blank string" |
| `BooksIndex.OtherKeysIgnored` | app/queries/books_index_query.rb:16-21 | parameters other than title, author and genre do not change the result |
| `BooksIndex.NoMatchIsEmpty` | spec/requests/api/books_spec.rb:88-97 | criteria that no book meets give an empty list, not an error |
| `BooksIndex.SingleCriterionFindsUniqueBook` | spec/requests/api/books_spec.rb:37-86 | a single present criterion returns exactly the one book carrying that value when all other books carry another |
| `RubyText.NatToString` | app/forms/create_book_form.rb:10 | the decimal digits of the bound named in the range message: non-empty, digits only, no leading zero |
| `RubyText.NatToStringRoundTrip` | app/forms/create_book_form.rb:10 | reading the rendered digits back gives the number |
| `RubyText.IntToStringInjective` | app/forms/create_book_form.rb:10 | different years render differently, so the range message names its bound unambiguously |
| `Books.Repository.constructor` | db/migrate/20230921012004_create_books.rb:5-12 | an empty table whose ids start at 1 |
| `Books.Repository.Create` | app/forms/create_book_form.rb:16 | `Book.create` appends exactly one row with the given columns and a fresh id; existing rows are unchanged |
| `CreateBook.CreateBookForm.constructor` | app/forms/create_book_form.rb:4-6 | the form holds the four assigned attributes and no errors |
| `CreateBook.CreateBookForm.IsValid` | app/forms/create_book_form.rb:8-11 | `valid?` leaves in `errors` the errors of every rule, in order, and is true exactly when the report is empty |
| `CreateBook.CreateBookForm.Persist` | app/forms/create_book_form.rb:13-17 | with a non-empty report: no row and no change to the table; otherwise exactly one new row with the form's four values and the next id, after which the same values are taken; the table stays free of duplicates |
| `CreateBook.CreateTwice` | spec/requests/api/books_spec.rb:173-185 | on any table: when the first of two identical creations stores its row, the second stores nothing, and its report is the uniqueness message alone; a table free of duplicates stays so |
| `CreateBook.PresenceErrors` | app/forms/create_book_form.rb:8 | the presence rule files at most three errors, and none exactly when title, genre and author are all present; `PresenceMessages` gives the message under each attribute |
| `CreateBook.LengthErrors` | app/forms/create_book_form.rb:9 | the length rule files at most three errors, and none exactly when title, genre and author all have at least 2 characters (`nil` counting as 0); `LengthMessages` gives the message under each attribute |
| `CreateBook.ComparisonErrors` | app/forms/create_book_form.rb:10 | the comparison rule files at most one error, always under publication_year; none exactly when the year is given and not after the current year; "can't be blank" when it is missing |
| `CreateBook.Taken` | app/forms/create_book_form.rb:22 | a stored duplicate can only be found for a candidate whose title, author and year are all given |
| `CreateBook.UniquenessErrors` | app/forms/create_book_form.rb:21-25 | the uniqueness check files at most one error, under `uniqueness`, and one exactly when a stored row has the same title, year and author (`DuplicateMessage` gives its text) |
| `CreateBook.Validate` | app/forms/create_book_form.rb:8-11 | a candidate that passes every rule has all four values and no stored row duplicates it (`ValidIffNoViolation` gives both directions per rule) |
| `CreateBook.Group` | app/forms/create_book_form.rb:24 | `errors.messages` is empty exactly when no error was filed (`GroupLookup` and `GroupWellFormed` give each entry, `GroupKeyOrder` their order) |
| `CreateBook.Report` | app/forms/create_book_form.rb:8-11 | the report of a validation is empty exactly when no rule filed an error (`ReportMessages` and `ReportKeys` give each entry) |
| `CreateBook.GroupLookup` | app/forms/create_book_form.rb:24 | the report lists under each attribute exactly the messages filed under it, in filing order |
| `CreateBook.GroupWellFormed` | app/forms/create_book_form.rb:24 | the report lists each attribute once, non-empty, and only if an error was filed under it |
| `CreateBook.GroupKeyOrder` | app/forms/create_book_form.rb:24 | for every error list, the report's keys come in the order their attributes first got an error: an earlier key was filed strictly earlier |
| `CreateBook.PresenceMessages` | app/forms/create_book_form.rb:8 | the presence rule files "can't be blank" under a text attribute exactly when its value is blank or nil |
| `CreateBook.LengthMessages` | app/forms/create_book_form.rb:9 | the length rule files the too-short message under a text attribute exactly when it has fewer than 2 characters |
| `CreateBook.ComparisonMessages` | app/forms/create_book_form.rb:10 | the comparison rule files only under publication_year: blank when missing, the range message when after the current year |
| `CreateBook.UniquenessMessages` | app/forms/create_book_form.rb:21-25 | the uniqueness rule files its message only under `uniqueness`, and only when a stored row has the same title, year and author |
| `CreateBook.ValidateMessages` | app/forms/create_book_form.rb:8-11 | each attribute's messages are those of the presence, length, comparison and uniqueness rules, in that order |
| `CreateBook.ReportMessages` | app/forms/create_book_form.rb:8-11 | each attribute's entry in the report is exactly what its own rules say, whatever the other fields hold |
| `CreateBook.ReportKeys` | app/forms/create_book_form.rb:8-11 | no short-circuit: the report has an entry for every attribute with a failing rule, and for no other |
| `CreateBook.ValidIffNoViolation` | app/forms/create_book_form.rb:8-14 | the report is empty if and only if no rule fails |
| `CreateBook.EmptyFieldMessages` | app/forms/create_book_form.rb:8-9 | an empty or missing title, genre or author gets exactly "can't be blank" then "is too short (minimum is 2 characters)" |
| `CreateBook.OneCharFieldMessages` | app/forms/create_book_form.rb:8-9 | a one-character value that is not white space gets only the too-short message |
| `CreateBook.LateYearMessage` | app/forms/create_book_form.rb:10 | a year after the current one gets exactly one message, "must be less than or equal to " followed by the current year |
| `CreateBook.MissingYearMessage` | app/forms/create_book_form.rb:10 | a missing year gets only "can't be blank" and no range message |
| `CreateBook.DuplicateMessage` | app/forms/create_book_form.rb:21-25 | a stored row with the same title, author and year, whatever its genre, files "`<title>` already been recomended before." under `uniqueness`; otherwise nothing is filed there |
| `CreateBook.InsertKeepsNoDuplicates` | app/forms/create_book_form.rb:13-17 | storing a validated candidate keeps the table free of two rows with the same title, author and year |
| `CreateBook.SecondAttemptRejected` | app/forms/create_book_form.rb:13-25 | once a validated candidate is stored, the same candidate's report is exactly the uniqueness message |
| `CreateBook.KeysFollowFilingOrder` | app/forms/create_book_form.rb:8-9 | with a one-letter title and an empty genre, the report lists genre (blank, too short) before title (too short) |
| `CreateBook.NextYearScenario` | spec/requests/api/books_spec.rb:153-161 | the default values with next year's date give only `publication_year: ["must be less than or equal to 2023"]` when the current year is 2023 |

## Left out

- HTTP layer: routing, `params.permit`, the `{ json: { books: ... } }` wrapping, JSON
  rendering and the 200/422 status mapping are not modelled. The controller passes
  only title, genre and author to the query.
- The controller's `create` action saves through the `Book` model, not through
  `CreateBookForm`. The `Book` model's own validations are not part of this model.
  The form's rules are modelled as written.
- `BooksIndexQuery.Call`: the keyword override `call(query:, collection:)` is not
  modelled. `Call` always uses the stored parameter map, and the collection is an
  argument.
- Persistence engine: the SQL translation of `where`, `any?` and `create` is replaced
  by in-memory sequences. Storage failures are not modelled, so `Book.create` always
  succeeds.
- Column types: the schema stores `publication_year` as a string. The model uses an
  optional integer. The comparison validator's error for a value it cannot compare
  (a string against an integer) is not modelled.
- Parameter values that are not strings (arrays, hashes) are not modelled. Each
  criterion is a string or missing.
- The clock: `Date.today.year` is the `currentYear` parameter.
- Concurrency: the check-then-insert in `persist` is not atomic. Two simultaneous
  requests could both pass the uniqueness check. Only sequential behaviour is modelled.
- Messages are Rails' default English texts. Locale lookup is not modelled.
- `CreateBook.CreateBookForm.Messages`: models one read of `errors.messages`. The
  uniqueness error is filed under `:uniqueness`, which is no attribute of the form.
  When Rails builds that error's message for `errors.messages`, it reads that attribute
  with `read_attribute_for_validation`. That calls the private `uniqueness` method again
  and can file the error a second time. That second filing is not modelled.
- `CreateBook.DuplicateMessage`: the title is taken literally. A title holding I18n
  interpolation sequences is not modelled. Rails passes the uniqueness message through
  `I18n.translate` as its default text. The keys Rails supplies, such as `%{model}`,
  `%{attribute}` and `%{value}`, are substituted, `%%` becomes `%`, and any other `%{...}` raises
  `I18n::MissingInterpolationArgument`. The same applies to the `uniqueness` entry of
  `CreateBook.ReportMessages`.
